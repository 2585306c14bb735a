# MDFS decoders in Dafny

This project models the binary decoders for MICAPS MDFS files: the station
decoders of `mdfs.py` (`Station.__init__`) and `read_mdfs.py`
(`MDFS_Station.__init__`), and the grid decoder of `mdfs.py` (`Grid.__init__`).
Each decoder reads a byte string through a cursor (`self._buf`, `f`). It
checks the 4-byte magic `mdfs` and walks a fixed header. Then it reads:

- for stations: the declared-quantity pairs and `station_num` records, each
  an identification and a list of `(int16 var_id, value)` entries whose
  width comes from the type-tag tables `corr_dtype` / `corr_size`;
- for grids: one or two blocks of `lat_number * lon_number` float32 words,
  reshaped row-major.

The model is written in two layers.

- Specification functions (`StationSpec`, `LegacySpec`, `GridSpec` and the
  functions they call) state each decode in the order the Python code
  performs it. They return a `Result` whose error is the exception the
  Python code raises.
- Methods over the `Cursor` class (`DecodeStation`, `DecodeLegacyStation`,
  `DecodeGrid` and their helpers) perform the decode with loops. Each is
  proved equal to its specification function.

Lemmas then state what the decoders promise, against an independent
description of the file: the records read without storing anything
(`Layout.RecordAt`, `Runs.ScanFile`).

- `mdfs.py` pre-sizes one `[None] * station_num` column per declared odd
  variable and writes values by row. `StationDecoded` and `FilledColumns`
  show that the table is the records written row by row. The decode fails
  exactly when a record cannot be read or stores an undeclared odd variable.
- `read_mdfs.py` creates lists on first use and appends, keeping
  quality-control values. `LegacyDecoded`, `LegacyIdentColumns` and
  `LegacyVarColumn` show that the lists are what the records append, in
  file order, with no padding.
- For grids, `ScalarCell` and `VectorCell` give the cell layout.
  `DirectionTurns` and `DirectionRange` give the range and congruence of the
  corrected direction.

Modules:
- `Common`: bytes, results, keys and values.
- `LittleEndian`: two's-complement decoding and its round trips.
- `ByteCursor`: reads and the cursor class.
- `Layout`: type tags, entries and records.
- `StationHeader`: the header and the declared pairs.
- `PyDict`: `dict(list)` semantics.
- `Columns`: `create_dict` and item assignment.
- `Station`, `StationFacts`: the `mdfs.py` station decoder.
- `LegacyStation`, `LegacyFacts`: the `read_mdfs.py` station decoder.
- `Runs`: the record loop abstracted over its step.
- `GridDecoder`: the grid decoder.

The variable catalogue (`id_dtype` in `mdfs.py`, `var_table` in
`read_mdfs.py`) is a parameter `catalog: map<int, int>`. The float32 decoding
of the angle words is a parameter `f32`. The input is the bytes of an
uncompressed file, read through an `io.BytesIO` over them.

## Model

| member | source | states |
|---|---|---|
| ByteCursor.Take | mdfs.py:45-49 | `read(n)` as `struct.unpack` consumes it: succeeds exactly when n bytes remain, yields `buf[pos..pos+n]` and advances by n; a negative n reads to the end of the file, as on an `io.BytesIO`; a short read is `Truncated` |
| ByteCursor.IntAt | mdfs.py:45 | an int16/int32 field succeeds exactly when its bytes remain and is the signed little-endian value of those bytes |
| ByteCursor.StripNul | mdfs.py:46 | `.replace('\x00', '')`: the result has no NUL byte and is no longer than the field |
| ByteCursor.StripNulKeeps | mdfs.py:46 | every non-NUL byte is kept with its multiplicity, and a field without NULs is unchanged |
| ByteCursor.StripNulAppend | mdfs.py:46 | stripping keeps the order of the bytes: it distributes over concatenation, and one byte is dropped exactly when it is NUL |
| ByteCursor.TextAt | mdfs.py:46-48 | a text field of width w succeeds exactly when w bytes remain, yields those bytes with NULs removed and advances by w |
| ByteCursor.MagicAt | mdfs.py:36-39 | construction succeeds exactly when there are at least 4 bytes and they are `mdfs`; otherwise `BadMagic`, before any header field is read |
| ByteCursor.Cursor.Read | mdfs.py:45 | the cursor read yields `Take` at its position and moves to its end; a failed read leaves it at the end of the file |
| ByteCursor.Cursor.ReadInt | mdfs.py:45 | the cursor's integer read yields `IntAt` at its position |
| ByteCursor.Cursor.ReadText | mdfs.py:46 | the cursor's text read yields `TextAt` at its position |
| ByteCursor.Cursor.Skip | mdfs.py:52 | `seek(n, 1)` moves the position by n and never fails, even past the end |
| ByteCursor.Cursor.CheckMagic | read_mdfs.py:21-22 | the cursor's magic check yields `MagicAt` and leaves the cursor at offset 4 |
| LittleEndian.UIntLEBound | mdfs.py:54 | an unsigned little-endian value of n bytes is below 256^n |
| LittleEndian.SIntLERange | mdfs.py:54 | a signed value of n bytes lies in [-2^(8n-1), 2^(8n-1)) |
| LittleEndian.DecodeEncode | mdfs.py:54 | encoding an in-range unsigned value and decoding it gives it back |
| LittleEndian.EncodeDecode | mdfs.py:54 | decoding n bytes and re-encoding gives back the same bytes |
| LittleEndian.SignedDecodeEncode | mdfs.py:45 | encoding an in-range signed value in two's complement and decoding it gives it back |
| LittleEndian.SignedEncodeDecode | mdfs.py:45 | decoding n bytes as signed and re-encoding gives back the same bytes |
| Layout.Width | mdfs.py:20-21 | `corr_size`: defined exactly for tags 1..7, positive, `UnknownTypeTag` otherwise |
| Layout.WidthsDiffer | read_mdfs.py:12-13 | the two tables differ only at tag 4: 8 bytes in `mdfs.py`, 4 in `read_mdfs.py` |
| Layout.TagOf | mdfs.py:83-87 | an even ID outside [0, 22) has tag 1 with no lookup; any other ID has its catalogue tag, and a missing one is `UnknownVariable` |
| Layout.DecodeScalar | mdfs.py:89-91 | the unpack is empty exactly for tag 1 (`'x'`) |
| Layout.IntegerTagsRoundTrip | mdfs.py:89 | an integer packed at the width of tags 2-4 decodes back to itself |
| Layout.EntryAt | mdfs.py:82-89 | one entry: the int16 ID, the tag lookup, then the value; its layout is stated by `EntryLayout` |
| Layout.EntryLayout | mdfs.py:82-89 | an entry takes 2 + `corr_size[tag]` bytes: the int16 ID, then the value decoded from the bytes that follow |
| Layout.EntriesCount | mdfs.py:81-89 | a successful read of `q_num` entries yields exactly `q_num` of them, none for a negative count |
| Layout.IdentAt | mdfs.py:67-77 | fixed-ID mode consumes exactly 12 bytes; text mode yields a text ID |
| Layout.FixedIdentFields | mdfs.py:67-71 | fixed-ID mode succeeds exactly when 12 bytes remain: the ID is the int32 at the record start, then the longitude and latitude words |
| Layout.TextIdentBytes | mdfs.py:73-75 | a text-mode identification that is read has a non-negative length, consumes 2 + `id_length` + 8 bytes, and its ID is the `id_length` bytes after the length, NULs included |
| Layout.NegativeIdLength | mdfs.py:73-75 | a negative `id_length` reads the rest of the file, so the `'ff'` read after it fails with `Truncated` |
| Layout.RecordAt | mdfs.py:67-89 | one record read without storing anything: identification, `q_num`, entries; its parts are stated by `FixedIdentFields`, `TextIdentBytes` and `EntriesCount` |
| Layout.RecordsAt | mdfs.py:66-89 | the `station_num` records in file order; their count is stated by `RecordsCount` |
| Layout.RecordsCount | mdfs.py:66 | a successful read of `station_num` records yields exactly that many, none for a negative count |
| Layout.ReadEntry | mdfs.py:82-89 | the cursor's entry read yields `EntryAt`: lookups happen before the value is read |
| StationHeader.HeaderAt | mdfs.py:45-49 | the station header fields after the magic; their offsets are stated by `HeaderFields` |
| StationHeader.DeclaredAt | mdfs.py:57-58 | the `quantity_num` declared pairs; stated by `DeclaredRead` |
| StationHeader.PreambleAt | mdfs.py:45-58 | header, `id_type`, seek, `station_num` and the declared pairs; stated by `PreambleFields` and `PreambleDeclared` |
| StationHeader.HeaderFields | mdfs.py:45-49 | the header is read exactly when the file has 188 bytes; each field comes from its fixed offset |
| StationHeader.DeclaredRead | mdfs.py:57-58 | the declared pairs take 4 bytes each and are read in file order; the read fails exactly when they do not all fit |
| StationHeader.PreambleFields | mdfs.py:51-54 | `id_type` is the int16 at 188 (`mdfs.py` only) and `station_num` the int32 at 288 |
| StationHeader.PreambleDeclared | mdfs.py:54-58 | the pairs start at 294 and the records start after 4·`quantity_num` bytes |
| StationHeader.ReadHeader | mdfs.py:45-49 | the cursor's header read yields `HeaderAt` and ends at 188 |
| StationHeader.ReadDeclared | mdfs.py:57-58 | the loop over `range(quantity_num)` yields the pairs of `DeclaredAt` |
| StationHeader.ReadPreamble | mdfs.py:45-58 | the cursor's preamble read yields `PreambleAt` for either decoder |
| StationHeader.ReadTail | mdfs.py:54-58 | the reads from offset 288 yield `PreambleTail` |
| PyDict.DictOf | mdfs.py:57-58 | `dict(pairs)`; stated by `DictOfPairs` |
| PyDict.KeyOrder | mdfs.py:63 | the order of `keys()`; stated by `KeyOrderKeys`, `KeyOrderFirst` and `KeyOrderIsDict` |
| PyDict.DictOfPairs | mdfs.py:57-58 | `dict(pairs)` has exactly the keys of the pairs, and a key's value is that of its last pair |
| PyDict.KeyOrderKeys | mdfs.py:63 | `keys()` lists exactly the keys of the pairs, each once |
| PyDict.KeyOrderFirst | mdfs.py:63 | `keys()` lists the keys in the order of their first pairs: key i comes before key j exactly when its first pair comes first |
| PyDict.KeyOrderIsDict | mdfs.py:63-65 | iterating `keys()` visits exactly the keys of the mapping |
| Columns.CreateDict | mdfs.py:16-18 | `create_dict` adds the key with the given list only when it is missing, and never replaces an existing column |
| Columns.CreateDictIdempotent | read_mdfs.py:8-10 | calling `create_dict` again for a key changes nothing |
| Columns.Nones | mdfs.py:18 | `[None] * size` has `size` cells (none for a negative size), all `None` |
| Columns.SetItem | mdfs.py:92 | `data[k][idx] = v` succeeds exactly when the column exists and has row idx, changes only that cell, and is `MissingColumn` / `RowOutOfRange` otherwise |
| Station.ColumnsForStep | mdfs.py:63-65 | visiting one more declared key adds its column exactly when it is odd |
| Station.ColumnsForDeclared | mdfs.py:63-65 | visiting the keys in `keys()` order makes the columns of `InitialColumns` |
| Station.InitialColumnsDeclared | mdfs.py:60-65 | the initial columns are exactly `ID`, `Lon`, `Lat` and one per odd declared key, each `[None] * station_num` |
| Station.CreateColumns | mdfs.py:60-65 | the `create_dict` loops build exactly `InitialColumns` |
| Station.Ident | mdfs.py:67-77 | the identification read and written into row idx; stated by `StationFacts.IdentFill` |
| Station.StoreEntry | mdfs.py:90-92 | `data[var_id][idx] = var_value` for a non-empty unpack of an odd ID; stated by `StationFacts.StoreAllCells` |
| Station.Entries | mdfs.py:81-92 | the `q_num` entries, each read then stored; stated by `StationFacts.EntriesFill` |
| Station.Stations | mdfs.py:66-92 | the station loop; stated by `StationFacts.StationsRun` and `StationFacts.RunFill` |
| Station.StationSpec | mdfs.py:41-93 | the whole `Station(file)` decode; stated by `StationFacts.StationDecoded` and `StationFacts.FilledColumns` |
| Station.ReadIdent | mdfs.py:67-77 | the cursor's identification read-and-write yields `Ident` |
| Station.ReadEntries | mdfs.py:81-92 | the loop over `range(q_num)` yields `Entries` |
| Station.ReadRecord | mdfs.py:67-92 | one record read and written through the cursor yields `Record` |
| Station.DecodeStation | mdfs.py:41-93 | the whole cursor decode equals `StationSpec` |
| StationFacts.StorableMeans | mdfs.py:90-92 | a record's stores can all be done exactly when every stored entry's column exists |
| StationFacts.AllStorableMeans | mdfs.py:66-92 | the same for every record |
| StationFacts.LatestUntouched | mdfs.py:90-92 | a declared odd ID that a station does not store keeps its cell, `None` |
| StationFacts.LatestFromEntry | mdfs.py:90-92 | a stored cell holds the value of one of the station's entries for that ID |
| StationFacts.EntriesFill | mdfs.py:81-92 | reading and storing the entries succeeds exactly when the read does and each stored ID has a column; the table is then the stores applied in order |
| StationFacts.IdentFill | mdfs.py:67-77 | writing the identification succeeds exactly when it can be read, and writes only row idx of `ID`/`Lon`/`Lat` |
| StationFacts.RecordFill | mdfs.py:67-92 | one record read and stored is that record read alone, then written into row idx |
| StationFacts.StoreAllShape | mdfs.py:92 | writing entries keeps the column set and every column's length |
| StationFacts.FillRecordShape | mdfs.py:67-92 | writing a record keeps the column set and every column's length |
| StationFacts.StationsRun | mdfs.py:66 | the station loop is the generic record loop over `Station.Record` |
| StationFacts.RunFill | mdfs.py:66-92 | reading and storing records one by one succeeds exactly when they can all be read and stored, and yields them written row by row |
| StationFacts.RecordSteps | mdfs.py:66-92 | `RecordFill` holds at every position, row and table |
| StationFacts.StoreAllCells | mdfs.py:90-92 | after a record's stores, row idx of variable v holds the value of the last stored entry for v, and nothing else changes |
| StationFacts.FillRecordCells | mdfs.py:67-92 | a written record puts its ID and position in row idx and each variable's last stored value in its column |
| StationFacts.FillRowsCells | mdfs.py:66-92 | records written from row `row` on: row `row + j` holds record j's fields |
| StationFacts.DeclaredStorable | mdfs.py:63-65 | every stored odd ID is declared exactly when all records can be stored into the initial columns |
| StationFacts.RunDecoded | mdfs.py:60-92 | after the preamble, the decode succeeds exactly when the records can be read and every stored ID is declared |
| StationFacts.StationDecoded | mdfs.py:41-93 | `Station(file)` succeeds exactly when the file reads through and every stored odd ID is declared; it then yields the header and the records written row by row |
| StationFacts.FilledColumns | mdfs.py:60-93 | the decoded table has exactly the initial columns, each `station_num` long; row j holds record j's ID and position and, for a variable, its last stored value or `None` |
| Runs.RecordsRun | mdfs.py:66 | reading `station_num` records is the generic scan over `RecordAt` |
| Runs.RunFold | read_mdfs.py:40-57 | a loop that reads and folds in one record at a time is reading them all and then folding them, with the same error |
| Runs.RunFoldAll | read_mdfs.py:40 | the same, from row 0 |
| Runs.ScanCount | mdfs.py:66 | a scanned file has `station_num` records, none for a negative count |
| LegacyStation.AppendItem | read_mdfs.py:54-57 | `create_dict` then `append`: the value lands at the end of the key's list, created empty if missing, and no other list changes |
| LegacyStation.LegacyEntries | read_mdfs.py:47-57 | reading a record's entries never removes a list |
| LegacyStation.LegacyRecord | read_mdfs.py:41-57 | after a record, `ID`, `Lon` and `Lat` exist and no list was removed |
| LegacyStation.InitialLists | read_mdfs.py:37-39 | the loop starts with exactly `ID`, `Lon`, `Lat`, each empty |
| LegacyStation.LegacyStations | read_mdfs.py:40-57 | the station loop; stated by `LegacyFacts.LegacyRuns` |
| LegacyStation.LegacySpec | read_mdfs.py:19-58 | the whole `MDFS_Station(filepath)` decode; stated by `LegacyFacts.LegacyDecoded`, `LegacyIdentColumns` and `LegacyVarColumn` |
| LegacyStation.ReadLegacyEntries | read_mdfs.py:47-57 | the loop over `range(q_num)` yields `LegacyEntries` |
| LegacyStation.ReadLegacyRecord | read_mdfs.py:41-57 | one record read and appended through the cursor yields `LegacyRecord` |
| LegacyStation.DecodeLegacyStation | read_mdfs.py:19-58 | the whole cursor decode equals `LegacySpec` |
| LegacyFacts.KeptMeans | read_mdfs.py:53-57 | a key receives a value exactly when an entry with that ID unpacks to one, and every value it receives is such an entry's |
| LegacyFacts.AppendItemColumn | read_mdfs.py:55-57 | one append grows only the key appended to, by that value |
| LegacyFacts.AppendAllColumn | read_mdfs.py:47-57 | a record's entries extend each list by the values they keep for it, in order, and create exactly the lists that receive one |
| LegacyFacts.AppendRecordColumn | read_mdfs.py:41-57 | a record extends each list by its identification part, then its kept values |
| LegacyFacts.BuiltColumn | read_mdfs.py:40-57 | the records extend each list by what they append to it, in file order, and create exactly the lists that receive a value |
| LegacyFacts.IdentColumns | read_mdfs.py:40-44 | `ID`, `Lon` and `Lat` get exactly one element per record, in file order |
| LegacyFacts.KeptNoIdent | read_mdfs.py:55-57 | entries never append to `ID`, `Lon` or `Lat` |
| LegacyFacts.VarColumnLength | read_mdfs.py:54-57 | a variable's list has at most one element per entry of the records, a bound set by the entries and not by `station_num` |
| LegacyFacts.EntriesAppend | read_mdfs.py:47-57 | the entries read and appended are the entries read alone and then appended, with the same error |
| LegacyFacts.RecordAppend | read_mdfs.py:41-57 | a record read and appended is `RecordAt` in fixed-ID mode followed by the appends, with the same error |
| LegacyFacts.LegacySteps | read_mdfs.py:40-57 | `RecordAppend` holds at every position and table |
| LegacyFacts.LegacyStationsRun | read_mdfs.py:40 | the legacy station loop is the generic record loop |
| LegacyFacts.FoldBuilt | read_mdfs.py:40-57 | folding records in with `AppendRecord` is `Built` |
| LegacyFacts.LegacyFold | read_mdfs.py:40-57 | the generic loop with the legacy step is a scan followed by the appends |
| LegacyFacts.LegacyRuns | read_mdfs.py:40-57 | the legacy station loop is reading all records, then appending them |
| LegacyFacts.LegacyDecoded | read_mdfs.py:19-58 | `MDFS_Station(file)` fails exactly when the file cannot be read through, with the same error; otherwise it yields the header and the records appended in file order |
| LegacyFacts.LegacyIdentColumns | read_mdfs.py:38-44 | after decoding, `ID`, `Lon` and `Lat` hold one element per record, in order, with each record's fields |
| LegacyFacts.LegacyVarColumn | read_mdfs.py:53-57 | a variable has a list exactly when some record kept a value for it, QC codes included, and the list is what the records appended |
| GridDecoder.GridHeaderFields | mdfs.py:115-127 | the grid header is read exactly when the file has 178 bytes and `np.arange` accepts both axes; the data type, period and both counts come from their fixed offsets |
| GridDecoder.ArangeFails | mdfs.py:125-126 | the axes `np.arange` rejects: a zero spacing, or a start, end or spacing word that is an infinity or a NaN; stated by `AxisFailure` |
| GridDecoder.AxisFailure | mdfs.py:123-127 | once both axis groups are read, the header fails with `BadAxis` exactly when `np.arange` rejects either axis, before the isoline read |
| GridDecoder.BlockAt | mdfs.py:135 | a block of n words succeeds exactly when n is 0, or n > 0 and 4n bytes remain; a negative n is `BadGeometry`, a short read `Truncated` |
| GridDecoder.BlockWord | mdfs.py:135 | word k of a block is the k-th group of four bytes |
| GridDecoder.Reshape | mdfs.py:136 | `reshape(rows, cols)` has `rows` rows |
| GridDecoder.ReshapeCell | mdfs.py:136 | cell `[i][j]` is value `i*cols + j`, and every row has `cols` cells |
| GridDecoder.ReshapeCons | mdfs.py:136 | the first row is the first `cols` values and the rest is the remainder reshaped |
| GridDecoder.ReshapeFlatten | mdfs.py:136 | the rows concatenate back to the values read |
| GridDecoder.Direction | mdfs.py:145-146 | `270 - angle`, plus 360 where negative; stated by `DirectionTurns` and `DirectionRange` |
| GridDecoder.DirectionTurns | mdfs.py:145-146 | the corrected direction is `270 - angle` or `270 - angle + 360`, so it is congruent to `270 - angle` modulo 360 |
| GridDecoder.DirectionRange | mdfs.py:145-146 | the direction lies in [0, 360) exactly for angles in (-90, 630], and is negative exactly for angles above 630 |
| GridDecoder.Directions | mdfs.py:145 | one direction per angle |
| GridDecoder.GridDataAt | mdfs.py:129-149 | the lattice by data type; stated by `ScalarData`, `ScalarCell`, `VectorData`, `VectorCell` and `OtherData` |
| GridDecoder.GridSpec | mdfs.py:112-151 | the whole `Grid(file)` decode; stated by `GridHeaderFields`, `AxisFailure` and `GridLayout` |
| GridDecoder.GridLayout | mdfs.py:113-128 | with the magic, 178 header bytes and axes `np.arange` accepts, the decode is the header followed by the lattice read from offset 278 |
| GridDecoder.ScalarData | mdfs.py:129-137 | a type-4 lattice decodes exactly when both counts are non-negative and `lat_number*lon_number` words fit |
| GridDecoder.ScalarCell | mdfs.py:135-137 | `Grid` has shape (lat_number, lon_number) and `Grid[i][j]` is word `i*lon_number + j` |
| GridDecoder.VectorData | mdfs.py:138-143 | a type-11 lattice decodes exactly when both counts are non-negative and two blocks fit |
| GridDecoder.VectorCell | mdfs.py:140-148 | `Norm[i][j]` is word `i*lon_number + j` of the first block; `Direction[i][j]` is the corrected angle of the same word of the second block, which follows the first |
| GridDecoder.OtherData | mdfs.py:133-149 | any other data type reads nothing and keeps no lattice |
| GridDecoder.WrapNegative | mdfs.py:146 | the masked in-place add: every negative cell gains 360, every other cell is unchanged |
| GridDecoder.CorrectAngles | mdfs.py:145-146 | a fresh array holding the corrected direction of every angle |
| GridDecoder.ReadBlock | mdfs.py:135 | the cursor's block read yields `BlockAt` |
| GridDecoder.ReadGridHeader | mdfs.py:115-118 | the cursor's grid header read yields `GridHeaderAt` |
| GridDecoder.ReadGridTail | mdfs.py:119-122 | the reads of level, time and period yield `GridTail` |
| GridDecoder.ReadAxes | mdfs.py:123-127 | the reads of the two axis groups and the isoline values yield `AxesAt` |
| GridDecoder.ReadGridData | mdfs.py:129-149 | the cursor's lattice read yields `GridDataAt` |
| GridDecoder.DecodeGrid | mdfs.py:113-151 | the whole cursor decode equals `GridSpec` |

## Left out

- Opening files: the gzip/bz2 sniffing of `prepare_file` and closing the file (mdfs.py:23-33, 94, 151). The decoders take the bytes of an uncompressed file.
- File objects: the model reads the file's bytes as an `io.BytesIO` does, which `mdfs.py` accepts directly (mdfs.py:24-25). A path opened as `BufferedReader`, `GzipFile` or `BZ2File` raises `ValueError` on `read(n)` for n < -1. On such objects a text-ID length below -1 (mdfs.py:73-74) and a negative `block_num` (mdfs.py:135, 140) fail at the read with `ValueError`, where the model reports `Truncated` and `BadGeometry`. The decode fails either way.
- Loading the catalogue: the pickle load (read_mdfs.py:14-16) and the `table` import (mdfs.py:14). The catalogue is a read-only parameter.
- Text decoding: GBK and UTF-8 are foreign codecs. A header text field is kept as its bytes with every NUL removed (`.replace('\x00', '')`). A text station ID (mdfs.py:74) has no `.replace` and is kept as its bytes, NULs included. A `UnicodeDecodeError` in these fields is not modelled; at the magic it is, as `BadMagic`.
- A text field read short: the model fails at that read with `Truncated`. Python returns the short text and fails later. The outcome is the same: every run of text reads ends in a fixed-width read (the level after the station texts and after the three grid texts, the `'ff'` after a text ID), and that read finds the file exhausted.
- Floats: IEEE float32/float64 decoding is not modelled. Float values are kept as their 4 or 8 bytes.
- GridDecoder.DirectionTurns: the correction is stated over `real` on angles given by the parameter `f32`, without the float64 rounding of `270 - angle` in numpy.
- Coordinate vectors: the `np.arange` arrays `Lon`/`Lat` of the grid (mdfs.py:125-126) are floating-point. The axis groups they come from are kept in the header instead.
- GridDecoder.ArangeFails: only the failures decided by a single word are modelled (a zero spacing, a non-finite start, end or spacing). An `np.arange` whose length is finite but too large for memory or for numpy's size limit raises too; the model accepts such axes.
- Dates: `datetime` arithmetic (mdfs.py:50, 121, 150; read_mdfs.py:29) is not modelled. The time fields are kept as stored. A calendar date that `datetime` rejects is not modelled as an error.
- Output helpers: `repr_station` and `to_xarray` (mdfs.py:96-159) format or wrap the output. `compile.py` is a build script. None is part of this model.
- Byte order: the struct formats are native. The model reads them little-endian at their standard sizes, as on the x86 machines MDFS files come from.
- Layout.Width: tag 4 of read_mdfs.py is 4 bytes (`corr_size[4] == 4`) and is decoded as a 4-byte signed integer. That is the native size of `'l'` on Windows. On 64-bit Linux or macOS, native `'l'` is 8 bytes, and `struct.unpack('l', f.read(4))` raises `struct.error`.
- GridDecoder.BlockAt: a negative block count fails before reading, as `BadGeometry`. On an `io.BytesIO`, Python first reads to the end of the file and then fails on the invalid struct format. Either way the decode fails; only the cursor position differs.
- GridDecoder.GridDataAt: one error, `BadGeometry`, stands for both the invalid struct format and the numpy reshape failure for a negative count. numpy rejects every negative dimension that can reach the reshape.
- `id_list` (mdfs.py:79, 88) is built and never used, so it is not modelled.

## Behaviour notes

- `mdfs.py` fills a cell that no entry writes with `None`.
- `mdfs.py` makes one column per odd declared key. An odd ID that is stored but not declared raises `KeyError` (`MissingColumn`).
- Header text fields lose every NUL byte, wherever it stands.
- The corrected direction lies in [0, 360) only for angles in (-90, 630]; see `DirectionRange`.
- A zero grid count gives an empty lattice; only a negative count fails.
- `read_mdfs.py` appends without padding, keeps quality-control values, and reads tag 4 as 4 bytes.
