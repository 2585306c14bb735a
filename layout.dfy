/** The record layout shared by both station decoders: the type-tag table
    (`corr_dtype` / `corr_size`), the variable catalogue lookup, one variable
    entry `(int16 var_id, value)`, and a station record (ID, position and
    its variable list) read without storing anything. */
module Layout {
  import opened Common
  import opened LittleEndian
  import opened ByteCursor

  /** The two copies of the station decoder: mdfs.py (`Current`, tag 4 is
      'q', 8 bytes) and read_mdfs.py (`Legacy`, tag 4 is 'l' with
      `corr_size` 4). */
  datatype Variant = Current | Legacy

  /** `corr_size[tag]`; a tag outside 1..7 has no entry (KeyError). */
  function Width(v: Variant, tag: int): (r: Result<nat>)
    ensures r.Ok? <==> 1 <= tag <= 7
    ensures r.Err? ==> r.error == UnknownTypeTag(tag)
    ensures r.Ok? ==> r.value > 0
  {
    if 1 <= tag <= 7 then Ok([1, 2, 4, if v == Current then 8 else 4, 4, 8, 1][tag - 1])
    else Err(UnknownTypeTag(tag))
  }

  /** The two tables differ in the width of tag 4 and nowhere else. */
  lemma WidthsDiffer(tag: int)
    ensures Width(Current, tag) != Width(Legacy, tag) <==> tag == 4
    ensures Width(Current, 4) == Ok(8) && Width(Legacy, 4) == Ok(4)
  {
  }

  /** An even ID outside [0, 22) is a quality-control byte of tag 1. */
  predicate IsPadCode(varId: int) {
    varId % 2 == 0 && !(0 <= varId < 22)
  }

  /** The type tag of a variable: 1 for a pad code, otherwise the catalogue
      entry (`id_dtype[var_id]` / `var_table[var_id]`), whose absence is a
      KeyError. */
  function TagOf(varId: int, catalog: map<int, int>): (r: Result<int>)
    ensures IsPadCode(varId) ==> r == Ok(1)
    ensures !IsPadCode(varId) ==> (r.Ok? <==> varId in catalog)
    ensures !IsPadCode(varId) && r.Ok? ==> r.value == catalog[varId]
    ensures r.Err? ==> r.error == UnknownVariable(varId)
  {
    if IsPadCode(varId) then Ok(1)
    else if varId in catalog then Ok(catalog[varId])
    else Err(UnknownVariable(varId))
  }

  /** `struct.unpack(corr_dtype[tag], raw)` followed by taking element 0 when
      the tuple is non-empty: format 'x' (tag 1) unpacks to the empty tuple,
      every other format to one value. */
  function DecodeScalar(tag: int, raw: seq<Byte>): (r: Option<Value>)
    requires |raw| > 0
    ensures r.None? <==> tag == 1
  {
    if tag == 1 then None
    else if 2 <= tag <= 4 then Some(Int(SIntLE(raw)))
    else if 5 <= tag <= 6 then Some(Float(raw))
    else Some(Chars(raw))
  }

  /** The integer kinds decode the two's-complement value of their bytes, so
      a value written with `struct.pack` is read back unchanged. */
  lemma IntegerTagsRoundTrip(v: Variant, tag: int, x: int)
    requires 2 <= tag <= 4
    requires Width(v, tag).Ok?
    requires -Half(Width(v, tag).value) <= x < Half(Width(v, tag).value)
    ensures DecodeScalar(tag, EncodeSLE(x, Width(v, tag).value)) == Some(Int(x))
  {
    SignedDecodeEncode(x, Width(v, tag).value);
  }

  /** One variable entry as read: its ID, its type tag and its value (None
      for a tag-1 byte). */
  datatype Entry = Entry(varId: int, tag: int, value: Option<Value>)

  /** The entry at `pos`: int16 ID, then `corr_size[tag]` bytes of value. The
      catalogue lookup and the tag lookup both happen before the value is
      read. */
  function EntryAt(buf: seq<Byte>, pos: nat, catalog: map<int, int>, v: Variant): (r: Result<Step<Entry>>)
  {
    var id :- IntAt(buf, pos, 2);
    var tag :- TagOf(id.item, catalog);
    var width :- Width(v, tag);
    var raw :- Take(buf, id.next, width);
    Ok(Step(Entry(id.item, tag, DecodeScalar(tag, raw.item)), raw.next))
  }

  /** An entry takes 2 + `corr_size[tag]` bytes: its ID is the int16 at
      `pos`, its tag comes from `TagOf`, and its value is decoded from the
      bytes that follow. */
  lemma EntryLayout(buf: seq<Byte>, pos: nat, catalog: map<int, int>, v: Variant)
    requires EntryAt(buf, pos, catalog, v).Ok?
    ensures var e := EntryAt(buf, pos, catalog, v).value;
            && pos + 2 <= |buf|
            && e.item.varId == SIntLE(buf[pos..pos + 2])
            && TagOf(e.item.varId, catalog) == Ok(e.item.tag)
            && Width(v, e.item.tag).Ok?
            && e.next == pos + 2 + Width(v, e.item.tag).value <= |buf|
            && e.item.value == DecodeScalar(e.item.tag, buf[pos + 2..e.next])
  {
  }

  /** Prefixes the items already read to the outcome of the remaining reads. */
  function Prepend<T>(done: seq<T>, r: Result<Step<seq<T>>>): Result<Step<seq<T>>> {
    match r
    case Ok(s) => Ok(Step(done + s.item, s.next))
    case Err(e) => Err(e)
  }

  /** The `q_num` entries of a station, read in order (`range(q_num)` is empty
      for a negative count). */
  function EntriesAt(buf: seq<Byte>, pos: nat, count: int, catalog: map<int, int>, v: Variant)
    : (r: Result<Step<seq<Entry>>>)
    decreases count
  {
    if count <= 0 then Ok(Step([], pos))
    else
      var e :- EntryAt(buf, pos, catalog, v);
      Prepend([e.item], EntriesAt(buf, e.next, count - 1, catalog, v))
  }

  /** A successful read of `count` entries yields exactly `count` of them
      (none for a negative count), each laid out where the previous ended. */
  lemma {:induction false} EntriesCount(buf: seq<Byte>, pos: nat, count: int, catalog: map<int, int>, v: Variant)
    requires EntriesAt(buf, pos, count, catalog, v).Ok?
    ensures |EntriesAt(buf, pos, count, catalog, v).value.item| == if count < 0 then 0 else count
    ensures pos <= EntriesAt(buf, pos, count, catalog, v).value.next <= |buf| || count <= 0
    decreases count
  {
    if count > 0 {
      var e := EntryAt(buf, pos, catalog, v).value;
      EntriesCount(buf, e.next, count - 1, catalog, v);
    }
  }

  /** A station record as read: ID (an int32 code, or the bytes of a text
      ID), the two float32 words of its position, and its variable list. */
  datatype Record = Record(id: Value, lon: seq<Byte>, lat: seq<Byte>, entries: seq<Entry>)

  /** The identification part of a record. Fixed mode reads one 12-byte
      `'iff'`; text mode (`id_type == 1`) reads an int16 length, that many
      bytes, then an 8-byte `'ff'`. */
  function IdentAt(buf: seq<Byte>, pos: nat, textIds: bool): (r: Result<Step<(Value, seq<Byte>, seq<Byte>)>>)
    ensures r.Ok? && !textIds ==> r.value.next == pos + 12
    ensures r.Ok? && textIds ==> r.value.item.0.Chars?
  {
    if !textIds then
      var s :- Take(buf, pos, 12);
      Ok(Step((Int(SIntLE(s.item[0..4])), s.item[4..8], s.item[8..12]), s.next))
    else
      var len :- IntAt(buf, pos, 2);
      var text :- Take(buf, len.next, len.item);
      var ll :- Take(buf, text.next, 8);
      Ok(Step((Chars(text.item), ll.item[0..4], ll.item[4..8]), ll.next))
  }

  /** Fixed mode: the identification is read exactly when 12 bytes remain;
      the ID is the int32 at `pos`, the position the two words after it. */
  lemma FixedIdentFields(buf: seq<Byte>, pos: nat)
    ensures IdentAt(buf, pos, false).Ok? <==> pos + 12 <= |buf|
    ensures IdentAt(buf, pos, false).Ok? ==>
              IdentAt(buf, pos, false).value ==
              Step((Int(SIntLE(buf[pos..pos + 4])), buf[pos + 4..pos + 8], buf[pos + 8..pos + 12]), pos + 12)
  {
    if pos + 12 <= |buf| {
      var s := buf[pos..pos + 12];
      assert s[0..4] == buf[pos..pos + 4];
      assert s[4..8] == buf[pos + 4..pos + 8];
      assert s[8..12] == buf[pos + 8..pos + 12];
    }
  }

  /** A text-mode identification that is read has a non-negative length
      field and takes 2 + length + 8 bytes; its ID is the bytes after the
      length, NULs included. */
  lemma TextIdentBytes(buf: seq<Byte>, pos: nat)
    requires IdentAt(buf, pos, true).Ok?
    ensures pos + 2 <= |buf| && SIntLE(buf[pos..pos + 2]) >= 0
    ensures var n := SIntLE(buf[pos..pos + 2]);
            && IdentAt(buf, pos, true).value.next == pos + 2 + n + 8
            && IdentAt(buf, pos, true).value.item.0 == Chars(buf[pos + 2..pos + 2 + n])
  {
  }

  /** A negative text-ID length reads the rest of the file, so the `'ff'`
      read after it fails. */
  lemma NegativeIdLength(buf: seq<Byte>, pos: nat)
    requires pos + 2 <= |buf| && SIntLE(buf[pos..pos + 2]) < 0
    ensures IdentAt(buf, pos, true) == Err(Truncated)
  {
  }

  /** A whole record: identification, `q_num`, then the entries. */
  function RecordAt(buf: seq<Byte>, pos: nat, textIds: bool, catalog: map<int, int>, v: Variant)
    : (r: Result<Step<Record>>)
  {
    var ident :- IdentAt(buf, pos, textIds);
    var q :- IntAt(buf, ident.next, 2);
    var es :- EntriesAt(buf, q.next, q.item, catalog, v);
    Ok(Step(Record(ident.item.0, ident.item.1, ident.item.2, es.item), es.next))
  }

  /** The `station_num` records, in file order. */
  function RecordsAt(buf: seq<Byte>, pos: nat, count: int, textIds: bool, catalog: map<int, int>, v: Variant)
    : (r: Result<Step<seq<Record>>>)
    decreases count
  {
    if count <= 0 then Ok(Step([], pos))
    else
      var rec :- RecordAt(buf, pos, textIds, catalog, v);
      Prepend([rec.item], RecordsAt(buf, rec.next, count - 1, textIds, catalog, v))
  }

  lemma {:induction false} RecordsCount(buf: seq<Byte>, pos: nat, count: int, textIds: bool, catalog: map<int, int>, v: Variant)
    requires RecordsAt(buf, pos, count, textIds, catalog, v).Ok?
    ensures |RecordsAt(buf, pos, count, textIds, catalog, v).value.item| == if count < 0 then 0 else count
    decreases count
  {
    if count > 0 {
      var rec := RecordAt(buf, pos, textIds, catalog, v).value;
      RecordsCount(buf, rec.next, count - 1, textIds, catalog, v);
    }
  }

  /** Reads one entry through the cursor. */
  method ReadEntry(c: Cursor, catalog: map<int, int>, v: Variant) returns (r: Result<Entry>)
    modifies c
    ensures r == ItemOf(EntryAt(c.buf, old(c.pos), catalog, v))
    ensures r.Ok? ==> c.pos == EntryAt(c.buf, old(c.pos), catalog, v).value.next
  {
    var varId :- c.ReadInt(2);
    var tag :- TagOf(varId, catalog);
    var width :- Width(v, tag);
    var raw :- c.Read(width);
    r := Ok(Entry(varId, tag, DecodeScalar(tag, raw)));
  }
}
