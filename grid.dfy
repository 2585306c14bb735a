/** `Grid.__init__` of mdfs.py: the gridded-field decoder. After the magic it
    reads a 174-byte header (type, texts, level, time, period, the two axis
    descriptions, which `np.arange` must accept, and the isoline range),
    seeks 100 bytes, and then reads the
    lattice by data type: one block of `lat_number * lon_number` float32
    words for a scalar grid (type 4), two such blocks for a vector grid
    (type 11, magnitude then angle), none otherwise. Float words stay
    opaque, except the angles, which the direction correction needs as
    numbers: they are decoded by a given function `f32`. */
module GridDecoder {
  import opened Common
  import opened LittleEndian
  import opened ByteCursor

  /** The four bytes of one float32. */
  type Word = seq<Byte>

  /** One `'3fi'` axis group: start, end and spacing words, then the count. */
  datatype Axis = Axis(start: Word, end: Word, spacing: Word, count: int)

  /** The `'5i'` time fields: year, month, day, hour and the time-zone
      offset in hours, as stored. */
  datatype GridTime = GridTime(year: int, month: int, day: int, hour: int, tzHours: int)

  datatype GridHeader = GridHeader(kind: int, modelName: seq<Byte>, element: seq<Byte>, description: seq<Byte>,
                                   level: Word, time: GridTime, period: int, lon: Axis, lat: Axis,
                                   isoline: seq<Word>)

  /** The lattice arrays of `data`: `Grid` for type 4, `Norm` and `Direction`
      for type 11, nothing beyond the axes otherwise. */
  datatype GridData =
    | NoData
    | Scalar(grid: seq<seq<Word>>)
    | Vector(norm: seq<seq<Word>>, direction: seq<seq<real>>)

  datatype GridFile = GridFile(header: GridHeader, data: GridData)

  /** Offset of the lattice: 4 bytes of magic, the 174-byte header and the
      100-byte seek. */
  const DataStart: nat := 278

  /** `n` consecutive words of `raw`. */
  function Words(raw: seq<Byte>, n: nat): (r: seq<Word>)
    requires |raw| == 4 * n
    ensures |r| == n
  {
    seq(n, i requires 0 <= i < n => raw[4 * i..4 * i + 4])
  }

  function AxisOf(s: seq<Byte>): Axis
    requires |s| == 16
  {
    Axis(s[0..4], s[4..8], s[8..12], SIntLE(s[12..16]))
  }

  function GridTimeOf(s: seq<Byte>): GridTime
    requires |s| == 20
  {
    GridTime(SIntLE(s[0..4]), SIntLE(s[4..8]), SIntLE(s[8..12]), SIntLE(s[12..16]), SIntLE(s[16..20]))
  }

  /** The header after the magic: int16 data type and 20, 50 and 30 bytes
      of text, then the rest in `GridTail`. */
  function GridHeaderAt(buf: seq<Byte>): Result<Step<GridHeader>> {
    var kind :- IntAt(buf, 4, 2);
    var modelName :- TextAt(buf, kind.next, 20);
    var element :- TextAt(buf, modelName.next, 50);
    var description :- TextAt(buf, element.next, 30);
    GridTail(buf, description.next, kind.item, modelName.item, element.item, description.item)
  }

  /** The level word, `'5i'` and the int32 period, then the axes. */
  function GridTail(buf: seq<Byte>, pos: nat, kind: int, modelName: seq<Byte>, element: seq<Byte>, description: seq<Byte>)
    : Result<Step<GridHeader>>
  {
    var level :- Take(buf, pos, 4);
    var time :- Take(buf, level.next, 20);
    var period :- IntAt(buf, time.next, 4);
    var axes :- AxesAt(buf, period.next);
    Ok(Step(GridHeader(kind, modelName, element, description, level.item, GridTimeOf(time.item), period.item,
                       axes.item.0, axes.item.1, axes.item.2), axes.next))
  }

  /** A little-endian float32 word whose exponent bits are all set: an
      infinity or a NaN. */
  predicate NonFinite(w: Word) {
    |w| == 4 && w[3] % 128 == 127 && w[2] >= 128
  }

  /** A float32 word of +0.0 or -0.0. */
  predicate IsZero(w: Word) {
    |w| == 4 && w[0] == 0 && w[1] == 0 && w[2] == 0 && w[3] % 128 == 0
  }

  /** `np.arange(start, end + spacing, spacing)` raises: ZeroDivisionError
      for a zero spacing, ValueError when the length it computes is not a
      number, which happens whenever a bound or the spacing is an infinity
      or a NaN. */
  predicate ArangeFails(a: Axis) {
    IsZero(a.spacing) || NonFinite(a.start) || NonFinite(a.end) || NonFinite(a.spacing)
  }

  /** Two `'3fi'` axis groups (longitude first), the two `np.arange` calls
      on them, then `'3f'` of isoline values. */
  function AxesAt(buf: seq<Byte>, pos: nat): Result<Step<(Axis, Axis, seq<Word>)>> {
    var lon :- Take(buf, pos, 16);
    var lat :- Take(buf, lon.next, 16);
    if ArangeFails(AxisOf(lon.item)) || ArangeFails(AxisOf(lat.item)) then Err(BadAxis)
    else
      var isoline :- Take(buf, lat.next, 12);
      Ok(Step((AxisOf(lon.item), AxisOf(lat.item), Words(isoline.item, 3)), isoline.next))
  }

  /** The longitude axis group, at offset 134. */
  function LonAxis(buf: seq<Byte>): Axis
    requires 150 <= |buf|
  {
    AxisOf(buf[134..150])
  }

  /** The latitude axis group, at offset 150. */
  function LatAxis(buf: seq<Byte>): Axis
    requires 166 <= |buf|
  {
    AxisOf(buf[150..166])
  }

  /** The header is read exactly when the file has its first 178 bytes and
      neither axis makes `np.arange` fail; the data type is the int16 at 4,
      the period the int32 at 130, and the longitude and latitude counts
      the int32s at 146 and 162. */
  lemma GridHeaderFields(buf: seq<Byte>)
    ensures GridHeaderAt(buf).Ok? <==> 178 <= |buf| && !ArangeFails(LonAxis(buf)) && !ArangeFails(LatAxis(buf))
    ensures GridHeaderAt(buf).Ok? ==>
              var h := GridHeaderAt(buf).value;
              && h.next == 178
              && h.item.kind == SIntLE(buf[4..6])
              && h.item.period == SIntLE(buf[130..134])
              && h.item.lon.count == SIntLE(buf[146..150])
              && h.item.lat.count == SIntLE(buf[162..166])
  {
    if 166 <= |buf| {
      assert buf[134..150][12..16] == buf[146..150];
      assert buf[150..166][12..16] == buf[162..166];
    }
  }

  /** An axis that `np.arange` rejects fails the decode as soon as both axis
      groups are read, before the isoline values: a file that stops right
      after them reports `BadAxis`, not the short read. */
  lemma AxisFailure(buf: seq<Byte>)
    requires 166 <= |buf|
    ensures GridHeaderAt(buf) == Err(BadAxis) <==> ArangeFails(LonAxis(buf)) || ArangeFails(LatAxis(buf))
  {
  }

  /** `struct.unpack('{}f'.format(n), read(4 * n))`: a negative count makes
      the format invalid, and `n` words need `4 * n` bytes. A read of no
      bytes succeeds wherever the file stands, even past its end. */
  function BlockAt(buf: seq<Byte>, pos: nat, n: int): (r: Result<Step<seq<Word>>>)
    ensures r.Ok? <==> n == 0 || (n > 0 && pos + 4 * n <= |buf|)
    ensures r.Err? ==> r.error == (if n < 0 then BadGeometry else Truncated)
    ensures r.Ok? ==> |r.value.item| == n && r.value.next == pos + 4 * n
  {
    if n < 0 then Err(BadGeometry)
    else if n == 0 then Ok(Step([], pos))
    else
      var raw :- Take(buf, pos, 4 * n);
      Ok(Step(Words(raw.item, n), raw.next))
  }

  /** Word `k` of a block read at `pos` is the k-th group of four bytes. */
  lemma BlockWord(buf: seq<Byte>, pos: nat, n: int, k: nat)
    requires BlockAt(buf, pos, n).Ok? && k < n
    ensures pos + 4 * k + 4 <= |buf| && BlockAt(buf, pos, n).value.item[k] == buf[pos + 4 * k..pos + 4 * k + 4]
  {
    var raw := buf[pos..pos + 4 * n];
    assert BlockAt(buf, pos, n).value.item == Words(raw, n);
    assert raw[4 * k..4 * k + 4] == buf[pos + 4 * k..pos + 4 * k + 4];
  }

  /** `np.array(vals).reshape(rows, cols)`: row-major. */
  function Reshape<T>(vals: seq<T>, rows: nat, cols: nat): (r: seq<seq<T>>)
    requires |vals| == rows * cols
    ensures |r| == rows
  {
    seq(rows, i requires 0 <= i < rows => (RowEnd(i, rows, cols); vals[i * cols..(i + 1) * cols]))
  }

  lemma RowEnd(i: nat, rows: nat, cols: nat)
    requires i < rows
    ensures i * cols + cols == (i + 1) * cols <= rows * cols
  {
  }

  /** Cell `[i][j]` of a reshaped array is element `i * cols + j`, and every
      row has `cols` cells. */
  lemma ReshapeCell<T>(vals: seq<T>, rows: nat, cols: nat, i: nat, j: nat)
    requires |vals| == rows * cols && i < rows && j < cols
    ensures |Reshape(vals, rows, cols)[i]| == cols
    ensures i * cols + j < rows * cols && Reshape(vals, rows, cols)[i][j] == vals[i * cols + j]
  {
    RowEnd(i, rows, cols);
  }

  /** The rows of an array, concatenated in order. */
  function Flatten<T>(g: seq<seq<T>>): seq<T>
    decreases |g|
  {
    if |g| == 0 then [] else g[0] + Flatten(g[1..])
  }

  /** The first row of a reshaped array is the first `cols` values; the
      other rows are the rest reshaped. */
  lemma ReshapeCons<T>(vals: seq<T>, rows: nat, cols: nat)
    requires |vals| == rows * cols && rows > 0
    ensures cols <= |vals|
    ensures Reshape(vals, rows, cols) == [vals[..cols]] + Reshape(vals[cols..], rows - 1, cols)
  {
    RowEnd(0, rows, cols);
    var rest := vals[cols..];
    RowEnd(rows - 1, rows, cols);
    assert |rest| == (rows - 1) * cols;
    var g, h := Reshape(vals, rows, cols), [vals[..cols]] + Reshape(rest, rows - 1, cols);
    forall i | 1 <= i < rows
      ensures g[i] == h[i]
    {
      RowEnd(i - 1, rows - 1, cols);
      RowEnd(i, rows, cols);
    }
  }

  /** Reshaping loses nothing: the rows of the reshaped array concatenate
      back to the values read. */
  lemma {:induction false} ReshapeFlatten<T>(vals: seq<T>, rows: nat, cols: nat)
    requires |vals| == rows * cols
    ensures Flatten(Reshape(vals, rows, cols)) == vals
    decreases rows
  {
    if rows > 0 {
      ReshapeCons(vals, rows, cols);
      ReshapeFlatten(vals[cols..], rows - 1, cols);
      assert vals == vals[..cols] + vals[cols..];
    }
  }

  /** `270 - angle`, plus 360 where that is negative: the source's angle,
      counted from an odd origin, as a direction. */
  function Direction(angle: real): real {
    var d := 270.0 - angle;
    if d < 0.0 then d + 360.0 else d
  }

  /** The correction turns the angle into `270 - angle` modulo 360: it adds
      either nothing or one full turn. */
  lemma DirectionTurns(angle: real)
    ensures Direction(angle) == 270.0 - angle || Direction(angle) == 270.0 - angle + 360.0
    ensures Direction(angle) >= 270.0 - angle
  {
  }

  /** A direction lands in [0, 360) exactly for angles in (-90, 630]; a
      larger angle stays negative and a smaller one reaches 360 or more. */
  lemma DirectionRange(angle: real)
    ensures 0.0 <= Direction(angle) < 360.0 <==> -90.0 < angle <= 630.0
    ensures Direction(angle) < 0.0 <==> angle > 630.0
  {
  }

  function Directions(angles: seq<real>): (r: seq<real>)
    ensures |r| == |angles|
  {
    seq(|angles|, i requires 0 <= i < |angles| => Direction(angles[i]))
  }

  function Decoded(f32: Word -> real, words: seq<Word>): (r: seq<real>)
    ensures |r| == |words|
  {
    seq(|words|, i requires 0 <= i < |words| => f32(words[i]))
  }

  /** The lattice after the header, from offset `pos`. Both blocks are read
      before either is reshaped, so a truncated file reports the short read
      even when the counts are also unusable. */
  function GridDataAt(buf: seq<Byte>, pos: nat, h: GridHeader, f32: Word -> real): Result<GridData> {
    var rows, cols := h.lat.count, h.lon.count;
    if h.kind == 4 then
      var grid :- BlockAt(buf, pos, rows * cols);
      if rows < 0 || cols < 0 then Err(BadGeometry)
      else Ok(Scalar(Reshape(grid.item, rows, cols)))
    else if h.kind == 11 then
      var norm :- BlockAt(buf, pos, rows * cols);
      var angle :- BlockAt(buf, norm.next, rows * cols);
      if rows < 0 || cols < 0 then Err(BadGeometry)
      else Ok(Vector(Reshape(norm.item, rows, cols), Reshape(Directions(Decoded(f32, angle.item)), rows, cols)))
    else Ok(NoData)
  }

  /** The whole decode of `Grid(file)` on the bytes of the file. */
  function GridSpec(buf: seq<Byte>, f32: Word -> real): Result<GridFile> {
    var _ :- MagicAt(buf);
    var h :- GridHeaderAt(buf);
    var data :- GridDataAt(buf, h.next + 100, h.item, f32);
    Ok(GridFile(h.item, data))
  }

  /** With a whole header and axes that `np.arange` accepts, the decode is
      the header at its offsets, then the lattice from offset 278, and
      fails as the lattice does. */
  lemma GridLayout(buf: seq<Byte>, f32: Word -> real)
    requires MagicAt(buf).Ok? && 178 <= |buf| && !ArangeFails(LonAxis(buf)) && !ArangeFails(LatAxis(buf))
    ensures GridHeaderAt(buf).Ok?
    ensures var h := GridHeaderAt(buf).value.item;
            var d := GridDataAt(buf, DataStart, h, f32);
            && (GridSpec(buf, f32).Ok? <==> d.Ok?)
            && (d.Ok? ==> GridSpec(buf, f32).value == GridFile(h, d.value))
  {
    GridHeaderFields(buf);
  }

  /** A scalar lattice decodes exactly when the counts are not negative and
      the file holds `lat_number * lon_number` words from `pos`. */
  lemma ScalarData(buf: seq<Byte>, pos: nat, h: GridHeader, f32: Word -> real)
    requires h.kind == 4
    ensures var rows, cols := h.lat.count, h.lon.count;
            GridDataAt(buf, pos, h, f32).Ok? <==> rows >= 0 && cols >= 0 && (rows * cols == 0 || pos + 4 * rows * cols <= |buf|)
  {
    if h.lat.count < 0 && h.lon.count < 0 {
      assert h.lat.count * h.lon.count > 0;
    }
  }

  /** Cell `Grid[i][j]` is word `i * lon_number + j` of the block, and the
      array has `lat_number` rows of `lon_number` cells. */
  lemma ScalarCell(buf: seq<Byte>, pos: nat, h: GridHeader, f32: Word -> real, i: nat, j: nat)
    requires h.kind == 4 && GridDataAt(buf, pos, h, f32).Ok?
    requires i < h.lat.count && j < h.lon.count
    ensures var g := GridDataAt(buf, pos, h, f32).value;
            var k := i * h.lon.count + j;
            && g.Scalar? && |g.grid| == h.lat.count && |g.grid[i]| == h.lon.count
            && pos + 4 * k + 4 <= |buf| && g.grid[i][j] == buf[pos + 4 * k..pos + 4 * k + 4]
  {
    var rows, cols := h.lat.count, h.lon.count;
    var block := BlockAt(buf, pos, rows * cols);
    ReshapeCell(block.value.item, rows, cols, i, j);
    BlockWord(buf, pos, rows * cols, i * cols + j);
  }

  /** A vector lattice decodes exactly when the counts are not negative and
      the file holds two blocks of `lat_number * lon_number` words from
      `pos`. */
  lemma VectorData(buf: seq<Byte>, pos: nat, h: GridHeader, f32: Word -> real)
    requires h.kind == 11
    ensures var rows, cols := h.lat.count, h.lon.count;
            GridDataAt(buf, pos, h, f32).Ok? <==> rows >= 0 && cols >= 0 && (rows * cols == 0 || pos + 8 * rows * cols <= |buf|)
  {
    var rows, cols := h.lat.count, h.lon.count;
    var n := rows * cols;
    if rows < 0 && cols < 0 {
      assert n > 0;
    }
    assert 8 * rows * cols == 4 * n + 4 * n;
    var norm := BlockAt(buf, pos, n);
    if norm.Ok? {
      var angle := BlockAt(buf, norm.value.next, n);
      assert angle.Ok? <==> n == 0 || (n > 0 && pos + 8 * n <= |buf|);
    }
  }

  /** `Norm[i][j]` is word `i * lon_number + j` of the first block, and
      `Direction[i][j]` the corrected angle of the same word of the second
      block, which starts right after the first. */
  lemma VectorCell(buf: seq<Byte>, pos: nat, h: GridHeader, f32: Word -> real, i: nat, j: nat)
    requires h.kind == 11 && GridDataAt(buf, pos, h, f32).Ok?
    requires i < h.lat.count && j < h.lon.count
    ensures var g := GridDataAt(buf, pos, h, f32).value;
            var n := h.lat.count * h.lon.count;
            var k := i * h.lon.count + j;
            && g.Vector? && |g.norm| == |g.direction| == h.lat.count
            && |g.norm[i]| == |g.direction[i]| == h.lon.count
            && pos + 4 * (n + k) + 4 <= |buf|
            && g.norm[i][j] == buf[pos + 4 * k..pos + 4 * k + 4]
            && g.direction[i][j] == Direction(f32(buf[pos + 4 * (n + k)..pos + 4 * (n + k) + 4]))
  {
    var rows, cols := h.lat.count, h.lon.count;
    var n := rows * cols;
    var k := i * cols + j;
    var norm := BlockAt(buf, pos, n).value;
    var angle := BlockAt(buf, norm.next, n).value;
    ReshapeCell(norm.item, rows, cols, i, j);
    ReshapeCell(Directions(Decoded(f32, angle.item)), rows, cols, i, j);
    BlockWord(buf, pos, n, k);
    BlockWord(buf, norm.next, n, k);
    assert norm.next + 4 * k == pos + 4 * (n + k);
  }

  /** Any other data type reads nothing after the header: the file only
      needs its 178 header bytes, and only the axes are kept. */
  lemma OtherData(buf: seq<Byte>, pos: nat, h: GridHeader, f32: Word -> real)
    requires h.kind != 4 && h.kind != 11
    ensures GridDataAt(buf, pos, h, f32) == Ok(NoData)
  {
  }

  /** `corr_angle_array[corr_angle_array < 0] += 360`: the masked in-place
      add over every cell. */
  method WrapNegative(a: array<real>)
    modifies a
    ensures forall i :: 0 <= i < a.Length ==> a[i] == if old(a[i]) < 0.0 then old(a[i]) + 360.0 else old(a[i])
  {
    var i := 0;
    while i < a.Length
      invariant 0 <= i <= a.Length
      invariant forall k :: 0 <= k < i ==> a[k] == if old(a[k]) < 0.0 then old(a[k]) + 360.0 else old(a[k])
      invariant forall k :: i <= k < a.Length ==> a[k] == old(a[k])
    {
      if a[i] < 0.0 {
        a[i] := a[i] + 360.0;
      }
      i := i + 1;
    }
  }

  /** `270 - angle_array`, then the masked add: the corrected directions. */
  method CorrectAngles(angles: seq<real>) returns (corr: array<real>)
    ensures fresh(corr)
    ensures corr[..] == Directions(angles)
  {
    corr := new real[|angles|](i requires 0 <= i < |angles| => 270.0 - angles[i]);
    WrapNegative(corr);
  }

  method ReadBlock(c: Cursor, n: int) returns (r: Result<seq<Word>>)
    modifies c
    ensures r == ItemOf(BlockAt(c.buf, old(c.pos), n))
    ensures r.Ok? ==> c.pos == BlockAt(c.buf, old(c.pos), n).value.next
  {
    if n < 0 {
      return Err(BadGeometry);
    }
    if n == 0 {
      return Ok([]);
    }
    var raw :- c.Read(4 * n);
    r := Ok(Words(raw, n));
  }

  method ReadGridHeader(c: Cursor) returns (r: Result<GridHeader>)
    requires c.pos == 4
    modifies c
    ensures r == ItemOf(GridHeaderAt(c.buf))
    ensures r.Ok? ==> c.pos == GridHeaderAt(c.buf).value.next
  {
    var kind :- c.ReadInt(2);
    var modelName :- c.ReadText(20);
    var element :- c.ReadText(50);
    var description :- c.ReadText(30);
    r := ReadGridTail(c, kind, modelName, element, description);
  }

  method ReadGridTail(c: Cursor, kind: int, modelName: seq<Byte>, element: seq<Byte>, description: seq<Byte>)
    returns (r: Result<GridHeader>)
    modifies c
    ensures r == ItemOf(GridTail(c.buf, old(c.pos), kind, modelName, element, description))
    ensures r.Ok? ==> c.pos == GridTail(c.buf, old(c.pos), kind, modelName, element, description).value.next
  {
    var level :- c.Read(4);
    var time :- c.Read(20);
    var period :- c.ReadInt(4);
    var axes :- ReadAxes(c);
    r := Ok(GridHeader(kind, modelName, element, description, level, GridTimeOf(time), period, axes.0, axes.1, axes.2));
  }

  method ReadAxes(c: Cursor) returns (r: Result<(Axis, Axis, seq<Word>)>)
    modifies c
    ensures r == ItemOf(AxesAt(c.buf, old(c.pos)))
    ensures r.Ok? ==> c.pos == AxesAt(c.buf, old(c.pos)).value.next
  {
    var lon :- c.Read(16);
    var lat :- c.Read(16);
    if ArangeFails(AxisOf(lon)) || ArangeFails(AxisOf(lat)) {
      return Err(BadAxis);
    }
    var isoline :- c.Read(12);
    r := Ok((AxisOf(lon), AxisOf(lat), Words(isoline, 3)));
  }

  /** Reads the lattice that follows the header. */
  method ReadGridData(c: Cursor, h: GridHeader, f32: Word -> real) returns (r: Result<GridData>)
    modifies c
    ensures r == GridDataAt(c.buf, old(c.pos), h, f32)
  {
    var rows, cols := h.lat.count, h.lon.count;
    if h.kind == 4 {
      var grid :- ReadBlock(c, rows * cols);
      if rows < 0 || cols < 0 {
        return Err(BadGeometry);
      }
      r := Ok(Scalar(Reshape(grid, rows, cols)));
    } else if h.kind == 11 {
      var norm :- ReadBlock(c, rows * cols);
      var angle :- ReadBlock(c, rows * cols);
      if rows < 0 || cols < 0 {
        return Err(BadGeometry);
      }
      var corr := CorrectAngles(Decoded(f32, angle));
      r := Ok(Vector(Reshape(norm, rows, cols), Reshape(corr[..], rows, cols)));
    } else {
      r := Ok(NoData);
    }
  }

  /** `Grid(file)` on the bytes of the file, with `f32` decoding the angle
      words. */
  method DecodeGrid(bytes: seq<Byte>, f32: Word -> real) returns (r: Result<GridFile>)
    ensures r == GridSpec(bytes, f32)
  {
    var c := new Cursor(bytes);
    var _ :- c.CheckMagic();
    var h :- ReadGridHeader(c);
    c.Skip(100);
    var data :- ReadGridData(c, h, f32);
    r := Ok(GridFile(h, data));
  }
}
