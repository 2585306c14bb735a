/** The fixed header of a station file and its declared-quantity map, as
    both station decoders read them (mdfs.py:45-58, read_mdfs.py:24-35). */
module StationHeader {
  import opened Common
  import opened LittleEndian
  import opened ByteCursor
  import opened Layout

  /** The seven int32 fields year, month, day, hour, minute, second and the
      time-zone offset in hours, as stored. */
  datatype Time = Time(year: int, month: int, day: int, hour: int, minute: int, second: int, tzHours: int)

  /** The header fields: `dtype`, `data_dsc`, `level` (an opaque float32
      word), `level_dsc` and the local time fields. */
  datatype Header = Header(kind: int, description: seq<Byte>, level: seq<Byte>, levelDescription: seq<Byte>, time: Time)

  /** What precedes the station records: the header, whether IDs are text
      (`id_type == 1`, read by mdfs.py only), `station_num` and the
      `quantity_num` (key, value) pairs from which the map `x` is built. */
  datatype Preamble = Preamble(header: Header, textIds: bool, stationNum: int, pairs: seq<(int, int)>)

  /** Field k of a `'7i'` block. */
  function Int32Field(s: seq<Byte>, k: nat): int
    requires 4 * k + 4 <= |s|
  {
    SIntLE(s[4 * k..4 * k + 4])
  }

  function TimeOf(s: seq<Byte>): Time
    requires |s| == 28
  {
    Time(Int32Field(s, 0), Int32Field(s, 1), Int32Field(s, 2), Int32Field(s, 3),
         Int32Field(s, 4), Int32Field(s, 5), Int32Field(s, 6))
  }

  /** The header fields after the magic: int16 at 4, 100 bytes of text at 6,
      float32 at 106, 50 bytes of text at 110, `'7i'` at 160; it ends at 188. */
  function HeaderAt(buf: seq<Byte>): Result<Step<Header>> {
    var kind :- IntAt(buf, 4, 2);
    var description :- TextAt(buf, kind.next, 100);
    var level :- Take(buf, description.next, 4);
    var levelDescription :- TextAt(buf, level.next, 50);
    var time :- Take(buf, levelDescription.next, 28);
    Ok(Step(Header(kind.item, description.item, level.item, levelDescription.item, TimeOf(time.item)), time.next))
  }

  /** The header is read exactly when the file has its 188 bytes, and each
      field comes from its fixed offset. */
  lemma HeaderFields(buf: seq<Byte>)
    ensures HeaderAt(buf).Ok? <==> 188 <= |buf|
    ensures HeaderAt(buf).Ok? ==>
              HeaderAt(buf).value == Step(Header(SIntLE(buf[4..6]), StripNul(buf[6..106]), buf[106..110],
                                                 StripNul(buf[110..160]), TimeOf(buf[160..188])), 188)
  {
  }

  /** The i-th declared pair, for pairs starting at `pos`. */
  function PairAt(buf: seq<Byte>, pos: nat, i: nat): (int, int)
    requires pos + 4 * i + 4 <= |buf|
  {
    (SIntLE(buf[pos + 4 * i..pos + 4 * i + 2]), SIntLE(buf[pos + 4 * i + 2..pos + 4 * i + 4]))
  }

  /** The list comprehension that feeds `dict`: `count` pairs of int16s, each
      read key first, appended to `acc`. */
  function DeclaredAt(buf: seq<Byte>, pos: nat, count: int, acc: seq<(int, int)>): (r: Result<Step<seq<(int, int)>>>)
    decreases count
  {
    if count <= 0 then Ok(Step(acc, pos))
    else
      var key :- IntAt(buf, pos, 2);
      var value :- IntAt(buf, key.next, 2);
      DeclaredAt(buf, value.next, count - 1, acc + [(key.item, value.item)])
  }

  /** One pair read: four more bytes, or a truncated file. */
  lemma DeclaredStep(buf: seq<Byte>, pos: nat, count: int, acc: seq<(int, int)>)
    requires count > 0
    ensures DeclaredAt(buf, pos, count, acc) ==
              if pos + 4 <= |buf| then DeclaredAt(buf, pos + 4, count - 1, acc + [PairAt(buf, pos, 0)]) else Err(Truncated)
  {
  }

  /** The `n` pairs stored from `pos` on, in file order. */
  function PairsAt(buf: seq<Byte>, pos: nat, n: nat): (r: seq<(int, int)>)
    requires n == 0 || pos + 4 * n <= |buf|
    ensures |r| == n
  {
    seq(n, i requires 0 <= i < n => PairAt(buf, pos, i))
  }

  lemma PairsCons(buf: seq<Byte>, pos: nat, n: nat)
    requires n > 0 && pos + 4 * n <= |buf|
    ensures PairsAt(buf, pos, n) == [PairAt(buf, pos, 0)] + PairsAt(buf, pos + 4, n - 1)
  {
    assert forall i :: 0 < i < n ==> PairAt(buf, pos + 4, i - 1) == PairAt(buf, pos, i);
  }

  lemma PairsSnoc(buf: seq<Byte>, pos: nat, n: nat)
    requires pos + 4 * (n + 1) <= |buf|
    ensures PairsAt(buf, pos, n + 1) == PairsAt(buf, pos, n) + [PairAt(buf, pos, n)]
  {
  }

  /** The pairs take 4 bytes each: the read succeeds exactly when they all
      fit in the file, and then appends them to `acc` in file order. */
  lemma {:induction false} DeclaredRead(buf: seq<Byte>, pos: nat, count: int, acc: seq<(int, int)>)
    ensures var n := if count < 0 then 0 else count;
            DeclaredAt(buf, pos, count, acc) ==
              if n == 0 || pos + 4 * n <= |buf| then Ok(Step(acc + PairsAt(buf, pos, n), pos + 4 * n)) else Err(Truncated)
    decreases count
  {
    if count > 0 {
      DeclaredStep(buf, pos, count, acc);
      assert 4 * count == 4 + 4 * (count - 1);
      if pos + 4 <= |buf| {
        var acc' := acc + [PairAt(buf, pos, 0)];
        DeclaredRead(buf, pos + 4, count - 1, acc');
        if pos + 4 * count <= |buf| {
          PairsCons(buf, pos, count);
          assert acc' + PairsAt(buf, pos + 4, count - 1) == acc + PairsAt(buf, pos, count);
        }
      }
    } else {
      assert acc + PairsAt(buf, pos, 0) == acc;
    }
  }

  /** The header, then (mdfs.py only) `id_type` at 188 and a 98-byte seek,
      or (read_mdfs.py) a 100-byte seek; either way `station_num` is the
      int32 at 288, `quantity_num` the int16 at 292, and the declared pairs
      start at 294. */
  function PreambleAt(buf: seq<Byte>, v: Variant): Result<Step<Preamble>> {
    var header :- HeaderAt(buf);
    var mode :- if v == Current then
                  var idType :- IntAt(buf, header.next, 2);
                  Ok(Step(idType.item == 1, idType.next + 98))
                else Ok(Step(false, header.next + 100));
    PreambleTail(buf, header.item, mode.item)
  }

  /** From offset 288 on: `station_num`, `quantity_num` and the pairs. */
  function PreambleTail(buf: seq<Byte>, header: Header, textIds: bool): (r: Result<Step<Preamble>>)
  {
    var stationNum :- IntAt(buf, 288, 4);
    var quantityNum :- IntAt(buf, stationNum.next, 2);
    var declared :- DeclaredAt(buf, quantityNum.next, quantityNum.item, []);
    Ok(Step(Preamble(header, textIds, stationNum.item, declared.item), declared.next))
  }

  /** Where the preamble's fields come from: the header at 4, `id_type` at
      188 (mdfs.py only), `station_num` at 288; the rest is `PreambleTail`. */
  lemma PreambleFields(buf: seq<Byte>, v: Variant)
    requires PreambleAt(buf, v).Ok?
    ensures var r := PreambleAt(buf, v);
            && |buf| >= 294
            && r.value.item.stationNum == SIntLE(buf[288..292])
            && r.value.item.textIds == (v == Current && SIntLE(buf[188..190]) == 1)
            && r.value.item.header == HeaderAt(buf).value.item
            && r == PreambleTail(buf, HeaderAt(buf).value.item, r.value.item.textIds)
  {
  }

  /** The records start right after the `quantity_num` pairs, which are
      read in file order from offset 294. */
  lemma PreambleDeclared(buf: seq<Byte>, v: Variant)
    requires PreambleAt(buf, v).Ok?
    ensures var q := SIntLE(buf[292..294]);
            var n := if q < 0 then 0 else q;
            var pairs := PreambleAt(buf, v).value.item.pairs;
            && PreambleAt(buf, v).value.next == 294 + 4 * n <= |buf|
            && pairs == PairsAt(buf, 294, n)
  {
    PreambleFields(buf, v);
    DeclaredRead(buf, 294, SIntLE(buf[292..294]), []);
  }

  method ReadHeader(c: Cursor) returns (r: Result<Header>)
    requires c.pos == 4
    modifies c
    ensures r == ItemOf(HeaderAt(c.buf))
    ensures r.Ok? ==> c.pos == 188
  {
    var kind :- c.ReadInt(2);
    var description :- c.ReadText(100);
    var level :- c.Read(4);
    var levelDescription :- c.ReadText(50);
    var time :- c.Read(28);
    r := Ok(Header(kind, description, level, levelDescription, TimeOf(time)));
  }

  method ReadDeclared(c: Cursor, count: int) returns (r: Result<seq<(int, int)>>)
    modifies c
    ensures r == ItemOf(DeclaredAt(c.buf, old(c.pos), count, []))
    ensures r.Ok? ==> c.pos == DeclaredAt(c.buf, old(c.pos), count, []).value.next
  {
    ghost var start := c.pos;
    var pairs: seq<(int, int)> := [];
    var i := 0;
    while i < count
      invariant 0 <= i && (i == 0 || i <= count)
      invariant i == 0 || start + 4 * i <= |c.buf|
      invariant c.pos == start + 4 * i
      invariant pairs == PairsAt(c.buf, start, i)
      decreases count - i
    {
      var key := c.ReadInt(2);
      if key.Err? {
        DeclaredRead(c.buf, start, count, []);
        return Err(Truncated);
      }
      var value := c.ReadInt(2);
      if value.Err? {
        DeclaredRead(c.buf, start, count, []);
        return Err(Truncated);
      }
      PairsSnoc(c.buf, start, i);
      pairs := pairs + [(key.value, value.value)];
      i := i + 1;
    }
    DeclaredRead(c.buf, start, count, []);
    assert [] + pairs == pairs;
    r := Ok(pairs);
  }

  /** Reads everything before the station records, from just after the
      magic. */
  method ReadPreamble(c: Cursor, v: Variant) returns (r: Result<Preamble>)
    requires c.pos == 4
    modifies c
    ensures r == ItemOf(PreambleAt(c.buf, v))
    ensures r.Ok? ==> c.pos == PreambleAt(c.buf, v).value.next
  {
    var header :- ReadHeader(c);
    var textIds := false;
    if v == Current {
      var idType :- c.ReadInt(2);
      textIds := idType == 1;
      c.Skip(98);
    } else {
      c.Skip(100);
    }
    r := ReadTail(c, header, textIds);
  }

  method ReadTail(c: Cursor, header: Header, textIds: bool) returns (r: Result<Preamble>)
    requires c.pos == 288
    modifies c
    ensures r == ItemOf(PreambleTail(c.buf, header, textIds))
    ensures r.Ok? ==> c.pos == PreambleTail(c.buf, header, textIds).value.next
  {
    var stationNum :- c.ReadInt(4);
    var quantityNum :- c.ReadInt(2);
    var declared :- ReadDeclared(c, quantityNum);
    r := Ok(Preamble(header, textIds, stationNum, declared));
  }
}
