/** `MDFS_Station.__init__` of read_mdfs.py: the older station decoder. It
    never reads `id_type` (IDs are always the fixed int32 form), creates a
    column the first time a variable is stored and appends to it, keeps
    every value whose unpack is non-empty (quality-control codes included)
    and reads tag 4 as 4 bytes. The functions state the decode in the order
    the source performs it; `DecodeLegacyStation` performs it through a
    cursor and is proved equal to `LegacySpec`. */
module LegacyStation {
  import opened Common
  import opened LittleEndian
  import opened ByteCursor
  import opened Layout
  import opened StationHeader
  import opened Columns

  /** The `data` dictionary of read_mdfs.py: lists grown by `append`. */
  type Lists = map<Key, seq<Value>>

  datatype LegacyFile = LegacyFile(header: Header, data: Lists)

  /** `create_dict(data, key)` followed by `data[key].append(v)`: the value
      lands at the end of the key's list, which is created empty if
      missing; no other list changes. */
  function AppendItem(data: Lists, key: Key, v: Value): (r: Lists)
    ensures r.Keys == data.Keys + {key}
    ensures key in data ==> r[key] == data[key] + [v]
    ensures key !in data ==> r[key] == [v]
    ensures forall k :: k in data && k != key ==> r[k] == data[k]
  {
    var d := CreateDict(data, key, []);
    d[key := d[key] + [v]]
  }

  /** `if var_value: create_dict(data, var_id); data[var_id].append(...)`:
      every entry whose unpack is non-empty is kept, whatever the parity of
      its ID. */
  function AppendEntry(data: Lists, e: Entry): Lists {
    if e.value.Some? then AppendItem(data, Var(e.varId), e.value.value) else data
  }

  /** The `q_num` entries of one record, each read and then appended. */
  function LegacyEntries(buf: seq<Byte>, pos: nat, data: Lists, count: int, catalog: map<int, int>)
    : (r: Result<Step<Lists>>)
    ensures r.Ok? ==> data.Keys <= r.value.item.Keys
    decreases count
  {
    if count <= 0 then Ok(Step(data, pos))
    else
      var e :- EntryAt(buf, pos, catalog, Legacy);
      LegacyEntries(buf, e.next, AppendEntry(data, e.item), count - 1, catalog)
  }

  /** One record: the 12-byte `'iff'` appended to `ID`, `Lon` and `Lat`,
      then `q_num` and the entries. */
  function LegacyRecord(buf: seq<Byte>, pos: nat, data: Lists, catalog: map<int, int>): (r: Result<Step<Lists>>)
    ensures r.Ok? ==> data.Keys + {ID, Lon, Lat} <= r.value.item.Keys
  {
    var s :- Take(buf, pos, 12);
    var d := AppendItem(AppendItem(AppendItem(data, ID, Int(SIntLE(s.item[0..4]))), Lon, Float(s.item[4..8])),
                        Lat, Float(s.item[8..12]));
    var q :- IntAt(buf, s.next, 2);
    LegacyEntries(buf, q.next, d, q.item, catalog)
  }

  /** Records `row` .. `n - 1`, in file order. */
  function LegacyStations(buf: seq<Byte>, pos: nat, data: Lists, row: nat, n: int, catalog: map<int, int>)
    : Result<Step<Lists>>
    decreases n - row
  {
    if row >= n then Ok(Step(data, pos))
    else
      var rec :- LegacyRecord(buf, pos, data, catalog);
      LegacyStations(buf, rec.next, rec.item, row + 1, n, catalog)
  }

  /** `ID`, `Lon` and `Lat` created empty by `create_dict`. */
  function InitialLists(): (r: Lists)
    ensures r.Keys == {ID, Lon, Lat} && forall k :: k in r ==> r[k] == []
  {
    map[ID := [], Lon := [], Lat := []]
  }

  /** The whole decode with catalogue `catalog` (`var_table`). */
  function LegacySpec(buf: seq<Byte>, catalog: map<int, int>): Result<LegacyFile> {
    var _ :- MagicAt(buf);
    var pre :- PreambleAt(buf, Legacy);
    var fin :- LegacyStations(buf, pre.next, InitialLists(), 0, pre.item.stationNum, catalog);
    Ok(LegacyFile(pre.item.header, fin.item))
  }

  method ReadLegacyEntries(c: Cursor, data: Lists, count: int, catalog: map<int, int>) returns (r: Result<Lists>)
    modifies c
    ensures r == ItemOf(LegacyEntries(c.buf, old(c.pos), data, count, catalog))
    ensures r.Ok? ==> c.pos == LegacyEntries(c.buf, old(c.pos), data, count, catalog).value.next
  {
    var d := data;
    var i := 0;
    while i < count
      invariant LegacyEntries(c.buf, old(c.pos), data, count, catalog) == LegacyEntries(c.buf, c.pos, d, count - i, catalog)
      decreases count - i
    {
      ghost var p := c.pos;
      var e := ReadEntry(c, catalog, Legacy);
      ghost var step := EntryAt(c.buf, p, catalog, Legacy);
      assert LegacyEntries(c.buf, p, d, count - i, catalog) ==
        if step.Err? then Err(step.error)
        else LegacyEntries(c.buf, step.value.next, AppendEntry(d, step.value.item), count - i - 1, catalog);
      if e.Err? {
        return Err(e.error);
      }
      if e.value.value.Some? {
        var key := Var(e.value.varId);
        d := CreateDict(d, key, []);
        d := d[key := d[key] + [e.value.value.value]];
      }
      i := i + 1;
    }
    r := Ok(d);
  }

  method ReadLegacyRecord(c: Cursor, data: Lists, catalog: map<int, int>) returns (r: Result<Lists>)
    requires ID in data && Lon in data && Lat in data
    modifies c
    ensures r == ItemOf(LegacyRecord(c.buf, old(c.pos), data, catalog))
    ensures r.Ok? ==> c.pos == LegacyRecord(c.buf, old(c.pos), data, catalog).value.next
  {
    var s :- c.Read(12);
    var d := data;
    d := d[ID := d[ID] + [Int(SIntLE(s[0..4]))]];
    d := d[Lon := d[Lon] + [Float(s[4..8])]];
    d := d[Lat := d[Lat] + [Float(s[8..12])]];
    var q :- c.ReadInt(2);
    r := ReadLegacyEntries(c, d, q, catalog);
  }

  /** `MDFS_Station(filepath)` on the bytes of the file. */
  method DecodeLegacyStation(bytes: seq<Byte>, catalog: map<int, int>) returns (r: Result<LegacyFile>)
    ensures r == LegacySpec(bytes, catalog)
  {
    var c := new Cursor(bytes);
    var _ :- c.CheckMagic();
    var pre :- ReadPreamble(c, Legacy);
    var data: Lists := map[];
    data := CreateDict(data, ID, []);
    data := CreateDict(data, Lon, []);
    data := CreateDict(data, Lat, []);
    ghost var start := c.pos;
    var row: nat := 0;
    while row < pre.stationNum
      invariant c.buf == bytes
      invariant ID in data && Lon in data && Lat in data
      invariant LegacyStations(bytes, start, InitialLists(), 0, pre.stationNum, catalog)
             == LegacyStations(bytes, c.pos, data, row, pre.stationNum, catalog)
      decreases pre.stationNum - row
    {
      ghost var p := c.pos;
      var rec := ReadLegacyRecord(c, data, catalog);
      ghost var step := LegacyRecord(bytes, p, data, catalog);
      assert LegacyStations(bytes, p, data, row, pre.stationNum, catalog) ==
        if step.Err? then Err(step.error)
        else LegacyStations(bytes, step.value.next, step.value.item, row + 1, pre.stationNum, catalog);
      if rec.Err? {
        return Err(rec.error);
      }
      data := rec.value;
      row := row + 1;
    }
    r := Ok(LegacyFile(pre.header, data));
  }
}
