/** `Station.__init__` of mdfs.py: the station decoder that pre-sizes one
    column per declared odd variable ID and writes each value into the row
    of its station. The functions state the decode step by step, in the
    order the source reads and writes; `DecodeStation` performs it through a
    cursor and is proved equal to `StationSpec`. */
module Station {
  import opened Common
  import opened LittleEndian
  import opened ByteCursor
  import opened Layout
  import opened StationHeader
  import opened Columns
  import opened PyDict

  type Table = map<Key, seq<Cell>>

  /** What a decoded file keeps: the header and the `data` columns. */
  datatype StationFile = StationFile(header: Header, data: Table)

  /** The column keys created before any record is read. */
  function InitialKeys(declared: map<int, int>): set<Key> {
    {ID, Lon, Lat} + set v | v in declared && Odd(v) :: Var(v)
  }

  /** `create_dict` for `ID`, `Lon`, `Lat` and every odd declared key, each
      with `[None] * station_num`. */
  function InitialColumns(declared: map<int, int>, n: int): Table {
    map k | k in InitialKeys(declared) :: Nones(n)
  }

  /** Whether an entry's value is written: its unpack is non-empty (its tag
      is not 1) and its ID is odd. */
  predicate Stored(e: Entry) {
    e.value.Some? && Odd(e.varId)
  }

  /** `if var_value and var_id % 2 != 0: data[var_id][idx] = var_value[0]`. */
  function StoreEntry(data: Table, row: nat, e: Entry): Result<Table> {
    if Stored(e) then SetItem(data, Var(e.varId), row, e.value.value) else Ok(data)
  }

  /** The `q_num` entries of station `row`, each read and then stored. */
  function Entries(buf: seq<Byte>, pos: nat, data: Table, row: nat, count: int, catalog: map<int, int>)
    : Result<Step<Table>>
    decreases count
  {
    if count <= 0 then Ok(Step(data, pos))
    else
      var e :- EntryAt(buf, pos, catalog, Current);
      var d :- StoreEntry(data, row, e.item);
      Entries(buf, e.next, d, row, count - 1, catalog)
  }

  /** The ID and position of station `row`, written into row `row` of `ID`,
      `Lon` and `Lat`. In text mode the ID is written before the position
      is read. */
  function Ident(buf: seq<Byte>, pos: nat, data: Table, row: nat, textIds: bool): Result<Step<Table>> {
    if !textIds then
      var s :- Take(buf, pos, 12);
      var d1 :- SetItem(data, ID, row, Int(SIntLE(s.item[0..4])));
      var d2 :- SetItem(d1, Lon, row, Float(s.item[4..8]));
      var d3 :- SetItem(d2, Lat, row, Float(s.item[8..12]));
      Ok(Step(d3, s.next))
    else
      var len :- IntAt(buf, pos, 2);
      var text :- Take(buf, len.next, len.item);
      var d1 :- SetItem(data, ID, row, Chars(text.item));
      var ll :- Take(buf, text.next, 8);
      var d2 :- SetItem(d1, Lon, row, Float(ll.item[0..4]));
      var d3 :- SetItem(d2, Lat, row, Float(ll.item[4..8]));
      Ok(Step(d3, ll.next))
  }

  /** One station record: identification, `q_num`, entries. */
  function Record(buf: seq<Byte>, pos: nat, data: Table, row: nat, textIds: bool, catalog: map<int, int>)
    : Result<Step<Table>>
  {
    var ident :- Ident(buf, pos, data, row, textIds);
    var q :- IntAt(buf, ident.next, 2);
    Entries(buf, q.next, ident.item, row, q.item, catalog)
  }

  /** Records `row` .. `n - 1`, in file order. */
  function Stations(buf: seq<Byte>, pos: nat, data: Table, row: nat, n: int, textIds: bool, catalog: map<int, int>)
    : Result<Step<Table>>
    decreases n - row
  {
    if row >= n then Ok(Step(data, pos))
    else
      var rec :- Record(buf, pos, data, row, textIds, catalog);
      Stations(buf, rec.next, rec.item, row + 1, n, textIds, catalog)
  }

  /** The whole decode of a station file with catalogue `catalog`
      (`id_dtype`). */
  function StationSpec(buf: seq<Byte>, catalog: map<int, int>): Result<StationFile> {
    var _ :- MagicAt(buf);
    var pre :- PreambleAt(buf, Current);
    var p := pre.item;
    var fin :- Stations(buf, pre.next, InitialColumns(DictOf(p.pairs), p.stationNum), 0, p.stationNum, p.textIds, catalog);
    Ok(StationFile(p.header, fin.item))
  }

  /** The columns `create_dict` has made once the keys `ks` of `x` have
      been visited. */
  function ColumnsFor(ks: seq<int>, n: int): Table {
    map k | k in KeysFor(ks) :: Nones(n)
  }

  function KeysFor(ks: seq<int>): set<Key> {
    {ID, Lon, Lat} + set v | v in ks && Odd(v) :: Var(v)
  }

  /** Visiting one more key adds its column when the key is odd. */
  lemma ColumnsForStep(ks: seq<int>, x: int, n: int)
    ensures ColumnsFor(ks + [x], n) == if Odd(x) then CreateDict(ColumnsFor(ks, n), Var(x), Nones(n)) else ColumnsFor(ks, n)
  {
    assert KeysFor(ks + [x]) == if Odd(x) then KeysFor(ks) + {Var(x)} else KeysFor(ks);
  }

  /** Every declared key, in the order `x.keys()` lists them, makes the
      columns of `InitialColumns`. */
  lemma ColumnsForDeclared(pairs: seq<(int, int)>, n: int)
    ensures ColumnsFor(KeyOrder(pairs), n) == InitialColumns(DictOf(pairs), n)
  {
    KeyOrderIsDict(pairs);
    assert InitialKeys(DictOf(pairs)) == KeysFor(KeyOrder(pairs));
  }

  /** The pre-sized columns: `ID`, `Lon`, `Lat` and one per odd key declared
      in the file, each `[None] * station_num`. */
  lemma InitialColumnsDeclared(pairs: seq<(int, int)>, n: int)
    ensures forall k :: k in InitialColumns(DictOf(pairs), n) <==>
              k == ID || k == Lon || k == Lat || (k.Var? && Odd(k.id) && HasKey(pairs, k.id))
    ensures forall k :: k in InitialColumns(DictOf(pairs), n) ==> InitialColumns(DictOf(pairs), n)[k] == Nones(n)
  {
    DictOfPairs(pairs);
  }

  /** mdfs.py:60-65: `ID`, `Lon`, `Lat`, then every odd key of `x` in the
      order `x.keys()` lists them, each with `[None] * station_num`. */
  method CreateColumns(pairs: seq<(int, int)>, n: int) returns (data: Table)
    ensures data == InitialColumns(DictOf(pairs), n)
  {
    data := map[];
    data := CreateDict(data, ID, Nones(n));
    data := CreateDict(data, Lon, Nones(n));
    data := CreateDict(data, Lat, Nones(n));
    var keys := KeyOrder(pairs);
    assert data == ColumnsFor(keys[..0], n);
    for i := 0 to |keys|
      invariant data == ColumnsFor(keys[..i], n)
    {
      ColumnsForStep(keys[..i], keys[i], n);
      assert keys[..i + 1] == keys[..i] + [keys[i]];
      if Odd(keys[i]) {
        data := CreateDict(data, Var(keys[i]), Nones(n));
      }
    }
    assert keys[..|keys|] == keys;
    ColumnsForDeclared(pairs, n);
  }

  method ReadIdent(c: Cursor, data: Table, row: nat, textIds: bool) returns (r: Result<Table>)
    modifies c
    ensures r == ItemOf(Ident(c.buf, old(c.pos), data, row, textIds))
    ensures r.Ok? ==> c.pos == Ident(c.buf, old(c.pos), data, row, textIds).value.next
  {
    var d := data;
    if !textIds {
      var s :- c.Read(12);
      d :- SetItem(d, ID, row, Int(SIntLE(s[0..4])));
      d :- SetItem(d, Lon, row, Float(s[4..8]));
      d :- SetItem(d, Lat, row, Float(s[8..12]));
    } else {
      var len :- c.ReadInt(2);
      var text :- c.Read(len);
      d :- SetItem(d, ID, row, Chars(text));
      var ll :- c.Read(8);
      d :- SetItem(d, Lon, row, Float(ll[0..4]));
      d :- SetItem(d, Lat, row, Float(ll[4..8]));
    }
    r := Ok(d);
  }

  method ReadEntries(c: Cursor, data: Table, row: nat, count: int, catalog: map<int, int>) returns (r: Result<Table>)
    modifies c
    ensures r == ItemOf(Entries(c.buf, old(c.pos), data, row, count, catalog))
    ensures r.Ok? ==> c.pos == Entries(c.buf, old(c.pos), data, row, count, catalog).value.next
  {
    var d := data;
    var i := 0;
    while i < count
      invariant Entries(c.buf, old(c.pos), data, row, count, catalog) == Entries(c.buf, c.pos, d, row, count - i, catalog)
      decreases count - i
    {
      ghost var p := c.pos;
      var e := ReadEntry(c, catalog, Current);
      ghost var step := EntryAt(c.buf, p, catalog, Current);
      assert Entries(c.buf, p, d, row, count - i, catalog) ==
        if step.Err? then Err(step.error)
        else match StoreEntry(d, row, step.value.item)
             case Err(err) => Err(err)
             case Ok(d') => Entries(c.buf, step.value.next, d', row, count - i - 1, catalog);
      if e.Err? {
        return Err(e.error);
      }
      var stored := StoreEntry(d, row, e.value);
      if stored.Err? {
        return Err(stored.error);
      }
      d := stored.value;
      i := i + 1;
    }
    r := Ok(d);
  }

  method ReadRecord(c: Cursor, data: Table, row: nat, textIds: bool, catalog: map<int, int>) returns (r: Result<Table>)
    modifies c
    ensures r == ItemOf(Record(c.buf, old(c.pos), data, row, textIds, catalog))
    ensures r.Ok? ==> c.pos == Record(c.buf, old(c.pos), data, row, textIds, catalog).value.next
  {
    var d :- ReadIdent(c, data, row, textIds);
    var q :- c.ReadInt(2);
    r := ReadEntries(c, d, row, q, catalog);
  }

  /** `Station(file)` on the bytes of an uncompressed file. */
  method DecodeStation(bytes: seq<Byte>, catalog: map<int, int>) returns (r: Result<StationFile>)
    ensures r == StationSpec(bytes, catalog)
  {
    var c := new Cursor(bytes);
    var _ :- c.CheckMagic();
    var pre :- ReadPreamble(c, Current);
    var data := CreateColumns(pre.pairs, pre.stationNum);
    ghost var start := c.pos;
    var row: nat := 0;
    while row < pre.stationNum
      invariant c.buf == bytes
      invariant Stations(bytes, start, InitialColumns(DictOf(pre.pairs), pre.stationNum), 0, pre.stationNum, pre.textIds, catalog)
             == Stations(bytes, c.pos, data, row, pre.stationNum, pre.textIds, catalog)
      decreases pre.stationNum - row
    {
      ghost var p := c.pos;
      var rec := ReadRecord(c, data, row, pre.textIds, catalog);
      ghost var step := Record(bytes, p, data, row, pre.textIds, catalog);
      assert Stations(bytes, p, data, row, pre.stationNum, pre.textIds, catalog) ==
        if step.Err? then Err(step.error)
        else Stations(bytes, step.value.next, step.value.item, row + 1, pre.stationNum, pre.textIds, catalog);
      if rec.Err? {
        return Err(rec.error);
      }
      data := rec.value;
      row := row + 1;
    }
    r := Ok(StationFile(pre.header, data));
  }
}
