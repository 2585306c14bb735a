/** What `Station.__init__` of mdfs.py computes, stated against the records
    as laid out in the file (`Layout.RecordsAt`): when it succeeds, every
    column keeps its pre-sized length, row j of `ID`, `Lon` and `Lat` holds
    the j-th record's identification, and row j of an odd variable's column
    holds the last value stored for it by the j-th record (None if there is
    none). It fails exactly when the records cannot be read or a record
    stores a variable whose column was never created. */
module StationFacts {
  import opened Common
  import opened ByteCursor
  import opened Layout
  import opened StationHeader
  import opened Columns
  import opened PyDict
  import opened Station
  import opened Runs

  /** The cell a run of stores leaves for variable `v`: the value of the last
      stored entry with that ID, or `cell` when there is none. */
  function Latest(es: seq<Entry>, v: int, cell: Cell): Cell
    decreases |es|
  {
    if |es| == 0 then cell
    else Latest(es[1..], v, if Stored(es[0]) && es[0].varId == v then es[0].value else cell)
  }

  /** Every stored entry of `es` has its column among `keys`; otherwise
      `data[var_id]` raises KeyError. */
  predicate Storable(keys: set<Key>, es: seq<Entry>)
    decreases |es|
  {
    |es| == 0 || ((!Stored(es[0]) || Var(es[0].varId) in keys) && Storable(keys, es[1..]))
  }

  /** The same, for the entries of every record of `recs`. */
  predicate AllStorable(keys: set<Key>, recs: seq<Layout.Record>)
    decreases |recs|
  {
    |recs| == 0 || (Storable(keys, recs[0].entries) && AllStorable(keys, recs[1..]))
  }

  /** `Storable` says that no stored entry lacks its column. */
  lemma {:induction false} StorableMeans(keys: set<Key>, es: seq<Entry>)
    ensures Storable(keys, es) <==> forall i :: 0 <= i < |es| && Stored(es[i]) ==> Var(es[i].varId) in keys
    decreases |es|
  {
    if |es| > 0 {
      StorableMeans(keys, es[1..]);
      assert forall i :: 1 <= i < |es| ==> es[i] == es[1..][i - 1];
    }
  }

  /** `AllStorable` says that every record is `Storable`. */
  lemma {:induction false} AllStorableMeans(keys: set<Key>, recs: seq<Layout.Record>)
    ensures AllStorable(keys, recs) <==> forall i :: 0 <= i < |recs| ==> Storable(keys, recs[i].entries)
    decreases |recs|
  {
    if |recs| > 0 {
      AllStorableMeans(keys, recs[1..]);
      assert forall i :: 1 <= i < |recs| ==> recs[i] == recs[1..][i - 1];
    }
  }

  /** Every column has `m` rows. */
  predicate Shaped(data: Table, m: nat) {
    forall k :: k in data ==> |data[k]| == m
  }

  /** Without a stored entry for `v`, the cell stays as it was. */
  lemma {:induction false} LatestUntouched(es: seq<Entry>, v: int, cell: Cell)
    requires forall i :: 0 <= i < |es| ==> !(Stored(es[i]) && es[i].varId == v)
    ensures Latest(es, v, cell) == cell
    decreases |es|
  {
    if |es| > 0 {
      LatestUntouched(es[1..], v, cell);
    }
  }

  /** With a stored entry for `v`, the cell holds the value of one of them. */
  lemma {:induction false} LatestFromEntry(es: seq<Entry>, v: int, cell: Cell)
    requires exists i :: 0 <= i < |es| && Stored(es[i]) && es[i].varId == v
    ensures exists i :: 0 <= i < |es| && Stored(es[i]) && es[i].varId == v && Latest(es, v, cell) == es[i].value
    decreases |es|
  {
    var i :| 0 <= i < |es| && Stored(es[i]) && es[i].varId == v;
    var cell' := if Stored(es[0]) && es[0].varId == v then es[0].value else cell;
    if exists j :: 0 <= j < |es[1..]| && Stored(es[1..][j]) && es[1..][j].varId == v {
      LatestFromEntry(es[1..], v, cell');
      var j :| 0 <= j < |es[1..]| && Stored(es[1..][j]) && es[1..][j].varId == v && Latest(es[1..], v, cell') == es[1..][j].value;
      assert es[j + 1] == es[1..][j];
    } else {
      assert i == 0;
      LatestUntouched(es[1..], v, cell');
    }
  }

  /** `data[key][row] = Some(v)` where that is possible; the decode only
      writes where it is (the lemmas below show when). */
  function Put(data: Table, key: Key, row: nat, v: Value): Table {
    if key in data && row < |data[key]| then data[key := data[key][row := Some(v)]] else data
  }

  /** The stores of one record's entries, in order. */
  function StoreAll(data: Table, row: nat, es: seq<Entry>): Table
    decreases |es|
  {
    if |es| == 0 then data
    else StoreAll(if Stored(es[0]) then Put(data, Var(es[0].varId), row, es[0].value.value) else data, row, es[1..])
  }

  /** The writes of one record into row `row`: identification, then entries. */
  function FillRecord(data: Table, row: nat, rec: Layout.Record): Table {
    var d := Put(Put(Put(data, ID, row, rec.id), Lon, row, Float(rec.lon)), Lat, row, Float(rec.lat));
    StoreAll(d, row, rec.entries)
  }

  /** The writes of records `recs` into rows `row`, `row + 1`, .... */
  function FillRows(data: Table, row: nat, recs: seq<Layout.Record>): Table
    decreases |recs|
  {
    if |recs| == 0 then data
    else FillRows(FillRecord(data, row, recs[0]), row + 1, recs[1..])
  }

  /** The entries of one record, read and stored in turn (`Station.Entries`),
      amount to reading them all (`Layout.EntriesAt`) and then storing each;
      the read fails exactly when the scan fails or a stored entry has no
      column. */
  lemma {:induction false} EntriesFill(buf: seq<Byte>, pos: nat, data: Table, row: nat, m: nat, count: int, catalog: map<int, int>)
    requires row < m && Shaped(data, m)
    ensures var out := Entries(buf, pos, data, row, count, catalog);
            var scan := EntriesAt(buf, pos, count, catalog, Current);
            out.Ok? <==> scan.Ok? && Storable(data.Keys, scan.value.item)
    ensures var out := Entries(buf, pos, data, row, count, catalog);
            var scan := EntriesAt(buf, pos, count, catalog, Current);
            out.Ok? ==> out.value == Step(StoreAll(data, row, scan.value.item), scan.value.next)
    decreases count
  {
    if count > 0 {
      var step := EntryAt(buf, pos, catalog, Current);
      if step.Ok? {
        var e := step.value.item;
        var rest := EntriesAt(buf, step.value.next, count - 1, catalog, Current);
        var scan := EntriesAt(buf, pos, count, catalog, Current);
        assert scan == Prepend([e], rest);
        var stored := StoreEntry(data, row, e);
        if stored.Ok? {
          var d := stored.value;
          assert d == if Stored(e) then Put(data, Var(e.varId), row, e.value.value) else data;
          assert d.Keys == data.Keys && Shaped(d, m);
          EntriesFill(buf, step.value.next, d, row, m, count - 1, catalog);
          assert Entries(buf, pos, data, row, count, catalog) == Entries(buf, step.value.next, d, row, count - 1, catalog);
          if rest.Ok? {
            assert scan.value.item[1..] == rest.value.item;
          }
        }
      }
    }
  }

  /** Writing one record's identification: succeeds exactly when its bytes
      can be read. */
  lemma IdentFill(buf: seq<Byte>, pos: nat, data: Table, row: nat, m: nat, textIds: bool)
    requires row < m && Shaped(data, m) && ID in data && Lon in data && Lat in data
    ensures Station.Ident(buf, pos, data, row, textIds).Ok? <==> IdentAt(buf, pos, textIds).Ok?
    ensures var out := Station.Ident(buf, pos, data, row, textIds);
            var scan := IdentAt(buf, pos, textIds);
            out.Ok? ==>
              out.value == Step(Put(Put(Put(data, ID, row, scan.value.item.0), Lon, row, Float(scan.value.item.1)),
                                    Lat, row, Float(scan.value.item.2)), scan.value.next)
  {
  }

  /** One record read and stored (`Station.Record`) against the same record
      read alone (`Layout.RecordAt`) and then written (`FillRecord`). */
  lemma RecordFill(buf: seq<Byte>, pos: nat, data: Table, row: nat, m: nat, textIds: bool, catalog: map<int, int>)
    requires row < m && Shaped(data, m) && ID in data && Lon in data && Lat in data
    ensures var out := Station.Record(buf, pos, data, row, textIds, catalog);
            var scan := RecordAt(buf, pos, textIds, catalog, Current);
            out.Ok? <==> scan.Ok? && Storable(data.Keys, scan.value.item.entries)
    ensures var out := Station.Record(buf, pos, data, row, textIds, catalog);
            var scan := RecordAt(buf, pos, textIds, catalog, Current);
            out.Ok? ==> out.value == Step(FillRecord(data, row, scan.value.item), scan.value.next)
  {
    IdentFill(buf, pos, data, row, m, textIds);
    var ident := Station.Ident(buf, pos, data, row, textIds);
    var id := IdentAt(buf, pos, textIds);
    if ident.Ok? {
      var d := ident.value.item;
      assert d.Keys == data.Keys && Shaped(d, m);
      var q := IntAt(buf, ident.value.next, 2);
      if q.Ok? {
        var count := q.value.item;
        EntriesFill(buf, q.value.next, d, row, m, count, catalog);
        var scan := EntriesAt(buf, q.value.next, count, catalog, Current);
        assert Station.Record(buf, pos, data, row, textIds, catalog) == Entries(buf, q.value.next, d, row, count, catalog);
        if scan.Ok? {
          assert RecordAt(buf, pos, textIds, catalog, Current)
              == Ok(Step(Layout.Record(id.value.item.0, id.value.item.1, id.value.item.2, scan.value.item), scan.value.next));
        }
      }
    }
  }

  /** Writing a record never adds or removes a column, nor changes a
      column's length. */
  lemma {:induction false} StoreAllShape(data: Table, row: nat, m: nat, es: seq<Entry>)
    requires Shaped(data, m)
    ensures StoreAll(data, row, es).Keys == data.Keys && Shaped(StoreAll(data, row, es), m)
    decreases |es|
  {
    if |es| > 0 {
      var d := if Stored(es[0]) then Put(data, Var(es[0].varId), row, es[0].value.value) else data;
      StoreAllShape(d, row, m, es[1..]);
    }
  }

  lemma FillRecordShape(data: Table, row: nat, m: nat, rec: Layout.Record)
    requires Shaped(data, m)
    ensures FillRecord(data, row, rec).Keys == data.Keys && Shaped(FillRecord(data, row, rec), m)
  {
    var d := Put(Put(Put(data, ID, row, rec.id), Lon, row, Float(rec.lon)), Lat, row, Float(rec.lat));
    StoreAllShape(d, row, m, rec.entries);
  }

  /** Row `row` can be written and every column has `m` rows. */
  predicate Ready(data: Table, row: nat, m: nat) {
    row < m && Shaped(data, m) && ID in data && Lon in data && Lat in data
  }

  /** How reading and storing one record (`out`) relates to reading it alone
      (`scan`) and then writing it. */
  predicate StepSpec(out: Result<Step<Table>>, scan: Result<Step<Layout.Record>>, data: Table, row: nat) {
    && (out.Ok? <==> scan.Ok? && Storable(data.Keys, scan.value.item.entries))
    && (out.Ok? ==> out.value == Step(FillRecord(data, row, scan.value.item), scan.value.next))
  }

  /** `StepSpec` for every position, and every row and table that can be
      written. */
  ghost predicate StepsAgree(step: (nat, Table, nat) -> Result<Step<Table>>, scan: nat -> Result<Step<Layout.Record>>, m: nat) {
    forall p: nat, d: Table, r: nat :: Ready(d, r, m) ==> StepSpec(step(p, d, r), scan(p), d, r)
  }

  function RecordStep(buf: seq<Byte>, textIds: bool, catalog: map<int, int>): (nat, Table, nat) -> Result<Step<Table>> {
    (p: nat, d: Table, r: nat) => Station.Record(buf, p, d, r, textIds, catalog)
  }

  lemma {:induction false} StationsRun(buf: seq<Byte>, pos: nat, data: Table, row: nat, n: int, textIds: bool, catalog: map<int, int>)
    ensures Stations(buf, pos, data, row, n, textIds, catalog) == RunRecords(RecordStep(buf, textIds, catalog), pos, data, row, n)
    decreases n - row
  {
    if row < n {
      var s := Station.Record(buf, pos, data, row, textIds, catalog);
      if s.Ok? {
        StationsRun(buf, s.value.next, s.value.item, row + 1, n, textIds, catalog);
      }
    }
  }

  /** The columns a read-and-store yields, or None when it fails. */
  function Outcome(out: Result<Step<Table>>): Option<Step<Table>> {
    if out.Ok? then Some(out.value) else None
  }

  /** What reading and storing records from row `row` on should yield, given
      the records as read (`scan`): the filled columns when the read
      succeeds and every stored entry has its column, and failure otherwise. */
  function Expected(scan: Result<Step<seq<Layout.Record>>>, data: Table, row: nat): Option<Step<Table>> {
    if scan.Ok? && AllStorable(data.Keys, scan.value.item) then Some(Step(FillRows(data, row, scan.value.item), scan.value.next))
    else None
  }

  lemma {:induction false} RunFill(step: (nat, Table, nat) -> Result<Step<Table>>, scan: nat -> Result<Step<Layout.Record>>,
                                   pos: nat, data: Table, row: nat, n: int, m: nat)
    requires m == (if n < 0 then 0 else n) && row <= m
    requires Shaped(data, m) && ID in data && Lon in data && Lat in data
    requires StepsAgree(step, scan, m)
    ensures Outcome(RunRecords(step, pos, data, row, n)) == Expected(ScanRecords(scan, pos, n - row), data, row)
    decreases n - row
  {
    if row < n {
      assert Ready(data, row, m);
      var out := step(pos, data, row);
      var sc := scan(pos);
      if sc.Ok? && Storable(data.Keys, sc.value.item.entries) {
        var r := sc.value.item;
        var d := FillRecord(data, row, r);
        FillRecordShape(data, row, m, r);
        RunFill(step, scan, sc.value.next, d, row + 1, n, m);
        var rest := ScanRecords(scan, sc.value.next, n - (row + 1));
        if rest.Ok? {
          var all := ScanRecords(scan, pos, n - row).value.item;
          assert all[0] == r;
          assert all[1..] == rest.value.item;
        }
      }
    }
  }

  /** `RecordFill` for every position, row and table. */
  lemma RecordSteps(buf: seq<Byte>, m: nat, textIds: bool, catalog: map<int, int>)
    ensures StepsAgree(RecordStep(buf, textIds, catalog), ScanStep(buf, textIds, catalog, Current), m)
  {
    forall p: nat, d: Table, r: nat | Ready(d, r, m)
      ensures StepSpec(RecordStep(buf, textIds, catalog)(p, d, r), ScanStep(buf, textIds, catalog, Current)(p), d, r)
    {
      RecordFill(buf, p, d, r, m, textIds, catalog);
    }
  }

  /** Row `row` of column `k` after the stores of `es`: the last stored
      value for an odd variable, unchanged for every other column and row. */
  lemma {:induction false} StoreAllCells(data: Table, row: nat, m: nat, es: seq<Entry>)
    requires Shaped(data, m) && row < m
    ensures StoreAll(data, row, es).Keys == data.Keys && Shaped(StoreAll(data, row, es), m)
    ensures forall k, i :: k in data && 0 <= i < m && (i != row || !k.Var?) ==> StoreAll(data, row, es)[k][i] == data[k][i]
    ensures forall v :: Var(v) in data ==> StoreAll(data, row, es)[Var(v)][row] == Latest(es, v, data[Var(v)][row])
    decreases |es|
  {
    StoreAllShape(data, row, m, es);
    if |es| > 0 {
      var d := if Stored(es[0]) then Put(data, Var(es[0].varId), row, es[0].value.value) else data;
      StoreAllCells(d, row, m, es[1..]);
      forall v | Var(v) in data
        ensures d[Var(v)][row] == if Stored(es[0]) && es[0].varId == v then es[0].value else data[Var(v)][row]
      {
      }
    }
  }

  /** One record written into row `row`: its identification in `ID`, `Lon`
      and `Lat`, the last stored value of each odd variable, and no other
      row touched. */
  lemma FillRecordCells(data: Table, row: nat, m: nat, rec: Layout.Record)
    requires Ready(data, row, m)
    ensures var out := FillRecord(data, row, rec);
            && out.Keys == data.Keys && Shaped(out, m)
            && out[ID][row] == Some(rec.id) && out[Lon][row] == Some(Float(rec.lon)) && out[Lat][row] == Some(Float(rec.lat))
            && (forall k, i :: k in data && 0 <= i < m && i != row ==> out[k][i] == data[k][i])
            && (forall v :: Var(v) in data ==> out[Var(v)][row] == Latest(rec.entries, v, data[Var(v)][row]))
  {
    var d := Put(Put(Put(data, ID, row, rec.id), Lon, row, Float(rec.lon)), Lat, row, Float(rec.lat));
    assert Shaped(d, m) && d.Keys == data.Keys;
    assert forall v :: Var(v) in data ==> d[Var(v)] == data[Var(v)];
    StoreAllCells(d, row, m, rec.entries);
    FillRecordShape(data, row, m, rec);
  }

  /** Records `recs` written into rows `row` ..: row `row + j` of `ID`, `Lon`
      and `Lat` holds record j's identification, row `row + j` of an odd
      variable's column the last value record j stored for it, and the rows
      before `row` and after the last record are untouched. */
  lemma {:induction false} FillRowsCells(data: Table, row: nat, m: nat, recs: seq<Layout.Record>)
    requires Shaped(data, m) && row + |recs| <= m && ID in data && Lon in data && Lat in data
    ensures var out := FillRows(data, row, recs);
            && out.Keys == data.Keys && Shaped(out, m)
            && (forall j :: 0 <= j < |recs| ==>
                  out[ID][row + j] == Some(recs[j].id) && out[Lon][row + j] == Some(Float(recs[j].lon))
                  && out[Lat][row + j] == Some(Float(recs[j].lat)))
            && (forall v, j :: Var(v) in data && 0 <= j < |recs| ==>
                  out[Var(v)][row + j] == Latest(recs[j].entries, v, data[Var(v)][row + j]))
            && (forall k, i :: k in data && 0 <= i < m && !(row <= i < row + |recs|) ==> out[k][i] == data[k][i])
    decreases |recs|
  {
    if |recs| > 0 {
      var d := FillRecord(data, row, recs[0]);
      FillRecordCells(data, row, m, recs[0]);
      FillRowsCells(d, row + 1, m, recs[1..]);
      var out := FillRows(data, row, recs);
      assert out == FillRows(d, row + 1, recs[1..]);
      forall j | 0 <= j < |recs|
        ensures out[ID][row + j] == Some(recs[j].id) && out[Lon][row + j] == Some(Float(recs[j].lon))
                && out[Lat][row + j] == Some(Float(recs[j].lat))
        ensures forall v :: Var(v) in data ==> out[Var(v)][row + j] == Latest(recs[j].entries, v, data[Var(v)][row + j])
      {
        if j > 0 {
          assert recs[j] == recs[1..][j - 1];
          assert row + j == (row + 1) + (j - 1);
        }
      }
    }
  }

  /** Every value a record stores belongs to a declared variable. */
  predicate Declared(s: Scanned) {
    forall j, i :: 0 <= j < |s.records| && 0 <= i < |s.records[j].entries| && Stored(s.records[j].entries[i]) ==>
      s.records[j].entries[i].varId in DictOf(s.preamble.pairs)
  }

  /** The columns the scanned records fill. */
  function Filled(s: Scanned): Table {
    FillRows(InitialColumns(DictOf(s.preamble.pairs), s.preamble.stationNum), 0, s.records)
  }

  lemma DeclaredStorable(s: Scanned)
    ensures Declared(s) <==> AllStorable(InitialKeys(DictOf(s.preamble.pairs)), s.records)
  {
    var keys := InitialKeys(DictOf(s.preamble.pairs));
    AllStorableMeans(keys, s.records);
    forall j | 0 <= j < |s.records|
      ensures Storable(keys, s.records[j].entries) <==>
              forall i :: 0 <= i < |s.records[j].entries| && Stored(s.records[j].entries[i]) ==>
                s.records[j].entries[i].varId in DictOf(s.preamble.pairs)
    {
      StorableMeans(keys, s.records[j].entries);
    }
  }

  /** The decode after the preamble, with the record step abstracted. */
  lemma RunDecoded(step: (nat, Table, nat) -> Result<Step<Table>>, scan: nat -> Result<Step<Layout.Record>>,
                   p: Preamble, next: nat)
    requires StepsAgree(step, scan, if p.stationNum < 0 then 0 else p.stationNum)
    ensures var run := RunRecords(step, next, InitialColumns(DictOf(p.pairs), p.stationNum), 0, p.stationNum);
            var recs := ScanRecords(scan, next, p.stationNum);
            && (run.Ok? <==> recs.Ok? && Declared(Scanned(p, recs.value.item)))
            && (run.Ok? ==> run.value.item == Filled(Scanned(p, recs.value.item)))
  {
    var n := p.stationNum;
    var m := if n < 0 then 0 else n;
    var data := InitialColumns(DictOf(p.pairs), n);
    assert Shaped(data, m) && ID in data && Lon in data && Lat in data;
    assert data.Keys == InitialKeys(DictOf(p.pairs));
    RunFill(step, scan, next, data, 0, n, m);
    var recs := ScanRecords(scan, next, n);
    if recs.Ok? {
      DeclaredStorable(Scanned(p, recs.value.item));
    }
  }

  /** `Station(file)` succeeds exactly when the file can be read through
      and every stored value has a declared variable; it then keeps the
      header and the columns the records fill. */
  lemma StationDecoded(buf: seq<Byte>, catalog: map<int, int>)
    ensures StationSpec(buf, catalog).Ok? <==> ScanFile(buf, catalog, Current).Ok? && Declared(ScanFile(buf, catalog, Current).value)
    ensures StationSpec(buf, catalog).Ok? ==>
              var s := ScanFile(buf, catalog, Current).value;
              StationSpec(buf, catalog).value == StationFile(s.preamble.header, Filled(s))
  {
    if MagicAt(buf).Ok? && PreambleAt(buf, Current).Ok? {
      var pre := PreambleAt(buf, Current).value;
      var p := pre.item;
      var m := if p.stationNum < 0 then 0 else p.stationNum;
      RecordSteps(buf, m, p.textIds, catalog);
      StationsRun(buf, pre.next, InitialColumns(DictOf(p.pairs), p.stationNum), 0, p.stationNum, p.textIds, catalog);
      RecordsRun(buf, pre.next, p.stationNum, p.textIds, catalog, Current);
      RunDecoded(RecordStep(buf, p.textIds, catalog), ScanStep(buf, p.textIds, catalog, Current), p, pre.next);
    }
  }

  /** The filled columns have one row per record: row j of `ID`, `Lon` and
      `Lat` is record j's identification, and row j of odd variable v's
      column is the last value record j stored for v, or None when it stored
      none. */
  lemma FilledColumns(s: Scanned)
    requires |s.records| == if s.preamble.stationNum < 0 then 0 else s.preamble.stationNum
    ensures var out := Filled(s);
            && out.Keys == InitialKeys(DictOf(s.preamble.pairs))
            && (forall k :: k in out ==> |out[k]| == |s.records|)
            && (forall j :: 0 <= j < |s.records| ==>
                  out[ID][j] == Some(s.records[j].id) && out[Lon][j] == Some(Float(s.records[j].lon))
                  && out[Lat][j] == Some(Float(s.records[j].lat)))
            && (forall v, j :: Var(v) in out && 0 <= j < |s.records| ==> out[Var(v)][j] == Latest(s.records[j].entries, v, None))
  {
    var m := |s.records|;
    var data := InitialColumns(DictOf(s.preamble.pairs), s.preamble.stationNum);
    FillRowsCells(data, 0, m, s.records);
  }
}
