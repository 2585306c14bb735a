/** What `MDFS_Station.__init__` of read_mdfs.py computes, stated against the
    records as laid out in the file: it fails exactly when the records cannot
    be read (appending never fails), and each list then holds, in file
    order, the values appended to it: one `ID`, `Lon` and `Lat` per record
    and, for a variable, one element per kept occurrence, with no padding. */
module LegacyFacts {
  import opened Common
  import opened LittleEndian
  import opened ByteCursor
  import opened Layout
  import opened StationHeader
  import opened Runs
  import opened LegacyStation

  /** The list of key `k`, or the empty list before `create_dict` made it. */
  function Column(data: Lists, k: Key): seq<Value> {
    if k in data then data[k] else []
  }

  /** The values the entries `es` append to key `k`, in order. */
  function Kept(es: seq<Entry>, k: Key): seq<Value>
    decreases |es|
  {
    if |es| == 0 then []
    else (if es[0].value.Some? && Var(es[0].varId) == k then [es[0].value.value] else []) + Kept(es[1..], k)
  }

  /** Key `k` receives a value from `es` exactly when an entry with that ID
      unpacks to a value, and every value it receives is one of theirs. */
  lemma {:induction false} KeptMeans(es: seq<Entry>, k: Key)
    ensures |Kept(es, k)| > 0 <==> exists i :: 0 <= i < |es| && es[i].value.Some? && Var(es[i].varId) == k
    ensures forall x :: x in Kept(es, k) <==> exists i :: 0 <= i < |es| && es[i].value == Some(x) && Var(es[i].varId) == k
    decreases |es|
  {
    if |es| > 0 {
      KeptMeans(es[1..], k);
      assert forall i :: 1 <= i < |es| ==> es[i] == es[1..][i - 1];
      forall x | (exists i :: 0 <= i < |es| && es[i].value == Some(x) && Var(es[i].varId) == k)
        ensures x in Kept(es, k)
      {
        var i :| 0 <= i < |es| && es[i].value == Some(x) && Var(es[i].varId) == k;
        if i > 0 {
          assert es[1..][i - 1] == es[i];
        }
      }
    }
  }

  /** The appends of one record's entries, in order. */
  function AppendAll(data: Lists, es: seq<Entry>): Lists
    decreases |es|
  {
    if |es| == 0 then data else AppendAll(AppendEntry(data, es[0]), es[1..])
  }

  /** One record appended: its identification, then its entries. */
  function AppendRecord(data: Lists, rec: Record): Lists {
    var d := AppendItem(AppendItem(AppendItem(data, ID, rec.id), Lon, Float(rec.lon)), Lat, Float(rec.lat));
    AppendAll(d, rec.entries)
  }

  /** Records `recs` appended in file order. */
  function Built(data: Lists, recs: seq<Record>): Lists
    decreases |recs|
  {
    if |recs| == 0 then data else Built(AppendRecord(data, recs[0]), recs[1..])
  }

  /** What record `rec` appends to `ID`, `Lon` or `Lat`. */
  function IdentPart(rec: Record, k: Key): seq<Value> {
    match k
    case ID => [rec.id]
    case Lon => [Float(rec.lon)]
    case Lat => [Float(rec.lat)]
    case Var(_) => []
  }

  /** What the records `recs` append to key `k`, record by record. */
  function Appended(recs: seq<Record>, k: Key): seq<Value>
    decreases |recs|
  {
    if |recs| == 0 then [] else IdentPart(recs[0], k) + Kept(recs[0].entries, k) + Appended(recs[1..], k)
  }

  lemma Regroup(a: seq<Value>, b: seq<Value>, c: seq<Value>)
    ensures a + b + c == a + (b + c)
  {
  }

  /** One append, seen from key `k`: the list of `k` grows by `v` when `k`
      is the key appended to, and is unchanged otherwise. */
  lemma AppendItemColumn(data: Lists, key: Key, v: Value, k: Key)
    ensures Column(AppendItem(data, key, v), k) == Column(data, k) + (if k == key then [v] else [])
    ensures k in AppendItem(data, key, v) <==> k in data || k == key
  {
  }

  /** Appending the entries `es` extends the list of `k` by what `es`
      appends to it, and creates it exactly when it receives a value. */
  lemma {:induction false} AppendAllColumn(data: Lists, es: seq<Entry>, k: Key)
    ensures Column(AppendAll(data, es), k) == Column(data, k) + Kept(es, k)
    ensures k in AppendAll(data, es) <==> k in data || |Kept(es, k)| > 0
    decreases |es|
  {
    if |es| > 0 {
      var d := AppendEntry(data, es[0]);
      AppendAllColumn(d, es[1..], k);
      var x := if es[0].value.Some? && Var(es[0].varId) == k then [es[0].value.value] else [];
      if es[0].value.Some? {
        AppendItemColumn(data, Var(es[0].varId), es[0].value.value, k);
      } else {
        assert Column(data, k) + x == Column(data, k);
      }
      assert Kept(es, k) == x + Kept(es[1..], k);
      Regroup(Column(data, k), x, Kept(es[1..], k));
    }
  }

  lemma AppendRecordColumn(data: Lists, rec: Record, k: Key)
    ensures Column(AppendRecord(data, rec), k) == Column(data, k) + (IdentPart(rec, k) + Kept(rec.entries, k))
    ensures k in AppendRecord(data, rec) <==> k in data || |IdentPart(rec, k)| > 0 || |Kept(rec.entries, k)| > 0
  {
    var d1 := AppendItem(data, ID, rec.id);
    var d2 := AppendItem(d1, Lon, Float(rec.lon));
    var d3 := AppendItem(d2, Lat, Float(rec.lat));
    AppendItemColumn(data, ID, rec.id, k);
    AppendItemColumn(d1, Lon, Float(rec.lon), k);
    AppendItemColumn(d2, Lat, Float(rec.lat), k);
    AppendAllColumn(d3, rec.entries, k);
    assert Column(d3, k) == Column(data, k) + IdentPart(rec, k);
    Regroup(Column(data, k), IdentPart(rec, k), Kept(rec.entries, k));
  }

  /** Appending records extends the list of `k` by what they append to it,
      in file order, and creates it exactly when it receives a value. */
  lemma {:induction false} BuiltColumn(data: Lists, recs: seq<Record>, k: Key)
    ensures Column(Built(data, recs), k) == Column(data, k) + Appended(recs, k)
    ensures k in Built(data, recs) <==> k in data || |Appended(recs, k)| > 0
    decreases |recs|
  {
    if |recs| > 0 {
      var d := AppendRecord(data, recs[0]);
      AppendRecordColumn(data, recs[0], k);
      BuiltColumn(d, recs[1..], k);
      var head, rest := IdentPart(recs[0], k) + Kept(recs[0].entries, k), Appended(recs[1..], k);
      assert Appended(recs, k) == head + rest;
      Regroup(Column(data, k), head, rest);
    }
  }

  /** `ID`, `Lon` and `Lat` get exactly one element per record, in file
      order, whatever the entries hold. */
  lemma {:induction false} IdentColumns(recs: seq<Record>)
    ensures |Appended(recs, ID)| == |Appended(recs, Lon)| == |Appended(recs, Lat)| == |recs|
    ensures forall j :: 0 <= j < |recs| ==>
              Appended(recs, ID)[j] == recs[j].id && Appended(recs, Lon)[j] == Float(recs[j].lon)
              && Appended(recs, Lat)[j] == Float(recs[j].lat)
    decreases |recs|
  {
    if |recs| > 0 {
      IdentColumns(recs[1..]);
      KeptNoIdent(recs[0].entries);
      forall j | 1 <= j < |recs|
        ensures Appended(recs, ID)[j] == recs[j].id && Appended(recs, Lon)[j] == Float(recs[j].lon)
                && Appended(recs, Lat)[j] == Float(recs[j].lat)
      {
        assert recs[1..][j - 1] == recs[j];
      }
    }
  }

  /** Entries only ever append to variable lists. */
  lemma {:induction false} KeptNoIdent(es: seq<Entry>)
    ensures Kept(es, ID) == [] && Kept(es, Lon) == [] && Kept(es, Lat) == []
    decreases |es|
  {
    if |es| > 0 {
      KeptNoIdent(es[1..]);
    }
  }

  /** A variable's list has one element per kept occurrence, at most one per
      entry of the records, so its length need not be `station_num`. */
  lemma {:induction false} VarColumnLength(recs: seq<Record>, v: int)
    ensures |Appended(recs, Var(v))| <= Sum(recs)
    decreases |recs|
  {
    if |recs| > 0 {
      VarColumnLength(recs[1..], v);
      KeptLength(recs[0].entries, Var(v));
    }
  }

  lemma {:induction false} KeptLength(es: seq<Entry>, k: Key)
    ensures |Kept(es, k)| <= |es|
    decreases |es|
  {
    if |es| > 0 {
      KeptLength(es[1..], k);
    }
  }

  /** The number of entries in `recs`. */
  function Sum(recs: seq<Record>): nat
    decreases |recs|
  {
    if |recs| == 0 then 0 else |recs[0].entries| + Sum(recs[1..])
  }

  /** The appends of one record (`LegacyRecord`) against the record read
      alone (`Layout.RecordAt`) and then appended. */
  lemma {:induction false} EntriesAppend(buf: seq<Byte>, pos: nat, data: Lists, count: int, catalog: map<int, int>)
    ensures LegacyEntries(buf, pos, data, count, catalog) ==
              match EntriesAt(buf, pos, count, catalog, Legacy)
              case Ok(s) => Ok(Step(AppendAll(data, s.item), s.next))
              case Err(e) => Err(e)
    decreases count
  {
    if count > 0 {
      var step := EntryAt(buf, pos, catalog, Legacy);
      if step.Ok? {
        var e := step.value.item;
        EntriesAppend(buf, step.value.next, AppendEntry(data, e), count - 1, catalog);
        var rest := EntriesAt(buf, step.value.next, count - 1, catalog, Legacy);
        if rest.Ok? {
          var all := EntriesAt(buf, pos, count, catalog, Legacy).value.item;
          assert all[0] == e && all[1..] == rest.value.item;
        }
      }
    }
  }

  function AfterRecord(scan: Result<Step<Record>>, data: Lists): Result<Step<Lists>> {
    match scan
    case Ok(s) => Ok(Step(AppendRecord(data, s.item), s.next))
    case Err(e) => Err(e)
  }

  /** The appends of one record, read alone and then appended. */
  lemma RecordAppend(buf: seq<Byte>, pos: nat, data: Lists, catalog: map<int, int>)
    ensures LegacyRecord(buf, pos, data, catalog) == AfterRecord(RecordAt(buf, pos, false, catalog, Legacy), data)
  {
    if pos + 12 <= |buf| && pos + 14 <= |buf| {
      var s := buf[pos..pos + 12];
      var d := AppendItem(AppendItem(AppendItem(data, ID, Int(SIntLE(s[0..4]))), Lon, Float(s[4..8])), Lat, Float(s[8..12]));
      EntriesAppend(buf, pos + 14, d, SIntLE(buf[pos + 12..pos + 14]), catalog);
    }
  }

  function LegacyStep(buf: seq<Byte>, catalog: map<int, int>): (nat, Lists, nat) -> Result<Step<Lists>> {
    (p: nat, d: Lists, r: nat) => LegacyRecord(buf, p, d, catalog)
  }

  function AddRecord(): (Lists, Record) -> Lists {
    (d: Lists, rec: Record) => AppendRecord(d, rec)
  }

  lemma LegacySteps(buf: seq<Byte>, catalog: map<int, int>)
    ensures StepFolds(LegacyStep(buf, catalog), ScanStep(buf, false, catalog, Legacy), AddRecord())
  {
    forall p: nat, d: Lists, r: nat
      ensures LegacyStep(buf, catalog)(p, d, r) == AfterRecord(RecordAt(buf, p, false, catalog, Legacy), d)
    {
      RecordAppend(buf, p, d, catalog);
    }
  }

  lemma {:induction false} LegacyStationsRun(buf: seq<Byte>, pos: nat, data: Lists, row: nat, n: int, catalog: map<int, int>)
    ensures LegacyStations(buf, pos, data, row, n, catalog) == RunRecords(LegacyStep(buf, catalog), pos, data, row, n)
    decreases n - row
  {
    if row < n {
      var s := LegacyRecord(buf, pos, data, catalog);
      if s.Ok? {
        LegacyStationsRun(buf, s.value.next, s.value.item, row + 1, n, catalog);
      }
    }
  }

  lemma {:induction false} FoldBuilt(data: Lists, recs: seq<Record>)
    ensures Fold(AddRecord(), data, recs) == Built(data, recs)
    decreases |recs|
  {
    if |recs| > 0 {
      FoldBuilt(AppendRecord(data, recs[0]), recs[1..]);
    }
  }

  lemma LegacyFold(buf: seq<Byte>, pos: nat, n: int, catalog: map<int, int>)
    ensures RunRecords(LegacyStep(buf, catalog), pos, InitialLists(), 0, n)
            == FoldAfter(AddRecord(), ScanRecords(ScanStep(buf, false, catalog, Legacy), pos, n), InitialLists())
  {
    LegacySteps(buf, catalog);
    RunFoldAll(LegacyStep(buf, catalog), ScanStep(buf, false, catalog, Legacy), AddRecord(), pos, InitialLists(), n);
  }

  /** The station loop over fixed-ID records is reading them all, then
      appending them. */
  lemma LegacyRuns(buf: seq<Byte>, pos: nat, n: int, catalog: map<int, int>)
    ensures LegacyStations(buf, pos, InitialLists(), 0, n, catalog)
            == FoldAfter(AddRecord(), RecordsAt(buf, pos, n, false, catalog, Legacy), InitialLists())
  {
    LegacyStationsRun(buf, pos, InitialLists(), 0, n, catalog);
    RecordsRun(buf, pos, n, false, catalog, Legacy);
    LegacyFold(buf, pos, n, catalog);
  }

  /** `MDFS_Station(file)` fails exactly when reading the file through fails,
      with the same error, and otherwise keeps the header and the lists the
      records append to. */
  lemma LegacyDecoded(buf: seq<Byte>, catalog: map<int, int>)
    ensures LegacySpec(buf, catalog) ==
              match ScanFile(buf, catalog, Legacy)
              case Ok(s) => Ok(LegacyFile(s.preamble.header, Built(InitialLists(), s.records)))
              case Err(e) => Err(e)
  {
    if MagicAt(buf).Ok? && PreambleAt(buf, Legacy).Ok? {
      var pre := PreambleAt(buf, Legacy).value;
      PreambleFields(buf, Legacy);
      LegacyRuns(buf, pre.next, pre.item.stationNum, catalog);
      var recs := RecordsAt(buf, pre.next, pre.item.stationNum, false, catalog, Legacy);
      if recs.Ok? {
        FoldBuilt(InitialLists(), recs.value.item);
      }
    }
  }

  /** After the records `recs` are appended, `ID`, `Lon` and `Lat` hold one
      element per record, in file order. */
  lemma LegacyIdentColumns(recs: seq<Record>)
    ensures var out := Built(InitialLists(), recs);
            && ID in out && Lon in out && Lat in out
            && |out[ID]| == |out[Lon]| == |out[Lat]| == |recs|
            && (forall j :: 0 <= j < |recs| ==>
                  out[ID][j] == recs[j].id && out[Lon][j] == Float(recs[j].lon) && out[Lat][j] == Float(recs[j].lat))
  {
    BuiltColumn(InitialLists(), recs, ID);
    BuiltColumn(InitialLists(), recs, Lon);
    BuiltColumn(InitialLists(), recs, Lat);
    IdentColumns(recs);
  }

  /** A variable has a list exactly when some record kept a value for it,
      and that list is what the records appended to it, in file order. */
  lemma LegacyVarColumn(recs: seq<Record>, v: int)
    ensures var out := Built(InitialLists(), recs);
            && (Var(v) in out <==> |Appended(recs, Var(v))| > 0)
            && (Var(v) in out ==> out[Var(v)] == Appended(recs, Var(v)))
  {
    BuiltColumn(InitialLists(), recs, Var(v));
  }
}
