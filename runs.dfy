/** The station loop of both decoders with the per-record step abstracted:
    `RunRecords` reads and stores one record after another, `ScanRecords`
    only reads them. Proving a fact about a record step once, for every
    position, and then inducting over these two keeps the two decoders'
    record layouts out of the induction. */
module Runs {
  import opened Common
  import opened ByteCursor
  import opened Layout
  import opened StationHeader

  /** Records `row` .. `n - 1`, each read and stored by `step`. */
  function RunRecords<T>(step: (nat, T, nat) -> Result<Step<T>>, pos: nat, data: T, row: nat, n: int): Result<Step<T>>
    decreases n - row
  {
    if row >= n then Ok(Step(data, pos))
    else
      var s :- step(pos, data, row);
      RunRecords(step, s.next, s.item, row + 1, n)
  }

  /** `count` records, each read by `scan`, in file order. */
  function ScanRecords(scan: nat -> Result<Step<Record>>, pos: nat, count: int): Result<Step<seq<Record>>>
    decreases count
  {
    if count <= 0 then Ok(Step([], pos))
    else
      var r :- scan(pos);
      Prepend([r.item], ScanRecords(scan, r.next, count - 1))
  }

  /** `Layout.RecordsAt` is `ScanRecords` over `Layout.RecordAt`. */
  function ScanStep(buf: seq<Byte>, textIds: bool, catalog: map<int, int>, v: Variant): nat -> Result<Step<Record>> {
    (p: nat) => RecordAt(buf, p, textIds, catalog, v)
  }

  lemma {:induction false} RecordsRun(buf: seq<Byte>, pos: nat, count: int, textIds: bool, catalog: map<int, int>, v: Variant)
    ensures RecordsAt(buf, pos, count, textIds, catalog, v) == ScanRecords(ScanStep(buf, textIds, catalog, v), pos, count)
    decreases count
  {
    if count > 0 {
      var r := RecordAt(buf, pos, textIds, catalog, v);
      if r.Ok? {
        RecordsRun(buf, r.value.next, count - 1, textIds, catalog, v);
      }
    }
  }

  /** Records folded into `data` by `add`, in file order. */
  function Fold<T>(add: (T, Record) -> T, data: T, recs: seq<Record>): T
    decreases |recs|
  {
    if |recs| == 0 then data else Fold(add, add(data, recs[0]), recs[1..])
  }

  /** A read of records followed by their fold, with the read's error. */
  function FoldAfter<T>(add: (T, Record) -> T, scan: Result<Step<seq<Record>>>, data: T): Result<Step<T>> {
    match scan
    case Ok(s) => Ok(Step(Fold(add, data, s.item), s.next))
    case Err(e) => Err(e)
  }

  /** `step` reads one record with `scan` and then folds it in with `add`,
      failing as `scan` does. */
  ghost predicate StepFolds<T(!new)>(step: (nat, T, nat) -> Result<Step<T>>, scan: nat -> Result<Step<Record>>, add: (T, Record) -> T) {
    forall p: nat, d: T, r: nat ::
      step(p, d, r) == if scan(p).Ok? then Ok(Step(add(d, scan(p).value.item), scan(p).value.next)) else Err(scan(p).error)
  }

  /** Reading and folding in one record after another is reading them all
      and then folding them in, with the same error when a read fails. */
  lemma {:induction false} RunFold<T(!new)>(step: (nat, T, nat) -> Result<Step<T>>, scan: nat -> Result<Step<Record>>,
                                      add: (T, Record) -> T, pos: nat, data: T, row: nat, n: int)
    requires StepFolds(step, scan, add)
    ensures RunRecords(step, pos, data, row, n) == FoldAfter(add, ScanRecords(scan, pos, n - row), data)
    decreases n - row
  {
    if row < n {
      var sc := scan(pos);
      if sc.Ok? {
        RunFold(step, scan, add, sc.value.next, add(data, sc.value.item), row + 1, n);
        var rest := ScanRecords(scan, sc.value.next, n - (row + 1));
        if rest.Ok? {
          var all := ScanRecords(scan, pos, n - row).value.item;
          assert all[0] == sc.value.item && all[1..] == rest.value.item;
        }
      }
    }
  }

  lemma RunFoldAll<T(!new)>(step: (nat, T, nat) -> Result<Step<T>>, scan: nat -> Result<Step<Record>>,
                            add: (T, Record) -> T, pos: nat, data: T, n: int)
    requires StepFolds(step, scan, add)
    ensures RunRecords(step, pos, data, 0, n) == FoldAfter(add, ScanRecords(scan, pos, n), data)
  {
    RunFold(step, scan, add, pos, data, 0, n);
    assert n - 0 == n;
  }

  /** A station file read without storing anything: the magic, the preamble
      and the `station_num` records. */
  datatype Scanned = Scanned(preamble: Preamble, records: seq<Record>)

  function ScanFile(buf: seq<Byte>, catalog: map<int, int>, v: Variant): Result<Scanned> {
    var _ :- MagicAt(buf);
    var pre :- PreambleAt(buf, v);
    var recs :- RecordsAt(buf, pre.next, pre.item.stationNum, pre.item.textIds, catalog, v);
    Ok(Scanned(pre.item, recs.item))
  }

  /** A scanned file has `station_num` records (none for a negative count). */
  lemma ScanCount(buf: seq<Byte>, catalog: map<int, int>, v: Variant)
    requires ScanFile(buf, catalog, v).Ok?
    ensures var s := ScanFile(buf, catalog, v).value;
            |s.records| == if s.preamble.stationNum < 0 then 0 else s.preamble.stationNum
  {
    var pre := PreambleAt(buf, v).value;
    RecordsCount(buf, pre.next, pre.item.stationNum, pre.item.textIds, catalog, v);
  }
}
