/** `dict(pairs)` for a list of integer pairs, as both station decoders
    build the declared-quantity map `x`: a later pair overwrites the value of
    an earlier one with the same key, and `keys()` lists each key once, in
    the order of its first pair. */
module PyDict {
  /** The mapping `dict(pairs)` holds. */
  function DictOf(pairs: seq<(int, int)>): map<int, int>
    decreases |pairs|
  {
    if |pairs| == 0 then map[]
    else
      var last := pairs[|pairs| - 1];
      DictOf(pairs[..|pairs| - 1])[last.0 := last.1]
  }

  /** `dict(pairs).keys()`, in iteration order. */
  function KeyOrder(pairs: seq<(int, int)>): seq<int>
    decreases |pairs|
  {
    if |pairs| == 0 then []
    else
      var earlier := KeyOrder(pairs[..|pairs| - 1]);
      var k := pairs[|pairs| - 1].0;
      if k in earlier then earlier else earlier + [k]
  }

  /** Whether some pair has key `k`. */
  predicate HasKey(pairs: seq<(int, int)>, k: int) {
    exists i :: 0 <= i < |pairs| && pairs[i].0 == k
  }

  /** The keys of `dict(pairs)` are exactly the keys of the pairs, and the
      value of a key is the one of its last pair. */
  lemma {:induction false} DictOfPairs(pairs: seq<(int, int)>)
    ensures forall k :: k in DictOf(pairs) <==> HasKey(pairs, k)
    ensures forall i :: 0 <= i < |pairs| ==> pairs[i].0 in DictOf(pairs)
    ensures forall i :: 0 <= i < |pairs| && (forall j :: i < j < |pairs| ==> pairs[j].0 != pairs[i].0) ==>
              DictOf(pairs)[pairs[i].0] == pairs[i].1
    decreases |pairs|
  {
    if |pairs| > 0 {
      var init := pairs[..|pairs| - 1];
      DictOfPairs(init);
      forall k
        ensures k in DictOf(pairs) <==> HasKey(pairs, k)
      {
        if HasKey(pairs, k) && k != pairs[|pairs| - 1].0 {
          var i :| 0 <= i < |pairs| && pairs[i].0 == k;
          assert init[i].0 == k;
        }
        if HasKey(init, k) {
          var i :| 0 <= i < |init| && init[i].0 == k;
          assert pairs[i].0 == k;
        }
      }
      forall i | 0 <= i < |pairs| && (forall j :: i < j < |pairs| ==> pairs[j].0 != pairs[i].0)
        ensures DictOf(pairs)[pairs[i].0] == pairs[i].1
      {
        if i < |pairs| - 1 {
          assert init[i] == pairs[i];
          assert forall j :: i < j < |init| ==> init[j] == pairs[j];
        }
      }
    }
  }

  /** `keys()` lists each key of the mapping exactly once. */
  lemma {:induction false} KeyOrderKeys(pairs: seq<(int, int)>)
    ensures forall k :: k in KeyOrder(pairs) <==> HasKey(pairs, k)
    ensures forall i, j :: 0 <= i < j < |KeyOrder(pairs)| ==> KeyOrder(pairs)[i] != KeyOrder(pairs)[j]
    decreases |pairs|
  {
    if |pairs| > 0 {
      var init := pairs[..|pairs| - 1];
      KeyOrderKeys(init);
      forall k
        ensures k in KeyOrder(pairs) <==> HasKey(pairs, k)
      {
        if HasKey(pairs, k) && k != pairs[|pairs| - 1].0 {
          var i :| 0 <= i < |pairs| && pairs[i].0 == k;
          assert init[i].0 == k;
        }
        if HasKey(init, k) {
          var i :| 0 <= i < |init| && init[i].0 == k;
          assert pairs[i].0 == k;
        }
      }
    }
  }

  /** The index of the first pair with key `k`, or `|pairs|` when there is
      none. */
  function FirstIndex(pairs: seq<(int, int)>, k: int): (r: nat)
    ensures r <= |pairs|
    ensures r < |pairs| ==> pairs[r].0 == k
    ensures forall j :: 0 <= j < r ==> pairs[j].0 != k
    decreases |pairs|
  {
    if |pairs| == 0 then 0
    else if pairs[0].0 == k then 0
    else 1 + FirstIndex(pairs[1..], k)
  }

  /** Appending a pair leaves the first index of a key already present. */
  lemma {:induction false} FirstIndexSnoc(pairs: seq<(int, int)>, p: (int, int), k: int)
    ensures FirstIndex(pairs + [p], k) ==
            if FirstIndex(pairs, k) < |pairs| then FirstIndex(pairs, k)
            else if p.0 == k then |pairs| else |pairs| + 1
    decreases |pairs|
  {
    if |pairs| > 0 {
      assert (pairs + [p])[0] == pairs[0] && (pairs + [p])[1..] == pairs[1..] + [p];
      FirstIndexSnoc(pairs[1..], p, k);
    } else {
      assert pairs + [p] == [p];
    }
  }

  /** `keys()` lists the keys in the order of their first pairs. */
  lemma {:induction false} KeyOrderFirst(pairs: seq<(int, int)>)
    ensures forall i :: 0 <= i < |KeyOrder(pairs)| ==> FirstIndex(pairs, KeyOrder(pairs)[i]) < |pairs|
    ensures forall i, j :: 0 <= i < |KeyOrder(pairs)| && 0 <= j < |KeyOrder(pairs)| ==>
              (i < j <==> FirstIndex(pairs, KeyOrder(pairs)[i]) < FirstIndex(pairs, KeyOrder(pairs)[j]))
    decreases |pairs|
  {
    if |pairs| > 0 {
      var n := |pairs|;
      var init, last := pairs[..n - 1], pairs[n - 1];
      assert pairs == init + [last];
      KeyOrderFirst(init);
      KeyOrderKeys(init);
      var earlier := KeyOrder(init);
      forall x | x in earlier
        ensures FirstIndex(pairs, x) == FirstIndex(init, x) < n - 1
      {
        FirstIndexSnoc(init, last, x);
        var i :| 0 <= i < |earlier| && earlier[i] == x;
      }
      if last.0 !in earlier {
        FirstIndexSnoc(init, last, last.0);
        assert !HasKey(init, last.0);
        assert FirstIndex(init, last.0) == n - 1;
        assert FirstIndex(pairs, last.0) == n - 1;
      }
    }
  }

  /** Iterating over `keys()` visits the keys of the mapping and no others. */
  lemma KeyOrderIsDict(pairs: seq<(int, int)>)
    ensures forall k :: k in KeyOrder(pairs) <==> k in DictOf(pairs)
  {
    KeyOrderKeys(pairs);
    DictOfPairs(pairs);
  }
}
