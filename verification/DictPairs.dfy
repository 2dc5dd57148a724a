/** What a dict built from pairs holds: each key once, in the order of first occurrence, with its last value. */
module DictPairs {
  import opened Values

  /** Pair k is the first one with its key. */
  predicate IsFirst(pairs: seq<(Json, Json)>, k: nat)
    requires k < |pairs|
  {
    forall j: nat :: j < k ==> pairs[j].0 != pairs[k].0
  }

  /** Pair k is the last one with this key. */
  predicate IsLast(pairs: seq<(Json, Json)>, k: nat, key: Json) {
    k < |pairs| && pairs[k].0 == key && forall j: nat :: k < j < |pairs| ==> pairs[j].0 != key
  }

  predicate Increasing(at: seq<nat>) {
    forall i, j :: 0 <= i < j < |at| ==> at[i] < at[j]
  }

  /** `at` is where the different keys stand first, in order. */
  ghost predicate Firsts(pairs: seq<(Json, Json)>, at: seq<nat>) {
    && Increasing(at)
    && (forall i :: 0 <= i < |at| ==> at[i] < |pairs| && IsFirst(pairs, at[i]))
    && (forall k: nat :: k < |pairs| && IsFirst(pairs, k) ==> k in at)
  }

  /** Entry i has the key of pair at[i] and the value of pair last[i]. */
  ghost predicate Holds(dict: seq<(Json, Json)>, pairs: seq<(Json, Json)>, at: seq<nat>, last: seq<nat>) {
    && |at| == |last| == |dict|
    && Firsts(pairs, at)
    && forall i :: 0 <= i < |dict| ==> EntryOf(dict[i], pairs, at[i], last[i])
  }

  ghost predicate EntryOf(entry: (Json, Json), pairs: seq<(Json, Json)>, first: nat, last: nat) {
    && first < |pairs| && last < |pairs| && IsLast(pairs, last, entry.0)
    && entry == (pairs[first].0, pairs[last].1)
  }

  /** The dict of the pairs, without saying how it is built. */
  lemma {:induction false} DictHolds(pairs: seq<(Json, Json)>) returns (at: seq<nat>, last: seq<nat>)
    ensures Holds(FromPairs(pairs), pairs, at, last)
  {
    if pairs == [] {
      at, last := [], [];
    } else {
      var n := |pairs| - 1;
      var key, value := pairs[n].0, pairs[n].1;
      at, last := DictHolds(pairs[..n]);
      var was := FromPairs(pairs[..n]);
      var i := IndexOf(was, key);
      if i < |was| {
        KeyAgain(was, pairs, at, last, i);
        last := last[i := n];
      } else {
        KeyNew(was, pairs, at, last);
        at, last := at + [n], last + [n];
      }
    }
  }

  lemma FirstBefore(pairs: seq<(Json, Json)>, n: nat, k: nat)
    requires n <= |pairs| && k < n
    ensures IsFirst(pairs[..n], k) <==> IsFirst(pairs, k)
  {
  }

  /** Every key has a first pair. */
  lemma {:induction false} SomeFirst(pairs: seq<(Json, Json)>, k: nat) returns (j: nat)
    requires k < |pairs|
    ensures j <= k && pairs[j].0 == pairs[k].0 && IsFirst(pairs, j)
  {
    if IsFirst(pairs, k) {
      j := k;
    } else {
      var i: nat :| i < k && pairs[i].0 == pairs[k].0;
      j := SomeFirst(pairs, i);
    }
  }

  lemma LastsStay(was: seq<(Json, Json)>, pairs: seq<(Json, Json)>, at: seq<nat>, last: seq<nat>, i: nat)
    requires pairs != [] && Holds(was, pairs[..|pairs| - 1], at, last) && i < |was| && was[i].0 != pairs[|pairs| - 1].0
    ensures EntryOf(was[i], pairs, at[i], last[i])
  {
    var before := pairs[..|pairs| - 1];
    assert IsLast(before, last[i], was[i].0);
    forall j: nat | last[i] < j < |pairs| ensures pairs[j].0 != was[i].0 {
      assert j < |before| ==> before[j] == pairs[j];
    }
  }

  lemma KeysDiffer(dict: seq<(Json, Json)>, pairs: seq<(Json, Json)>, at: seq<nat>, last: seq<nat>, i: nat, j: nat)
    requires Holds(dict, pairs, at, last) && i < j < |dict|
    ensures dict[i].0 != dict[j].0
  {
    assert IsFirst(pairs, at[j]) && at[i] < at[j];
  }

  /** A key that is there keeps its place and gets the new value. */
  lemma KeyAgain(was: seq<(Json, Json)>, pairs: seq<(Json, Json)>, at: seq<nat>, last: seq<nat>, i: nat)
    requires pairs != [] && Holds(was, pairs[..|pairs| - 1], at, last) && i < |was| && was[i].0 == pairs[|pairs| - 1].0
    ensures Holds(was[i := pairs[|pairs| - 1]], pairs, at, last[i := |pairs| - 1])
  {
    hide IsFirst, IsLast;
    var n := |pairs| - 1;
    var dict, last' := was[i := pairs[n]], last[i := n];
    AgainFirsts(was, pairs, at, last, i);
    forall j: nat | j < |dict|
      ensures EntryOf(dict[j], pairs, at[j], last'[j])
    {
      if j == i {
        LastOfAll(pairs);
      } else {
        KeysDiffer(was, pairs[..n], at, last, if i < j then i else j, if i < j then j else i);
        LastsStay(was, pairs, at, last, j);
      }
    }
  }

  lemma LastOfAll(pairs: seq<(Json, Json)>)
    requires pairs != []
    ensures IsLast(pairs, |pairs| - 1, pairs[|pairs| - 1].0)
  {
  }

  lemma AgainFirsts(was: seq<(Json, Json)>, pairs: seq<(Json, Json)>, at: seq<nat>, last: seq<nat>, i: nat)
    requires pairs != [] && Holds(was, pairs[..|pairs| - 1], at, last) && i < |was| && was[i].0 == pairs[|pairs| - 1].0
    ensures Firsts(pairs, at)
  {
    var n := |pairs| - 1;
    var before := pairs[..n];
    assert pairs[at[i]].0 == pairs[n].0 && at[i] < n;
    forall k: nat | k < n ensures IsFirst(before, k) <==> IsFirst(pairs, k) {
      FirstBefore(pairs, n, k);
    }
  }

  /** A new key comes last. */
  lemma KeyNew(was: seq<(Json, Json)>, pairs: seq<(Json, Json)>, at: seq<nat>, last: seq<nat>)
    requires pairs != [] && Holds(was, pairs[..|pairs| - 1], at, last)
    requires forall i: nat :: i < |was| ==> was[i].0 != pairs[|pairs| - 1].0
    ensures Holds(was + [pairs[|pairs| - 1]], pairs, at + [|pairs| - 1], last + [|pairs| - 1])
  {
    hide IsFirst, IsLast;
    var n := |pairs| - 1;
    NewFirsts(was, pairs, at, last);
    LastOfAll(pairs);
    forall j: nat | j < |was|
      ensures EntryOf(was[j], pairs, at[j], last[j])
    {
      LastsStay(was, pairs, at, last, j);
    }
  }

  lemma NewFirsts(was: seq<(Json, Json)>, pairs: seq<(Json, Json)>, at: seq<nat>, last: seq<nat>)
    requires pairs != [] && Holds(was, pairs[..|pairs| - 1], at, last)
    requires forall i: nat :: i < |was| ==> was[i].0 != pairs[|pairs| - 1].0
    ensures Firsts(pairs, at + [|pairs| - 1])
  {
    var n := |pairs| - 1;
    var before := pairs[..n];
    forall k: nat | k < n ensures IsFirst(before, k) <==> IsFirst(pairs, k) {
      FirstBefore(pairs, n, k);
    }
    forall k: nat | k < n ensures pairs[k].0 != pairs[n].0 {
      var j := SomeFirst(before, k);
      assert j in at;
      var i: nat :| i < |at| && at[i] == j;
      assert was[i].0 == before[k].0;
    }
    assert IsFirst(pairs, n);
  }

  predicate HasKey(pairs: seq<(Json, Json)>, key: Json) {
    exists i: nat :: i < |pairs| && pairs[i].0 == key
  }

  /** The keys are pairwise different, and exactly those of the pairs. */
  lemma DictKeys(pairs: seq<(Json, Json)>)
    ensures forall i: nat, j: nat :: i < j < |FromPairs(pairs)| ==> FromPairs(pairs)[i].0 != FromPairs(pairs)[j].0
    ensures forall key :: HasKey(FromPairs(pairs), key) <==> HasKey(pairs, key)
  {
    hide FromPairs;
    var at, last := DictHolds(pairs);
    var dict := FromPairs(pairs);
    forall i: nat, j: nat | i < j < |dict| ensures dict[i].0 != dict[j].0 {
      KeysDiffer(dict, pairs, at, last, i, j);
    }
    forall k: nat | k < |pairs| ensures HasKey(dict, pairs[k].0) {
      var j := SomeFirst(pairs, k);
      var i: nat :| i < |at| && at[i] == j;
      assert dict[i].0 == pairs[k].0;
    }
    forall i: nat | i < |dict| ensures HasKey(pairs, dict[i].0) {
      assert EntryOf(dict[i], pairs, at[i], last[i]);
    }
  }
}
