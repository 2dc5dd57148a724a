/** Reference counted objects as the decoder sees them (foreign calls of src/decode/decode.c). */
module References {
  import opened Memory

  /** An object's place in the order of creation. */
  type Id = nat

  /** A list and a dict own a reference to each of their items. A string may know its hash. */
  datatype Node =
    | Freed
    | Leaf(code: nat)
    | Str(kind: nat, bytes: seq<Byte>, hashed: bool)
    | ListOf(items: seq<Id>)
    | DictOf(keys: seq<Id>, vals: seq<Id>)

  function Owned(n: Node): multiset<Id> {
    match n
    case ListOf(items) => multiset(items)
    case DictOf(keys, vals) => multiset(keys) + multiset(vals)
    case _ => multiset{}
  }

  /** How many references to c objects own. */
  ghost function Held(nodes: seq<Node>, c: Id): nat {
    if nodes == [] then 0 else Held(nodes[..|nodes| - 1], c) + Owned(nodes[|nodes| - 1])[c]
  }

  /** Every count is the number of references there are: those owned by objects and those `outside`. An
      object without references is freed, and owns references to older objects only. */
  ghost predicate Balanced(nodes: seq<Node>, refs: seq<nat>, outside: multiset<Id>) {
    && |nodes| == |refs|
    && (forall i: nat :: i < |nodes| ==> refs[i] == Held(nodes, i) + outside[i])
    && (forall i: nat :: i < |nodes| ==> (nodes[i].Freed? <==> refs[i] == 0))
    && (forall i :: i in outside ==> i < |nodes|)
    && (forall i: nat :: i < |nodes| ==> NodeOk(nodes[i], i))
  }

  ghost predicate NodeOk(n: Node, i: nat) {
    && (forall c :: c in Owned(n) ==> c < i)
    && (n.DictOf? ==> |n.keys| == |n.vals|)
  }

  lemma {:induction false} HeldUpdate(nodes: seq<Node>, i: nat, x: Node, c: Id)
    requires i < |nodes|
    ensures Held(nodes[i := x], c) + Owned(nodes[i])[c] == Held(nodes, c) + Owned(x)[c]
  {
    hide Owned;
    var n := |nodes| - 1;
    if i == n {
      assert nodes[i := x][..n] == nodes[..n];
    } else {
      HeldUpdate(nodes[..n], i, x, c);
      assert nodes[i := x][..n] == nodes[..n][i := x];
    }
  }

  lemma {:induction false} HeldOwned(nodes: seq<Node>, i: nat, c: Id)
    requires i < |nodes|
    ensures Owned(nodes[i])[c] <= Held(nodes, c)
  {
    hide Owned;
    if i < |nodes| - 1 {
      HeldOwned(nodes[..|nodes| - 1], i, c);
    }
  }

  lemma {:induction false} HeldBelow(nodes: seq<Node>, c: Id)
    requires c >= |nodes| && forall i: nat :: i < |nodes| ==> NodeOk(nodes[i], i)
    ensures Held(nodes, c) == 0
  {
    hide Owned;
    if nodes != [] {
      var m := |nodes| - 1;
      HeldBelow(nodes[..m], c);
      assert NodeOk(nodes[m], m);
      assert c !in Owned(nodes[m]);
    }
  }

  /** What a live object owns is live. */
  lemma OwnedLive(nodes: seq<Node>, refs: seq<nat>, outside: multiset<Id>, i: nat, c: Id)
    requires Balanced(nodes, refs, outside) && i < |nodes| && c in Owned(nodes[i])
    ensures c < i && !nodes[c].Freed?
  {
    HeldOwned(nodes, i, c);
    assert NodeOk(nodes[i], i);
  }

  /** What is referred to from outside is live. */
  lemma OutsideLive(nodes: seq<Node>, refs: seq<nat>, outside: multiset<Id>, i: Id)
    requires Balanced(nodes, refs, outside) && i in outside
    ensures i < |nodes| == |refs| && !nodes[i].Freed? && refs[i] > 0
  {
  }

  // ----- One step of each kind -----

  /** A new object takes over references from outside; its own is outside. */
  lemma Created(nodes: seq<Node>, refs: seq<nat>, outside: multiset<Id>, x: Node)
    requires Balanced(nodes, refs, outside + Owned(x)) && !x.Freed? && NodeOk(x, |nodes|)
    ensures Balanced(nodes + [x], refs + [1], outside + multiset{|nodes|})
  {
    hide Owned;
    var n := |nodes|;
    assert (nodes + [x])[..n] == nodes;
    HeldBelow(nodes, n);
    assert n !in Owned(x) && n !in outside + Owned(x);
    forall i: nat | i < n ensures (nodes + [x])[i] == nodes[i] && NodeOk(nodes[i], i) {}
    forall i | i in outside + multiset{n} ensures i < n + 1 {
      assert i == n || i in outside + Owned(x);
    }
    forall i: nat | i < n + 1 ensures (refs + [1])[i] == Held(nodes + [x], i) + (outside + multiset{n})[i] {
      assert Held(nodes + [x], i) == Held(nodes, i) + Owned(x)[i];
      if i < n {
        assert refs[i] == Held(nodes, i) + (outside + Owned(x))[i];
      }
    }
  }

  lemma Increfed(nodes: seq<Node>, refs: seq<nat>, outside: multiset<Id>, i: Id)
    requires Balanced(nodes, refs, outside) && i < |nodes| && !nodes[i].Freed?
    ensures Balanced(nodes, refs[i := refs[i] + 1], outside + multiset{i})
  {
    hide Held, NodeOk;
  }

  lemma Decrefed(nodes: seq<Node>, refs: seq<nat>, outside: multiset<Id>, i: Id)
    requires Balanced(nodes, refs, outside + multiset{i}) && i < |refs| && refs[i] > 1
    ensures Balanced(nodes, refs[i := refs[i] - 1], outside)
  {
    hide Held, NodeOk;
    forall j | j in outside ensures j < |nodes| {
      assert j in outside + multiset{i};
    }
  }

  /** The last reference goes: the object is freed and what it owned is owed. */
  lemma LastDecrefed(nodes: seq<Node>, refs: seq<nat>, outside: multiset<Id>, i: Id)
    requires Balanced(nodes, refs, outside + multiset{i}) && i < |refs| && refs[i] == 1
    ensures Balanced(nodes[i := Freed], refs[i := 0], outside + Owned(nodes[i]))
  {
    assert outside + multiset{} + multiset{i} == outside + multiset{i};
    Moved(nodes, refs, outside, i, Freed, multiset{}, Owned(nodes[i]));
  }

  /** An object changes what it owns: it takes some references from outside and gives others up. */
  lemma Moved(nodes: seq<Node>, refs: seq<nat>, outside: multiset<Id>, i: Id, x: Node, take: multiset<Id>,
      give: multiset<Id>)
    requires i < |nodes| == |refs| && NodeOk(x, i)
    requires forall c :: Owned(x)[c] + give[c] == Owned(nodes[i])[c] + take[c]
    requires (Balanced(nodes, refs, outside + take) && !nodes[i].Freed? && !x.Freed?)
      || (Balanced(nodes, refs, outside + take + multiset{i}) && refs[i] == 1 && x.Freed?)
    ensures Balanced(nodes[i := x], if x.Freed? then refs[i := 0] else refs, outside + give)
  {
    hide Owned, Held;
    forall j: nat | j < |nodes| ensures Held(nodes[i := x], j) + give[j] == Held(nodes, j) + take[j] {
      HeldUpdate(nodes, i, x, j);
    }
    assert NodeOk(nodes[i], i);
    forall c | c in outside + give ensures c < |nodes| {
      if c in outside {
        assert c in outside + take && c in outside + take + multiset{i};
      } else {
        assert Owned(nodes[i])[c] + take[c] > 0;
        assert c in Owned(nodes[i]) || (c in outside + take && c in outside + take + multiset{i});
      }
    }
  }
}

/** What an object stands for, and which changes of the heap it does not notice. */
module Values {
  import opened Memory
  import opened References

  datatype Json =
    | Gone
    | Atom(code: nat)
    | Text(kind: nat, bytes: seq<Byte>)
    | Arr(items: seq<Json>)
    | Dict(pairs: seq<(Json, Json)>)

  ghost predicate Ordered(nodes: seq<Node>) {
    forall i: nat :: i < |nodes| ==> NodeOk(nodes[i], i)
  }

  predicate Below(ids: seq<Id>, n: nat) {
    forall k: nat :: k < |ids| ==> ids[k] < n
  }

  lemma ItemsBelow(n: Node, i: nat)
    requires NodeOk(n, i)
    ensures n.ListOf? ==> Below(n.items, i)
    ensures n.DictOf? ==> Below(n.keys, i) && Below(n.vals, i)
  {
    if n.ListOf? {
      forall k: nat | k < |n.items| ensures n.items[k] < i {
        assert n.items[k] in Owned(n);
      }
    }
    if n.DictOf? {
      forall k: nat | k < |n.keys| ensures n.keys[k] < i && n.vals[k] < i {
        assert n.keys[k] in Owned(n) && n.vals[k] in Owned(n);
      }
    }
  }

  ghost function Value(nodes: seq<Node>, i: Id): Json
    requires Ordered(nodes) && i < |nodes|
    decreases i + 1, 0
  {
    assert NodeOk(nodes[i], i);
    ItemsBelow(nodes[i], i);
    match nodes[i]
    case Freed => Gone
    case Leaf(code) => Atom(code)
    case Str(kind, bytes, _) => Text(kind, bytes)
    case ListOf(items) => Arr(ValuesOf(nodes, i, items))
    case DictOf(keys, vals) => Dict(Zip(ValuesOf(nodes, i, keys), ValuesOf(nodes, i, vals)))
  }

  ghost function ValuesOf(nodes: seq<Node>, n: nat, ids: seq<Id>): (vs: seq<Json>)
    requires Ordered(nodes) && n <= |nodes| && Below(ids, n)
    ensures |vs| == |ids|
    decreases n, |ids| + 1
  {
    if ids == [] then [] else ValuesOf(nodes, n, ids[..|ids| - 1]) + [Value(nodes, ids[|ids| - 1])]
  }

  lemma {:induction false} ValueAt(nodes: seq<Node>, n: nat, ids: seq<Id>, k: nat)
    requires Ordered(nodes) && n <= |nodes| && Below(ids, n) && k < |ids|
    ensures ValuesOf(nodes, n, ids)[k] == Value(nodes, ids[k])
  {
    hide Value;
    if k < |ids| - 1 {
      ValueAt(nodes, n, ids[..|ids| - 1], k);
    }
  }

  function Zip(ks: seq<Json>, vs: seq<Json>): (ps: seq<(Json, Json)>)
    requires |ks| == |vs|
    ensures |ps| == |ks| && forall i: nat :: i < |ks| ==> ps[i] == (ks[i], vs[i])
  {
    seq(|ks|, i requires 0 <= i < |ks| => (ks[i], vs[i]))
  }

  /** The first pair with this key, or the number of pairs. */
  function IndexOf(pairs: seq<(Json, Json)>, key: Json): (i: nat)
    ensures i <= |pairs| && (i < |pairs| ==> pairs[i].0 == key)
    ensures forall k: nat :: k < i ==> pairs[k].0 != key
  {
    if pairs == [] then 0
    else
      var i := IndexOf(pairs[..|pairs| - 1], key);
      if i < |pairs| - 1 then i else if pairs[|pairs| - 1].0 == key then i else |pairs|
  }

  /** A later value for a key replaces the earlier one in its place. */
  function Insert(pairs: seq<(Json, Json)>, key: Json, value: Json): seq<(Json, Json)> {
    var i := IndexOf(pairs, key);
    if i < |pairs| then pairs[i := (key, value)] else pairs + [(key, value)]
  }

  function FromPairs(pairs: seq<(Json, Json)>): seq<(Json, Json)> {
    if pairs == [] then []
    else Insert(FromPairs(pairs[..|pairs| - 1]), pairs[|pairs| - 1].0, pairs[|pairs| - 1].1)
  }

  /** A later heap: objects were freed or learnt their hash, others are as they were. */
  ghost predicate Later(n: Node, n': Node) {
    n' == n || n'.Freed? || (n.Str? && n' == n.(hashed := true))
  }

  ghost predicate LaterUpTo(nodes: seq<Node>, nodes': seq<Node>, n: nat) {
    n <= |nodes| && n <= |nodes'| && forall j: nat :: j < n ==> Later(nodes[j], nodes'[j])
  }

  lemma LaterTwice(nodes: seq<Node>, nodes': seq<Node>, nodes'': seq<Node>, n: nat)
    requires LaterUpTo(nodes, nodes', n) && LaterUpTo(nodes', nodes'', n)
    ensures LaterUpTo(nodes, nodes'', n)
  {
  }

  lemma LaterLonger(nodes: seq<Node>, x: Node)
    ensures LaterUpTo(nodes, nodes + [x], |nodes|)
  {
  }

  lemma LaterFewer(nodes: seq<Node>, nodes': seq<Node>, n: nat, m: nat)
    requires LaterUpTo(nodes, nodes', n) && m <= n
    ensures LaterUpTo(nodes, nodes', m)
  {
  }

  lemma LaterSelf(nodes: seq<Node>, n: nat)
    requires n <= |nodes|
    ensures LaterUpTo(nodes, nodes, n)
  {
  }

  /** What is still referred to keeps its value. */
  lemma {:induction false} SameValue(nodes: seq<Node>, nodes': seq<Node>, refs': seq<nat>, outside: multiset<Id>, i: Id)
    requires Ordered(nodes) && Balanced(nodes', refs', outside)
    requires LaterUpTo(nodes, nodes', i + 1) && !nodes'[i].Freed?
    ensures Value(nodes', i) == Value(nodes, i)
    decreases i + 1, 0
  {
    hide Balanced;
    BalancedOrdered(nodes', refs', outside);
    assert Later(nodes[i], nodes'[i]);
    var x := nodes'[i];
    assert NodeOk(x, i);
    ItemsBelow(x, i);
    forall c | c in Owned(x) ensures c < i && !nodes'[c].Freed? {
      OwnedLive(nodes', refs', outside, i, c);
    }
    if x.ListOf? {
      assert multiset(x.items) == Owned(x);
      SameValues(nodes, nodes', refs', outside, i, x.items);
    } else if x.DictOf? {
      assert multiset(x.keys) <= Owned(x) && multiset(x.vals) <= Owned(x);
      SameValues(nodes, nodes', refs', outside, i, x.keys);
      SameValues(nodes, nodes', refs', outside, i, x.vals);
    }
  }

  lemma {:induction false} SameValues(nodes: seq<Node>, nodes': seq<Node>, refs': seq<nat>, outside: multiset<Id>,
      n: nat, ids: seq<Id>)
    requires Ordered(nodes) && Balanced(nodes', refs', outside)
    requires LaterUpTo(nodes, nodes', n) && Below(ids, n) && forall k: nat :: k < |ids| ==> !nodes'[ids[k]].Freed?
    ensures ValuesOf(nodes', n, ids) == ValuesOf(nodes, n, ids)
    decreases n, |ids| + 1
  {
    hide Balanced, Value;
    BalancedOrdered(nodes', refs', outside);
    if ids != [] {
      var m := |ids| - 1;
      SameValues(nodes, nodes', refs', outside, n, ids[..m]);
      SameValue(nodes, nodes', refs', outside, ids[m]);
    }
  }

  lemma BalancedOrdered(nodes: seq<Node>, refs: seq<nat>, outside: multiset<Id>)
    requires Balanced(nodes, refs, outside)
    ensures Ordered(nodes) && |refs| == |nodes|
  {
  }
}

module PyHeap {
  import opened Memory
  import opened References
  import opened Values

  /** The interpreter's objects and their counts. */
  class Heap {
    var nodes: seq<Node>
    var refs: seq<nat>

    ghost predicate Counts(outside: multiset<Id>)
      reads this
    {
      Balanced(nodes, refs, outside)
    }

    constructor ()
      ensures Counts(multiset{}) && nodes == []
    {
      nodes, refs := [], [];
    }

    /** A new object; it steals the references it owns. */
    method New(x: Node, ghost outside: multiset<Id>) returns (i: Id)
      requires Counts(outside + Owned(x)) && !x.Freed? && (x.DictOf? ==> |x.keys| == |x.vals|)
      modifies this
      ensures Counts(outside + multiset{i})
      ensures i == |old(nodes)| && nodes == old(nodes) + [x]
    {
      hide Owned;
      assert NodeOk(x, |nodes|) by {
        forall c | c in Owned(x) ensures c < |nodes| {
          assert c in outside + Owned(x);
        }
      }
      Created(nodes, refs, outside, x);
      i := |nodes|;
      nodes, refs := nodes + [x], refs + [1];
    }

    /** Py_INCREF */
    method IncRef(i: Id, ghost outside: multiset<Id>)
      requires Counts(outside) && i < |nodes| && !nodes[i].Freed?
      modifies `refs
      ensures Counts(outside + multiset{i})
    {
      hide Held, NodeOk;
      Increfed(nodes, refs, outside, i);
      refs := refs[i := refs[i] + 1];
    }

    /** Py_DECREF: one reference from outside goes; the last one takes the object and, in turn, what it owned. */
    method DecRef(i: Id, ghost outside: multiset<Id>)
      requires Counts(outside + multiset{i})
      modifies this
      ensures Counts(outside)
      ensures |nodes| == |old(nodes)| && LaterUpTo(old(nodes), nodes, |nodes|)
      ensures forall j: nat :: i < j < |nodes| ==> nodes[j] == old(nodes)[j]
      decreases i
    {
      hide Balanced;
      OutsideLive(nodes, refs, outside + multiset{i}, i);
      if refs[i] > 1 {
        Decrefed(nodes, refs, outside, i);
        refs := refs[i := refs[i] - 1];
      } else {
        LastDecrefed(nodes, refs, outside, i);
        var n := nodes[i];
        BalancedOrdered(nodes, refs, outside + multiset{i});
        ItemsBelow(n, i);
        nodes, refs := nodes[i := Freed], refs[i := 0];
        var items := match n case ListOf(items) => items case DictOf(keys, vals) => keys + vals case _ => [];
        assert Owned(n) == multiset(items) && Below(items, i);
        ReleaseAll(items, i, outside);
      }
    }

    /** Release the references of a freed object. */
    method ReleaseAll(items: seq<Id>, i: Id, ghost outside: multiset<Id>)
      requires Counts(outside + multiset(items)) && Below(items, i) && i <= |nodes|
      modifies this
      ensures Counts(outside)
      ensures |nodes| == |old(nodes)| && LaterUpTo(old(nodes), nodes, |nodes|)
      ensures forall j: nat :: i <= j < |nodes| ==> nodes[j] == old(nodes)[j]
      decreases i, 0
    {
      hide Balanced;
      var k := 0;
      assert items[0..] == items;
      while k < |items|
        invariant 0 <= k <= |items| && Counts(outside + multiset(items[k..]))
        invariant |nodes| == |old(nodes)| && LaterUpTo(old(nodes), nodes, |nodes|)
        invariant forall j: nat :: i <= j < |nodes| ==> nodes[j] == old(nodes)[j]
      {
        assert items[k..] == [items[k]] + items[k + 1..];
        assert outside + multiset(items[k..]) == outside + multiset(items[k + 1..]) + multiset{items[k]};
        DecRef(items[k], outside + multiset(items[k + 1..]));
        k := k + 1;
      }
      assert items[k..] == [];
      assert outside + multiset(items[k..]) == outside;
    }

    /** Where a dict has this key, or the number of its entries. */
    method FindKey(d: Id, key: Id) returns (j: nat)
      requires Ordered(nodes) && d < |nodes| && nodes[d].DictOf? && key < d && nodes[key].Str?
      ensures Value(nodes, d).Dict? && j == IndexOf(Value(nodes, d).pairs, Value(nodes, key))
      ensures FoundAt(nodes, nodes[d].keys, key, j)
    {
      hide ValuesOf;
      var keys := nodes[d].keys;
      assert NodeOk(nodes[d], d);
      ItemsBelow(nodes[d], d);
      ghost var pairs := Value(nodes, d).pairs;
      j := 0;
      while j < |keys| && !SameText(nodes[keys[j]], nodes[key])
        invariant j <= |keys| == |pairs|
        invariant forall k: nat :: k < j ==> pairs[k].0 != Value(nodes, key)
        invariant forall k: nat :: k < j ==> !SameText(nodes[keys[k]], nodes[key])
      {
        ValueAt(nodes, d, keys, j);
        j := j + 1;
      }
      if j < |keys| {
        ValueAt(nodes, d, keys, j);
      }
      FirstIndex(pairs, Value(nodes, key), j);
    }

    /** _PyDict_SetItem_KnownHash when it succeeds: the dict takes its own references; a key that is there
        stays, and the value it had is released. */
    method SetItem(d: Id, key: Id, val: Id, ghost outside: multiset<Id>)
      requires Counts(outside) && d in outside && key in outside && val in outside && key < d && val < d
      requires d < |nodes| && nodes[d].DictOf? && key < |nodes| && nodes[key].Str?
      modifies this
      ensures Counts(outside) && |nodes| == |old(nodes)| && LaterUpTo(old(nodes), nodes, d)
      ensures Ordered(old(nodes)) && Ordered(nodes) && nodes[d].DictOf?
      ensures old(Value(nodes, d)).Dict?
      ensures Value(nodes, d)
        == Dict(Insert(old(Value(nodes, d)).pairs, old(Value(nodes, key)), old(Value(nodes, val))))
      ensures forall j: nat :: d < j < |nodes| ==> nodes[j] == old(nodes)[j]
      // the dict itself: the key and the value behind all others, or the value in the place of the old one
      ensures exists j: nat ::
        FoundAt(old(nodes), old(nodes[d]).keys, key, j)
        && nodes[d] == (if j == |old(nodes[d]).keys|
          then DictOf(old(nodes[d]).keys + [key], old(nodes[d]).vals + [val])
          else DictOf(old(nodes[d]).keys, old(nodes[d]).vals[j := val]))
    {
      hide Balanced, Value, ValuesOf, SameText;
      BalancedOrdered(nodes, refs, outside);
      OutsideLive(nodes, refs, outside, val);
      OutsideLive(nodes, refs, outside, key);
      DictValue(nodes, d);
      ghost var was := nodes;
      var j := FindKey(d, key);
      var keys, vals := nodes[d].keys, nodes[d].vals;
      IncRef(val, outside);
      if j < |keys| {
        Replaced(nodes, refs, outside, d, j, val);
        nodes := nodes[d := DictOf(keys, vals[j := val])];
        ghost var mid := nodes;
        BalancedOrdered(nodes, refs, outside + multiset{vals[j]});
        ReplacedValue(was, d, j, val, mid);
        DecRef(vals[j], outside);
        OutsideLive(nodes, refs, outside, d);
        SameValue(mid, nodes, refs, outside, d);
        assert Later(mid[d], nodes[d]);
      } else {
        BalancedOrdered(nodes, refs, outside + multiset{val});
        IncRef(key, outside + multiset{val});
        Added(nodes, refs, outside, d, key, val);
        nodes := nodes[d := DictOf(keys + [key], vals + [val])];
        BalancedOrdered(nodes, refs, outside);
        AddedValue(was, d, key, val, nodes);
      }
      BalancedOrdered(nodes, refs, outside);
    }

    /** Insert a pair and release the caller's references to it. */
    method MoveIn(d: Id, key: Id, val: Id, ghost rest: multiset<Id>)
      requires Counts(rest + multiset{val} + multiset{key}) && d in rest && key < d && val < d
      requires d < |nodes| && nodes[d].DictOf? && nodes[key].Str?
      modifies this
      ensures Counts(rest) && |nodes| == |old(nodes)| && LaterUpTo(old(nodes), nodes, d)
      ensures Ordered(old(nodes)) && Ordered(nodes) && nodes[d].DictOf? && old(Value(nodes, d)).Dict?
      ensures Value(nodes, d)
        == Dict(Insert(old(Value(nodes, d)).pairs, old(Value(nodes, key)), old(Value(nodes, val))))
    {
      hide Balanced, Value, Insert;
      SetItem(d, key, val, rest + multiset{val} + multiset{key});
      ghost var mid := nodes;
      DecRef(key, rest + multiset{val});
      DecRef(val, rest);
      OutsideLive(nodes, refs, rest, d);
      SameValue(mid, nodes, refs, rest, d);
      BalancedOrdered(nodes, refs, rest);
      assert Later(mid[d], nodes[d]);
    }
  }

  /** Key j is the first with the text of this one, or there is none and j is the number of keys. */
  ghost predicate FoundAt(nodes: seq<Node>, keys: seq<Id>, key: Id, j: nat)
  {
    && key < |nodes| && j <= |keys| && Below(keys, |nodes|)
    && (j < |keys| ==> SameText(nodes[keys[j]], nodes[key]))
    && forall k: nat :: k < j ==> !SameText(nodes[keys[k]], nodes[key])
  }

  predicate SameText(a: Node, b: Node) {
    a.Str? && b.Str? && a.kind == b.kind && a.bytes == b.bytes
  }

  lemma {:induction false} FirstIndex(pairs: seq<(Json, Json)>, key: Json, j: nat)
    requires j <= |pairs| && (j < |pairs| ==> pairs[j].0 == key)
    requires forall k: nat :: k < j ==> pairs[k].0 != key
    ensures IndexOf(pairs, key) == j
  {
  }

  lemma DictValue(nodes: seq<Node>, d: Id)
    requires Ordered(nodes) && d < |nodes| && nodes[d].DictOf?
    ensures |nodes[d].keys| == |nodes[d].vals| && Below(nodes[d].keys, d) && Below(nodes[d].vals, d)
    ensures Value(nodes, d) == Dict(Zip(ValuesOf(nodes, d, nodes[d].keys), ValuesOf(nodes, d, nodes[d].vals)))
  {
    assert NodeOk(nodes[d], d);
    ItemsBelow(nodes[d], d);
  }

  /** What an object stands for depends on older objects only. */
  lemma {:induction false} PrefixValue(nodes: seq<Node>, nodes': seq<Node>, i: Id)
    requires Ordered(nodes) && Ordered(nodes') && i < |nodes| && i < |nodes'|
    requires forall j: nat :: j <= i ==> nodes'[j] == nodes[j]
    ensures Value(nodes', i) == Value(nodes, i)
    decreases i + 1, 0
  {
    assert NodeOk(nodes[i], i);
    ItemsBelow(nodes[i], i);
    match nodes[i] {
      case ListOf(items) =>
        PrefixValues(nodes, nodes', i, items);
      case DictOf(keys, vals) =>
        PrefixValues(nodes, nodes', i, keys);
        PrefixValues(nodes, nodes', i, vals);
      case _ =>
    }
  }

  lemma {:induction false} PrefixValues(nodes: seq<Node>, nodes': seq<Node>, n: nat, ids: seq<Id>)
    requires Ordered(nodes) && Ordered(nodes') && n <= |nodes| && n <= |nodes'| && Below(ids, n)
    requires forall j: nat :: j < n ==> nodes'[j] == nodes[j]
    ensures ValuesOf(nodes', n, ids) == ValuesOf(nodes, n, ids)
    decreases n, |ids| + 1
  {
    hide Value;
    if ids != [] {
      var m := |ids| - 1;
      PrefixValues(nodes, nodes', n, ids[..m]);
      PrefixValue(nodes, nodes', ids[m]);
    }
  }

  /** The dict with another value for its j-th key. */
  lemma Replaced(nodes: seq<Node>, refs: seq<nat>, outside: multiset<Id>, d: Id, j: nat, val: Id)
    requires Balanced(nodes, refs, outside + multiset{val}) && d < |nodes| && nodes[d].DictOf? && val < d
    requires |nodes[d].keys| == |nodes[d].vals| && j < |nodes[d].keys|
    ensures Balanced(nodes[d := DictOf(nodes[d].keys, nodes[d].vals[j := val])], refs,
      outside + multiset{nodes[d].vals[j]})
  {
    hide Balanced, Held, Owned;
    BalancedOrdered(nodes, refs, outside + multiset{val});
    var keys, vals := nodes[d].keys, nodes[d].vals;
    var x, was := DictOf(keys, vals[j := val]), vals[j];
    assert NodeOk(nodes[d], d);
    forall c: Id
      ensures Owned(x)[c] + multiset{was}[c] == Owned(nodes[d])[c] + multiset{val}[c]
      ensures c in Owned(x) ==> c < d
    {
      ReplacedCount(keys, vals, j, val, c);
    }
    Moved(nodes, refs, outside, d, x, multiset{val}, multiset{was});
  }

  lemma ReplacedCount(keys: seq<Id>, vals: seq<Id>, j: nat, val: Id, c: Id)
    requires j < |vals|
    ensures Owned(DictOf(keys, vals[j := val]))[c] + multiset{vals[j]}[c]
      == Owned(DictOf(keys, vals))[c] + multiset{val}[c]
    ensures c in Owned(DictOf(keys, vals[j := val])) ==> c == val || c in Owned(DictOf(keys, vals))
  {
  }

  lemma ReplacedValue(nodes: seq<Node>, d: Id, j: nat, val: Id, nodes': seq<Node>)
    requires Ordered(nodes) && Ordered(nodes') && d < |nodes| && nodes[d].DictOf? && val < d
    requires |nodes[d].keys| == |nodes[d].vals| && j < |nodes[d].keys|
    requires nodes' == nodes[d := DictOf(nodes[d].keys, nodes[d].vals[j := val])]
    ensures Value(nodes, d).Dict? && j < |Value(nodes, d).pairs|
    ensures Value(nodes', d) == Dict(Value(nodes, d).pairs[j := (Value(nodes, d).pairs[j].0, Value(nodes, val))])
  {
    hide Value, ValuesOf;
    DictValue(nodes, d);
    DictValue(nodes', d);
    var keys, vals, vals' := nodes[d].keys, nodes[d].vals, nodes'[d].vals;
    PrefixValues(nodes, nodes', d, keys);
    forall k: nat | k < |vals|
      ensures ValuesOf(nodes', d, vals')[k] == ValuesOf(nodes, d, vals)[j := Value(nodes, val)][k]
    {
      ValueAt(nodes', d, vals', k);
      ValueAt(nodes, d, vals, k);
      PrefixValue(nodes, nodes', vals'[k]);
    }
  }

  /** The dict with one more pair. */
  lemma Added(nodes: seq<Node>, refs: seq<nat>, outside: multiset<Id>, d: Id, key: Id, val: Id)
    requires Balanced(nodes, refs, outside + multiset{val} + multiset{key})
    requires d < |nodes| && nodes[d].DictOf? && key < d && val < d && |nodes[d].keys| == |nodes[d].vals|
    ensures Balanced(nodes[d := DictOf(nodes[d].keys + [key], nodes[d].vals + [val])], refs, outside)
  {
    hide Balanced, Held, Owned;
    var keys, vals := nodes[d].keys, nodes[d].vals;
    var x, take := DictOf(keys + [key], vals + [val]), multiset{val} + multiset{key};
    BalancedOrdered(nodes, refs, outside + multiset{val} + multiset{key});
    assert NodeOk(nodes[d], d);
    forall c: Id
      ensures Owned(x)[c] + multiset{}[c] == Owned(nodes[d])[c] + take[c]
      ensures c in Owned(x) ==> c < d
    {
      AddedCount(keys, vals, key, val, c);
    }
    assert outside + take == outside + multiset{val} + multiset{key};
    Moved(nodes, refs, outside, d, x, take, multiset{});
    assert outside + multiset{} == outside;
  }

  lemma AddedCount(keys: seq<Id>, vals: seq<Id>, key: Id, val: Id, c: Id)
    ensures Owned(DictOf(keys + [key], vals + [val]))[c]
      == Owned(DictOf(keys, vals))[c] + (multiset{val} + multiset{key})[c]
    ensures c in Owned(DictOf(keys + [key], vals + [val])) ==> c == val || c == key || c in Owned(DictOf(keys, vals))
  {
  }

  lemma AddedValue(nodes: seq<Node>, d: Id, key: Id, val: Id, nodes': seq<Node>)
    requires Ordered(nodes) && Ordered(nodes') && d < |nodes| && nodes[d].DictOf? && key < d && val < d
    requires |nodes[d].keys| == |nodes[d].vals|
    requires nodes' == nodes[d := DictOf(nodes[d].keys + [key], nodes[d].vals + [val])]
    ensures Value(nodes, d).Dict?
    ensures Value(nodes', d) == Dict(Value(nodes, d).pairs + [(Value(nodes, key), Value(nodes, val))])
  {
    hide Value, ValuesOf;
    DictValue(nodes, d);
    DictValue(nodes', d);
    var keys, vals := nodes[d].keys, nodes[d].vals;
    OneMoreValue(nodes, nodes', d, keys, key);
    OneMoreValue(nodes, nodes', d, vals, val);
  }

  lemma OneMoreValue(nodes: seq<Node>, nodes': seq<Node>, n: nat, ids: seq<Id>, id: Id)
    requires Ordered(nodes) && Ordered(nodes') && n <= |nodes| && n <= |nodes'| && Below(ids, n) && id < n
    requires forall j: nat :: j < n ==> nodes'[j] == nodes[j]
    ensures ValuesOf(nodes', n, ids + [id]) == ValuesOf(nodes, n, ids) + [Value(nodes, id)]
  {
    hide Value;
    PrefixValues(nodes, nodes', n, ids);
    PrefixValue(nodes, nodes', id);
    assert (ids + [id])[..|ids|] == ids;
  }
}
