/** The decoder's value stack (src/decode/decode.c, src/utils/decode_utils.c). */
module ValueStack {
  import opened References
  import opened Values
  import opened PyHeap

  /** The pairs in a stretch of the stack: key, value, key, value, ... */
  ghost function PairsOf(nodes: seq<Node>, slots: seq<Id>, n: nat): (ps: seq<(Json, Json)>)
    requires Ordered(nodes) && 2 * n <= |slots| && Below(slots, |nodes|)
    ensures |ps| == n
  {
    seq(n, j requires 0 <= j < n => PairOf(nodes, slots, j))
  }

  ghost function PairOf(nodes: seq<Node>, slots: seq<Id>, j: nat): (Json, Json)
    requires Ordered(nodes) && 2 * j + 1 < |slots| && Below(slots, |nodes|)
  {
    (Value(nodes, slots[2 * j]), Value(nodes, slots[2 * j + 1]))
  }

  class Stack {
    const heap: Heap
    var stack: array<Id>
    var writer: nat

    /** The references on the stack and those elsewhere are all there are. */
    ghost predicate Valid(elsewhere: multiset<Id>)
      reads this, stack, heap
    {
      Room() && heap.Counts(elsewhere + multiset(stack[..writer]))
    }

    ghost predicate Room()
      reads this
    {
      writer <= stack.Length && stack.Length > 0
    }

    constructor (heap: Heap, capacity: nat)
      requires capacity > 0
      ensures this.heap == heap && Room() && writer == 0 && fresh(stack)
    {
      this.heap := heap;
      stack := new Id[capacity](_ => 0);
      writer := 0;
    }

    /** _decoder_push_obj, with the doubling of _decode_obj_stack_resize. */
    method Push(obj: Id)
      requires Room()
      modifies this, stack
      ensures Room() && stack[..writer] == old(stack[..writer]) + [obj]
      ensures stack == old(stack) || fresh(stack)
    {
      if writer >= stack.Length {
        var bigger := new Id[2 * stack.Length](_ => 0);
        forall i | 0 <= i < stack.Length {
          bigger[i] := stack[i];
        }
        assert bigger[..writer] == stack[..writer];
        stack := bigger;
      }
      stack[writer] := obj;
      writer := writer + 1;
    }

    /** decode_arr: the last n values become the items of a list, which takes over their references. */
    method DecodeArr(n: nat, ghost elsewhere: multiset<Id>)
      requires Valid(elsewhere) && n <= writer
      modifies this, stack, heap
      ensures Valid(elsewhere) && (stack == old(stack) || fresh(stack))
      ensures heap.nodes == old(heap.nodes) + [ListOf(old(stack[writer - n..writer]))]
      ensures stack[..writer] == old(stack[..writer - n]) + [|old(heap.nodes)|]
    {
      hide Balanced, Owned;
      var start := writer - n;
      ghost var rest := elsewhere + multiset(stack[..start]);
      Split(stack[..writer], start, elsewhere);
      var items := Slots(start);
      assert stack[..writer][start..] == items && stack[..writer][..start] == stack[..start];
      assert Owned(ListOf(items)) == multiset(items) by { ListOwns(items); }
      var list := heap.New(ListOf(items), rest);
      writer := start;
      OneMore(stack[..writer], list, elsewhere);
      Push(list);
    }

    /** The values from `start` on. */
    method Slots(start: nat) returns (items: seq<Id>)
      requires Room() && start <= writer
      ensures items == stack[start..writer]
    {
      items := [];
      for j := start to writer
        invariant items == stack[start..j]
      {
        items := items + [stack[j]];
      }
    }

    /** The loop of decode_obj over the pairs; it stops at the first insertion that fails. */
    method InsertPairs(slots: seq<Id>, n: nat, d: Id, fails: nat -> bool, ghost others: multiset<Id>) returns (j: nat)
      requires heap.Counts(others + multiset{d} + multiset(slots)) && |slots| == 2 * n
      requires d < |heap.nodes| && heap.nodes[d] == DictOf([], [])
      requires forall k: nat :: k < |slots| ==> slots[k] < d
      requires forall k: nat :: k < n ==> heap.nodes[slots[2 * k]].Str? && heap.nodes[slots[2 * k]].hashed
      modifies heap
      ensures j <= n && heap.Counts(others + multiset{d} + multiset(slots[2 * j..]))
      ensures (forall i: nat :: i < j ==> !fails(i)) && (j < n ==> fails(j))
      ensures |heap.nodes| == |old(heap.nodes)| && LaterUpTo(old(heap.nodes), heap.nodes, d)
      ensures Ordered(old(heap.nodes)) && Ordered(heap.nodes) && Below(slots, |heap.nodes|)
      ensures j == n ==> Value(heap.nodes, d) == Dict(FromPairs(PairsOf(old(heap.nodes), slots, n)))
    {
      hide Balanced, Value, PairsOf, FromPairs, Insert, LaterUpTo, Ordered;
      ghost var was, base := heap.nodes, others + multiset{d};
      BalancedOrdered(was, heap.refs, base + multiset(slots));
      ghost var pairs := PairsOf(was, slots, n);
      j := 0;
      assert slots[0..] == slots;
      EmptyDict(was, d);
      LaterSelf(was, d);
      while j < n && !fails(j)
        invariant j <= n && heap.Counts(base + multiset(slots[2 * j..]))
        invariant forall i: nat :: i < j ==> !fails(i)
        invariant |heap.nodes| == |was| && LaterUpTo(was, heap.nodes, d)
        invariant Ordered(heap.nodes) && heap.nodes[d].DictOf?
        invariant Value(heap.nodes, d) == Dict(FromPairs(pairs[..j]))
      {
        SlotsNext(base, slots, j);
        InsertPair(was, slots[2 * j], slots[2 * j + 1], d, base + multiset(slots[2 * (j + 1)..]));
        NextPair(was, slots, n, j);
        j := j + 1;
      }
      assert pairs[..n] == pairs;
    }

    /** One pair, whose key knows its hash. */
    method InsertPair(ghost was: seq<Node>, key: Id, val: Id, d: Id, ghost rest: multiset<Id>)
      requires heap.Counts(rest + multiset{val} + multiset{key}) && d in rest && key < d < |was| && val < d
      requires Ordered(was) && Ordered(heap.nodes) && |heap.nodes| == |was| && LaterUpTo(was, heap.nodes, d)
      requires heap.nodes[d].DictOf? && was[key].Str? && was[key].hashed
      modifies heap
      ensures heap.Counts(rest) && |heap.nodes| == |was| && LaterUpTo(was, heap.nodes, d)
      ensures Ordered(heap.nodes) && heap.nodes[d].DictOf? && old(Value(heap.nodes, d)).Dict?
      ensures Value(heap.nodes, d) == Dict(Insert(old(Value(heap.nodes, d)).pairs, Value(was, key), Value(was, val)))
    {
      hide Balanced, Value, Insert;
      ghost var all := rest + multiset{val} + multiset{key};
      StillThere(was, heap.nodes, heap.refs, all, key);
      StillThere(was, heap.nodes, heap.refs, all, val);
      assert heap.nodes[key].hashed;
      heap.MoveIn(d, key, val, rest);
    }

    /** The dict of the pairs; if an insertion fails, the dict and every reference of the pairs are released. */
    method BuildDict(slots: seq<Id>, n: nat, fails: nat -> bool, ghost others: multiset<Id>) returns (ok: bool, d: Id)
      requires heap.Counts(others + multiset(slots)) && |slots| == 2 * n && KeysKnown(heap.nodes, slots, n)
      modifies heap
      ensures ok <==> forall k: nat :: k < n ==> !fails(k)
      ensures heap.Counts(if ok then others + multiset{d} else others)
      ensures d == |old(heap.nodes)| && LaterUpTo(old(heap.nodes), heap.nodes, d)
      ensures Ordered(old(heap.nodes)) && Ordered(heap.nodes) && Below(slots, d)
      ensures ok ==> d < |heap.nodes| && Value(heap.nodes, d) == Dict(FromPairs(PairsOf(old(heap.nodes), slots, n)))
    {
      hide Balanced, Owned, Value, FromPairs, LaterUpTo, PairsOf;
      ghost var was := heap.nodes;
      BalancedOrdered(was, heap.refs, others + multiset(slots));
      SlotsLive(was, heap.refs, others, slots);
      NothingOwned(others + multiset(slots));
      d := heap.New(DictOf([], []), others + multiset(slots));
      assert others + multiset(slots) + multiset{d} == others + multiset{d} + multiset(slots);
      ghost var mid := heap.nodes;
      LaterLonger(was, DictOf([], []));
      var j := InsertPairs(slots, n, d, fails, others);
      LaterTwice(was, mid, heap.nodes, d);
      ok := j == n;
      if ok {
        assert slots[2 * n..] == [];
        assert others + multiset{d} + multiset(slots[2 * n..]) == others + multiset{d};
        PairsBefore(was, mid, slots, n);
      } else {
        ghost var stopped := heap.nodes;
        Abandon(slots[2 * j..], d, others);
        LaterTwice(was, stopped, heap.nodes, d);
      }
    }

    method Abandon(left: seq<Id>, d: Id, ghost others: multiset<Id>)
      requires heap.Counts(others + multiset{d} + multiset(left)) && Below(left, d) && d < |heap.nodes|
      modifies heap
      ensures heap.Counts(others) && LaterUpTo(old(heap.nodes), heap.nodes, d)
      ensures Ordered(heap.nodes)
    {
      hide Balanced;
      assert others + multiset{d} + multiset(left) == others + multiset(left) + multiset{d};
      ghost var was := heap.nodes;
      heap.DecRef(d, others + multiset(left));
      ghost var mid := heap.nodes;
      heap.ReleaseAll(left, d, others);
      LaterTwice(was, mid, heap.nodes, d);
      BalancedOrdered(heap.nodes, heap.refs, others);
    }

    /** decode_obj: the last n pairs become a dict; a later duplicate key wins. If an insertion fails, the
        dict and every reference of the pairs are released, and the stack ends before the pairs. */
    method DecodeObj(n: nat, fails: nat -> bool, ghost elsewhere: multiset<Id>) returns (ok: bool)
      requires Valid(elsewhere) && 2 * n <= writer && KeysKnown(heap.nodes, stack[writer - 2 * n..writer], n)
      modifies this, stack, heap
      ensures Valid(elsewhere) && (stack == old(stack) || fresh(stack))
      ensures ok <==> forall k: nat :: k < n ==> !fails(k)
      ensures stack[..writer] == old(stack[..writer - 2 * n]) + (if ok then [|old(heap.nodes)|] else [])
      ensures LaterUpTo(old(heap.nodes), heap.nodes, |old(heap.nodes)|)
      ensures Ordered(old(heap.nodes)) && Ordered(heap.nodes)
        && Below(old(stack[writer - 2 * n..writer]), |old(heap.nodes)|)
      ensures ok ==> |heap.nodes| > |old(heap.nodes)|
      ensures ok ==>
        Value(heap.nodes, |old(heap.nodes)|)
        == Dict(FromPairs(PairsOf(old(heap.nodes), old(stack[writer - 2 * n..writer]), n)))
    {
      hide Balanced, Value, FromPairs, LaterUpTo, PairsOf, KeysKnown;
      var start := writer - 2 * n;
      Split(stack[..writer], start, elsewhere);
      var slots := Slots(start);
      assert stack[..writer][start..] == slots && stack[..writer][..start] == stack[..start];
      var d;
      ok, d := BuildDict(slots, n, fails, elsewhere + multiset(stack[..start]));
      writer := start;
      if ok {
        OneMore(stack[..writer], d, elsewhere);
        Push(d);
      }
    }
  }

  /** The keys of the pairs are strings that know their hash. */
  ghost predicate KeysKnown(nodes: seq<Node>, slots: seq<Id>, n: nat)
    requires |slots| == 2 * n
  {
    forall k: nat :: k < n ==> KeyKnown(nodes, slots[2 * k])
  }

  ghost predicate KeyKnown(nodes: seq<Node>, i: Id) {
    i < |nodes| && nodes[i].Str? && nodes[i].hashed
  }

  lemma Split(all: seq<Id>, start: nat, elsewhere: multiset<Id>)
    requires start <= |all|
    ensures elsewhere + multiset(all) == elsewhere + multiset(all[..start]) + multiset(all[start..])
  {
    assert all == all[..start] + all[start..];
  }

  lemma OneMore(slots: seq<Id>, id: Id, elsewhere: multiset<Id>)
    ensures elsewhere + multiset(slots + [id]) == elsewhere + multiset(slots) + multiset{id}
  {
  }

  lemma ListOwns(items: seq<Id>)
    ensures Owned(ListOf(items)) == multiset(items)
  {
  }

  lemma NothingOwned(outside: multiset<Id>)
    ensures outside + Owned(DictOf([], [])) == outside
  {
  }

  lemma SlotsLive(nodes: seq<Node>, refs: seq<nat>, others: multiset<Id>, slots: seq<Id>)
    requires Balanced(nodes, refs, others + multiset(slots))
    ensures Below(slots, |nodes|) && forall k: nat :: k < |slots| ==> !nodes[slots[k]].Freed?
  {
    hide Held, NodeOk;
    forall k: nat | k < |slots| ensures slots[k] < |nodes| && !nodes[slots[k]].Freed? {
      assert slots[k] in others + multiset(slots);
      OutsideLive(nodes, refs, others + multiset(slots), slots[k]);
    }
  }

  /** The new dict does not change the pairs. */
  lemma PairsBefore(nodes: seq<Node>, nodes': seq<Node>, slots: seq<Id>, n: nat)
    requires Ordered(nodes) && Ordered(nodes') && Below(slots, |nodes|) && 2 * n <= |slots|
    requires |nodes| <= |nodes'| && nodes'[..|nodes|] == nodes
    ensures PairsOf(nodes', slots, n) == PairsOf(nodes, slots, n)
  {
    hide Value;
    forall j: nat | j < n ensures PairsOf(nodes', slots, n)[j] == PairsOf(nodes, slots, n)[j] {
      PrefixValue(nodes, nodes', slots[2 * j]);
      PrefixValue(nodes, nodes', slots[2 * j + 1]);
    }
  }

  lemma SlotsNext(base: multiset<Id>, slots: seq<Id>, j: nat)
    requires 2 * j + 1 < |slots|
    ensures base + multiset(slots[2 * j..])
      == base + multiset(slots[2 * (j + 1)..]) + multiset{slots[2 * j + 1]} + multiset{slots[2 * j]}
  {
    assert slots[2 * j..] == [slots[2 * j], slots[2 * j + 1]] + slots[2 * (j + 1)..];
  }

  lemma NextPair(nodes: seq<Node>, slots: seq<Id>, n: nat, j: nat)
    requires Ordered(nodes) && 2 * n <= |slots| && Below(slots, |nodes|) && j < n
    ensures FromPairs(PairsOf(nodes, slots, n)[..j + 1])
      == Insert(FromPairs(PairsOf(nodes, slots, n)[..j]), Value(nodes, slots[2 * j]), Value(nodes, slots[2 * j + 1]))
  {
    hide Value, Insert, FromPairs, PairsOf;
    PairAt(nodes, slots, n, j);
    FromPairsNext(PairsOf(nodes, slots, n), j);
  }

  lemma PairAt(nodes: seq<Node>, slots: seq<Id>, n: nat, j: nat)
    requires Ordered(nodes) && 2 * n <= |slots| && Below(slots, |nodes|) && j < n
    ensures PairsOf(nodes, slots, n)[j] == (Value(nodes, slots[2 * j]), Value(nodes, slots[2 * j + 1]))
  {
    hide Value, Ordered;
    assert PairsOf(nodes, slots, n)[j] == PairOf(nodes, slots, j);
  }

  lemma FromPairsNext(pairs: seq<(Json, Json)>, j: nat)
    requires j < |pairs|
    ensures FromPairs(pairs[..j + 1]) == Insert(FromPairs(pairs[..j]), pairs[j].0, pairs[j].1)
  {
    hide Insert;
    assert pairs[..j + 1][..j] == pairs[..j];
  }

  lemma EmptyDict(nodes: seq<Node>, d: Id)
    requires Ordered(nodes) && d < |nodes| && nodes[d] == DictOf([], [])
    ensures Value(nodes, d) == Dict([]) && FromPairs([]) == []
  {
  }

  /** An object with a reference from outside is what it was. */
  lemma StillThere(nodes: seq<Node>, nodes': seq<Node>, refs': seq<nat>, outside: multiset<Id>, i: Id)
    requires Ordered(nodes) && Balanced(nodes', refs', outside) && i in outside && LaterUpTo(nodes, nodes', i + 1)
    ensures i < |nodes'| && !nodes'[i].Freed? && Ordered(nodes') && Value(nodes', i) == Value(nodes, i)
    ensures nodes[i].Str? ==> nodes'[i].Str? && (nodes[i].hashed ==> nodes'[i].hashed)
  {
    OutsideLive(nodes', refs', outside, i);
    SameValue(nodes, nodes', refs', outside, i);
    assert Later(nodes[i], nodes'[i]);
  }
}
