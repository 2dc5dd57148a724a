/** From the stream of parsed values to the object they make (src/decode/decode.c,
    src/decode/bytes/_decode_bytes_root.inl.h). */
module DecodeStream {
  import opened Options
  import opened Memory
  import opened References
  import opened Values
  import opened PyHeap
  import opened ValueStack
  import opened KeyCache
  import opened DictPairs

  /** What the parser hands over: a finished scalar, or the end of a container with its number of members. */
  datatype Event =
    | LeafEvent(code: nat)
    | StrEvent(kind: nat, bytes: seq<Byte>, isKey: bool)
    | ArrEvent(n: nat)
    | ObjEvent(n: nat)

  /** A value on the stack; `key` if it is a string that may be used as a key. */
  datatype Item = Item(value: Json, key: bool)

  function TextOf(kind: nat, bytes: seq<Byte>): Json {
    Text(if bytes == [] then 0 else kind, bytes)
  }

  function ItemValues(items: seq<Item>): (vs: seq<Json>)
    ensures |vs| == |items| && forall i: nat :: i < |items| ==> vs[i] == items[i].value
  {
    seq(|items|, i requires 0 <= i < |items| => items[i].value)
  }

  function ItemPairs(items: seq<Item>, n: nat): (ps: seq<(Json, Json)>)
    requires |items| == 2 * n
    ensures |ps| == n
  {
    seq(n, j requires 0 <= j < n => (items[2 * j].value, items[2 * j + 1].value))
  }

  predicate KeysFirst(items: seq<Item>, n: nat)
    requires |items| == 2 * n
  {
    forall k: nat :: k < n ==> items[2 * k].key
  }

  /** One event on a stack of values; nothing if the stack does not have what the event needs. */
  function Apply(e: Event, items: seq<Item>): Option<seq<Item>> {
    match e
    case LeafEvent(code) => Some(items + [Item(Atom(code), false)])
    case StrEvent(kind, bytes, isKey) => Some(items + [Item(TextOf(kind, bytes), isKey)])
    case ArrEvent(n) =>
      if n > |items| then None
      else Some(items[..|items| - n] + [Item(Arr(ItemValues(items[|items| - n..])), false)])
    case ObjEvent(n) =>
      if 2 * n > |items| || !KeysFirst(items[|items| - 2 * n..], n) then None
      else Some(items[..|items| - 2 * n] + [Item(Dict(FromPairs(ItemPairs(items[|items| - 2 * n..], n))), false)])
  }

  function Exec(events: seq<Event>, items: seq<Item>): Option<seq<Item>> {
    if events == [] then Some(items)
    else
      match Apply(events[0], items)
      case None => None
      case Some(next) => Exec(events[1..], next)
  }

  // ----- Documents -----

  datatype Tree =
    | TLeaf(code: nat)
    | TStr(kind: nat, bytes: seq<Byte>)
    | TArr(items: seq<Tree>)
    | TObj(pairs: seq<Pair>)

  datatype Pair = Pair(kind: nat, key: seq<Byte>, val: Tree)

  function Stream(t: Tree): seq<Event> {
    match t
    case TLeaf(code) => [LeafEvent(code)]
    case TStr(kind, bytes) => [StrEvent(kind, bytes, false)]
    case TArr(items) => Streams(items) + [ArrEvent(|items|)]
    case TObj(pairs) => PairStreams(pairs) + [ObjEvent(|pairs|)]
  }

  function Streams(ts: seq<Tree>): seq<Event> {
    if ts == [] then [] else Streams(ts[..|ts| - 1]) + Stream(ts[|ts| - 1])
  }

  function PairStreams(ps: seq<Pair>): seq<Event> {
    if ps == [] then []
    else
      var p := ps[|ps| - 1];
      PairStreams(ps[..|ps| - 1]) + ([StrEvent(p.kind, p.key, true)] + Stream(p.val))
  }

  /** What the document means; a later duplicate key wins. */
  function Denote(t: Tree): Json {
    match t
    case TLeaf(code) => Atom(code)
    case TStr(kind, bytes) => TextOf(kind, bytes)
    case TArr(items) => Arr(Denotes(items))
    case TObj(pairs) => Dict(FromPairs(DenotePairs(pairs)))
  }

  function Denotes(ts: seq<Tree>): (vs: seq<Json>)
    ensures |vs| == |ts|
  {
    if ts == [] then [] else Denotes(ts[..|ts| - 1]) + [Denote(ts[|ts| - 1])]
  }

  function DenotePairs(ps: seq<Pair>): (vs: seq<(Json, Json)>)
    ensures |vs| == |ps|
  {
    if ps == [] then []
    else
      var p := ps[|ps| - 1];
      DenotePairs(ps[..|ps| - 1]) + [(TextOf(p.kind, p.key), Denote(p.val))]
  }

  // ----- The stack machine computes the meaning -----

  lemma {:induction false} ExecTwice(a: seq<Event>, b: seq<Event>, items: seq<Item>)
    ensures Exec(a + b, items) == match Exec(a, items) case None => None case Some(mid) => Exec(b, mid)
  {
    hide Apply;
    if a == [] {
      assert a + b == b;
    } else {
      assert (a + b)[0] == a[0] && (a + b)[1..] == a[1..] + b;
      match Apply(a[0], items) {
        case None =>
        case Some(next) =>
          ExecTwice(a[1..], b, next);
      }
    }
  }

  lemma ExecOne(e: Event, items: seq<Item>)
    ensures Exec([e], items) == Apply(e, items)
  {
  }

  /** The items that the members of an array leave. */
  function ArrItems(ts: seq<Tree>): (r: seq<Item>)
    ensures |r| == |ts|
  {
    if ts == [] then [] else ArrItems(ts[..|ts| - 1]) + [Item(Denote(ts[|ts| - 1]), false)]
  }

  function PairItems(ps: seq<Pair>): (r: seq<Item>)
    ensures |r| == 2 * |ps|
  {
    if ps == [] then []
    else
      var p := ps[|ps| - 1];
      PairItems(ps[..|ps| - 1]) + [Item(TextOf(p.kind, p.key), true), Item(Denote(p.val), false)]
  }

  /** A document's stream leaves its meaning on top of whatever was there. */
  lemma {:induction false} ExecStream(t: Tree, items: seq<Item>)
    ensures Exec(Stream(t), items) == Some(items + [Item(Denote(t), false)])
    decreases t, 0
  {
    hide Apply, Exec;
    match t {
      case TLeaf(code) =>
        ExecOne(LeafEvent(code), items);
        ScalarEvents(items, code, 0, [], false);
      case TStr(kind, bytes) =>
        ExecOne(StrEvent(kind, bytes, false), items);
        ScalarEvents(items, 0, kind, bytes, false);
      case TArr(ts) =>
        ExecStreams(ts, items);
        ExecTwice(Streams(ts), [ArrEvent(|ts|)], items);
        ExecOne(ArrEvent(|ts|), items + ArrItems(ts));
        ArrEventDone(ts, items);
      case TObj(ps) =>
        ExecPairs(ps, items);
        ExecTwice(PairStreams(ps), [ObjEvent(|ps|)], items);
        ExecOne(ObjEvent(|ps|), items + PairItems(ps));
        ObjEventDone(ps, items);
    }
  }

  lemma ScalarEvents(items: seq<Item>, code: nat, kind: nat, bytes: seq<Byte>, isKey: bool)
    ensures Apply(LeafEvent(code), items) == Some(items + [Item(Atom(code), false)])
    ensures Apply(StrEvent(kind, bytes, isKey), items) == Some(items + [Item(TextOf(kind, bytes), isKey)])
  {
  }

  lemma {:induction false} ExecStreams(ts: seq<Tree>, items: seq<Item>)
    ensures Exec(Streams(ts), items) == Some(items + ArrItems(ts))
    decreases ts, |ts|
  {
    hide Apply;
    if ts == [] {
      assert items + [] == items;
    } else {
      var n := |ts| - 1;
      hide Exec;
      ExecStreams(ts[..n], items);
      ExecTwice(Streams(ts[..n]), Stream(ts[n]), items);
      ExecStream(ts[n], items + ArrItems(ts[..n]));
      assert items + ArrItems(ts[..n]) + [Item(Denote(ts[n]), false)] == items + ArrItems(ts);
    }
  }

  lemma {:induction false} ExecPairs(ps: seq<Pair>, items: seq<Item>)
    ensures Exec(PairStreams(ps), items) == Some(items + PairItems(ps))
    decreases ps, |ps|
  {
    hide Apply;
    if ps == [] {
      assert items + [] == items;
    } else {
      var n := |ps| - 1;
      var p := ps[n];
      hide Exec;
      ExecPairs(ps[..n], items);
      var before := items + PairItems(ps[..n]);
      var keyed := before + [Item(TextOf(p.kind, p.key), true)];
      ExecTwice(PairStreams(ps[..n]), [StrEvent(p.kind, p.key, true)] + Stream(p.val), items);
      ExecTwice([StrEvent(p.kind, p.key, true)], Stream(p.val), before);
      ExecOne(StrEvent(p.kind, p.key, true), before);
      ScalarEvents(before, 0, p.kind, p.key, true);
      ExecStream(p.val, keyed);
      assert keyed + [Item(Denote(p.val), false)] == items + PairItems(ps);
    }
  }

  lemma ArrEventDone(ts: seq<Tree>, items: seq<Item>)
    ensures Apply(ArrEvent(|ts|), items + ArrItems(ts)) == Some(items + [Item(Arr(Denotes(ts)), false)])
  {
    hide ItemValues, ArrItems, Denotes;
    var all := items + ArrItems(ts);
    assert all[|items|..] == ArrItems(ts) && all[..|items|] == items;
    ArrValues(ts);
  }

  lemma {:induction false} ArrValues(ts: seq<Tree>)
    ensures ItemValues(ArrItems(ts)) == Denotes(ts)
  {
    if ts != [] {
      var n := |ts| - 1;
      ArrValues(ts[..n]);
      assert ItemValues(ArrItems(ts)) == ItemValues(ArrItems(ts[..n])) + [Denote(ts[n])];
    }
  }

  lemma ObjEventDone(ps: seq<Pair>, items: seq<Item>)
    ensures Apply(ObjEvent(|ps|), items + PairItems(ps))
      == Some(items + [Item(Dict(FromPairs(DenotePairs(ps))), false)])
  {
    hide FromPairs, ItemPairs, KeysFirst, PairItems, DenotePairs;
    var all := items + PairItems(ps);
    assert all[|items|..] == PairItems(ps) && all[..|items|] == items;
    PairValues(ps);
  }

  lemma {:induction false} PairValues(ps: seq<Pair>)
    ensures ItemPairs(PairItems(ps), |ps|) == DenotePairs(ps) && KeysFirst(PairItems(ps), |ps|)
  {
    if ps != [] {
      var n := |ps| - 1;
      PairValues(ps[..n]);
      var p, before, all := ps[n], PairItems(ps[..n]), PairItems(ps);
      assert all[..2 * n] == before && all[2 * n] == Item(TextOf(p.kind, p.key), true)
        && all[2 * n + 1] == Item(Denote(p.val), false);
      forall k: nat | k < n ensures all[2 * k] == before[2 * k] && all[2 * k + 1] == before[2 * k + 1] {}
      assert ItemPairs(all, n + 1)[..n] == ItemPairs(before, n);
    }
  }

  // ----- The same on the heap -----

  /** The objects on the stack stand for the items. */
  ghost predicate Matches(nodes: seq<Node>, ids: seq<Id>, items: seq<Item>) {
    && Ordered(nodes) && |ids| == |items| && Below(ids, |nodes|)
    && forall k: nat :: k < |ids| ==> MatchesOne(nodes, ids[k], items[k])
  }

  ghost predicate MatchesOne(nodes: seq<Node>, id: Id, item: Item)
    requires Ordered(nodes)
  {
    id < |nodes| && Value(nodes, id) == item.value && (item.key ==> KeyKnown(nodes, id))
  }

  /** What the stack refers to goes on standing for the same items. */
  lemma MatchesStill(nodes: seq<Node>, nodes': seq<Node>, refs': seq<nat>, outside: multiset<Id>, ids: seq<Id>,
      items: seq<Item>)
    requires Matches(nodes, ids, items) && Balanced(nodes', refs', outside + multiset(ids))
    requires LaterUpTo(nodes, nodes', |nodes|)
    ensures Matches(nodes', ids, items)
  {
    hide Balanced, Value, LaterUpTo;
    BalancedOrdered(nodes', refs', outside + multiset(ids));
    forall k: nat | k < |ids| ensures ids[k] < |nodes'| && MatchesOne(nodes', ids[k], items[k]) {
      assert MatchesOne(nodes, ids[k], items[k]);
      assert ids[k] in outside + multiset(ids);
      LaterFewer(nodes, nodes', |nodes|, ids[k] + 1);
      StillThere(nodes, nodes', refs', outside + multiset(ids), ids[k]);
    }
  }

  lemma MatchesMore(nodes: seq<Node>, ids: seq<Id>, items: seq<Item>, id: Id, item: Item)
    requires Matches(nodes, ids, items) && MatchesOne(nodes, id, item)
    ensures Matches(nodes, ids + [id], items + [item])
  {
  }

  lemma MatchesPart(nodes: seq<Node>, ids: seq<Id>, items: seq<Item>, n: nat)
    requires Matches(nodes, ids, items) && n <= |items|
    ensures |ids| == |items| && Ordered(nodes) && Below(ids, |nodes|)
    ensures Matches(nodes, ids[..n], items[..n]) && Matches(nodes, ids[n..], items[n..])
  {
  }

  /** The list of what the last n items are. */
  lemma MatchesList(nodes: seq<Node>, nodes': seq<Node>, ids: seq<Id>, items: seq<Item>)
    requires Matches(nodes, ids, items) && nodes' == nodes + [ListOf(ids)] && Ordered(nodes')
    ensures MatchesOne(nodes', |nodes|, Item(Arr(ItemValues(items)), false))
  {
    var n := |nodes|;
    assert NodeOk(nodes'[n], n);
    PrefixValues(nodes, nodes', n, ids);
    forall k: nat | k < |ids| ensures ValuesOf(nodes, n, ids)[k] == ItemValues(items)[k] {
      ValueAt(nodes, n, ids, k);
      assert MatchesOne(nodes, ids[k], items[k]);
    }
    assert ValuesOf(nodes, n, ids) == ItemValues(items);
  }

  lemma MatchesPairs(nodes: seq<Node>, ids: seq<Id>, items: seq<Item>, n: nat)
    requires Matches(nodes, ids, items) && |ids| == 2 * n && KeysFirst(items, n)
    ensures KeysKnown(nodes, ids, n) && PairsOf(nodes, ids, n) == ItemPairs(items, n)
  {
  }

  /** No insertion into a dict fails; `fails(i, k)` says whether the k-th one of event i does. */
  ghost predicate AllInserted(events: seq<Event>, fails: (nat, nat) -> bool) {
    forall i: nat, k: nat :: i < |events| && events[i].ObjEvent? && k < events[i].n ==> !fails(i, k)
  }

  lemma NoneYet(events: seq<Event>, fails: (nat, nat) -> bool, items: seq<Item>)
    ensures AllInserted(events[..0], fails) && Exec(events[0..], items) == Exec(events, items)
  {
    assert events[0..] == events;
  }

  lemma AllDone(events: seq<Event>, fails: (nat, nat) -> bool, items: seq<Item>)
    ensures Exec(events[|events|..], items) == Some(items)
    ensures AllInserted(events[..|events|], fails) <==> AllInserted(events, fails)
  {
    assert events[..|events|] == events;
  }

  lemma ExecStep(events: seq<Event>, i: nat, items: seq<Item>)
    requires i < |events| && Exec(events[i..], items).Some?
    ensures Apply(events[i], items).Some?
    ensures Exec(events[i..], items) == Exec(events[i + 1..], Apply(events[i], items).value)
  {
    hide Apply;
    assert events[i..][0] == events[i] && events[i..][1..] == events[i + 1..];
  }

  lemma InsertedNext(events: seq<Event>, fails: (nat, nat) -> bool, i: nat, here: nat -> bool)
    requires i < |events| && AllInserted(events[..i], fails)
    requires forall k: nat :: here(k) == fails(i, k)
    ensures AllInserted(events[..i + 1], fails)
      <==> forall k: nat :: events[i].ObjEvent? && k < events[i].n ==> !here(k)
    ensures AllInserted(events, fails) ==> AllInserted(events[..i + 1], fails)
  {
    var upTo := events[..i + 1];
    assert upTo[i] == events[i];
    if forall k: nat :: events[i].ObjEvent? && k < events[i].n ==> !here(k) {
      forall j: nat, k: nat | j < i + 1 && upTo[j].ObjEvent? && k < upTo[j].n ensures !fails(j, k) {
        if j < i {
          assert events[..i][j] == upTo[j];
        } else {
          assert !here(k);
        }
      }
    } else {
      var k: nat :| events[i].ObjEvent? && k < events[i].n && here(k);
      assert fails(i, k);
    }
  }

  lemma LaterOn(was: seq<Node>, mid: seq<Node>, now: seq<Node>)
    requires LaterUpTo(was, mid, |was|) && LaterUpTo(mid, now, |mid|)
    ensures LaterUpTo(was, now, |was|)
  {
    LaterFewer(mid, now, |mid|, |was|);
    LaterTwice(was, mid, now, |was|);
  }

  /** Objects referred to from elsewhere are still there, with the values they had. */
  ghost predicate Kept(nodes: seq<Node>, nodes': seq<Node>, elsewhere: multiset<Id>) {
    && Ordered(nodes) && Ordered(nodes')
    && forall i: Id :: i in elsewhere ==> i < |nodes| && i < |nodes'| && Value(nodes', i) == Value(nodes, i)
  }

  lemma ElsewhereKept(nodes: seq<Node>, refs: seq<nat>, outside: multiset<Id>,
      nodes': seq<Node>, refs': seq<nat>, outside': multiset<Id>, elsewhere: multiset<Id>)
    requires Balanced(nodes, refs, outside) && elsewhere <= outside
    requires Balanced(nodes', refs', outside') && elsewhere <= outside'
    requires LaterUpTo(nodes, nodes', |nodes|)
    ensures Kept(nodes, nodes', elsewhere)
  {
    hide Balanced, Value, LaterUpTo;
    BalancedOrdered(nodes, refs, outside);
    BalancedOrdered(nodes', refs', outside');
    forall i: Id | i in elsewhere ensures i < |nodes| && i < |nodes'| && Value(nodes', i) == Value(nodes, i) {
      assert i in outside && i in outside';
      OutsideLive(nodes, refs, outside, i);
      LaterFewer(nodes, nodes', |nodes|, i + 1);
      StillThere(nodes, nodes', refs', outside', i);
    }
  }

  class Builder {
    const heap: Heap
    const stack: Stack
    const cache: Cache

    /** References: elsewhere, one per cache slot, one per stack slot, and no others but those objects own. */
    ghost predicate Valid(elsewhere: multiset<Id>, items: seq<Item>)
      reads this, heap, stack, stack.stack, cache, cache.slots
    {
      && stack.heap == heap == cache.heap
      && stack.Valid(elsewhere + SlotRefs(cache.slots[..]))
      && cache.Valid(elsewhere + multiset(stack.stack[..stack.writer]))
      && Matches(heap.nodes, stack.stack[..stack.writer], items)
    }

    constructor (heap: Heap, cache: Cache, ghost elsewhere: multiset<Id>)
      requires cache.heap == heap && cache.Valid(elsewhere)
      ensures this.heap == heap && this.cache == cache && fresh(stack) && fresh(stack.stack) && Valid(elsewhere, [])
    {
      hide Balanced, SlotRefs, SlotOk, Value, LaterUpTo;
      this.heap, this.cache := heap, cache;
      var st := new Stack(heap, 1024);
      this.stack := st;
      new;
      assert stack.stack[..stack.writer] == [];
      assert elsewhere + SlotRefs(cache.slots[..]) + multiset(stack.stack[..stack.writer])
        == elsewhere + SlotRefs(cache.slots[..]);
      assert elsewhere + multiset(stack.stack[..stack.writer]) == elsewhere;
      BalancedOrdered(heap.nodes, heap.refs, elsewhere + SlotRefs(cache.slots[..]));
    }

    /** decode_null and the like, and numbers: a new reference to a scalar. */
    method PushLeaf(code: nat, ghost elsewhere: multiset<Id>, ghost items: seq<Item>)
      requires Valid(elsewhere, items)
      modifies heap, stack, stack.stack
      ensures Valid(elsewhere, items + [Item(Atom(code), false)])
      ensures LaterUpTo(old(heap.nodes), heap.nodes, |old(heap.nodes)|)
      ensures stack.stack == old(stack.stack) || fresh(stack.stack)
    {
      hide Balanced, Value, LaterUpTo, SlotOk;
      ghost var was, ids, slots := heap.nodes, stack.stack[..stack.writer], cache.slots[..];
      ghost var outside := elsewhere + SlotRefs(slots);
      assert outside + multiset(ids) + Owned(Leaf(code)) == outside + multiset(ids);
      var i := heap.New(Leaf(code), outside + multiset(ids));
      LaterLonger(was, Leaf(code));
      NewOk(was, slots, Leaf(code));
      assert outside + multiset(ids) + multiset{i} == outside + multiset{i} + multiset(ids);
      MatchesStill(was, heap.nodes, heap.refs, outside + multiset{i}, ids, items);
      LeafValue(heap.nodes, i, code);
      MatchesMore(heap.nodes, ids, items, i, Item(Atom(code), false));
      stack.Push(i);
      Regroup(elsewhere, SlotRefs(slots), ids, i);
    }

    /** A string through the key cache. */
    method PushStr(kind: nat, bytes: seq<Byte>, isKey: bool, ghost elsewhere: multiset<Id>, ghost items: seq<Item>)
      requires Valid(elsewhere, items)
      modifies heap, stack, stack.stack, cache.slots
      ensures Valid(elsewhere, items + [Item(TextOf(kind, bytes), isKey)])
      ensures LaterUpTo(old(heap.nodes), heap.nodes, |old(heap.nodes)|)
      ensures stack.stack == old(stack.stack) || fresh(stack.stack)
    {
      hide Balanced, Value, LaterUpTo, SlotOk;
      ghost var was, ids := heap.nodes, stack.stack[..stack.writer];
      var i := cache.MakeString(kind, bytes, isKey, kind == 0, elsewhere + multiset(ids));
      ghost var cached := SlotRefs(cache.slots[..]);
      assert elsewhere + multiset(ids) + multiset{i} + cached == elsewhere + cached + multiset{i} + multiset(ids);
      MatchesStill(was, heap.nodes, heap.refs, elsewhere + cached + multiset{i}, ids, items);
      StrValue(heap.nodes, i, kind, bytes, isKey);
      MatchesMore(heap.nodes, ids, items, i, Item(TextOf(kind, bytes), isKey));
      stack.Push(i);
      assert elsewhere + multiset(ids) + multiset{i} + cached == elsewhere + cached + multiset(ids) + multiset{i};
      Regroup(elsewhere, cached, ids, i);
    }

    /** The end of an array. */
    method MakeArr(n: nat, ghost elsewhere: multiset<Id>, ghost items: seq<Item>)
      requires Valid(elsewhere, items) && Apply(ArrEvent(n), items).Some?
      modifies heap, stack, stack.stack
      ensures Valid(elsewhere, Apply(ArrEvent(n), items).value)
      ensures LaterUpTo(old(heap.nodes), heap.nodes, |old(heap.nodes)|)
      ensures stack.stack == old(stack.stack) || fresh(stack.stack)
    {
      hide Balanced, Value, LaterUpTo, SlotRefs, MatchesOne, Apply, SlotsOk, Matches;
      ArrApplies(n, items);
      ghost var was, ids, slots := heap.nodes, stack.stack[..stack.writer], cache.slots[..];
      ghost var k, outside := |items| - n, elsewhere + SlotRefs(slots);
      MatchesPart(was, ids, items, k);
      assert ids[k..] == stack.stack[stack.writer - n..stack.writer] && ids[..k] == stack.stack[..stack.writer - n];
      stack.DecodeArr(n, outside);
      ArrDone(was, heap.nodes, heap.refs, elsewhere, slots, ids, items, k, stack.stack[..stack.writer]);
    }

    /** The end of an object. */
    method MakeObj(n: nat, fails: nat -> bool, ghost elsewhere: multiset<Id>, ghost items: seq<Item>) returns (ok: bool)
      requires Valid(elsewhere, items) && Apply(ObjEvent(n), items).Some?
      modifies heap, stack, stack.stack
      ensures ok <==> forall k: nat :: k < n ==> !fails(k)
      ensures ok ==> Valid(elsewhere, Apply(ObjEvent(n), items).value)
      ensures !ok ==> 2 * n <= |items| && Valid(elsewhere, items[..|items| - 2 * n] + [])
      ensures LaterUpTo(old(heap.nodes), heap.nodes, |old(heap.nodes)|)
      ensures stack.stack == old(stack.stack) || fresh(stack.stack)
    {
      hide Balanced, Value, LaterUpTo, FromPairs, PairsOf, SlotRefs, MatchesOne, Apply, SlotsOk, KeysKnown, KeysFirst,
        ItemPairs, Matches;
      ObjApplies(n, items);
      ghost var was, ids, slots := heap.nodes, stack.stack[..stack.writer], cache.slots[..];
      ghost var k, outside := |items| - 2 * n, elsewhere + SlotRefs(slots);
      MatchesPart(was, ids, items, k);
      assert ids[k..] == stack.stack[stack.writer - 2 * n..stack.writer]
        && ids[..k] == stack.stack[..stack.writer - 2 * n];
      MatchesPairs(was, ids[k..], items[k..], n);
      ok := stack.DecodeObj(n, fails, outside);
      ObjDone(was, heap.nodes, heap.refs, elsewhere, slots, ids[..k], items, n, ok, stack.stack[..stack.writer]);
    }

    method Handle(e: Event, fails: nat -> bool, ghost elsewhere: multiset<Id>, ghost items: seq<Item>)
        returns (ok: bool, ghost next: seq<Item>)
      requires Valid(elsewhere, items) && Apply(e, items).Some?
      modifies heap, stack, stack.stack, cache.slots
      ensures Valid(elsewhere, next) && (ok ==> next == Apply(e, items).value)
      ensures ok <==> forall k: nat :: e.ObjEvent? && k < e.n ==> !fails(k)
      ensures LaterUpTo(old(heap.nodes), heap.nodes, |old(heap.nodes)|)
      ensures stack.stack == old(stack.stack) || fresh(stack.stack)
    {
      hide Valid, LaterUpTo;
      ok := true;
      next := Apply(e, items).value;
      match e {
        case LeafEvent(code) =>
          PushLeaf(code, elsewhere, items);
        case StrEvent(kind, bytes, isKey) =>
          PushStr(kind, bytes, isKey, elsewhere, items);
        case ArrEvent(n) =>
          MakeArr(n, elsewhere, items);
        case ObjEvent(n) =>
          ok := MakeObj(n, fails, elsewhere, items);
          if !ok {
            next := items[..|items| - 2 * n] + [];
          }
      }
    }

    /** Any run of events; `fails(i, k)` says whether the k-th insertion of event i fails. */
    method Run(events: seq<Event>, fails: (nat, nat) -> bool, ghost elsewhere: multiset<Id>, ghost items: seq<Item>)
      returns (ok: bool, ghost left: seq<Item>)
      requires Valid(elsewhere, items) && Exec(events, items).Some?
      modifies heap, stack, stack.stack, cache.slots
      ensures Valid(elsewhere, left) && (ok ==> left == Exec(events, items).value)
      ensures ok <==> AllInserted(events, fails)
      ensures LaterUpTo(old(heap.nodes), heap.nodes, |old(heap.nodes)|)
      ensures stack.stack == old(stack.stack) || fresh(stack.stack)
    {
      hide Valid, Apply, Exec, LaterUpTo, AllInserted;
      ghost var was := heap.nodes;
      LaterSelf(was, |was|);
      ok, left := true, items;
      var i: nat := 0;
      NoneYet(events, fails, items);
      while i < |events|
        invariant i <= |events| && Valid(elsewhere, left) && ok
        invariant Exec(events[i..], left) == Exec(events, items)
        invariant AllInserted(events[..i], fails) && LaterUpTo(was, heap.nodes, |was|)
        invariant stack.stack == old(stack.stack) || fresh(stack.stack)
      {
        ExecStep(events, i, left);
        var at: nat := i;
        ghost var before := heap.nodes;
        var here := (k: nat) => fails(at, k);
        ok, left := Handle(events[i], here, elsewhere, left);
        LaterOn(was, before, heap.nodes);
        InsertedNext(events, fails, i, here);
        if !ok {
          return;
        }
        i := i + 1;
      }
      AllDone(events, fails, left);
    }

    /** The exits of the parser's root functions: the object goes to the caller, or what is left is released. */
    method Finish(ok: bool, ghost elsewhere: multiset<Id>, ghost left: seq<Item>) returns (obj: Id)
      requires Valid(elsewhere, left) && (ok ==> |left| == 1)
      modifies heap
      ensures ok ==> cache.Valid(elsewhere + multiset{obj}) && MatchesTop(obj, left)
      ensures !ok ==> cache.Valid(elsewhere)
      ensures LaterUpTo(old(heap.nodes), heap.nodes, |old(heap.nodes)|)
    {
      hide Balanced, Value, SlotOk, SlotRefs, LaterUpTo;
      LaterSelf(heap.nodes, |heap.nodes|);
      ghost var ids, slots, was := stack.stack[..stack.writer], cache.slots[..], heap.nodes;
      if ok {
        obj := stack.stack[0];
        assert ids == [obj];
        assert MatchesOne(heap.nodes, ids[0], left[0]);
      } else {
        obj := 0;
        var contents := stack.Slots(0);
        assert contents == ids;
        assert elsewhere + multiset(ids) + SlotRefs(slots) == elsewhere + SlotRefs(slots) + multiset(contents);
        heap.ReleaseAll(contents, |heap.nodes|, elsewhere + SlotRefs(slots));
        SlotsStill(was, heap.nodes, heap.refs, elsewhere, slots);
      }
    }

    ghost predicate MatchesTop(obj: Id, left: seq<Item>)
      reads heap
    {
      Ordered(heap.nodes) && obj < |heap.nodes| && |left| == 1 && Value(heap.nodes, obj) == left[0].value
    }
  }

  lemma LeafValue(nodes: seq<Node>, i: Id, code: nat)
    requires Ordered(nodes) && i < |nodes| && nodes[i] == Leaf(code)
    ensures MatchesOne(nodes, i, Item(Atom(code), false))
  {
  }

  /** The state after a dict was made, or was given up. */
  lemma ObjDone(was: seq<Node>, nodes: seq<Node>, refs: seq<nat>, elsewhere: multiset<Id>, slots: seq<Slot>,
      left: seq<Id>, items: seq<Item>, n: nat, ok: bool, contents: seq<Id>)
    requires 2 * n <= |items| && contents == left + (if ok then [|was|] else [])
    requires Matches(was, left, items[..|items| - 2 * n]) && SlotsOk(was, slots, multiset{})
      && LaterUpTo(was, nodes, |was|)
    requires Balanced(nodes, refs, elsewhere + SlotRefs(slots) + multiset(contents)) && Ordered(nodes)
    requires ok ==> |was| < |nodes| && Value(nodes, |was|) == Dict(FromPairs(ItemPairs(items[|items| - 2 * n..], n)))
    ensures SlotsOk(nodes, slots, multiset{}) && Balanced(nodes, refs, elsewhere + multiset(contents) + SlotRefs(slots))
    ensures Matches(nodes, contents, items[..|items| - 2 * n]
      + (if ok then [Item(Dict(FromPairs(ItemPairs(items[|items| - 2 * n..], n))), false)] else []))
  {
    hide Balanced, Value, LaterUpTo, FromPairs, SlotRefs, MatchesOne, SlotsOk, ItemPairs, Matches;
    var pairs, rest := FromPairs(ItemPairs(items[|items| - 2 * n..], n)), items[..|items| - 2 * n];
    Survivors(was, nodes, refs, elsewhere, slots, left, rest, if ok then [|was|] else []);
    if ok {
      DictMatches(nodes, |was|, pairs);
      MatchesMore(nodes, left, rest, |was|, Item(Dict(pairs), false));
    } else {
      assert left + [] == left && rest + [] == rest;
    }
  }

  lemma DictMatches(nodes: seq<Node>, d: Id, pairs: seq<(Json, Json)>)
    requires Ordered(nodes) && d < |nodes| && Value(nodes, d) == Dict(pairs)
    ensures MatchesOne(nodes, d, Item(Dict(pairs), false))
  {
  }

  /** The state after a list was made of the values from the k-th on. */
  lemma ArrDone(was: seq<Node>, nodes: seq<Node>, refs: seq<nat>, elsewhere: multiset<Id>, slots: seq<Slot>,
      ids: seq<Id>, items: seq<Item>, k: nat, contents: seq<Id>)
    requires Matches(was, ids, items) && SlotsOk(was, slots, multiset{}) && k <= |ids| == |items|
    requires nodes == was + [ListOf(ids[k..])] && contents == ids[..k] + [|was|]
    requires Balanced(nodes, refs, elsewhere + SlotRefs(slots) + multiset(contents))
    ensures SlotsOk(nodes, slots, multiset{}) && Balanced(nodes, refs, elsewhere + multiset(contents) + SlotRefs(slots))
    ensures Matches(nodes, contents, items[..k] + [Item(Arr(ItemValues(items[k..])), false)])
    ensures LaterUpTo(was, nodes, |was|)
  {
    hide Balanced, Value, LaterUpTo, SlotRefs, MatchesOne, SlotsOk, Matches;
    MatchesPart(was, ids, items, k);
    LaterLonger(was, ListOf(ids[k..]));
    BalancedOrdered(nodes, refs, elsewhere + SlotRefs(slots) + multiset(contents));
    Survivors(was, nodes, refs, elsewhere, slots, ids[..k], items[..k], [|was|]);
    MatchesList(was, nodes, ids[k..], items[k..]);
    MatchesMore(nodes, ids[..k], items[..k], |was|, Item(Arr(ItemValues(items[k..])), false));
  }

  lemma ArrApplies(n: nat, items: seq<Item>)
    requires Apply(ArrEvent(n), items).Some?
    ensures n <= |items|
    ensures Apply(ArrEvent(n), items).value
      == items[..|items| - n] + [Item(Arr(ItemValues(items[|items| - n..])), false)]
  {
  }

  lemma ObjApplies(n: nat, items: seq<Item>)
    requires Apply(ObjEvent(n), items).Some?
    ensures 2 * n <= |items| && KeysFirst(items[|items| - 2 * n..], n)
    ensures Apply(ObjEvent(n), items).value
      == items[..|items| - 2 * n] + [Item(Dict(FromPairs(ItemPairs(items[|items| - 2 * n..], n))), false)]
  {
  }

  /** What a reduction leaves below its result is as it was, and so are the cached keys. */
  lemma Survivors(was: seq<Node>, nodes: seq<Node>, refs: seq<nat>, elsewhere: multiset<Id>, slots: seq<Slot>,
      left: seq<Id>, items: seq<Item>, top: seq<Id>)
    requires Matches(was, left, items) && SlotsOk(was, slots, multiset{}) && LaterUpTo(was, nodes, |was|)
    requires Balanced(nodes, refs, elsewhere + SlotRefs(slots) + multiset(left + top))
    ensures Matches(nodes, left, items) && SlotsOk(nodes, slots, multiset{})
    ensures Balanced(nodes, refs, elsewhere + multiset(left + top) + SlotRefs(slots))
  {
    hide Balanced, LaterUpTo, Matches, SlotsOk, SlotRefs;
    var outside := elsewhere + SlotRefs(slots);
    assert outside + multiset(left + top) == outside + multiset(top) + multiset(left);
    MatchesStill(was, nodes, refs, outside + multiset(top), left, items);
    assert outside + multiset(left + top) == elsewhere + multiset(left + top) + SlotRefs(slots);
    SlotsStill(was, nodes, refs, elsewhere + multiset(left + top), slots);
  }

  lemma StrValue(nodes: seq<Node>, i: Id, kind: nat, bytes: seq<Byte>, isKey: bool)
    requires Ordered(nodes) && IsText(nodes, i, kind, bytes) && (isKey ==> nodes[i].hashed)
    ensures MatchesOne(nodes, i, Item(TextOf(kind, bytes), isKey))
  {
  }

  lemma Regroup(elsewhere: multiset<Id>, cached: multiset<Id>, ids: seq<Id>, i: Id)
    ensures elsewhere + cached + multiset(ids) + multiset{i} == elsewhere + cached + multiset(ids + [i])
    ensures elsewhere + cached + multiset(ids) + multiset{i} == elsewhere + multiset(ids + [i]) + cached
  {
  }

  lemma CacheCounts(cache: Cache, elsewhere: multiset<Id>)
    requires cache.Valid(elsewhere)
    ensures Balanced(cache.heap.nodes, cache.heap.refs, elsewhere + SlotRefs(cache.slots[..]))
  {
  }

  lemma HeldElsewhere(cache: Cache, elsewhere: multiset<Id>, more: multiset<Id>, was: seq<Node>, wasRefs: seq<nat>,
      wasSlots: multiset<Id>)
    requires cache.Valid(elsewhere + more) && Balanced(was, wasRefs, elsewhere + wasSlots)
    requires LaterUpTo(was, cache.heap.nodes, |was|)
    ensures Kept(was, cache.heap.nodes, elsewhere)
  {
    CacheCounts(cache, elsewhere + more);
    ElsewhereKept(was, wasRefs, elsewhere + wasSlots, cache.heap.nodes, cache.heap.refs,
      elsewhere + more + SlotRefs(cache.slots[..]), elsewhere);
  }

  // ----- The objects of a document -----

  /** The text of a string object; an empty one is always ASCII. */
  predicate StringOf(n: Node, kind: nat, bytes: seq<Byte>) {
    n.Str? && n.bytes == bytes && n.kind == if bytes == [] then 0 else kind
  }

  predicate SameKey(p: Pair, q: Pair) {
    p.key == q.key && (p.key == [] || p.kind == q.kind)
  }

  /** Pairs f and l are the first and the last one with a key. */
  ghost predicate FirstAndLast(pairs: seq<Pair>, f: nat, l: nat) {
    && f < |pairs| && l < |pairs| && SameKey(pairs[f], pairs[l])
    && (forall k: nat :: k < f ==> !SameKey(pairs[k], pairs[f]))
    && (forall k: nat :: l < k < |pairs| ==> !SameKey(pairs[k], pairs[l]))
  }

  ghost predicate KeyIn(pairs: seq<Pair>, p: Pair, at: seq<nat>) {
    exists i :: 0 <= i < |at| && at[i] < |pairs| && SameKey(p, pairs[at[i]])
  }

  /** `at` is where the different keys of the object stand first, in order, and `last` where they stand last. */
  ghost predicate Entries(pairs: seq<Pair>, at: seq<nat>, last: seq<nat>) {
    && |at| == |last| && Increasing(at)
    && (forall i :: 0 <= i < |at| ==> FirstAndLast(pairs, at[i], last[i]))
    && (forall k: nat :: k < |pairs| ==> KeyIn(pairs, pairs[k], at))
  }

  /** Object i is what the document says: a list has the items in order; a dict has each key once, where it stands
      first, with the value that stands last. */
  ghost predicate Represents(nodes: seq<Node>, i: Id, t: Tree)
    decreases t
  {
    i < |nodes| && match t
      case TLeaf(code) => nodes[i] == Leaf(code)
      case TStr(kind, bytes) => StringOf(nodes[i], kind, bytes)
      case TArr(items) =>
        && nodes[i].ListOf? && |nodes[i].items| == |items|
        && forall k :: 0 <= k < |items| ==> Represents(nodes, nodes[i].items[k], items[k])
      case TObj(pairs) =>
        nodes[i].DictOf? && exists at, last ::
          && Entries(pairs, at, last) && |nodes[i].keys| == |nodes[i].vals| == |at|
          && forall k :: 0 <= k < |at| ==>
            && at[k] < |pairs| && last[k] < |pairs|
            && nodes[i].keys[k] < |nodes|
            && StringOf(nodes[nodes[i].keys[k]], pairs[at[k]].kind, pairs[at[k]].key)
            && Represents(nodes, nodes[i].vals[k], pairs[last[k]].val)
  }

  lemma {:induction false} DenotesAt(ts: seq<Tree>, k: nat)
    requires k < |ts|
    ensures Denotes(ts)[k] == Denote(ts[k])
  {
    if k < |ts| - 1 {
      DenotesAt(ts[..|ts| - 1], k);
    }
  }

  lemma {:induction false} DenotePairsAt(ps: seq<Pair>, k: nat)
    requires k < |ps|
    ensures DenotePairs(ps)[k] == (TextOf(ps[k].kind, ps[k].key), Denote(ps[k].val))
  {
    if k < |ps| - 1 {
      DenotePairsAt(ps[..|ps| - 1], k);
    }
  }

  lemma SameTextKey(p: Pair, q: Pair)
    ensures TextOf(p.kind, p.key) == TextOf(q.kind, q.key) <==> SameKey(p, q)
  {
  }

  lemma SameKeys(pairs: seq<Pair>, k: nat, j: nat)
    requires k < |pairs| && j < |pairs|
    ensures DenotePairs(pairs)[k].0 == DenotePairs(pairs)[j].0 <==> SameKey(pairs[k], pairs[j])
  {
    hide DenotePairs, TextOf, SameKey;
    DenotePairsAt(pairs, k);
    DenotePairsAt(pairs, j);
    SameTextKey(pairs[k], pairs[j]);
  }

  lemma FirstLast(pairs: seq<Pair>, f: nat, l: nat)
    requires f < |pairs| && IsFirst(DenotePairs(pairs), f) && IsLast(DenotePairs(pairs), l, DenotePairs(pairs)[f].0)
    ensures FirstAndLast(pairs, f, l)
  {
    hide DenotePairs, SameKey;
    SameKeys(pairs, f, l);
    forall k: nat | k < |pairs| ensures k < f ==> !SameKey(pairs[k], pairs[f]) {
      SameKeys(pairs, k, f);
    }
    forall k: nat | k < |pairs| ensures l < k ==> !SameKey(pairs[k], pairs[l]) {
      SameKeys(pairs, k, l);
    }
  }

  lemma KeyOccurs(pairs: seq<Pair>, at: seq<nat>, k: nat)
    requires k < |pairs| && Firsts(DenotePairs(pairs), at)
    ensures KeyIn(pairs, pairs[k], at)
  {
    hide DenotePairs, SameKey, IsFirst;
    var j := SomeFirst(DenotePairs(pairs), k);
    assert j in at;
    var i :| 0 <= i < |at| && at[i] == j;
    SameKeys(pairs, k, j);
  }

  /** Where the entries of the dict of these pairs come from. */
  lemma EntriesOf(pairs: seq<Pair>) returns (at: seq<nat>, last: seq<nat>)
    ensures Entries(pairs, at, last) && |FromPairs(DenotePairs(pairs))| == |at|
    ensures forall i :: 0 <= i < |at| ==> FromPairs(DenotePairs(pairs))[i] == EntryValue(pairs, at[i], last[i])
  {
    hide FromPairs, DenotePairs, FirstAndLast, KeyIn, IsFirst, IsLast, EntryValue;
    at, last := DictHolds(DenotePairs(pairs));
    forall i | 0 <= i < |at|
      ensures FirstAndLast(pairs, at[i], last[i])
      ensures FromPairs(DenotePairs(pairs))[i] == EntryValue(pairs, at[i], last[i])
    {
      FirstLast(pairs, at[i], last[i]);
      EntryIs(pairs, FromPairs(DenotePairs(pairs))[i], at[i], last[i]);
    }
    forall k: nat | k < |pairs| ensures KeyIn(pairs, pairs[k], at) {
      KeyOccurs(pairs, at, k);
    }
  }

  ghost function EntryValue(pairs: seq<Pair>, f: nat, l: nat): (Json, Json) {
    if f < |pairs| && l < |pairs| then (TextOf(pairs[f].kind, pairs[f].key), Denote(pairs[l].val)) else (Gone, Gone)
  }

  lemma EntryIs(pairs: seq<Pair>, entry: (Json, Json), f: nat, l: nat)
    requires EntryOf(entry, DenotePairs(pairs), f, l)
    ensures entry == EntryValue(pairs, f, l)
  {
    hide DenotePairs, Denote;
    DenotePairsAt(pairs, f);
    DenotePairsAt(pairs, l);
  }

  /** An object with the value of a document is what the document says. */
  lemma {:induction false} ValueRepresents(nodes: seq<Node>, i: Id, t: Tree)
    requires Ordered(nodes) && i < |nodes| && Value(nodes, i) == Denote(t)
    ensures Represents(nodes, i, t)
    decreases t
  {
    assert NodeOk(nodes[i], i);
    ItemsBelow(nodes[i], i);
    match t {
      case TArr(items) =>
        forall k | 0 <= k < |items| ensures Represents(nodes, nodes[i].items[k], items[k]) {
          ValueAt(nodes, i, nodes[i].items, k);
          DenotesAt(items, k);
          ValueRepresents(nodes, nodes[i].items[k], items[k]);
        }
      case TObj(pairs) =>
        ObjRepresents(nodes, i, pairs);
      case _ =>
    }
  }

  lemma {:induction false} ObjRepresents(nodes: seq<Node>, i: Id, pairs: seq<Pair>)
    requires Ordered(nodes) && i < |nodes| && Value(nodes, i) == Denote(TObj(pairs))
    ensures Represents(nodes, i, TObj(pairs))
    decreases pairs
  {
    hide Value, ValuesOf, FromPairs, DenotePairs, EntryValue, Entries, StringOf;
    var at, last := EntriesOf(pairs);
    EntriesInside(pairs, at, last);
    DictOfValue(nodes, i, FromPairs(DenotePairs(pairs)));
    forall k | 0 <= k < |at|
      ensures nodes[i].keys[k] < |nodes|
      ensures StringOf(nodes[nodes[i].keys[k]], pairs[at[k]].kind, pairs[at[k]].key)
      ensures Represents(nodes, nodes[i].vals[k], pairs[last[k]].val)
    {
      EntryValues(pairs, at[k], last[k]);
      StringValue(nodes, nodes[i].keys[k], pairs[at[k]].kind, pairs[at[k]].key);
      ValueRepresents(nodes, nodes[i].vals[k], pairs[last[k]].val);
    }
  }

  lemma EntriesInside(pairs: seq<Pair>, at: seq<nat>, last: seq<nat>)
    requires Entries(pairs, at, last)
    ensures |at| == |last| && forall k :: 0 <= k < |at| ==> at[k] < |pairs| && last[k] < |pairs|
  {
  }

  lemma EntryValues(pairs: seq<Pair>, f: nat, l: nat)
    requires f < |pairs| && l < |pairs|
    ensures EntryValue(pairs, f, l) == (TextOf(pairs[f].kind, pairs[f].key), Denote(pairs[l].val))
  {
  }

  lemma DictOfValue(nodes: seq<Node>, i: Id, entries: seq<(Json, Json)>)
    requires Ordered(nodes) && i < |nodes| && Value(nodes, i) == Dict(entries)
    ensures nodes[i].DictOf? && |nodes[i].keys| == |nodes[i].vals| == |entries|
    ensures Below(nodes[i].keys, |nodes|) && Below(nodes[i].vals, |nodes|)
    ensures forall k :: 0 <= k < |entries| ==>
      entries[k] == (Value(nodes, nodes[i].keys[k]), Value(nodes, nodes[i].vals[k]))
  {
    hide ValuesOf;
    DictValue(nodes, i);
    forall k | 0 <= k < |entries|
      ensures entries[k] == (Value(nodes, nodes[i].keys[k]), Value(nodes, nodes[i].vals[k]))
    {
      ValueAt(nodes, i, nodes[i].keys, k);
      ValueAt(nodes, i, nodes[i].vals, k);
    }
  }

  lemma StringValue(nodes: seq<Node>, i: Id, kind: nat, bytes: seq<Byte>)
    requires Ordered(nodes) && i < |nodes| && Value(nodes, i) == TextOf(kind, bytes)
    ensures StringOf(nodes[i], kind, bytes)
  {
  }

  /** The document's stream makes its value; nobody's references change but for the one handed out, whether
      or not an insertion into a dict fails on the way. */
  method Decode(t: Tree, heap: Heap, cache: Cache, fails: (nat, nat) -> bool, ghost elsewhere: multiset<Id>)
      returns (ok: bool, obj: Id)
    requires cache.heap == heap && cache.Valid(elsewhere)
    modifies heap, cache.slots
    ensures ok <==> AllInserted(Stream(t), fails)
    ensures Kept(old(heap.nodes), heap.nodes, elsewhere)
    ensures ok ==> cache.Valid(elsewhere + multiset{obj})
    ensures ok ==> Ordered(heap.nodes) && obj < |heap.nodes| && Value(heap.nodes, obj) == Denote(t)
    ensures ok ==> Represents(heap.nodes, obj, t)
    ensures !ok ==> cache.Valid(elsewhere)
  {
    hide Cache.Valid, Builder.Valid, Exec, AllInserted, LaterUpTo, Kept, Represents, Denote, Value;
    ghost var was, wasRefs, wasSlots := heap.nodes, heap.refs, SlotRefs(cache.slots[..]);
    CacheCounts(cache, elsewhere);
    var b := new Builder(heap, cache, elsewhere);
    ExecStream(t, []);
    ghost var left;
    ok, left := b.Run(Stream(t), fails, elsewhere, []);
    assert ok ==> left == [] + [Item(Denote(t), false)];
    ghost var mid := heap.nodes;
    obj := b.Finish(ok, elsewhere, left);
    LaterOn(was, mid, heap.nodes);
    assert elsewhere + multiset{} == elsewhere;
    HeldElsewhere(cache, elsewhere, if ok then multiset{obj} else multiset{}, was, wasRefs, wasSlots);
    if ok {
      ValueRepresents(heap.nodes, obj, t);
    }
  }
}

/** DecodeCtnWithSize: the number of members and, in the sign bit, whether the container is an array. */
module ContainerCounter {
  const SIGN: bv64 := 0x8000_0000_0000_0000

  /** set_decode_ctn */
  function Set(len: bv64, isArr: bool): bv64 {
    len | if isArr then SIGN else 0
  }

  /** decode_ctn_is_arr: raw is negative. */
  predicate IsArr(raw: bv64) {
    raw >= SIGN
  }

  /** get_decode_ctn_len */
  function Len(raw: bv64): bv64 {
    raw & (SIGN - 1)
  }

  lemma SetRoundTrip(len: bv64, isArr: bool)
    requires len < SIGN
    ensures Len(Set(len, isArr)) == len && (IsArr(Set(len, isArr)) <==> isArr)
  {
  }

  /** incr_decode_ctn_size counts one member and leaves the kind alone. */
  lemma Incremented(raw: bv64)
    requires Len(raw) < SIGN - 1
    ensures Len(raw + 1) == Len(raw) + 1 && (IsArr(raw + 1) <==> IsArr(raw))
  {
  }
}
