/** The cache of dict keys (src/decode/decode_shared.h, src/decode/decode.c, src/decode/str/ascii.h). */
module KeyCache {
  import opened Memory
  import opened References
  import opened Values
  import opened PyHeap

  const KEY_CACHE_SIZE := 512

  /** decode_cache_t: a slot with no key, or one that owns a reference to it. */
  datatype Slot = Vacant | Cached(key: Id, hint: nat)

  /** make_key_hint: the length in the low 32 bits, the kind above. */
  function Hint(len: nat, kind: nat): nat {
    len + kind * 0x1_0000_0000
  }

  lemma HintInjective(len: nat, kind: nat, len': nat, kind': nat)
    requires len < 0x1_0000_0000 && len' < 0x1_0000_0000
    ensures Hint(len, kind) == Hint(len', kind') <==> len == len' && kind == kind'
  {
  }

  /** One reference per occupied slot. */
  ghost function SlotRefs(slots: seq<Slot>): multiset<Id> {
    if slots == [] then multiset{} else SlotRefs(slots[..|slots| - 1]) + RefOf(slots[|slots| - 1])
  }

  function RefOf(s: Slot): multiset<Id> {
    match s case Vacant => multiset{} case Cached(key, _) => multiset{key}
  }

  lemma {:induction false} SlotsUpdate(slots: seq<Slot>, i: nat, s: Slot)
    requires i < |slots|
    ensures SlotRefs(slots[i := s]) + RefOf(slots[i]) == SlotRefs(slots) + RefOf(s)
  {
    hide RefOf;
    var n := |slots| - 1;
    if i == n {
      assert slots[i := s][..n] == slots[..n];
    } else {
      SlotsUpdate(slots[..n], i, s);
      assert slots[i := s][..n] == slots[..n][i := s];
      var a, b, c := SlotRefs(slots[..n][i := s]), SlotRefs(slots[..n]), RefOf(slots[n]);
      assert a + c + RefOf(slots[i]) == (a + RefOf(slots[i])) + c;
      assert b + c + RefOf(s) == (b + RefOf(s)) + c;
    }
  }

  lemma {:induction false} SlotHeld(slots: seq<Slot>, i: nat)
    requires i < |slots| && slots[i].Cached?
    ensures slots[i].key in SlotRefs(slots)
  {
    if i < |slots| - 1 {
      SlotHeld(slots[..|slots| - 1], i);
    }
  }

  lemma {:induction false} AllVacant(slots: seq<Slot>)
    requires forall i: nat :: i < |slots| ==> slots[i] == Vacant
    ensures SlotRefs(slots) == multiset{}
  {
    if slots != [] {
      AllVacant(slots[..|slots| - 1]);
    }
  }

  /** A cached key is a string that its hint describes. It knows its hash, but for one that is being made. */
  ghost predicate SlotOk(nodes: seq<Node>, s: Slot, making: multiset<Id>) {
    s.Cached? ==>
      && s.key < |nodes| && nodes[s.key].Str? && |nodes[s.key].bytes| <= 64
      && (nodes[s.key].hashed || s.key in making)
      && s.hint == Hint(|nodes[s.key].bytes|, nodes[s.key].kind)
  }

  ghost predicate SlotsOk(nodes: seq<Node>, slots: seq<Slot>, making: multiset<Id>) {
    forall i: nat :: i < |slots| ==> SlotOk(nodes, slots[i], making)
  }

  /** The object that stands for a text; the empty string is one object that knows its hash. */
  function NewStr(kind: nat, bytes: seq<Byte>): Node {
    if bytes == [] then Str(0, [], true) else Str(kind, bytes, false)
  }

  /** A string object with just this text. */
  ghost predicate IsText(nodes: seq<Node>, i: Id, kind: nat, bytes: seq<Byte>) {
    i < |nodes| && nodes[i].Str? && nodes[i].bytes == bytes && nodes[i].kind == if bytes == [] then 0 else kind
  }

  class Cache {
    const heap: Heap
    const slots: array<Slot>
    /** XXH3_64bits; nothing is assumed about it. */
    const hash: seq<Byte> -> nat

    ghost predicate Valid(elsewhere: multiset<Id>)
      reads this, slots, heap
    {
      && slots.Length == KEY_CACHE_SIZE
      && SlotsOk(heap.nodes, slots[..], multiset{})
      && heap.Counts(elsewhere + SlotRefs(slots[..]))
    }

    constructor (heap: Heap, hash: seq<Byte> -> nat)
      ensures this.heap == heap && this.hash == hash && fresh(slots) && slots.Length == KEY_CACHE_SIZE
      ensures SlotRefs(slots[..]) == multiset{} && SlotsOk(heap.nodes, slots[..], multiset{})
    {
      this.heap, this.hash := heap, hash;
      slots := new Slot[KEY_CACHE_SIZE](_ => Vacant);
      new;
      AllVacant(slots[..]);
    }

    /** get_key_cache: another reference to the cached key, if it is this text in this kind. */
    method Get(bytes: seq<Byte>, kind: nat, ghost elsewhere: multiset<Id>) returns (found: bool, obj: Id)
      requires Valid(elsewhere) && |bytes| <= 64
      modifies heap`refs
      ensures found ==> Valid(elsewhere + multiset{obj})
      ensures !found ==> Valid(elsewhere)
      ensures found ==> obj < |heap.nodes| && heap.nodes[obj] == Str(kind, bytes, true)
    {
      hide Balanced;
      var s := slots[hash(bytes) % KEY_CACHE_SIZE];
      if s.Vacant? {
        return false, 0;
      }
      SlotHeld(slots[..], hash(bytes) % KEY_CACHE_SIZE);
      assert SlotOk(heap.nodes, slots[..][hash(bytes) % KEY_CACHE_SIZE], multiset{});
      var n := heap.nodes[s.key];
      HintInjective(|bytes|, kind, |n.bytes|, n.kind);
      if Hint(|bytes|, kind) == s.hint && n.bytes[..|bytes|] == bytes {
        OutsideLive(heap.nodes, heap.refs, elsewhere + SlotRefs(slots[..]), s.key);
        heap.IncRef(s.key, elsewhere + SlotRefs(slots[..]));
        assert elsewhere + SlotRefs(slots[..]) + multiset{s.key} == elsewhere + multiset{s.key} + SlotRefs(slots[..]);
        return true, s.key;
      }
      return false, 0;
    }

    /** add_key_cache: the slot gives up its old key and takes a reference to this one. */
    method Add(bytes: seq<Byte>, kind: nat, obj: Id, ghost elsewhere: multiset<Id>)
      requires Valid(elsewhere) && obj in elsewhere && |bytes| <= 64
      requires IsText(heap.nodes, obj, kind, bytes) && (bytes == [] ==> kind == 0)
      modifies heap, slots
      ensures slots.Length == KEY_CACHE_SIZE && SlotsOk(heap.nodes, slots[..], multiset{obj})
      ensures heap.Counts(elsewhere + SlotRefs(slots[..]))
      ensures |heap.nodes| == |old(heap.nodes)| && LaterUpTo(old(heap.nodes), heap.nodes, |heap.nodes|)
      ensures IsText(heap.nodes, obj, kind, bytes) && (old(heap.nodes)[obj].hashed ==> heap.nodes[obj].hashed)
    {
      hide Balanced, SlotOk, LaterUpTo, SlotRefs;
      var index := hash(bytes) % KEY_CACHE_SIZE;
      ghost var was, emptied := heap.nodes, slots[..][index := Vacant];
      ghost var all := elsewhere + SlotRefs(emptied);
      SlotEmptied(slots[..], index, elsewhere);
      EmptiedOk(was, slots[..], index);
      Vacate(index, kind, bytes, obj, elsewhere);
      heap.IncRef(obj, all);
      var s := Cached(obj, Hint(|bytes|, kind));
      SlotFilled(emptied, index, s, elsewhere);
      FilledOk(heap.nodes, emptied, index, s);
      slots[index] := s;
      assert slots[..] == emptied[index := s];
    }

    /** Release the key that is to be replaced. */
    method Vacate(index: nat, kind: nat, bytes: seq<Byte>, obj: Id, ghost elsewhere: multiset<Id>)
      requires index < slots.Length && obj in elsewhere && IsText(heap.nodes, obj, kind, bytes)
      requires heap.Counts(elsewhere + SlotRefs(slots[..][index := Vacant]) + RefOf(slots[index]))
      requires SlotsOk(heap.nodes, slots[..][index := Vacant], multiset{})
      modifies heap
      ensures heap.Counts(elsewhere + SlotRefs(slots[..][index := Vacant]))
      ensures SlotsOk(heap.nodes, slots[..][index := Vacant], multiset{})
      ensures |heap.nodes| == |old(heap.nodes)| && LaterUpTo(old(heap.nodes), heap.nodes, |heap.nodes|)
      ensures IsText(heap.nodes, obj, kind, bytes) && (old(heap.nodes)[obj].hashed ==> heap.nodes[obj].hashed)
    {
      hide Balanced, SlotOk, LaterUpTo, SlotRefs;
      ghost var was, emptied := heap.nodes, slots[..][index := Vacant];
      ghost var all := elsewhere + SlotRefs(emptied);
      if slots[index].Cached? {
        heap.DecRef(slots[index].key, all);
        SlotsStill(was, heap.nodes, heap.refs, elsewhere, emptied);
        assert obj in all;
        OutsideLive(heap.nodes, heap.refs, all, obj);
        TextStill(was, heap.nodes, obj, kind, bytes);
      } else {
        assert all + multiset{} == all;
        LaterSelf(was, |was|);
      }
    }

    /** make_hash */
    method MakeHash(obj: Id, ghost outside: multiset<Id>)
      requires heap.Counts(outside) && obj < |heap.nodes| && heap.nodes[obj].Str?
      modifies heap`nodes
      ensures heap.Counts(outside) && heap.nodes == old(heap.nodes)[obj := old(heap.nodes)[obj].(hashed := true)]
      ensures LaterUpTo(old(heap.nodes), heap.nodes, |heap.nodes|)
    {
      HashedBalanced(heap.nodes, heap.refs, outside, obj);
      heap.nodes := heap.nodes[obj := heap.nodes[obj].(hashed := true)];
    }

    /** make_string, and make_unicode_from_src_ascii, which also caches the empty string: whatever was cached
        before and whatever the hash function, the caller gets a reference to a string of just this text,
        and a key knows its hash. */
    method MakeString(kind: nat, bytes: seq<Byte>, isKey: bool, cacheEmpty: bool, ghost elsewhere: multiset<Id>)
        returns (obj: Id)
      requires Valid(elsewhere) && (cacheEmpty ==> kind == 0)
      modifies heap, slots
      ensures Valid(elsewhere + multiset{obj})
      ensures IsText(heap.nodes, obj, kind, bytes) && (isKey ==> heap.nodes[obj].hashed)
      ensures LaterUpTo(old(heap.nodes), heap.nodes, |old(heap.nodes)|)
    {
      var shouldCache := isKey && |bytes| <= 64 && (bytes != [] || cacheEmpty);
      obj := Make(kind, bytes, isKey, shouldCache, elsewhere);
    }

    /** From the cache, or a new object; make_unicode_ucs1, make_unicode_ucs2 and make_unicode_ucs4 never look into
        the cache. */
    method Make(kind: nat, bytes: seq<Byte>, isKey: bool, shouldCache: bool, ghost elsewhere: multiset<Id>)
        returns (obj: Id)
      requires Valid(elsewhere) && (shouldCache ==> isKey && |bytes| <= 64 && (bytes == [] ==> kind == 0))
      modifies heap, slots
      ensures Valid(elsewhere + multiset{obj})
      ensures IsText(heap.nodes, obj, kind, bytes) && (isKey ==> heap.nodes[obj].hashed)
      ensures LaterUpTo(old(heap.nodes), heap.nodes, |old(heap.nodes)|)
    {
      hide Balanced, SlotOk, LaterUpTo;
      LaterSelf(heap.nodes, |heap.nodes|);
      if shouldCache {
        var found;
        found, obj := Get(bytes, kind, elsewhere);
        if found {
          return;
        }
      }
      obj := Create(kind, bytes, elsewhere);
      ghost var made := heap.nodes;
      if shouldCache {
        Add(bytes, kind, obj, elsewhere + multiset{obj});
        LaterFewer(made, heap.nodes, |made|, |old(heap.nodes)|);
        LaterTwice(old(heap.nodes), made, heap.nodes, |old(heap.nodes)|);
      } else {
        StillOk(heap.nodes, slots[..], obj);
      }
      if isKey {
        LearnHash(kind, bytes, obj, elsewhere, old(heap.nodes));
      }
    }

    method Create(kind: nat, bytes: seq<Byte>, ghost elsewhere: multiset<Id>) returns (obj: Id)
      requires Valid(elsewhere)
      modifies heap
      ensures Valid(elsewhere + multiset{obj}) && heap.nodes == old(heap.nodes) + [NewStr(kind, bytes)]
        && obj == |old(heap.nodes)|
      ensures LaterUpTo(old(heap.nodes), heap.nodes, |old(heap.nodes)|)
    {
      hide Balanced, SlotOk, SlotRefs;
      ghost var outside := elsewhere + SlotRefs(slots[..]);
      assert outside + Owned(NewStr(kind, bytes)) == outside;
      NewOk(heap.nodes, slots[..], NewStr(kind, bytes));
      obj := heap.New(NewStr(kind, bytes), outside);
      assert outside + multiset{obj} == elsewhere + multiset{obj} + SlotRefs(slots[..]);
    }

    method LearnHash(kind: nat, bytes: seq<Byte>, obj: Id, ghost elsewhere: multiset<Id>, ghost was: seq<Node>)
      requires slots.Length == KEY_CACHE_SIZE && SlotsOk(heap.nodes, slots[..], multiset{obj})
      requires heap.Counts(elsewhere + multiset{obj} + SlotRefs(slots[..])) && IsText(heap.nodes, obj, kind, bytes)
      requires |was| <= |heap.nodes| && LaterUpTo(was, heap.nodes, |was|)
      requires bytes == [] ==> heap.nodes[obj].hashed
      modifies heap`nodes
      ensures Valid(elsewhere + multiset{obj}) && IsText(heap.nodes, obj, kind, bytes) && heap.nodes[obj].hashed
      ensures |was| <= |heap.nodes| && LaterUpTo(was, heap.nodes, |was|)
    {
      hide Balanced, SlotOk, LaterUpTo, SlotRefs;
      ghost var added := heap.nodes;
      if bytes != [] {
        MakeHash(obj, elsewhere + multiset{obj} + SlotRefs(slots[..]));
        HashedOk(added, slots[..], obj);
        LaterFewer(added, heap.nodes, |added|, |was|);
        LaterTwice(was, added, heap.nodes, |was|);
      } else {
        KnownOk(heap.nodes, slots[..], obj);
      }
    }
  }

  lemma SlotEmptied(slots: seq<Slot>, i: nat, elsewhere: multiset<Id>)
    requires i < |slots|
    ensures elsewhere + SlotRefs(slots) == elsewhere + SlotRefs(slots[i := Vacant]) + RefOf(slots[i])
  {
    SlotsUpdate(slots, i, Vacant);
    hide SlotRefs;
    assert SlotRefs(slots) + RefOf(Vacant) == SlotRefs(slots);
  }

  lemma SlotFilled(slots: seq<Slot>, i: nat, s: Slot, elsewhere: multiset<Id>)
    requires i < |slots| && slots[i] == Vacant
    ensures elsewhere + SlotRefs(slots) + RefOf(s) == elsewhere + SlotRefs(slots[i := s])
  {
    SlotsUpdate(slots, i, s);
    hide SlotRefs;
    assert SlotRefs(slots[i := s]) + RefOf(Vacant) == SlotRefs(slots[i := s]);
  }

  lemma StillOk(nodes: seq<Node>, slots: seq<Slot>, i: Id)
    requires SlotsOk(nodes, slots, multiset{})
    ensures SlotsOk(nodes, slots, multiset{i})
  {
  }

  lemma HashedBalanced(nodes: seq<Node>, refs: seq<nat>, outside: multiset<Id>, i: Id)
    requires Balanced(nodes, refs, outside) && i < |nodes| && nodes[i].Str?
    ensures Balanced(nodes[i := nodes[i].(hashed := true)], refs, outside)
    ensures LaterUpTo(nodes, nodes[i := nodes[i].(hashed := true)], |nodes|)
  {
    assert NodeOk(nodes[i], i);
    assert outside + multiset{} == outside;
    if nodes[i].Freed? {
    } else {
      Moved(nodes, refs, outside, i, nodes[i].(hashed := true), multiset{}, multiset{});
    }
  }

  lemma NewOk(nodes: seq<Node>, slots: seq<Slot>, x: Node)
    requires SlotsOk(nodes, slots, multiset{})
    ensures SlotsOk(nodes + [x], slots, multiset{})
  {
  }

  lemma HashedOk(nodes: seq<Node>, slots: seq<Slot>, i: Id)
    requires i < |nodes| && nodes[i].Str? && SlotsOk(nodes, slots, multiset{i})
    ensures SlotsOk(nodes[i := nodes[i].(hashed := true)], slots, multiset{})
  {
  }

  lemma KnownOk(nodes: seq<Node>, slots: seq<Slot>, i: Id)
    requires i < |nodes| && nodes[i].Str? && nodes[i].hashed && SlotsOk(nodes, slots, multiset{i})
    ensures SlotsOk(nodes, slots, multiset{})
  {
  }

  lemma EmptiedOk(nodes: seq<Node>, slots: seq<Slot>, i: nat)
    requires i < |slots| && SlotsOk(nodes, slots, multiset{})
    ensures SlotsOk(nodes, slots[i := Vacant], multiset{})
  {
  }

  lemma FilledOk(nodes: seq<Node>, slots: seq<Slot>, i: nat, s: Slot)
    requires i < |slots| && SlotsOk(nodes, slots, multiset{}) && s.Cached?
    requires s.key < |nodes| && nodes[s.key].Str? && |nodes[s.key].bytes| <= 64
      && s.hint == Hint(|nodes[s.key].bytes|, nodes[s.key].kind)
    ensures SlotsOk(nodes, slots[i := s], multiset{s.key})
  {
  }

  lemma TextStill(nodes: seq<Node>, nodes': seq<Node>, i: Id, kind: nat, bytes: seq<Byte>)
    requires IsText(nodes, i, kind, bytes) && LaterUpTo(nodes, nodes', |nodes|) && !nodes'[i].Freed?
    ensures IsText(nodes', i, kind, bytes) && (nodes[i].hashed ==> nodes'[i].hashed)
  {
  }

  /** Cached keys are referred to, so they are still there. */
  lemma SlotsStill(nodes: seq<Node>, nodes': seq<Node>, refs': seq<nat>, elsewhere: multiset<Id>, slots: seq<Slot>)
    requires SlotsOk(nodes, slots, multiset{}) && Balanced(nodes', refs', elsewhere + SlotRefs(slots))
    requires LaterUpTo(nodes, nodes', |nodes|)
    ensures SlotsOk(nodes', slots, multiset{})
  {
    hide Balanced;
    forall k: nat | k < |slots| ensures SlotOk(nodes', slots[k], multiset{}) {
      assert SlotOk(nodes, slots[k], multiset{});
      if slots[k].Cached? {
        SlotHeld(slots, k);
        OutsideLive(nodes', refs', elsewhere + SlotRefs(slots), slots[k].key);
        assert Later(nodes[slots[k].key], nodes'[slots[k].key]);
      }
    }
  }
}
