/** The per-thread list of decode buffers in the free-threaded build (src/decode/decode.c). */
module DecodeBuffers {

  /** SSRJSON_OBJECT_HOOK_MAX_RECURSION */
  const MAX_NESTED: nat := 32

  /** DecoderBufferLinkedList; the buffers themselves are its identity. */
  class Node {
    var level: nat
    var prev: Node?
    var next: Node?

    constructor (level: nat, prev: Node?)
      ensures this.level == level && this.prev == prev && next == null
    {
      this.level, this.prev, next := level, prev, null;
    }
  }

  /** A call of the decoder and, in order, the calls its hooks make. */
  datatype Call = Call(nested: seq<Call>)

  /** DecoderTLSData */
  class Tls {
    var curBuffer: Node?

    /** The list from its head to the current node, and the number of its nodes that no live call uses: the
        head stays behind when the outermost call returns. */
    ghost var chain: seq<Node>
    ghost var idle: nat

    ghost predicate Valid()
      reads this, chain
    {
      && idle <= 1 && idle <= |chain| <= MAX_NESTED
      && curBuffer == (if chain == [] then null else chain[|chain| - 1])
      && (forall i: nat, j: nat :: i < j < |chain| ==> chain[i] != chain[j])
      && forall i: nat :: i < |chain| ==> Placed(i)
    }

    /** Node i of the list. */
    ghost predicate Placed(i: nat)
      reads this, chain
      requires i < |chain|
    {
      && chain[i].level == i
      && chain[i].prev == (if i == 0 then null else chain[i - 1])
      && chain[i].next == (if i == |chain| - 1 then null else chain[i + 1])
    }

    /** The nodes of the calls that have not returned, outermost first. */
    ghost function Live(): seq<Node>
      reads this
      requires idle <= |chain|
    {
      chain[idle..]
    }

    constructor ()
      ensures Valid() && chain == [] && Live() == []
    {
      curBuffer, chain, idle := null, [], 0;
    }

    /** The beginning of ssrjson_Decode: take a buffer that no live call uses, or report the nesting. A list
        never has nodes beyond the current one, so the branch that would use them is not taken. */
    method Enter() returns (used: Node?)
      requires Valid()
      modifies this, chain
      ensures Valid() && idle == old(idle)
      ensures used == null <==> |old(chain)| == MAX_NESTED
      ensures used == null ==> chain == old(chain)
      ensures used != null ==> fresh(used) && used.level == |old(chain)| && chain == old(chain) + [used]
      ensures used != null ==> used !in old(Live()) && Live() == old(Live()) + [used]
    {
      if curBuffer == null {
        used := new Node(0, null);
      } else {
        assert Placed(|chain| - 1) && curBuffer.next == null;
        var newLevel := curBuffer.level + 1;
        if newLevel >= MAX_NESTED {
          return null;
        }
        used := new Node(newLevel, curBuffer);
        curBuffer.next := used;
      }
      curBuffer := used;
      ghost var before := chain;
      chain := chain + [used];
      forall i: nat | i < |chain| ensures Placed(i) {
        if i < |before| {
          assert old(Placed(i)) && chain[i] == before[i];
        }
      }
    }

    /** The end of ssrjson_Decode: give the buffer back; the head node is kept for the next call. */
    method Exit()
      requires Valid() && Live() != []
      modifies this, chain
      ensures Valid()
      ensures Live() == old(Live()[..|Live()| - 1])
      ensures |old(chain)| > 1 ==> chain == old(chain[..|chain| - 1]) && idle == old(idle)
      ensures |old(chain)| == 1 ==> chain == old(chain) && idle == 1
    {
      var used := curBuffer;
      ghost var before, last := chain, |chain| - 1;
      assert Placed(last) && used.next == null;
      var goback := used.prev;
      if goback != null {
        assert goback == chain[last - 1] && Placed(last - 1);
        curBuffer := goback;
        goback.next := null;
        chain := chain[..last];
        forall i: nat | i < |chain| ensures Placed(i) {
          assert old(Placed(i)) && chain[i] == before[i];
        }
      } else {
        idle := 1;
      }
    }

    /** A call with all the calls nested in it: every one of them that gets a buffer gets one of its own, and
        in the end the list is what it was, but for the head that the first call of a thread leaves. */
    method Run(c: Call)
      requires Valid()
      modifies this, chain
      ensures Valid() && Live() == old(Live())
      ensures if old(chain) == [] then |chain| == 1 && idle == 1 && fresh(chain[0])
        else chain == old(chain) && idle == old(idle)
      decreases c
    {
      hide Placed;
      ghost var before, wasIdle := chain, idle;
      var used := Enter();
      if used == null {
        return;
      }
      ghost var during := chain;
      var i := 0;
      while i < |c.nested|
        invariant i <= |c.nested| && Valid() && chain == during && idle == wasIdle
      {
        Run(c.nested[i]);
        i := i + 1;
      }
      Exit();
      assert before != [] ==> during[..|during| - 1] == before;
    }
  }

  /** Live calls use different buffers, and their levels are 0, 1, 2, ... or, with an idle head, 1, 2, 3, ... */
  lemma LiveApart(t: Tls, i: nat, j: nat)
    requires t.Valid() && i < j < |t.Live()|
    ensures t.Live()[i] != t.Live()[j]
    ensures t.Live()[i].level == t.idle + i && t.Live()[j].level == t.idle + j < MAX_NESTED
  {
    assert t.Placed(t.idle + i) && t.Placed(t.idle + j);
    assert t.Live()[i] == t.chain[t.idle + i] && t.Live()[j] == t.chain[t.idle + j];
  }
}
