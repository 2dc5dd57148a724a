/** The locked containers of one encoder run in the free-threaded build: the pointer set and the
    mutexes it stands for (src/encode/_encode_impl.inl.h). */
module LockSet {
  import opened HashTable
  import opened KHash

  class Locks {
    const table: PtrSet
    /** The objects whose mutex this thread holds. */
    var held: set<Key>

    ghost function Repr(): set<object>
      reads this, table
    {
      {this, table, table.flags, table.keys}
    }

    ghost predicate Valid()
      reads this, table, table.flags, table.keys
    {
      table.Valid() && table.Elements() == held && table.nBuckets <= 0x4000_0000
    }

    constructor (hash: Key -> nat)
      ensures Valid() && held == {} && fresh(Repr())
    {
      table := new PtrSet(hash);
      held := {};
      new;
      hide PtrSet.Valid, PtrSet.Elements, PtrSet.BucketsFor;
      var _ := table.Resize(512, Alloc(true, true));
    }

    /** PyMutex_Lock; locking a mutex twice would block for ever. */
    method Lock(obj: Key)
      requires obj !in held
      modifies this`held
      ensures held == old(held) + {obj}
    {
      held := held + {obj};
    }

    /** PyMutex_Unlock */
    method Unlock(obj: Key)
      requires obj in held
      modifies this`held
      ensures held == old(held) - {obj}
    {
      held := held - {obj};
    }

    /** kh_put and lock; false when the object is locked already, that is, on the current path. */
    method Acquire(obj: Key) returns (ok: bool)
      requires Valid() && |held| < 0x1000_0000
      modifies Repr()
      ensures Valid() && fresh(Repr() - old(Repr()))
      ensures ok <==> obj !in old(held)
      ensures held == old(held) + {obj}
    {
      hide PtrSet.Valid, PtrSet.Elements, PtrSet.Refuses;
      table.SizeCounts();
      NotRefused(obj);
      var _, ret := table.Put(obj, Alloc(true, true));
      ok := ret != Present;
      if ok {
        Lock(obj);
      } else {
        assert held == held + {obj};
      }
    }

    lemma NotRefused(obj: Key)
      requires Valid()
      ensures !table.Refuses(obj)
    {
    }

    /** kh_get, kh_del and unlock */
    method Release(obj: Key)
      requires Valid() && obj in held
      modifies Repr()
      ensures Valid() && Repr() == old(Repr())
      ensures held == old(held) - {obj}
    {
      var x := table.Get(obj);
      table.Del(x);
      Unlock(obj);
    }

    /** The loop behind `fail`: unlock whatever is still in the set. */
    method ReleaseAll()
      requires Valid()
      modifies this`held
      ensures held == {}
    {
      ghost var fs, ks := table.flags[..], table.keys[..];
      var k := 0;
      assert held == FromBucket(fs, ks, 0);
      while k != table.nBuckets
        invariant k <= table.nBuckets
        invariant held == FromBucket(fs, ks, k)
      {
        NextBucket(fs, ks, k);
        if table.flags[k] == Live {
          Unlock(table.keys[k]);
        }
        k := k + 1;
      }
      assert held == {};
    }

    /** The elements in bucket k and after it. */
    static ghost function FromBucket(fs: seq<Flag>, ks: seq<Key>, k: nat): set<Key>
      requires |fs| == |ks|
    {
      set i: nat | i < |fs| && fs[i] == Live && k <= i :: ks[i]
    }

    static lemma NextBucket(fs: seq<Flag>, ks: seq<Key>, k: nat)
      requires k < |fs| == |ks| && Distinct(fs, ks)
      ensures fs[k] == Live ==> ks[k] in FromBucket(fs, ks, k)
      ensures FromBucket(fs, ks, k + 1) == if fs[k] == Live then FromBucket(fs, ks, k) - {ks[k]}
        else FromBucket(fs, ks, k)
    {
    }
  }
}
