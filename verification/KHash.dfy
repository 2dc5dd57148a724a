/** The contents of an open-addressing table, as facts about its flag and key arrays (src/khash.h). */
module HashTable {
  import opened Probing

  /** A 64-bit object address. */
  type Key = int

  /** The two bits a bucket has in the flag words: "empty", "deleted", or neither. */
  datatype Flag = Empty | Deleted | Live

  /** (khint_t)(n * 0.77 + 0.5); for a power of two the quotient is never a whole number. */
  function LoadBound(n: nat): nat {
    (77 * n + 50) / 100
  }

  /** kroundup32: the least power of two that is not below n, in 32-bit arithmetic. */
  function RoundUp32(n: nat): (r: nat)
    ensures r == 0 || (PowerOfTwo(r) && r <= 0x8000_0000)
    ensures r == 0 <==> n == 0 || n > 0x8000_0000
    ensures r != 0 ==> n <= r && r < 2 * n
    ensures PowerOfTwo(n) && n <= 0x8000_0000 ==> r == n
  {
    if n == 0 || n > 0x8000_0000 then 0 else Doubled(1, n)
  }

  lemma LargestTable()
    ensures PowerOfTwo(0x8000_0000)
  {
    PowersMultiply(8, 16);
    PowersMultiply(16, 16);
    PowersMultiply(0x80, 0x100);
    PowersMultiply(0x100, 0x100);
    PowersMultiply(0x8000, 0x1_0000);
  }

  lemma DoubledPower(n: nat)
    requires PowerOfTwo(n)
    ensures PowerOfTwo(2 * n)
  {
    assert (2 * n) / 2 == n;
  }

  lemma {:induction false} PowersMultiply(a: nat, b: nat)
    requires PowerOfTwo(a) && PowerOfTwo(b)
    ensures PowerOfTwo(a * b)
  {
    if a > 1 {
      PowersMultiply(a / 2, b);
      assert a * b == 2 * (a / 2 * b);
    }
  }

  function Doubled(r: nat, n: nat): (r': nat)
    requires PowerOfTwo(r) && r < 2 * n && n <= 0x8000_0000
    ensures PowerOfTwo(r') && n <= r' < 2 * n && r' <= 0x8000_0000
    ensures PowerOfTwo(n) && r <= n ==> r' == n
    decreases 2 * n - r
  {
    LargestTable();
    PowersApart(r, 0x8000_0000);
    if n <= r then
      PowersApart(0x8000_0000, r);
      r
    else
      assert (2 * r) / 2 == r;
      PowersApart(r, n);
      Doubled(2 * r, n)
  }

  /** Between a power of two and its double there is no other one. */
  lemma {:induction false} PowersApart(r: nat, n: nat)
    requires PowerOfTwo(r)
    ensures PowerOfTwo(n) && r < n ==> 2 * r <= n
    decreases r
  {
    if PowerOfTwo(n) && r < n && r > 1 {
      PowersApart(r / 2, n / 2);
    }
  }

  // ----- Probing over flags -----

  /** The first n steps of the probe meet no empty bucket. */
  ghost predicate ClearTo(flags: seq<Flag>, h: nat, n: nat)
    requires |flags| > 0
  {
    forall m: nat :: m < n ==> flags[Pos(h, m, |flags|)] != Empty
  }

  /** Bucket i is on the probe path of h with no empty bucket before it. */
  ghost predicate Reach(flags: seq<Flag>, h: nat, i: nat)
    requires |flags| > 0
  {
    exists n: nat :: n < |flags| && Pos(h, n, |flags|) == i && ClearTo(flags, h, n)
  }

  ghost predicate MoreUsed(flags: seq<Flag>, flags': seq<Flag>) {
    |flags| == |flags'| && forall i :: 0 <= i < |flags| && flags[i] != Empty ==> flags'[i] != Empty
  }

  lemma ReachGrows(flags: seq<Flag>, flags': seq<Flag>, h: nat, i: nat)
    requires |flags| > 0 && MoreUsed(flags, flags') && Reach(flags, h, i)
    ensures Reach(flags', h, i)
  {
  }

  // ----- What a table holds -----

  ghost function LiveAt(flags: seq<Flag>): set<nat> {
    set i: nat | i < |flags| && flags[i] == Live
  }

  ghost function UsedAt(flags: seq<Flag>): set<nat> {
    set i: nat | i < |flags| && flags[i] != Empty
  }

  ghost function Contents(flags: seq<Flag>, keys: seq<Key>): set<Key>
    requires |flags| <= |keys|
  {
    set i: nat | i < |flags| && flags[i] == Live :: keys[i]
  }

  ghost predicate Distinct(flags: seq<Flag>, keys: seq<Key>)
    requires |flags| <= |keys|
  {
    forall i: nat, j: nat :: i < j < |flags| && flags[i] == Live && flags[j] == Live ==> keys[i] != keys[j]
  }

  ghost predicate Probed(flags: seq<Flag>, keys: seq<Key>, hash: Key -> nat)
    requires 0 < |flags| <= |keys|
  {
    forall i: nat :: i < |flags| && flags[i] == Live ==> Reach(flags, hash(keys[i]), i)
  }

  /** No key twice, and no live key behind an empty bucket of its own probe path. */
  ghost predicate Table(flags: seq<Flag>, keys: seq<Key>, hash: Key -> nat) {
    && |flags| <= |keys|
    && Distinct(flags, keys)
    && (|flags| > 0 ==> PowerOfTwo(|flags|) && Probed(flags, keys, hash))
  }

  /** Distinct positions holding distinct keys: as many keys as positions. */
  lemma {:induction false} KeysCounted(at: set<nat>, keys: seq<Key>)
    requires forall i :: i in at ==> i < |keys|
    requires forall i, j :: i in at && j in at && i != j ==> keys[i] != keys[j]
    ensures |set i | i in at :: keys[i]| == |at|
    decreases |at|
  {
    if at != {} {
      var i :| i in at;
      KeysCounted(at - {i}, keys);
      assert (set j | j in at :: keys[j]) == (set j | j in at - {i} :: keys[j]) + {keys[i]};
    }
  }

  lemma LiveCounted(flags: seq<Flag>, keys: seq<Key>)
    requires |flags| <= |keys| && Distinct(flags, keys)
    ensures |Contents(flags, keys)| == |LiveAt(flags)|
  {
    KeysCounted(LiveAt(flags), keys);
    assert Contents(flags, keys) == set i | i in LiveAt(flags) :: keys[i];
  }

  /** While some bucket is empty, every probe path has an empty bucket. */
  lemma EmptyStep(flags: seq<Flag>, h: nat) returns (n: nat)
    requires PowerOfTwo(|flags|) && |UsedAt(flags)| < |flags|
    ensures n < |flags| && flags[Pos(h, n, |flags|)] == Empty
  {
    if forall i: nat :: i < |flags| ==> flags[i] != Empty {
      AllCounted(UsedAt(flags), |flags|);
    }
    var i: nat :| i < |flags| && flags[i] == Empty;
    n := EveryBucketOnce(h, i, |flags|);
  }

  lemma {:induction false} AllCounted(s: set<nat>, n: nat)
    requires forall i: nat :: i < n ==> i in s
    ensures |s| >= n
  {
    if n > 0 {
      AllCounted(s - {n - 1}, n - 1);
    }
  }

  /** What a search that has made n steps without finding `key` knows. */
  ghost predicate Missed(flags: seq<Flag>, keys: seq<Key>, h: nat, n: nat, key: Key)
    requires 0 < |flags| <= |keys|
  {
    forall m: nat :: m < n ==> var i := Pos(h, m, |flags|); flags[i] == Live ==> keys[i] != key
  }

  /** A search may stop at an empty bucket ... */
  lemma StopAtEmpty(flags: seq<Flag>, keys: seq<Key>, hash: Key -> nat, n: nat, key: Key)
    requires |flags| > 0 && Table(flags, keys, hash)
    requires Missed(flags, keys, hash(key), n, key) && flags[Pos(hash(key), n, |flags|)] == Empty
    ensures key !in Contents(flags, keys)
  {
  }

  /** ... or when it is back where it began. */
  lemma StopAtReturn(flags: seq<Flag>, keys: seq<Key>, hash: Key -> nat, n: nat, key: Key)
    requires |flags| > 0 && Table(flags, keys, hash)
    requires Missed(flags, keys, hash(key), n, key)
    requires n > 0 && Pos(hash(key), n, |flags|) == Pos(hash(key), 0, |flags|)
    ensures n >= 2 * |flags| - 1
    ensures key !in Contents(flags, keys)
  {
    FirstReturn(hash(key), |flags|);
  }

  ghost predicate NoneDeleted(flags: seq<Flag>, h: nat, n: nat)
    requires |flags| > 0
  {
    forall m: nat :: m < n ==> flags[Pos(h, m, |flags|)] != Deleted
  }

  /** A probe that met neither an empty nor a deleted bucket on its whole way has seen only live ones. */
  lemma AllLive(flags: seq<Flag>, h: nat, n: nat)
    requires PowerOfTwo(|flags|) && n >= |flags| && ClearTo(flags, h, n) && NoneDeleted(flags, h, n)
    ensures |LiveAt(flags)| == |flags|
  {
    forall i: nat | i < |flags| ensures i in LiveAt(flags) {
      var m := EveryBucketOnce(h, i, |flags|);
    }
    AllCounted(LiveAt(flags), |flags|);
    NumbersBelow(LiveAt(flags), |flags|);
  }

  lemma MoreUsedThanLive(flags: seq<Flag>)
    ensures |LiveAt(flags)| <= |UsedAt(flags)|
  {
    SubsetSize(LiveAt(flags), UsedAt(flags));
  }

  lemma NotFull(flags: seq<Flag>, x: nat)
    requires x < |flags|
    ensures |LiveAt(flags)| <= |flags|
    ensures flags[x] != Live ==> |LiveAt(flags)| < |flags|
  {
    NumbersBelow(LiveAt(flags), |flags|);
    assert x in LiveAt(flags) <==> flags[x] == Live;
  }

  /** A bucket passed on the way to an empty one, or on the way back to the start, is within reach. */
  lemma Reached(flags: seq<Flag>, h: nat, at: nat, n: nat)
    requires PowerOfTwo(|flags|) && at <= n && ClearTo(flags, h, n)
    ensures Reach(flags, h, Pos(h, at, |flags|))
  {
    var i := Pos(h, at, |flags|);
    var m := EveryBucketOnce(h, i, |flags|);
    if at < |flags| {
      assert m == at;
    }
    assert ClearTo(flags, h, m);
  }

  /** What the search of kh_put knows after n steps; `site` is the deleted bucket it saw last, at step `at`. */
  ghost predicate Searching(flags: seq<Flag>, keys: seq<Key>, h: nat, n: nat, key: Key, site: nat, at: nat)
    requires 0 < |flags| <= |keys|
  {
    && Missed(flags, keys, h, n, key) && ClearTo(flags, h, n)
    && (if site == |flags| then NoneDeleted(flags, h, n)
        else at < n && site == Pos(h, at, |flags|) && flags[site] == Deleted)
  }

  lemma Stepped(flags: seq<Flag>, keys: seq<Key>, h: nat, n: nat, key: Key, site: nat, at: nat, i: nat)
    requires 0 < |flags| <= |keys| && Searching(flags, keys, h, n, key, site, at)
    requires i == Pos(h, n, |flags|) && (flags[i] == Deleted || (flags[i] == Live && keys[i] != key))
    ensures flags[i] == Deleted ==> Searching(flags, keys, h, n + 1, key, i, n)
    ensures flags[i] == Live ==> Searching(flags, keys, h, n + 1, key, site, at)
  {
  }

  /** A table of live buckets only, each key in the bucket it hashes to. */
  lemma FullTable(flags: seq<Flag>, keys: seq<Key>, hash: Key -> nat)
    requires |flags| == 0x8000_0000 == |keys|
    requires forall i: nat :: i < |flags| ==> flags[i] == Live && keys[i] == i && hash(i) == i
    ensures Table(flags, keys, hash) && forall k :: k in Contents(flags, keys) ==> 0 <= k < 0x8000_0000
    ensures |LiveAt(flags)| == |flags| == |UsedAt(flags)|
  {
    LargestTable();
    forall i: nat | i < |flags| ensures Reach(flags, hash(keys[i]), i) {
      assert Pos(i, 0, |flags|) == i;
      assert ClearTo(flags, i, 0);
    }
    AllCounted(LiveAt(flags), |flags|);
    NumbersBelow(LiveAt(flags), |flags|);
    assert LiveAt(flags) == UsedAt(flags);
  }

  // ----- One bucket changed -----

  lemma Inserted(flags: seq<Flag>, keys: seq<Key>, hash: Key -> nat, x: nat, key: Key)
    requires 0 < |flags| == |keys| && Table(flags, keys, hash)
    requires key !in Contents(flags, keys)
    requires x < |flags| && flags[x] != Live && Reach(flags, hash(key), x)
    ensures Table(flags[x := Live], keys[x := key], hash)
    ensures Contents(flags[x := Live], keys[x := key]) == Contents(flags, keys) + {key}
    ensures LiveAt(flags[x := Live]) == LiveAt(flags) + {x}
    ensures UsedAt(flags[x := Live]) == UsedAt(flags) + {x}
  {
    var f, k := flags[x := Live], keys[x := key];
    InsertedContents(flags, keys, x, key);
    forall i: nat | i < |f| && f[i] == Live ensures Reach(f, hash(k[i]), i) {
      ReachGrows(flags, f, hash(k[i]), i);
    }
  }

  lemma InsertedContents(flags: seq<Flag>, keys: seq<Key>, x: nat, key: Key)
    requires |flags| == |keys| && x < |flags| && flags[x] != Live
    ensures Contents(flags[x := Live], keys[x := key]) == Contents(flags, keys) + {key}
  {
    var f, k := flags[x := Live], keys[x := key];
    assert f[x] == Live && k[x] == key;
    forall y | y in Contents(flags, keys) ensures y in Contents(f, k) {
      var i: nat :| i < |flags| && flags[i] == Live && keys[i] == y;
      assert f[i] == Live && k[i] == y;
    }
  }

  lemma Removed(flags: seq<Flag>, keys: seq<Key>, hash: Key -> nat, x: nat)
    requires 0 < |flags| == |keys| && Table(flags, keys, hash)
    requires x < |flags| && flags[x] == Live
    ensures Table(flags[x := Deleted], keys, hash)
    ensures Contents(flags[x := Deleted], keys) == Contents(flags, keys) - {keys[x]}
    ensures LiveAt(flags[x := Deleted]) == LiveAt(flags) - {x}
    ensures UsedAt(flags[x := Deleted]) == UsedAt(flags)
  {
  }
}

/** The state in the middle of kh_resize: old and new flags over one key array. */
module Rehashing {
  import opened Probing
  import opened HashTable

  /** Bucket i holds a key: still under the old flags, or placed under the new ones. */
  ghost predicate Held(of: seq<Flag>, nf: seq<Flag>, i: nat) {
    (i < |of| && of[i] == Live) || (i < |nf| && nf[i] == Live)
  }

  ghost function HeldAt(of: seq<Flag>, nf: seq<Flag>, n: nat): set<nat> {
    set i: nat | i < n && Held(of, nf, i)
  }

  ghost function HeldKeys(of: seq<Flag>, nf: seq<Flag>, ks: seq<Key>): set<Key> {
    set i: nat | i < |ks| && Held(of, nf, i) :: ks[i]
  }

  /** Nothing lost, nothing twice: `all` is what the buckets hold plus the key in hand. */
  ghost predicate Rehash(of: seq<Flag>, nf: seq<Flag>, ks: seq<Key>, hash: Key -> nat, all: set<Key>, hand: set<Key>) {
    && |of| <= |ks| && |nf| <= |ks| && PowerOfTwo(|nf|)
    && (forall i: nat :: i < |nf| ==> nf[i] != Deleted)
    && (forall i: nat :: i < |nf| && i < |of| && nf[i] == Live ==> of[i] != Live)
    && (forall i: nat, j: nat :: i < j < |ks| && Held(of, nf, i) && Held(of, nf, j) ==> ks[i] != ks[j])
    && HeldKeys(of, nf, ks) !! hand
    && all == HeldKeys(of, nf, ks) + hand
    && Probed(nf, ks, hash)
  }

  lemma Begin(of: seq<Flag>, nf: seq<Flag>, ks: seq<Key>, ks': seq<Key>, hash: Key -> nat)
    requires |of| <= |ks| <= |ks'| && Table(of, ks, hash)
    requires |nf| <= |ks'| && PowerOfTwo(|nf|) && forall i: nat :: i < |nf| ==> nf[i] == Empty
    requires forall i: nat :: i < |ks| ==> ks'[i] == ks[i]
    ensures Rehash(of, nf, ks', hash, Contents(of, ks), {})
  {
  }

  /** Take the key of old bucket j in hand. */
  lemma TakeUp(of: seq<Flag>, nf: seq<Flag>, ks: seq<Key>, hash: Key -> nat, all: set<Key>, j: nat)
    requires Rehash(of, nf, ks, hash, all, {})
    requires j < |of| && of[j] == Live
    ensures Rehash(of[j := Deleted], nf, ks, hash, all, {ks[j]})
  {
  }

  /** Put the key in hand into new bucket i; an old resident of i is now in hand. */
  lemma Kick(of: seq<Flag>, nf: seq<Flag>, ks: seq<Key>, hash: Key -> nat, all: set<Key>, i: nat, key: Key)
    requires Rehash(of, nf, ks, hash, all, {key})
    requires i < |nf| && nf[i] == Empty && Reach(nf, hash(key), i)
    requires i < |of| && of[i] == Live
    ensures Rehash(of[i := Deleted], nf[i := Live], ks[i := key], hash, all, {ks[i]})
  {
    var of', nf', ks' := of[i := Deleted], nf[i := Live], ks[i := key];
    assert Held(of, nf, i) && Held(of', nf', i);
    assert ks[i] in HeldKeys(of, nf, ks);
    forall j: nat | j < |ks| && j != i ensures Held(of', nf', j) <==> Held(of, nf, j) {}
    forall j: nat | j < |ks| && Held(of, nf, j) ensures ks[j] in HeldKeys(of, nf, ks) {}
    HeldAfter(of, nf, ks, of', nf', i, key);
    ProbedAfter(nf, ks, hash, i, key);
  }

  lemma HeldAfter(of: seq<Flag>, nf: seq<Flag>, ks: seq<Key>, of': seq<Flag>, nf': seq<Flag>, i: nat, key: Key)
    requires i < |ks| && Held(of, nf, i) && Held(of', nf', i)
    requires forall j: nat :: j < |ks| && j != i ==> (Held(of', nf', j) <==> Held(of, nf, j))
    requires forall j: nat :: j < |ks| && j != i && Held(of, nf, j) ==> ks[j] != ks[i]
    requires key !in HeldKeys(of, nf, ks)
    ensures HeldKeys(of', nf', ks[i := key]) == HeldKeys(of, nf, ks) - {ks[i]} + {key}
  {
  }

  lemma ProbedAfter(nf: seq<Flag>, ks: seq<Key>, hash: Key -> nat, i: nat, key: Key)
    requires 0 < |nf| <= |ks| && Probed(nf, ks, hash)
    requires i < |nf| && nf[i] == Empty && Reach(nf, hash(key), i)
    ensures Probed(nf[i := Live], ks[i := key], hash)
  {
  }

  /** Put the key in hand into a bucket nobody holds. */
  lemma Settle(of: seq<Flag>, nf: seq<Flag>, ks: seq<Key>, hash: Key -> nat, all: set<Key>, i: nat, key: Key)
    requires Rehash(of, nf, ks, hash, all, {key})
    requires i < |nf| && nf[i] == Empty && Reach(nf, hash(key), i)
    requires i < |of| ==> of[i] != Live
    ensures Rehash(of, nf[i := Live], ks[i := key], hash, all, {})
  {
    var nf', ks' := nf[i := Live], ks[i := key];
    assert !Held(of, nf, i) && Held(of, nf', i) && ks'[i] == key;
    forall j: nat | j < |ks| && j != i ensures Held(of, nf', j) <==> Held(of, nf, j) {}
    forall j: nat | j < |ks| && Held(of, nf, j) ensures ks[j] in HeldKeys(of, nf, ks) {}
    forall y | y in HeldKeys(of, nf, ks) ensures y in HeldKeys(of, nf', ks') {
      var j: nat :| j < |ks| && Held(of, nf, j) && ks[j] == y;
      assert j != i && Held(of, nf', j) && ks'[j] == y;
    }
    forall y | y in HeldKeys(of, nf', ks') ensures y in all {
      var j: nat :| j < |ks'| && Held(of, nf', j) && ks'[j] == y;
      assert j == i || (Held(of, nf, j) && ks[j] == y);
    }
    ProbedAfter(nf, ks, hash, i, key);
  }

  /** One turn of the kick-out loop. */
  lemma Turn(of: seq<Flag>, nf: seq<Flag>, ks: seq<Key>, hash: Key -> nat, all: set<Key>, i: nat, key: Key)
    requires Rehash(of, nf, ks, hash, all, {key})
    requires i < |nf| && nf[i] == Empty && Reach(nf, hash(key), i)
    ensures i < |of| && of[i] == Live ==>
      Rehash(of[i := Deleted], nf[i := Live], ks[i := key], hash, all, {ks[i]}) && LiveAt(of[i := Deleted]) < LiveAt(of)
    ensures !(i < |of| && of[i] == Live) ==> Rehash(of, nf[i := Live], ks[i := key], hash, all, {})
  {
    if i < |of| && of[i] == Live {
      Kick(of, nf, ks, hash, all, i, key);
      assert LiveAt(of[i := Deleted]) == LiveAt(of) - {i} && i in LiveAt(of);
    } else {
      Settle(of, nf, ks, hash, all, i, key);
    }
  }

  /** With a key in hand the new flags still have an empty bucket. */
  lemma RoomLeft(of: seq<Flag>, nf: seq<Flag>, ks: seq<Key>, hash: Key -> nat, all: set<Key>, key: Key)
    requires Rehash(of, nf, ks, hash, all, {key}) && |all| <= |nf|
    ensures PowerOfTwo(|nf|) && |nf| <= |ks| && |of| <= |ks|
    ensures |UsedAt(nf)| < |nf|
  {
    var at := HeldAt(of, nf, |ks|);
    KeysCounted(at, ks);
    assert (set i | i in at :: ks[i]) == HeldKeys(of, nf, ks);
    assert |all| == |HeldKeys(of, nf, ks)| + 1;
    assert UsedAt(nf) <= at;
    SubsetSize(UsedAt(nf), at);
  }

  /** When no old bucket is live any more, the new flags are a table of the same keys. */
  lemma Done(of: seq<Flag>, nf: seq<Flag>, ks: seq<Key>, hash: Key -> nat, all: set<Key>)
    requires Rehash(of, nf, ks, hash, all, {})
    requires forall i: nat :: i < |of| ==> of[i] != Live
    ensures Table(nf, ks[..|nf|], hash) && Contents(nf, ks[..|nf|]) == all
    ensures UsedAt(nf) == LiveAt(nf) && |LiveAt(nf)| == |all|
  {
    var k := ks[..|nf|];
    forall i: nat | i < |ks| ensures Held(of, nf, i) <==> i < |nf| && nf[i] == Live {}
    forall y | y in all ensures y in Contents(nf, k) {
      var i: nat :| i < |ks| && Held(of, nf, i) && ks[i] == y;
      assert nf[i] == Live && k[i] == y;
    }
    forall y | y in Contents(nf, k) ensures y in all {
      var i: nat :| i < |nf| && nf[i] == Live && k[i] == y;
      assert Held(of, nf, i) && ks[i] == y;
    }
    forall i: nat, j: nat | i < j < |nf| && nf[i] == Live && nf[j] == Live ensures k[i] != k[j] {
      assert Held(of, nf, i) && Held(of, nf, j);
    }
    LiveCounted(nf, k);
  }
}

/** khash_t(ptr_set): the set of locked containers, kept in two arrays that change in place. */
module KHash {
  import opened Probing
  import opened HashTable
  import opened Rehashing

  /** What kh_put stores through its `ret` argument. */
  datatype PutResult = Present | Added | Reused | NoMemory

  /** Whether new flags, and a longer array of keys, can be allocated. */
  datatype Alloc = Alloc(flags: bool, keys: bool)

  class PtrSet {
    const hash: Key -> nat
    var nBuckets: nat
    var size: nat
    var nOccupied: nat
    var upperBound: nat
    var flags: array<Flag>
    var keys: array<Key>

    ghost predicate Valid()
      reads this, flags, keys
    {
      && flags.Length == nBuckets == keys.Length
      && Table(flags[..], keys[..], hash)
      && size == |LiveAt(flags[..])|
      && nOccupied == |UsedAt(flags[..])|
      && (nBuckets == 0 ==> upperBound == 0)
      && (nBuckets > 0 ==> upperBound == LoadBound(nBuckets) && 4 <= nBuckets <= 0x8000_0000)
      && nOccupied <= nBuckets && (0 < nBuckets < 0x8000_0000 ==> nOccupied < nBuckets)
    }

    /** The table cannot grow any more, and every bucket is live. */
    ghost predicate Full()
      reads this
    {
      nBuckets == 0x8000_0000 == size
    }

    /** The one case in which there is no place for a key. */
    ghost predicate Refuses(key: Key)
      reads this, flags, keys
      requires flags.Length == keys.Length
    {
      Full() && key !in Elements()
    }

    /** A resize is called for and cannot be had. */
    ghost predicate Starved(requested: nat, mem: Alloc)
      reads this
    {
      && size < LoadBound(BucketsFor(requested))
      && !(mem.flags && (nBuckets < BucketsFor(requested) ==> mem.keys))
    }

    /** What kh_put asks kh_resize for. */
    function Requested(): nat
      reads this
    {
      if nBuckets > Twice(size) then nBuckets - 1 else nBuckets + 1
    }

    /** kh_put gives up before it looks for the key. */
    ghost predicate Denied(mem: Alloc)
      reads this
    {
      nOccupied >= upperBound && Starved(Requested(), mem)
    }

    /** The abstract set. */
    ghost function Elements(): set<Key>
      reads this, flags, keys
      requires flags.Length == keys.Length
    {
      Contents(flags[..], keys[..])
    }

    constructor (hash: Key -> nat)
      ensures Valid() && Elements() == {} && this.hash == hash && nBuckets == 0
      ensures fresh(flags) && fresh(keys)
    {
      this.hash := hash;
      nBuckets, size, nOccupied, upperBound := 0, 0, 0, 0;
      flags := new Flag[0];
      keys := new Key[0];
      new;
      assert LiveAt(flags[..]) == {} && UsedAt(flags[..]) == {};
    }

    /** The number of buckets kh_resize aims for. */
    static function BucketsFor(requested: nat): (n: nat)
      ensures PowerOfTwo(n) && 4 <= n <= 0x8000_0000
      ensures n == 4 || n < 2 * requested
    {
      assert PowerOfTwo(4);
      var n := RoundUp32(requested);
      if n < 4 then 4 else n
    }

    /** kh_size counts the elements. */
    lemma SizeCounts()
      requires Valid()
      ensures size == |Elements()|
    {
      LiveCounted(flags[..], keys[..]);
    }

    /** kh_get: the bucket of `key`, or nBuckets. */
    method Get(key: Key) returns (x: nat)
      requires Valid()
      ensures key in Elements() ==> x < nBuckets && flags[x] == Live && keys[x] == key
      ensures key !in Elements() ==> x == nBuckets
    {
      if nBuckets == 0 {
        return 0;
      }
      ghost var fs, ks := flags[..], keys[..];
      var h := hash(key);
      var i := h % nBuckets;
      var last, step := i, 0;
      while flags[i] != Empty && (flags[i] == Deleted || keys[i] != key)
        invariant i == Pos(h, step, nBuckets) && last == Pos(h, 0, nBuckets)
        invariant step < 2 * nBuckets - 1
        invariant Missed(fs, ks, h, step, key)
        decreases 2 * nBuckets - step
      {
        NextPos(h, step, nBuckets);
        FirstReturn(h, nBuckets);
        step := step + 1;
        i := (i + step) % nBuckets;
        if i == last {
          StopAtReturn(fs, ks, hash, step, key);
          return nBuckets;
        }
      }
      if flags[i] != Live {
        StopAtEmpty(fs, ks, hash, step, key);
        return nBuckets;
      }
      assert fs[i] == Live && ks[i] == key;
      return i;
    }

    /** kh_del */
    method Del(x: nat)
      requires Valid() && x <= nBuckets
      modifies this`size, flags
      ensures Valid() && nBuckets == old(nBuckets)
      ensures Elements() == if x < nBuckets && old(flags[x]) == Live then old(Elements()) - {old(keys[x])}
        else old(Elements())
    {
      if x != nBuckets && flags[x] == Live {
        ghost var fs := flags[..];
        Removed(fs, keys[..], hash, x);
        assert x in LiveAt(fs);
        flags[x] := Deleted;
        assert flags[..] == fs[x := Deleted];
        size := size - 1;
      }
    }

    /** One turn of the kick-out loop. */
    method PlaceOne(oldFlags: array<Flag>, newFlags: array<Flag>, ks: array<Key>, key: Key, ghost all: set<Key>)
      returns (kicked: bool, resident: Key)
      requires oldFlags != newFlags
      requires Rehash(oldFlags[..], newFlags[..], ks[..], hash, all, {key})
      requires |all| <= newFlags.Length
      modifies oldFlags, newFlags, ks
      ensures Rehash(oldFlags[..], newFlags[..], ks[..], hash, all, if kicked then {resident} else {})
      ensures forall i :: 0 <= i < oldFlags.Length && old(oldFlags[i]) != Live ==> oldFlags[i] != Live
      ensures kicked ==> LiveAt(oldFlags[..]) < old(LiveAt(oldFlags[..]))
    {
      hide *;
      ghost var of, nf, k := oldFlags[..], newFlags[..], ks[..];
      RoomLeft(of, nf, k, hash, all, key);
      var i := FirstEmpty(newFlags, hash(key));
      Turn(of, nf, k, hash, all, i, key);
      newFlags[i] := Live;
      assert newFlags[..] == nf[i := Live];
      kicked := i < oldFlags.Length && oldFlags[i] == Live;
      resident := ks[i];
      ks[i] := key;
      assert ks[..] == k[i := key];
      if kicked {
        oldFlags[i] := Deleted;
        assert oldFlags[..] == of[i := Deleted];
      }
    }

    /** The kick-out loop: place `first`, then whatever it displaces, until nothing is displaced. */
    method PlaceAll(oldFlags: array<Flag>, newFlags: array<Flag>, ks: array<Key>, first: Key, ghost all: set<Key>)
      requires oldFlags != newFlags
      requires Rehash(oldFlags[..], newFlags[..], ks[..], hash, all, {first})
      requires |all| <= newFlags.Length
      modifies oldFlags, newFlags, ks
      ensures Rehash(oldFlags[..], newFlags[..], ks[..], hash, all, {})
      ensures forall i :: 0 <= i < oldFlags.Length && old(oldFlags[i]) != Live ==> oldFlags[i] != Live
    {
      var key, kicked := first, true;
      while kicked
        invariant Rehash(oldFlags[..], newFlags[..], ks[..], hash, all, if kicked then {key} else {})
        invariant forall i :: 0 <= i < oldFlags.Length && old(oldFlags[i]) != Live ==> oldFlags[i] != Live
        decreases kicked, LiveAt(oldFlags[..])
      {
        kicked, key := PlaceOne(oldFlags, newFlags, ks, key, all);
      }
    }

    static method FirstEmpty(flags: array<Flag>, h: nat) returns (i: nat)
      requires PowerOfTwo(flags.Length) && |UsedAt(flags[..])| < flags.Length
      ensures i < flags.Length && flags[i] == Empty && Reach(flags[..], h, i)
    {
      ghost var fs := flags[..];
      ghost var end := EmptyStep(fs, h);
      i := h % flags.Length;
      var step := 0;
      while flags[i] != Empty
        invariant step <= end && i == Pos(h, step, flags.Length)
        invariant ClearTo(fs, h, step)
        decreases end - step
      {
        NextPos(h, step, flags.Length);
        step := step + 1;
        i := (i + step) % flags.Length;
      }
    }

    /** kh_resize */
    method Resize(requested: nat, mem: Alloc) returns (ok: bool)
      requires Valid()
      modifies this, flags, keys
      ensures Valid() && Elements() == old(Elements()) && size == old(size)
      ensures ok == !old(Starved(requested, mem))
      ensures !ok || size >= LoadBound(BucketsFor(requested)) ==>
        flags == old(flags) && keys == old(keys) && nBuckets == old(nBuckets) && nOccupied == old(nOccupied)
      ensures ok && size < LoadBound(BucketsFor(requested)) ==> nBuckets == BucketsFor(requested) && nOccupied == size
      ensures flags == old(flags) || fresh(flags)
      ensures keys == old(keys) || fresh(keys)
    {
      var n := BucketsFor(requested);
      if size >= LoadBound(n) {
        return true;
      }
      if !mem.flags || (nBuckets < n && !mem.keys) {
        return false;
      }
      var newFlags, newKeys := Rebuilt(n);
      flags, keys := newFlags, newKeys;
      nBuckets, nOccupied, upperBound := n, size, LoadBound(n);
      ok := true;
    }

    /** New arrays of n buckets that hold what the old ones held. */
    method Rebuilt(n: nat) returns (newFlags: array<Flag>, newKeys: array<Key>)
      requires Valid() && PowerOfTwo(n) && size < LoadBound(n)
      modifies flags, keys
      ensures fresh(newFlags) && (newKeys == keys || fresh(newKeys))
      ensures newFlags.Length == n == newKeys.Length
      ensures Table(newFlags[..], newKeys[..], hash)
      ensures Contents(newFlags[..], newKeys[..]) == old(Elements())
      ensures |UsedAt(newFlags[..])| == |LiveAt(newFlags[..])| == size
    {
      ghost var all := Elements();
      LiveCounted(flags[..], keys[..]);
      hide Table, Rehash, Contents, LiveAt, UsedAt, PowerOfTwo;
      newFlags := new Flag[n](_ => Empty);
      newKeys := keys;
      if nBuckets < n {
        newKeys := Reallocated(keys, n);
      }
      Begin(flags[..], newFlags[..], keys[..], newKeys[..], hash);
      Rebuild(newFlags, newKeys, all);
      Done(flags[..], newFlags[..], newKeys[..], hash, all);
      if nBuckets > n {
        ghost var ks := newKeys[..];
        newKeys := Reallocated(newKeys, n);
        assert newKeys[..] == ks[..n];
      } else {
        assert newKeys[..] == newKeys[..n];
      }
    }

    /** krealloc of a key array. */
    static method Reallocated(a: array<Key>, n: nat) returns (b: array<Key>)
      ensures fresh(b) && b.Length == n
      ensures forall i :: 0 <= i < n && i < a.Length ==> b[i] == a[i]
    {
      b := new Key[n];
      forall i | 0 <= i < n && i < a.Length {
        b[i] := a[i];
      }
    }

    /** The loop of kh_resize over the old buckets. */
    method Rebuild(newFlags: array<Flag>, ks: array<Key>, ghost all: set<Key>)
      requires flags.Length == nBuckets && flags != newFlags
      requires Rehash(flags[..], newFlags[..], ks[..], hash, all, {})
      requires |all| <= newFlags.Length
      modifies flags, newFlags, ks
      ensures Rehash(flags[..], newFlags[..], ks[..], hash, all, {})
      ensures forall i :: 0 <= i < flags.Length ==> flags[i] != Live
    {
      hide Rehash;
      var j := 0;
      while j != nBuckets
        invariant j <= nBuckets
        invariant Rehash(flags[..], newFlags[..], ks[..], hash, all, {})
        invariant forall i :: 0 <= i < j ==> flags[i] != Live
      {
        if flags[j] == Live {
          Move(flags, newFlags, ks, j, all);
        }
        j := j + 1;
      }
    }

    /** The body of that loop: free bucket j and place its key. */
    method Move(oldFlags: array<Flag>, newFlags: array<Flag>, ks: array<Key>, j: nat, ghost all: set<Key>)
      requires oldFlags != newFlags && j < oldFlags.Length && oldFlags[j] == Live
      requires Rehash(oldFlags[..], newFlags[..], ks[..], hash, all, {})
      requires |all| <= newFlags.Length
      modifies oldFlags, newFlags, ks
      ensures Rehash(oldFlags[..], newFlags[..], ks[..], hash, all, {})
      ensures oldFlags[j] != Live
      ensures forall i :: 0 <= i < oldFlags.Length && old(oldFlags[i]) != Live ==> oldFlags[i] != Live
    {
      ghost var of := oldFlags[..];
      TakeUp(of, newFlags[..], ks[..], hash, all, j);
      assert j < ks.Length;
      hide Rehash;
      oldFlags[j] := Deleted;
      assert oldFlags[..] == of[j := Deleted];
      PlaceAll(oldFlags, newFlags, ks, ks[j], all);
    }

    /** The search loop of kh_put: the bucket that has `key`, or the one it should go to; if every bucket
        has another key, some live bucket. */
    method FindSite(key: Key) returns (x: nat)
      requires Valid() && nBuckets > 0
      ensures x < nBuckets
      ensures key in Elements() ==> flags[x] == Live && keys[x] == key
      ensures key !in Elements() && size < nBuckets ==> flags[x] != Live && Reach(flags[..], hash(key), x)
      ensures key !in Elements() && size == nBuckets ==> flags[x] == Live && keys[x] != key
    {
      ghost var fs, ks := flags[..], keys[..];
      var h := hash(key);
      var i: nat, site: nat := h % nBuckets, nBuckets;
      x := nBuckets;
      ghost var at, end: nat := 0, 0;
      hide LiveAt, UsedAt, Reach, LoadBound, ClearTo, NoneDeleted, Missed;
      assert Searching(fs, ks, h, 0, key, nBuckets, 0);
      assert PowerOfTwo(nBuckets);
      if flags[i] == Empty {
        x := i;
      } else {
        var last, step := i, 0;
        while flags[i] != Empty && (flags[i] == Deleted || keys[i] != key)
          invariant i == Pos(h, step, nBuckets) && last == Pos(h, 0, nBuckets)
          invariant step < 2 * nBuckets - 1 && (step > 0 ==> i != last)
          invariant Searching(fs, ks, h, step, key, site, at)
          invariant x == nBuckets
          decreases 2 * nBuckets - step
        {
          Stepped(fs, ks, h, step, key, site, at, i);
          if flags[i] == Deleted {
            site, at := i, step;
          }
          NextPos(h, step, nBuckets);
          FirstReturn(h, nBuckets);
          step := step + 1;
          i := (i + step) % nBuckets;
          if i == last {
            x := site;
            break;
          }
        }
        end := step;
        if x == nBuckets {
          x := if flags[i] == Empty && site != nBuckets then site else i;
        }
      }
      Searched(fs, ks, key, i, site, at, end, x);
    }

    /** What the bucket chosen is, from what the search knows when it stops at bucket i. */
    lemma Searched(fs: seq<Flag>, ks: seq<Key>, key: Key, i: nat, site: nat, at: nat, end: nat, x: nat)
      requires 0 < |fs| == |ks| && Table(fs, ks, hash)
      requires i == Pos(hash(key), end, |fs|) && Searching(fs, ks, hash(key), end, key, site, at)
      requires fs[i] == Empty || (fs[i] == Live && ks[i] == key) || (end > 0 && i == Pos(hash(key), 0, |fs|))
      requires x == if site != |fs| && (fs[i] == Empty || (end > 0 && i == Pos(hash(key), 0, |fs|))) then site else i
      ensures key in Contents(fs, ks) ==> fs[x] == Live && ks[x] == key
      ensures key !in Contents(fs, ks) && |LiveAt(fs)| < |fs| ==> fs[x] != Live && Reach(fs, hash(key), x)
      ensures key !in Contents(fs, ks) && |LiveAt(fs)| == |fs| ==> fs[x] == Live && ks[x] != key
    {
      var h := hash(key);
      if fs[i] == Empty {
        StopAtEmpty(fs, ks, hash, end, key);
      } else if !(fs[i] == Live && ks[i] == key) {
        StopAtReturn(fs, ks, hash, end, key);
        if site == |fs| {
          AllLive(fs, h, end);
        }
      }
      NotFull(fs, x);
      Reached(fs, h, if x == i then end else at, end);
    }

    lemma FullOrRoom(x: nat)
      requires Valid() && x < nBuckets && (nBuckets < 0x8000_0000 ==> nOccupied + 1 < nBuckets)
      ensures size < nBuckets || Full()
      ensures flags[x] != Live ==> size < nBuckets
    {
      MoreUsedThanLive(flags[..]);
      NotFull(flags[..], x);
    }

    /** The bucket found is a fresh, a reused or the key's own one, or there is none to be had. */
    method Store(x: nat, key: Key) returns (ret: PutResult)
      requires Valid() && nBuckets > 0 && (nBuckets < 0x8000_0000 ==> nOccupied + 1 < nBuckets)
      requires x < nBuckets
      requires key in Elements() ==> flags[x] == Live && keys[x] == key
      requires key !in Elements() && size < nBuckets ==> flags[x] != Live && Reach(flags[..], hash(key), x)
      requires key !in Elements() && size == nBuckets ==> flags[x] == Live && keys[x] != key
      modifies this`size, this`nOccupied, flags, keys
      ensures Valid()
      ensures Elements() == if old(Refuses(key)) then old(Elements()) else old(Elements()) + {key}
      ensures ret == if old(flags[x]) == Live then Present else if old(flags[x]) == Empty then Added else Reused
      ensures ret == Present <==> key in old(Elements()) || old(Refuses(key))
      ensures size == if ret == Present then old(size) else old(size) + 1
      ensures flags[x] == Live && (keys[x] == key <==> !old(Refuses(key)))
    {
      FullOrRoom(x);
      hide Table, LiveAt, UsedAt, Elements, Reach, Valid;
      assert key in Elements() ==> Elements() + {key} == Elements();
      if flags[x] == Live {
        return Present;
      }
      ret := if flags[x] == Empty then Added else Reused;
      Occupy(x, key);
    }

    /** Both arrays and both counters at once. */
    method Occupy(x: nat, key: Key)
      requires Valid() && nBuckets > 0 && (nBuckets < 0x8000_0000 ==> nOccupied + 1 < nBuckets)
      requires x < nBuckets && flags[x] != Live && key !in Elements() && Reach(flags[..], hash(key), x)
      modifies this`size, this`nOccupied, flags, keys
      ensures Valid() && Elements() == old(Elements()) + {key}
      ensures size == old(size) + 1 && flags[x] == Live && keys[x] == key
    {
      ghost var fs, ks := flags[..], keys[..];
      Inserted(fs, ks, hash, x, key);
      NumbersBelow(UsedAt(fs[x := Live]), nBuckets);
      if flags[x] == Empty {
        nOccupied := nOccupied + 1;
      } else {
        assert UsedAt(fs) + {x} == UsedAt(fs) by { assert x in UsedAt(fs); }
      }
      keys[x] := key;
      flags[x] := Live;
      size := size + 1;
      assert flags[..] == fs[x := Live];
      assert keys[..] == ks[x := key];
    }

    /** The resize at the head of kh_put: drop tombstones, or double. */
    method MakeRoom(mem: Alloc) returns (ok: bool)
      requires Valid() && nOccupied >= upperBound
      modifies this, flags, keys
      ensures Valid() && Elements() == old(Elements()) && size == old(size) && Full() == old(Full())
      ensures ok == !old(Denied(mem)) && (!ok ==> nBuckets == old(nBuckets))
      ensures ok ==> nBuckets > 0 && (nBuckets < 0x8000_0000 ==> nOccupied + 1 < nBuckets)
      ensures nBuckets == old(nBuckets) || nBuckets == 4 || nBuckets <= 4 * size
      ensures flags == old(flags) || fresh(flags)
      ensures keys == old(keys) || fresh(keys)
    {
      hide Table, LiveAt, UsedAt, Elements, BucketsFor, PowerOfTwo, LoadBound, Starved, Twice;
      CountsBound();
      RoomMade(nBuckets, size, nOccupied);
      ok := Resize(Requested(), mem);
    }

    lemma CountsBound()
      requires Valid()
      ensures size <= nOccupied <= nBuckets && (nBuckets > 0 ==> PowerOfTwo(nBuckets))
    {
      MoreUsedThanLive(flags[..]);
    }

    /** size << 1, in 32 bits. */
    static function Twice(size: nat): nat {
      (2 * size) % 0x1_0000_0000
    }

    /** If there are few keys, a rehash makes room; otherwise a table of n buckets doubles, if it can. */
    static lemma RoomMade(n: nat, size: nat, occupied: nat)
      requires n == 0 || (PowerOfTwo(n) && 4 <= n <= 0x8000_0000)
      requires size <= occupied <= n && (0 < n < 0x8000_0000 ==> occupied < n)
      requires n > 0 ==> occupied >= LoadBound(n)
      ensures
        var m := BucketsFor(if n > Twice(size) then n - 1 else n + 1);
        if size >= LoadBound(m) then n == 0x8000_0000
        else (m == n || m == 4 || m <= 4 * size) && size + 1 < m && size < 0x8000_0000
    {
      if n > Twice(size) {
        SameBuckets(n);
      } else {
        MoreBuckets(n);
      }
    }

    static lemma SameBuckets(n: nat)
      requires PowerOfTwo(n) && 4 <= n <= 0x8000_0000
      ensures BucketsFor(n - 1) == n
    {
      var r := RoundUp32(n - 1);
      PowersApart(r, n);
      PowersApart(n, r);
    }

    static lemma MoreBuckets(n: nat)
      requires n == 0 || (PowerOfTwo(n) && 4 <= n <= 0x8000_0000)
      ensures BucketsFor(n + 1) == if n == 0 || n == 0x8000_0000 then 4 else 2 * n
    {
      hide PowerOfTwo;
      if 0 < n < 0x8000_0000 {
        var r := RoundUp32(n + 1);
        LargestTable();
        PowersApart(n, 0x8000_0000);
        PowersApart(n, r);
        DoubledPower(n);
        PowersApart(2 * n, r);
        PowersApart(r, 2 * n);
      }
    }

    /** kh_put. A table below 2^31 buckets grows in time; one of 2^31 buckets takes keys, and reuses deleted
        buckets, until every bucket is live. Then an absent key is reported as present in a bucket that has
        another one. If memory is short, nothing changes. */
    method Put(key: Key, mem: Alloc) returns (x: nat, ret: PutResult)
      requires Valid()
      modifies this, flags, keys
      ensures Valid()
      ensures ret == NoMemory <==> old(Denied(mem))
      ensures Elements() == if ret == NoMemory || old(Refuses(key)) then old(Elements()) else old(Elements()) + {key}
      ensures flags == old(flags) || fresh(flags)
      ensures keys == old(keys) || fresh(keys)
      ensures ret == Present <==> !old(Denied(mem)) && (key in old(Elements()) || old(Refuses(key)))
      ensures size == if ret == Present || ret == NoMemory then old(size) else old(size) + 1
      ensures if ret == NoMemory then x == nBuckets == old(nBuckets)
        else x < nBuckets && flags[x] == Live && (keys[x] == key <==> !old(Refuses(key)))
      ensures nBuckets == old(nBuckets) || nBuckets == 4 || nBuckets <= 4 * old(size)
    {
      hide Table, LiveAt, UsedAt, Elements, Reach, BucketsFor, Starved;
      if nOccupied >= upperBound {
        var ok := MakeRoom(mem);
        if !ok {
          return nBuckets, NoMemory;
        }
      }
      x := FindSite(key);
      ret := Store(x, key);
    }

    /** The keys 0 to 2^31 - 1, each in the bucket it hashes to. */
    static method FullOne() returns (t: PtrSet)
      ensures fresh(t) && fresh(t.flags) && fresh(t.keys)
      ensures t.Valid() && t.Full() && 0x8000_0000 !in t.Elements()
    {
      hide PowerOfTwo, Table, Contents, LiveAt, UsedAt;
      var n := 0x8000_0000;
      t := new PtrSet((k: Key) => if k < 0 then 0 else k);
      t.flags := new Flag[n](_ => Live);
      t.keys := new Key[n](i => i);
      t.nBuckets, t.size, t.nOccupied, t.upperBound := n, n, n, LoadBound(n);
      FullTable(t.flags[..], t.keys[..], t.hash);
    }

    /** A key that is not in that table is reported as present, in the bucket of another key. */
    static method Refused() returns (t: PtrSet, x: nat, ret: PutResult)
      ensures t.Valid() && 0x8000_0000 !in t.Elements()
      ensures ret == Present && x < t.nBuckets && t.keys[x] != 0x8000_0000
    {
      t := FullOne();
      hide PtrSet.Valid, PtrSet.Elements;
      x, ret := t.Put(0x8000_0000, Alloc(true, true));
    }
  }
}

/** The packed form of the flags: two bits a bucket, sixteen buckets a word. */
module PackedFlags {
  import opened Remainders
  import opened Probing
  import opened HashTable

  /** The two bits of bucket k of a word. */
  function Field(word: bv32, k: bv32): bv32
    requires k < 16
  {
    (word >> (k << 1)) & 3
  }

  /** i & 0xf, for the bucket with index k of its word. */
  function Slot(k: nat): (r: bv32)
    requires k < 16
    ensures r < 16
  {
    [0, 1, 2, 3, 4, 5, 6, 7, 8, 9, 10, 11, 12, 13, 14, 15][k]
  }

  lemma SlotsApart(j: nat, k: nat)
    requires j < k < 16
    ensures Slot(j) != Slot(k)
  {
  }

  function Bits(f: Flag): bv32 {
    match f
    case Empty => 2
    case Deleted => 1
    case Live => 0
  }

  /** __ac_fsize: the number of words for n buckets. */
  function WordsFor(n: nat): nat {
    if n < 16 then 1 else n / 16
  }

  lemma EnoughWords(n: nat)
    requires PowerOfTwo(n)
    ensures n <= 16 * WordsFor(n)
  {
    if n >= 16 {
      SixteenDivides(n);
    }
  }

  lemma HalfOf(n: nat) returns (half: nat)
    requires PowerOfTwo(n) && n > 1
    ensures n == 2 * half && PowerOfTwo(half)
  {
    half := n / 2;
  }

  lemma SixteenDivides(n: nat)
    requires PowerOfTwo(n) && n >= 16
    ensures n % 16 == 0
  {
    var a := HalfOf(n);
    var b := HalfOf(a);
    var c := HalfOf(b);
    var d := HalfOf(c);
    RemainderUnique(n, 16, d, 0);
  }

  /** The words hold exactly these flags. */
  ghost predicate Packed(words: seq<bv32>, flags: seq<Flag>) {
    |flags| <= 16 * |words| && forall i: nat :: i < |flags| ==> FieldAt(words, i) == Bits(flags[i])
  }

  function FieldAt(words: seq<bv32>, i: nat): bv32
    requires i < 16 * |words|
  {
    Field(words[i / 16], Slot(i % 16))
  }

  /** __ac_isempty, __ac_isdel and __ac_iseither tell the flag. */
  lemma Tested(words: seq<bv32>, flags: seq<Flag>, i: nat)
    requires Packed(words, flags) && i < |flags|
    ensures
      var w := words[i / 16] >> (Slot(i % 16) << 1);
      (w & 2 != 0 <==> flags[i] == Empty) && (w & 1 != 0 <==> flags[i] == Deleted) && (w & 3 == 0 <==> flags[i] == Live)
  {
    var w, f := words[i / 16] >> (Slot(i % 16) << 1), FieldAt(words, i);
    assert f == w & 3 == Bits(flags[i]);
    assert w & 2 == (w & 3) & 2 && w & 1 == (w & 3) & 1;
  }

  /** memset to 0xaa: every bucket is empty. */
  lemma AllEmpty(words: seq<bv32>, n: nat)
    requires n <= 16 * |words| && forall j: nat :: j < |words| ==> words[j] == 0xAAAA_AAAA
    ensures Packed(words, seq(n, _ => Empty))
  {
    forall i: nat | i < n ensures FieldAt(words, i) == 2 {
      EmptyField(Slot(i % 16));
    }
  }

  lemma EmptyField(k: bv32)
    requires k < 16
    ensures Field(0xAAAA_AAAA, k) == 2
  {
  }

  /** __ac_set_isdel_true on a live bucket. */
  lemma SetDeleted(words: seq<bv32>, flags: seq<Flag>, i: nat)
    requires Packed(words, flags) && i < |flags| && flags[i] == Live
    ensures Packed(words[i / 16 := words[i / 16] | (1 << (Slot(i % 16) << 1))], flags[i := Deleted])
  {
    hide Field, Slot, OthersKept;
    var word, k := words[i / 16], Slot(i % 16);
    SetDeletedField(word, k);
    OneChanged(words, flags, i, word | (1 << (k << 1)), Deleted);
  }

  /** __ac_set_isempty_false on an empty bucket. */
  lemma ClearEmpty(words: seq<bv32>, flags: seq<Flag>, i: nat)
    requires Packed(words, flags) && i < |flags| && flags[i] == Empty
    ensures Packed(words[i / 16 := words[i / 16] & !(2 << (Slot(i % 16) << 1))], flags[i := Live])
  {
    hide Field, Slot, OthersKept;
    var word, k := words[i / 16], Slot(i % 16);
    ClearEmptyField(word, k);
    OneChanged(words, flags, i, word & !(2 << (k << 1)), Live);
  }

  /** __ac_set_isboth_false on any bucket. */
  lemma ClearBoth(words: seq<bv32>, flags: seq<Flag>, i: nat)
    requires Packed(words, flags) && i < |flags|
    ensures Packed(words[i / 16 := words[i / 16] & !(3 << (Slot(i % 16) << 1))], flags[i := Live])
  {
    hide Field, Slot, OthersKept;
    var word, k := words[i / 16], Slot(i % 16);
    ClearBothField(word, k);
    OneChanged(words, flags, i, word & !(3 << (k << 1)), Live);
  }

  lemma OneChanged(words: seq<bv32>, flags: seq<Flag>, i: nat, word: bv32, flag: Flag)
    requires Packed(words, flags) && i < |flags|
    requires Field(word, Slot(i % 16)) == Bits(flag) && OthersKept(words[i / 16], word, Slot(i % 16))
    ensures Packed(words[i / 16 := word], flags[i := flag])
  {
    hide Field, Slot;
    var words', flags' := words[i / 16 := word], flags[i := flag];
    forall j: nat | j < |flags| ensures FieldAt(words', j) == Bits(flags'[j]) {
      if j != i && j / 16 == i / 16 {
        if j < i { SlotsApart(j % 16, i % 16); } else { SlotsApart(i % 16, j % 16); }
      }
    }
  }

  // ----- The macros on one word -----

  /** No other bucket of the word is touched. */
  ghost predicate OthersKept(word: bv32, word': bv32, k: bv32) {
    forall j: bv32 | j < 16 && j != k :: Field(word', j) == Field(word, j)
  }

  lemma SetDeletedField(word: bv32, k: bv32)
    requires k < 16 && Field(word, k) == 0
    ensures Field(word | (1 << (k << 1)), k) == 1 && OthersKept(word, word | (1 << (k << 1)), k)
  {
  }

  lemma ClearEmptyField(word: bv32, k: bv32)
    requires k < 16 && Field(word, k) == 2
    ensures Field(word & !(2 << (k << 1)), k) == 0 && OthersKept(word, word & !(2 << (k << 1)), k)
  {
  }

  lemma ClearBothField(word: bv32, k: bv32)
    requires k < 16
    ensures Field(word & !(3 << (k << 1)), k) == 0 && OthersKept(word, word & !(3 << (k << 1)), k)
  {
  }
}
