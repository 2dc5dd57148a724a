/** Triangular probing over a table whose size is a power of two (src/khash.h). */
module Probing {
  import opened Remainders

  predicate PowerOfTwo(n: nat) {
    n == 1 || (n != 0 && n % 2 == 0 && PowerOfTwo(n / 2))
  }

  /** The sum 1 + 2 + ... + n: how far the probe has moved after n steps. */
  function Triangle(n: nat): nat {
    if n == 0 then 0 else Triangle(n - 1) + n
  }

  /** The bucket looked at by step `n` of the probe that starts at hash `h`. */
  function Pos(h: nat, n: nat, buckets: nat): (i: nat)
    requires buckets > 0
    ensures i < buckets
  {
    (h + Triangle(n)) % buckets
  }

  /** A product that a power of two divides hands the whole power to the even factor. */
  lemma {:induction false} OddFactorDrops(m: nat, x: nat, y: nat, q: nat)
    requires PowerOfTwo(m) && y % 2 == 1
    requires x * y == m * q
    ensures x % m == 0
    decreases m
  {
    if m > 1 {
      var half, k := m / 2, y / 2;
      assert m * q == 2 * (half * q) by { assert m == 2 * half; }
      assert x * y == 2 * (x * k) + x by { assert y == 2 * k + 1; }
      assert x % 2 == 0;
      var x' := x / 2;
      assert x' * y == half * q by { assert x * y == 2 * (x' * y); }
      OddFactorDrops(half, x', y, q);
      DoubleDivides(x', half);
    }
  }

  lemma DoubleDivides(x: nat, m: nat)
    requires m > 0 && x % m == 0
    ensures (2 * x) % (2 * m) == 0
  {
    var q := x / m;
    assert x == m * q;
    assert 2 * x == (2 * m) * q;
    MultipleRemainder(2 * m, q);
  }

  lemma {:induction false} TriangleGap(a: nat, b: nat)
    requires a <= b
    ensures Triangle(a) <= Triangle(b)
    ensures 2 * (Triangle(b) - Triangle(a)) == (b - a) * (a + b + 1)
    decreases b
  {
    if a < b {
      TriangleGap(a, b - 1);
      assert (b - a) * (a + b + 1) == (b - 1 - a) * (a + b) + 2 * b by {
        assert (b - 1 - a) * (a + b) == (b - a) * (a + b) - (a + b);
        assert (b - a) * (a + b + 1) == (b - a) * (a + b) + (b - a);
      }
    }
  }

  lemma EvenFactor(buckets: nat, x: nat, y: nat, q: nat)
    requires PowerOfTwo(buckets) && x % 2 != y % 2
    requires x * y == 2 * (buckets * q)
    ensures x % (2 * buckets) == 0 || y % (2 * buckets) == 0
  {
    var m := 2 * buckets;
    assert m * q == 2 * (buckets * q);
    assert m / 2 == buckets;
    if x % 2 == 1 {
      assert y * x == x * y;
      OddFactorDrops(m, y, x, q);
    } else {
      OddFactorDrops(m, x, y, q);
    }
  }

  /** When two steps meet, 2 * buckets divides the even one of b - a and a + b + 1. */
  lemma MeetingSteps(h: nat, a: nat, b: nat, buckets: nat)
    requires PowerOfTwo(buckets) && a <= b
    requires Pos(h, a, buckets) == Pos(h, b, buckets)
    ensures (b - a) % (2 * buckets) == 0 || (a + b + 1) % (2 * buckets) == 0
  {
    TriangleGap(a, b);
    var q := SameRemainder(h + Triangle(a), h + Triangle(b), buckets);
    EvenFactor(buckets, b - a, a + b + 1, q);
  }

  /** The first `buckets` steps look at pairwise different buckets. */
  lemma StepsDistinct(h: nat, a: nat, b: nat, buckets: nat)
    requires PowerOfTwo(buckets) && a < b < buckets
    ensures Pos(h, a, buckets) != Pos(h, b, buckets)
  {
    if Pos(h, a, buckets) == Pos(h, b, buckets) {
      MeetingSteps(h, a, b, buckets);
      SmallMultiple(b - a, 2 * buckets);
      SmallMultiple(a + b + 1, 2 * buckets);
    }
  }

  /** The probe is back at its first bucket after 2 * buckets - 1 steps and no sooner, so the
      `i == last` exit of a search never fires before every bucket has been looked at. */
  lemma FirstReturn(h: nat, buckets: nat)
    requires PowerOfTwo(buckets)
    ensures Pos(h, 2 * buckets - 1, buckets) == Pos(h, 0, buckets)
    ensures forall n :: 0 < n < 2 * buckets - 1 ==> Pos(h, n, buckets) != Pos(h, 0, buckets)
  {
    var last := 2 * buckets - 1;
    TriangleGap(0, last);
    assert last * (last + 1) == 2 * (buckets * last) by { assert last + 1 == 2 * buckets; }
    assert h + Triangle(last) == h + buckets * last;
    AddMultiple(h, buckets, last);
    forall n | 0 < n < last ensures Pos(h, n, buckets) != Pos(h, 0, buckets) {
      if Pos(h, n, buckets) == Pos(h, 0, buckets) {
        MeetingSteps(h, 0, n, buckets);
        SmallMultiple(n, 2 * buckets);
        SmallMultiple(n + 1, 2 * buckets);
      }
    }
  }

  lemma {:induction false} AddMultiple(x: nat, m: nat, q: nat)
    requires m > 0
    ensures (x + m * q) % m == x % m
  {
    if q > 0 {
      AddMultiple(x, m, q - 1);
      assert x + m * q == (x + m * (q - 1)) + m;
      RemainderAddModulus(x + m * (q - 1), m);
    }
  }

  /** One probe step, as the loops compute it: i = (i + ++step) & mask. */
  lemma NextPos(h: nat, n: nat, buckets: nat)
    requires buckets > 0
    ensures Pos(h, n + 1, buckets) == (Pos(h, n, buckets) + n + 1) % buckets
  {
    var x := h + Triangle(n);
    var q := x / buckets;
    assert x == buckets * q + x % buckets;
    AddMultiple(x % buckets + n + 1, buckets, q);
  }

  lemma {:induction false} NumbersBelow(s: set<nat>, n: nat)
    requires forall x :: x in s ==> x < n
    ensures |s| <= n
    ensures |s| == n ==> forall i: nat :: i < n ==> i in s
  {
    if n == 0 {
      assert s == {};
    } else {
      var rest := s - {n - 1};
      NumbersBelow(rest, n - 1);
      assert n - 1 !in s ==> rest == s;
    }
  }

  /** The buckets seen by the first n steps. */
  function Seen(h: nat, n: nat, buckets: nat): (s: set<nat>)
    requires buckets > 0
  {
    set m: nat | m < n :: Pos(h, m, buckets)
  }

  lemma {:induction false} SeenSize(h: nat, n: nat, buckets: nat)
    requires PowerOfTwo(buckets) && n <= buckets
    ensures |Seen(h, n, buckets)| == n
  {
    if n > 0 {
      SeenSize(h, n - 1, buckets);
      var p := Pos(h, n - 1, buckets);
      assert Seen(h, n, buckets) == Seen(h, n - 1, buckets) + {p};
      if p in Seen(h, n - 1, buckets) {
        var m: nat :| m < n - 1 && Pos(h, m, buckets) == p;
        StepsDistinct(h, m, n - 1, buckets);
      }
    }
  }

  /** Every bucket is looked at by exactly one of the first `buckets` steps. */
  lemma EveryBucketOnce(h: nat, i: nat, buckets: nat) returns (n: nat)
    requires PowerOfTwo(buckets) && i < buckets
    ensures n < buckets && Pos(h, n, buckets) == i
    ensures forall m :: 0 <= m < buckets && Pos(h, m, buckets) == i ==> m == n
  {
    SeenSize(h, buckets, buckets);
    NumbersBelow(Seen(h, buckets, buckets), buckets);
    assert i in Seen(h, buckets, buckets);
    n :| n < buckets && Pos(h, n, buckets) == i;
    forall m | 0 <= m < buckets && Pos(h, m, buckets) == i ensures m == n {
      if m < n { StepsDistinct(h, m, n, buckets); }
      if n < m { StepsDistinct(h, n, m, buckets); }
    }
  }

  lemma SubsetSize<T>(a: set<T>, b: set<T>)
    requires a <= b
    ensures |a| <= |b|
  {
    assert b == a + (b - a);
  }
}
