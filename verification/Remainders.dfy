/** Quotients and remainders. */
module Remainders {

  lemma {:induction false} MultipleRemainder(m: nat, q: nat)
    requires m > 0
    ensures (m * q) % m == 0
  {
    if q > 0 {
      MultipleRemainder(m, q - 1);
      assert m * q == m * (q - 1) + m;
      RemainderAddModulus(m * (q - 1), m);
    }
  }

  lemma RemainderAddModulus(x: nat, m: nat)
    requires m > 0
    ensures (x + m) % m == x % m
  {
    var q, r := x / m, x % m;
    assert x + m == m * (q + 1) + r by { assert x == m * q + r; }
    RemainderUnique(x + m, m, q + 1, r);
  }

  lemma RemainderUnique(x: nat, m: nat, q: nat, r: nat)
    requires m > 0 && r < m && x == m * q + r
    ensures x % m == r && x / m == q
  {
    var q', r' := x / m, x % m;
    assert m * q' + r' == m * q + r;
    if q > q' {
      AtLeastOnce(m, q - q');
    } else if q < q' {
      AtLeastOnce(m, q' - q);
    }
  }

  lemma AtLeastOnce(m: nat, d: nat)
    requires d >= 1
    ensures m * d >= m
  {
  }

  /** Equal remainders differ by a multiple of the modulus. */
  lemma SameRemainder(x: nat, y: nat, m: nat) returns (q: nat)
    requires m > 0 && x <= y && x % m == y % m
    ensures y - x == m * q
  {
    var qx, qy := x / m, y / m;
    assert x == m * qx + x % m && y == m * qy + y % m;
    if qy < qx {
      AtLeastOnce(m, qx - qy);
    }
    q := qy - qx;
    assert m * qy == m * qx + m * q;
  }

  lemma SmallMultiple(x: nat, m: nat)
    requires 0 < x < m
    ensures x % m != 0
  {
  }

  lemma RemainderOfSum(x: nat, y: nat, m: nat)
    requires m > 0
    ensures (x + y % m) % m == (x + y) % m
  {
    Carried(x, y, m, y / m, y % m);
  }

  lemma Carried(x: nat, y: nat, m: nat, q: nat, r: nat)
    requires m > 0 && y == m * q + r
    ensures (x + r) % m == (x + y) % m
  {
    var z := x + r;
    var q', r' := z / m, z % m;
    assert z == m * q' + r';
    Distributes(m, q, q');
    RemainderUnique(x + y, m, q + q', r');
  }

  lemma Distributes(m: nat, a: nat, b: nat)
    ensures m * (a + b) == m * a + m * b
  {
  }
}
