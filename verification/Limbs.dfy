/** 128-bit products from 32-bit limbs (the portable forms in src/ssrjson.h and src/xxhash.h). */
module Limbs {
  const B: nat := 0x1_0000_0000
  const W: nat := 0x1_0000_0000_0000_0000

  /** A 64-bit result. */
  function U64(x: nat): nat {
    x % W
  }

  lemma Fits(x: nat)
    requires x < W
    ensures U64(x) == x
  {
  }

  lemma Halves(x: nat)
    requires x < W
    ensures x / B < B && x % B < B && x == x / B * B + x % B
  {
  }

  /** The product of two limbs leaves room for two more limbs. */
  lemma LimbProduct(x: nat, y: nat)
    requires x < B && y < B
    ensures x * y + 2 * (B - 1) < W
  {
    Monotone(x, y, B - 1, B - 1);
  }

  lemma Monotone(x: nat, y: nat, x': nat, y': nat)
    requires x <= x' && y <= y'
    ensures x * y <= x' * y'
  {
  }

  lemma SchoolProduct(a1: nat, a0: nat, b1: nat, b0: nat)
    ensures (a1 * B + a0) * (b1 * B + b0) == a1 * b1 * W + (a1 * b0 + a0 * b1) * B + a0 * b0
  {
  }

  /** The four products of the limbs of a and b. */
  lemma Products(a: nat, b: nat, a1: nat, a0: nat, b1: nat, b0: nat)
    requires a < W && b < W && a == a1 * B + a0 && b == b1 * B + b0 && a1 < B && a0 < B && b1 < B && b0 < B
    ensures a0 * b0 + 2 * (B - 1) < W && a0 * b1 + 2 * (B - 1) < W
    ensures a1 * b0 + 2 * (B - 1) < W && a1 * b1 + 2 * (B - 1) < W
    ensures a1 * b1 * W + (a1 * b0 + a0 * b1) * B + a0 * b0 == a * b <= (W - 1) * (W - 1)
  {
    LimbProduct(a0, b0);
    LimbProduct(a0, b1);
    LimbProduct(a1, b0);
    LimbProduct(a1, b1);
    SchoolProduct(a1, a0, b1, b0);
    Monotone(a, b, W - 1, W - 1);
  }

  /** u128_mul without a 128-bit type. */
  method U128Mul(a: nat, b: nat) returns (hi: nat, lo: nat)
    requires a < W && b < W
    ensures hi < W - 1 && lo < W && hi * W + lo == a * b
  {
    var a0, a1, b0, b1 := a % B, a / B, b % B, b / B;
    Halves(a);
    Halves(b);
    Products(a, b, a1, a0, b1, b0);
    hi, lo := AddColumns(a0 * b0, a0 * b1, a1 * b0, a1 * b1);
  }

  method AddColumns(p00: nat, p01: nat, p10: nat, p11: nat) returns (hi: nat, lo: nat)
    requires p00 + 2 * (B - 1) < W && p01 + 2 * (B - 1) < W && p10 + 2 * (B - 1) < W
    requires p11 * W + (p10 + p01) * B + p00 <= (W - 1) * (W - 1)
    ensures hi < W - 1 && lo < W && hi * W + lo == p11 * W + (p10 + p01) * B + p00
  {
    hide U64;
    Halves(p00);
    Fits(p01 + p00 / B);
    var m0 := U64(p01 + p00 / B);
    Halves(m0);
    var m00, m01 := m0 % B, m0 / B;
    Fits(p10 + m00);
    var m1 := U64(p10 + m00);
    Halves(m1);
    var m10, m11 := m1 % B, m1 / B;
    lo := m10 * B + p00 % B;
    Carry(p00 / B, p00 % B, p01, p10, p11, m00, m01, m10, m11);
    Fits(p11 + m01 + m11);
    hi := U64(p11 + m01 + m11);
  }

  /** The sum of the columns. */
  lemma Carry(q: nat, r: nat, p01: nat, p10: nat, p11: nat, m00: nat, m01: nat, m10: nat, m11: nat)
    requires p01 + q == m01 * B + m00 && p10 + m00 == m11 * B + m10
    requires p11 * W + (p10 + p01) * B + (q * B + r) <= (W - 1) * (W - 1)
    ensures (p11 + m01 + m11) * W + (m10 * B + r) == p11 * W + (p10 + p01) * B + (q * B + r)
    ensures p11 + m01 + m11 < W - 1
  {
  }

  /** The wrapped sum is below the summands exactly if it has wrapped. */
  lemma Wrapped(l: nat, c: nat)
    requires l < W && c < W
    ensures U64(l + c) < l || U64(l + c) < c <==> l + c >= W
    ensures U64(l + c) == if l + c >= W then l + c - W else l + c
  {
  }

  /** u128_mul_add: the carry is read off the wrapped sum. */
  method U128MulAdd(a: nat, b: nat, c: nat) returns (hi: nat, lo: nat)
    requires a < W && b < W && c < W
    ensures hi < W && lo < W && hi * W + lo == a * b + c
  {
    hide U64;
    var h, l := U128Mul(a, b);
    Wrapped(l, c);
    var t := U64(l + c);
    Wrapped(h, 1);
    Fits(h);
    h := U64(h + if t < l || t < c then 1 else 0);
    hi, lo := h, t;
  }

  /** XXH_mult64to128, which adds the cross products in another order. */
  method Mult64To128(lhs: nat, rhs: nat) returns (high64: nat, low64: nat)
    requires lhs < W && rhs < W
    ensures high64 < W && low64 < W && high64 * W + low64 == lhs * rhs
  {
    var a0, a1, b0, b1 := lhs % B, lhs / B, rhs % B, rhs / B;
    Halves(lhs);
    Halves(rhs);
    Products(lhs, rhs, a1, a0, b1, b0);
    high64, low64 := AddCross(a0 * b0, a1 * b0, a0 * b1, a1 * b1);
  }

  method AddCross(loLo: nat, hiLo: nat, loHi: nat, hiHi: nat) returns (high64: nat, low64: nat)
    requires loLo + 2 * (B - 1) < W && hiLo + 2 * (B - 1) < W && loHi + 2 * (B - 1) < W
    requires hiHi * W + (hiLo + loHi) * B + loLo <= (W - 1) * (W - 1)
    ensures high64 < W && low64 < W && high64 * W + low64 == hiHi * W + (hiLo + loHi) * B + loLo
  {
    hide U64;
    Halves(loLo);
    Halves(hiLo);
    Fits(loLo / B + hiLo % B + loHi);
    var cross := U64(loLo / B + hiLo % B + loHi);
    Halves(cross);
    low64 := cross % B * B + loLo % B;
    Carry(loLo / B + hiLo % B, loLo % B, loHi, hiLo / B * B, hiHi, cross % B, cross / B, cross % B, hiLo / B);
    Fits(hiLo / B + cross / B + hiHi);
    high64 := U64(hiLo / B + cross / B + hiHi);
  }
}
