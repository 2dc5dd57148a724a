/** UTF-8: the code point encoders and the checks and conversions of the decoder
    (src/encode/encode_utf8_shared.h, src/decode/decode_shared.h, src/decode/bytes/utf8_shared.h).

    Shifts and masks are written as quotients and remainders; Utf8Bits shows that they are the same. */
module Utf8 {
  import opened Memory

  const MAX_UNICODE: nat := 0x10_FFFF

  predicate Surrogate(c: nat) {
    0xD800 <= c <= 0xDFFF
  }

  /** A Unicode scalar value. */
  predicate Scalar(c: nat) {
    c <= MAX_UNICODE && !Surrogate(c)
  }

  // ----- Section 4 of RFC 3629 -----

  predicate Tail(b: Byte) {
    0x80 <= b <= 0xBF
  }

  predicate Grammar2(b0: Byte, b1: Byte) {
    0xC2 <= b0 <= 0xDF && Tail(b1)
  }

  predicate Grammar3(b0: Byte, b1: Byte, b2: Byte) {
    || (b0 == 0xE0 && 0xA0 <= b1 <= 0xBF && Tail(b2))
    || (0xE1 <= b0 <= 0xEC && Tail(b1) && Tail(b2))
    || (b0 == 0xED && 0x80 <= b1 <= 0x9F && Tail(b2))
    || (0xEE <= b0 <= 0xEF && Tail(b1) && Tail(b2))
  }

  predicate Grammar4(b0: Byte, b1: Byte, b2: Byte, b3: Byte) {
    || (b0 == 0xF0 && 0x90 <= b1 <= 0xBF && Tail(b2) && Tail(b3))
    || (0xF1 <= b0 <= 0xF3 && Tail(b1) && Tail(b2) && Tail(b3))
    || (b0 == 0xF4 && 0x80 <= b1 <= 0x8F && Tail(b2) && Tail(b3))
  }

  /** One UTF8-char. */
  predicate WellFormed(s: seq<Byte>) {
    || (|s| == 1 && s[0] < 0x80)
    || (|s| == 2 && Grammar2(s[0], s[1]))
    || (|s| == 3 && Grammar3(s[0], s[1], s[2]))
    || (|s| == 4 && Grammar4(s[0], s[1], s[2], s[3]))
  }

  // ----- Encoding -----

  /** The bytes written for a code point; a surrogate is refused before this. */
  function CharBytes(c: nat): (s: seq<Byte>)
    requires c <= MAX_UNICODE
    ensures 1 <= |s| <= 4
  {
    if c < 0x80 then [c]
    else if c < 0x800 then [0xC0 + c / 0x40, 0x80 + c % 0x40]
    else if c < 0x1_0000 then [0xE0 + c / 0x1000, 0x80 + c / 0x40 % 0x40, 0x80 + c % 0x40]
    else [0xF0 + c / 0x4_0000, 0x80 + c / 0x1000 % 0x40, 0x80 + c / 0x40 % 0x40, 0x80 + c % 0x40]
  }

  // ----- Decoding -----

  /** utf8_is_seq_2 */
  predicate IsSeq2(b0: Byte, b1: Byte) {
    b0 / 0x20 == 6 && b1 / 0x40 == 2 && b0 % 0x20 / 2 != 0
  }

  /** utf8_is_seq_3: what is masked out is four bits of the lead and one of the second byte. */
  predicate IsSeq3(b0: Byte, b1: Byte, b2: Byte) {
    var low, high := b0 % 0x10, b1 / 0x20 % 2;
    b0 / 0x10 == 14 && b1 / 0x40 == 2 && b2 / 0x40 == 2 && !(low == 0 && high == 0) && !(low == 13 && high == 1)
  }

  /** utf8_is_seq_4: three bits of the lead and two of the second byte. */
  predicate IsSeq4(b0: Byte, b1: Byte, b2: Byte, b3: Byte) {
    var low, high := b0 % 8, b1 / 0x10 % 4;
    && b0 / 8 == 30 && b1 / 0x40 == 2 && b2 / 0x40 == 2 && b3 / 0x40 == 2
    && !(low == 0 && high == 0) && (low / 4 == 0 || (low % 4 == 0 && high == 0))
  }

  /** to_b2_unicode */
  function ToB2(b0: Byte, b1: Byte): nat {
    b0 % 0x20 * 0x40 + b1 % 0x40
  }

  /** to_b3_unicode */
  function ToB3(b0: Byte, b1: Byte, b2: Byte): nat {
    b0 % 0x10 * 0x1000 + b1 % 0x40 * 0x40 + b2 % 0x40
  }

  /** to_b4_unicode */
  function ToB4(b0: Byte, b1: Byte, b2: Byte, b3: Byte): nat {
    b0 % 8 * 0x4_0000 + b1 % 0x40 * 0x1000 + b2 % 0x40 * 0x40 + b3 % 0x40
  }

  /** The masks accept exactly the sequences of the grammar. */
  lemma SeqIsGrammar2(b0: Byte, b1: Byte)
    ensures IsSeq2(b0, b1) <==> Grammar2(b0, b1)
  {
  }

  lemma SeqIsGrammar3(b0: Byte, b1: Byte, b2: Byte)
    ensures IsSeq3(b0, b1, b2) <==> Grammar3(b0, b1, b2)
  {
  }

  lemma SeqIsGrammar4(b0: Byte, b1: Byte, b2: Byte, b3: Byte)
    ensures IsSeq4(b0, b1, b2, b3) <==> Grammar4(b0, b1, b2, b3)
  {
  }

  lemma Quotient12(x: nat)
    ensures x / 0x40 / 0x40 == x / 0x1000
  {
  }

  lemma Quotient18(x: nat)
    ensures x / 0x1000 / 0x40 == x / 0x4_0000
  {
  }

  /** Digits to the base 64 and back. */
  lemma Digits3(b: nat, c: nat, d: nat)
    requires c < 0x40 && d < 0x40
    ensures var x := b * 0x1000 + c * 0x40 + d; x / 0x1000 == b && x / 0x40 == b * 0x40 + c && x % 0x40 == d
  {
  }

  lemma LowDigit(q: nat, d: nat)
    requires d < 0x40
    ensures (q * 0x40 + d) / 0x40 == q && (q * 0x40 + d) % 0x40 == d
  {
  }

  lemma Digits(a: nat, b: nat, c: nat, d: nat)
    requires b < 0x40 && c < 0x40 && d < 0x40
    ensures var x := a * 0x4_0000 + b * 0x1000 + c * 0x40 + d;
      x / 0x4_0000 == a && x / 0x1000 % 0x40 == b && x / 0x40 % 0x40 == c && x % 0x40 == d
  {
    var x := a * 0x4_0000 + b * 0x1000 + c * 0x40 + d;
    Digits3(a * 0x40 + b, c, d);
    Quotient18(x);
    LowDigit(a, b);
    LowDigit(x / 0x1000, c);
  }

  lemma FromDigits(x: nat)
    ensures x == x / 0x4_0000 * 0x4_0000 + x / 0x1000 % 0x40 * 0x1000 + x / 0x40 % 0x40 * 0x40 + x % 0x40
  {
    Quotient12(x);
    Quotient18(x);
    var y, z := x / 0x40, x / 0x1000;
    assert y == 0x40 * z + y % 0x40;
    assert z == 0x40 * (x / 0x4_0000) + z % 0x40;
  }

  /** Decoding a sequence of the grammar gives the one scalar value it encodes. */
  lemma Decoded2(b0: Byte, b1: Byte)
    requires IsSeq2(b0, b1)
    ensures 0x80 <= ToB2(b0, b1) < 0x800 && CharBytes(ToB2(b0, b1)) == [b0, b1]
    ensures ToB2(b0, b1) >= 0x100 <==> b0 >= 0xC4
  {
  }

  lemma Decoded3(b0: Byte, b1: Byte, b2: Byte)
    requires IsSeq3(b0, b1, b2)
    ensures 0x800 <= ToB3(b0, b1, b2) < 0x1_0000 && !Surrogate(ToB3(b0, b1, b2))
    ensures CharBytes(ToB3(b0, b1, b2)) == [b0, b1, b2]
    ensures 0xE0 <= b0 < 0xF0
  {
    Digits3(b0 % 0x10, b1 % 0x40, b2 % 0x40);
    assert b1 / 0x20 % 2 == b1 % 0x40 / 0x20;
  }

  lemma Decoded4(b0: Byte, b1: Byte, b2: Byte, b3: Byte)
    requires IsSeq4(b0, b1, b2, b3)
    ensures 0x1_0000 <= ToB4(b0, b1, b2, b3) <= MAX_UNICODE
    ensures CharBytes(ToB4(b0, b1, b2, b3)) == [b0, b1, b2, b3]
    ensures b0 >= 0xF0
  {
    Digits(b0 % 8, b1 % 0x40, b2 % 0x40, b3 % 0x40);
    assert b1 / 0x10 % 4 == b1 % 0x40 / 0x10;
  }

  /** Encoding a scalar value gives a sequence of the grammar that decodes to it. */
  lemma Encoded2(c: nat)
    requires 0x80 <= c < 0x800
    ensures |CharBytes(c)| == 2 && IsSeq2(CharBytes(c)[0], CharBytes(c)[1])
    ensures ToB2(CharBytes(c)[0], CharBytes(c)[1]) == c
  {
  }

  lemma Encoded3(c: nat)
    requires 0x800 <= c < 0x1_0000 && !Surrogate(c)
    ensures |CharBytes(c)| == 3 && IsSeq3(CharBytes(c)[0], CharBytes(c)[1], CharBytes(c)[2])
    ensures ToB3(CharBytes(c)[0], CharBytes(c)[1], CharBytes(c)[2]) == c
  {
    FromDigits(c);
    assert (0x80 + c / 0x40 % 0x40) / 0x20 % 2 == c / 0x40 % 0x40 / 0x20;
    assert c / 0x40 == c / 0x1000 * 0x40 + c / 0x40 % 0x40;
  }

  lemma Encoded4(c: nat)
    requires 0x1_0000 <= c <= MAX_UNICODE
    ensures |CharBytes(c)| == 4 && IsSeq4(CharBytes(c)[0], CharBytes(c)[1], CharBytes(c)[2], CharBytes(c)[3])
    ensures ToB4(CharBytes(c)[0], CharBytes(c)[1], CharBytes(c)[2], CharBytes(c)[3]) == c
  {
    FromDigits(c);
    assert (0x80 + c / 0x1000 % 0x40) / 0x10 % 4 == c / 0x1000 % 0x40 / 0x10;
    assert c / 0x1000 == c / 0x4_0000 * 0x40 + c / 0x1000 % 0x40;
  }

  /** A surrogate is exactly what the grammar has no sequence for. */
  lemma GrammarIsScalar(c: nat)
    requires c <= MAX_UNICODE
    ensures WellFormed(CharBytes(c)) <==> Scalar(c)
  {
    if 0x80 <= c < 0x800 {
      Encoded2(c);
      SeqIsGrammar2(CharBytes(c)[0], CharBytes(c)[1]);
    } else if 0x800 <= c < 0x1_0000 {
      if Surrogate(c) {
        assert CharBytes(c)[0] == 0xED && CharBytes(c)[1] >= 0xA0;
      } else {
        Encoded3(c);
        SeqIsGrammar3(CharBytes(c)[0], CharBytes(c)[1], CharBytes(c)[2]);
      }
    } else if 0x1_0000 <= c {
      Encoded4(c);
      SeqIsGrammar4(CharBytes(c)[0], CharBytes(c)[1], CharBytes(c)[2], CharBytes(c)[3]);
    }
  }
}

/** The shifts and masks of the macros on a little-endian 32-bit load, as numbers. */
module Utf8Bits {
  import opened Memory
  import Utf8

  function Byte0(w: bv32): bv8 { (w & 0xFF) as bv8 }
  function Byte1(w: bv32): bv8 { ((w >> 8) & 0xFF) as bv8 }
  function Byte2(w: bv32): bv8 { ((w >> 16) & 0xFF) as bv8 }
  function Byte3(w: bv32): bv8 { ((w >> 24) & 0xFF) as bv8 }

  /** The number a byte is. */
  function Num(b: bv8): (n: Byte) { b as nat }

  /** The number a word is: that of its bytes in memory, least significant first. */
  function Value(w: bv32): nat {
    Join4(Num(Byte0(w)), Num(Byte1(w)), Num(Byte2(w)), Num(Byte3(w)))
  }

  lemma Seq2(uni: bv32)
    ensures (uni & 0xC0E0) == 0x80C0 && (uni & 0x1E) != 0 <==> Utf8.IsSeq2(Num(Byte0(uni)), Num(Byte1(uni)))
  {
    var b0, b1 := Byte0(uni), Byte1(uni);
    assert (uni & 0xC0E0) == 0x80C0 <==> b0 & 0xE0 == 0xC0 && b1 & 0xC0 == 0x80;
    assert uni & 0x1E != 0 <==> b0 & 0x1E != 0;
  }

  lemma Seq3(uni: bv32)
    ensures var tmp := uni & 0x200F;
      (uni & 0xC0C0F0) == 0x8080E0 && tmp != 0 && tmp != 0x200D
      <==> Utf8.IsSeq3(Num(Byte0(uni)), Num(Byte1(uni)), Num(Byte2(uni)))
  {
    hide Num, Byte0, Byte1, Byte2, Byte3;
    Masks3(uni);
    Lead3(Byte0(uni), Byte1(uni));
    Tail4(Byte1(uni));
    Tail4(Byte2(uni));
  }

  lemma Masks3(uni: bv32)
    ensures (uni & 0xC0C0F0) == 0x8080E0
      <==> Byte0(uni) & 0xF0 == 0xE0 && Byte1(uni) & 0xC0 == 0x80 && Byte2(uni) & 0xC0 == 0x80
    ensures uni & 0x200F == 0 <==> Byte0(uni) & 0xF == 0 && Byte1(uni) & 0x20 == 0
    ensures uni & 0x200F == 0x200D <==> Byte0(uni) & 0xF == 0xD && Byte1(uni) & 0x20 == 0x20
  {
  }

  lemma Lead3(b0: bv8, b1: bv8)
    ensures b0 & 0xF0 == 0xE0 <==> Num(b0) / 0x10 == 14
    ensures b0 & 0xF == 0 <==> Num(b0) % 0x10 == 0
    ensures b0 & 0xF == 0xD <==> Num(b0) % 0x10 == 13
    ensures b1 & 0x20 == 0 <==> Num(b1) / 0x20 % 2 == 0
    ensures b1 & 0x20 == 0x20 <==> Num(b1) / 0x20 % 2 == 1
  {
  }

  lemma Seq4(uni: bv32)
    ensures var tmp := uni & 0x3007;
      (uni & 0xC0C0C0F8) == 0x808080F0 && tmp != 0 && ((tmp & 4) == 0 || (tmp & 0x3003) == 0)
      <==> Utf8.IsSeq4(Num(Byte0(uni)), Num(Byte1(uni)), Num(Byte2(uni)), Num(Byte3(uni)))
  {
    hide Num, Byte0, Byte1, Byte2, Byte3;
    Masks4(uni);
    Lead4(Byte0(uni), Byte1(uni));
    Limit4(Byte0(uni));
    LimitLow4(Byte0(uni));
    Tail4(Byte1(uni));
    Tail4(Byte2(uni));
    Tail4(Byte3(uni));
  }

  lemma Masks4(uni: bv32)
    ensures (uni & 0xC0C0C0F8) == 0x808080F0
      <==> (Byte0(uni) & 0xF8 == 0xF0 && Byte1(uni) & 0xC0 == 0x80 && Byte2(uni) & 0xC0 == 0x80
        && Byte3(uni) & 0xC0 == 0x80)
    ensures uni & 0x3007 == 0 <==> Byte0(uni) & 7 == 0 && Byte1(uni) & 0x30 == 0
    ensures (uni & 0x3007) & 4 == 0 <==> Byte0(uni) & 4 == 0
    ensures (uni & 0x3007) & 0x3003 == 0 <==> Byte0(uni) & 3 == 0 && Byte1(uni) & 0x30 == 0
  {
  }

  lemma Lead4(b0: bv8, b1: bv8)
    ensures b0 & 0xF8 == 0xF0 <==> Num(b0) / 8 == 30
    ensures b0 & 7 == 0 <==> Num(b0) % 8 == 0
    ensures b1 & 0x30 == 0 <==> Num(b1) / 0x10 % 4 == 0
  {
  }

  lemma Limit4(b0: bv8)
    ensures b0 & 4 == 0 <==> Num(b0) % 8 / 4 == 0
  {
  }

  lemma LimitLow4(b0: bv8)
    ensures b0 & 3 == 0 <==> Num(b0) % 8 % 4 == 0
  {
  }

  lemma Tail4(b: bv8)
    ensures b & 0xC0 == 0x80 <==> Num(b) / 0x40 == 2
  {
  }

  // ----- Single bytes -----

  lemma Disjoint4(u: bv8, v: bv8)
    requires u & 0xF0 == 0 && v & 0xF == 0
    ensures Num(u | v) == Num(u) + Num(v)
  {
  }

  lemma Disjoint6(u: bv8, v: bv8)
    requires u & 0xC0 == 0 && v & 0x3F == 0
    ensures Num(u | v) == Num(u) + Num(v)
  {
  }

  lemma Disjoint2(u: bv8, v: bv8)
    requires u & 0xFC == 0 && v & 3 == 0
    ensures Num(u | v) == Num(u) + Num(v)
  {
  }

  lemma Low(x: bv8)
    ensures Num(x & 0x3F) == Num(x) % 0x40
    ensures Num((x & 0x3F) >> 2) == Num(x) % 0x40 / 4
    ensures Num((x & 0x3F) >> 4) == Num(x) % 0x40 / 0x10
  {
    hide Num;
    Masked6(x);
    Quarter(x & 0x3F);
    Sixteenth(x & 0x3F);
  }

  lemma Masked6(x: bv8)
    ensures Num(x & 0x3F) == Num(x) % 0x40
  {
  }

  lemma Quarter(x: bv8)
    ensures Num(x >> 2) == Num(x) / 4
  {
  }

  lemma Sixteenth(x: bv8)
    ensures Num(x >> 4) == Num(x) / 0x10
  {
  }

  lemma High(x: bv8)
    ensures Num(x << 6) == Num(x) % 4 * 0x40
    ensures Num(x << 4) == Num(x) % 0x10 * 0x10
  {
    hide Num;
    HighBits6(x);
    HighBits4(x);
  }

  lemma HighBits6(x: bv8)
    ensures Num(x << 6) == Num(x) % 4 * 0x40
  {
  }

  lemma HighBits4(x: bv8)
    ensures Num(x << 4) == Num(x) % 0x10 * 0x10
  {
  }

  lemma Masked5(x: bv8)
    ensures Num(x & 0x1F) == Num(x) % 0x20
  {
  }

  lemma Masked3(x: bv8)
    ensures Num(x & 7) == Num(x) % 8 && x & 7 < 8
  {
  }

  lemma Fourfold(x: bv8)
    requires x < 8
    ensures Num(x << 2) == Num(x) * 4
  {
  }

  lemma Low5(x: bv8)
    ensures Num((x & 0x1F) >> 2) == Num(x) % 0x20 / 4
  {
    hide Num;
    Masked5(x);
    Quarter(x & 0x1F);
  }

  lemma Low3(x: bv8)
    ensures Num((x & 7) << 2) == Num(x) % 8 * 4
  {
    hide Num;
    Masked3(x);
    Fourfold(x & 7);
  }

  lemma Zero()
    ensures Num(0) == 0
  {
  }

  /** to_b2_unicode */
  lemma ToB2(uni: bv32)
    ensures Value(((uni & 0x1F) << 6) | ((uni & 0x3F00) >> 8)) == Utf8.ToB2(Num(Byte0(uni)), Num(Byte1(uni)))
  {
    hide Num, Byte0, Byte1, Byte2, Byte3;
    var r := ((uni & 0x1F) << 6) | ((uni & 0x3F00) >> 8);
    var b0, b1 := Byte0(uni), Byte1(uni);
    Bytes2(uni);
    Disjoint6(b1 & 0x3F, b0 << 6);
    Low5(b0);
    High(b0);
    Low(b1);
    Zero();
    Sum2(Num(b0), Num(b1));
  }

  lemma Bytes2(uni: bv32)
    ensures var r := ((uni & 0x1F) << 6) | ((uni & 0x3F00) >> 8); var b0, b1 := Byte0(uni), Byte1(uni);
      Byte0(r) == (b1 & 0x3F) | (b0 << 6) && Byte1(r) == (b0 & 0x1F) >> 2 && Byte2(r) == 0 && Byte3(r) == 0
  {
  }

  lemma Sum2(x0: Byte, x1: Byte)
    ensures Join4(x1 % 0x40 + x0 % 4 * 0x40, x0 % 0x20 / 4, 0, 0) == x0 % 0x20 * 0x40 + x1 % 0x40
  {
    Nested5(x0);
    Places2(x0 % 0x20, x1 % 0x40);
  }

  lemma Nested5(x: Byte)
    ensures x % 4 == x % 0x20 % 4
  {
    assert x == x / 0x20 * 0x20 + x % 0x20;
  }

  lemma Places2(d0: nat, d1: nat)
    ensures Join4(d1 + d0 % 4 * 0x40, d0 / 4, 0, 0) == d0 * 0x40 + d1
  {
  }

  lemma ToB3(uni: bv32)
    ensures Value(((uni & 0xF) << 12) | ((uni & 0x3F00) >> 2) | ((uni & 0x3F_0000) >> 16))
      == Utf8.ToB3(Num(Byte0(uni)), Num(Byte1(uni)), Num(Byte2(uni)))
  {
    hide Num, Byte0, Byte1, Byte2, Byte3;
    var b0, b1, b2 := Byte0(uni), Byte1(uni), Byte2(uni);
    Bytes3(uni);
    Disjoint6(b2 & 0x3F, b1 << 6);
    Disjoint4((b1 & 0x3F) >> 2, b0 << 4);
    High(b0);
    High(b1);
    Low(b1);
    Low(b2);
    Zero();
    Sum3(Num(b0), Num(b1), Num(b2));
  }

  lemma Bytes3(uni: bv32)
    ensures var r := ((uni & 0xF) << 12) | ((uni & 0x3F00) >> 2) | ((uni & 0x3F_0000) >> 16);
      var b0, b1, b2 := Byte0(uni), Byte1(uni), Byte2(uni);
      Byte0(r) == (b2 & 0x3F) | (b1 << 6) && Byte1(r) == ((b1 & 0x3F) >> 2) | (b0 << 4) && Byte2(r) == 0
        && Byte3(r) == 0
  {
  }

  lemma Sum3(x0: Byte, x1: Byte, x2: Byte)
    ensures Join4(x2 % 0x40 + x1 % 4 * 0x40, x1 % 0x40 / 4 + x0 % 0x10 * 0x10, 0, 0)
      == x0 % 0x10 * 0x1000 + x1 % 0x40 * 0x40 + x2 % 0x40
  {
    Nested(x1);
  }

  lemma Nested(x: Byte)
    ensures x % 4 == x % 0x40 % 4 && x % 0x10 == x % 0x40 % 0x10
  {
    assert x == x / 0x40 * 0x40 + x % 0x40;
  }

  lemma ToB4(uni: bv32)
    ensures Value(((uni & 7) << 18) | ((uni & 0x3F00) << 4) | ((uni & 0x3F_0000) >> 10) | ((uni & 0x3F00_0000) >> 24))
      == Utf8.ToB4(Num(Byte0(uni)), Num(Byte1(uni)), Num(Byte2(uni)), Num(Byte3(uni)))
  {
    hide Num, Byte0, Byte1, Byte2, Byte3;
    var b0, b1, b2, b3 := Byte0(uni), Byte1(uni), Byte2(uni), Byte3(uni);
    Bytes4(uni);
    Disjoint6(b3 & 0x3F, b2 << 6);
    Disjoint4((b2 & 0x3F) >> 2, b1 << 4);
    Disjoint2((b1 & 0x3F) >> 4, (b0 & 7) << 2);
    Low3(b0);
    High(b1);
    Low(b1);
    High(b2);
    Low(b2);
    Low(b3);
    Zero();
    Sum4(Num(b0), Num(b1), Num(b2), Num(b3));
  }

  lemma Bytes4(uni: bv32)
    ensures
      var r := ((uni & 7) << 18) | ((uni & 0x3F00) << 4) | ((uni & 0x3F_0000) >> 10) | ((uni & 0x3F00_0000) >> 24);
      var b0, b1, b2, b3 := Byte0(uni), Byte1(uni), Byte2(uni), Byte3(uni);
      Byte0(r) == (b3 & 0x3F) | (b2 << 6) && Byte1(r) == ((b2 & 0x3F) >> 2) | (b1 << 4)
      && Byte2(r) == ((b1 & 0x3F) >> 4) | ((b0 & 7) << 2) && Byte3(r) == 0
  {
  }

  lemma Sum4(x0: Byte, x1: Byte, x2: Byte, x3: Byte)
    ensures Join4(x3 % 0x40 + x2 % 4 * 0x40, x2 % 0x40 / 4 + x1 % 0x10 * 0x10, x1 % 0x40 / 0x10 + x0 % 8 * 4, 0)
      == x0 % 8 * 0x4_0000 + x1 % 0x40 * 0x1000 + x2 % 0x40 * 0x40 + x3 % 0x40
  {
    Nested(x1);
    Nested(x2);
    Places(x0 % 8, x1 % 0x40, x2 % 0x40, x3 % 0x40);
  }

  lemma Places(d0: nat, d1: nat, d2: nat, d3: nat)
    ensures Join4(d3 + d2 % 4 * 0x40, d2 / 4 + d1 % 0x10 * 0x10, d1 / 0x10 + d0 * 4, 0)
      == d0 * 0x4_0000 + d1 * 0x1000 + d2 * 0x40 + d3
  {
  }

  // ----- Writing: encode_one_ucs4 -----

  /** What is stored of a word in one byte. */
  function Stored(w: bv32): Byte {
    Num(Byte0(w))
  }

  lemma Put2(c: bv32)
    requires 0x80 <= c < 0x800
    ensures 0x80 <= Value(c) < 0x800
    ensures Utf8.CharBytes(Value(c)) == [Stored((c >> 6) | 0xC0), Stored((c & 0x3F) | 0x80)]
  {
    hide Num, Byte0, Byte1, Byte2, Byte3, Utf8.CharBytes;
    var c0, c1 := Byte0(c), Byte1(c);
    Stored2(c);
    Small(c);
    First2(c0, c1);
    Last(c0);
    Zero();
    Chars2(Num(c0), Num(c1));
  }

  lemma Small(c: bv32)
    requires 0x80 <= c < 0x800
    ensures Byte2(c) == 0 == Byte3(c) && Num(Byte1(c)) < 8 && (Num(Byte1(c)) > 0 || Num(Byte0(c)) >= 0x80)
  {
  }

  lemma Stored2(c: bv32)
    requires c < 0x800
    ensures Byte0((c >> 6) | 0xC0) == (Byte0(c) >> 6) | (Byte1(c) << 2) | 0xC0 && Byte1(c) < 8
    ensures Byte0((c & 0x3F) | 0x80) == (Byte0(c) & 0x3F) | 0x80
  {
  }

  lemma First2(c0: bv8, c1: bv8)
    requires c1 < 8
    ensures Num((c0 >> 6) | (c1 << 2) | 0xC0) == 0xC0 + Num(c1) * 4 + Num(c0) / 0x40
  {
    Disjoint2(c0 >> 6, (c1 << 2) | 0xC0);
    assert (c0 >> 6) | (c1 << 2) | 0xC0 == (c0 >> 6) | ((c1 << 2) | 0xC0);
    First2Parts(c0, c1);
  }

  lemma First2Parts(c0: bv8, c1: bv8)
    requires c1 < 8
    ensures Num(c0 >> 6) == Num(c0) / 0x40 && Num((c1 << 2) | 0xC0) == 0xC0 + Num(c1) * 4
  {
  }

  lemma Last(c0: bv8)
    ensures Num((c0 & 0x3F) | 0x80) == 0x80 + Num(c0) % 0x40
  {
  }

  lemma Chars2(x0: Byte, x1: Byte)
    requires x1 < 8 && (x1 > 0 || x0 >= 0x80)
    ensures 0x80 <= Join4(x0, x1, 0, 0) < 0x800
    ensures Utf8.CharBytes(Join4(x0, x1, 0, 0)) == [0xC0 + x1 * 4 + x0 / 0x40, 0x80 + x0 % 0x40]
  {
  }

  lemma Put3(c: bv32)
    requires 0x800 <= c < 0x1_0000
    ensures 0x800 <= Value(c) < 0x1_0000
    ensures Utf8.CharBytes(Value(c))
      == [Stored((c >> 12) | 0xE0), Stored(((c & 0xFC0) >> 6) | 0x80), Stored((c & 0x3F) | 0x80)]
  {
    hide Value, Num, Byte0, Byte1, Byte2, Byte3, Stored, Utf8.CharBytes;
    Small3(c);
    Numbers3(c);
    Value4(c);
    Zero();
    Chars3(Num(Byte0(c)), Num(Byte1(c)));
  }

  lemma Small3(c: bv32)
    requires 0x800 <= c < 0x1_0000
    ensures Byte2(c) == 0 == Byte3(c) && Num(Byte1(c)) >= 8
  {
  }

  lemma Numbers3(c: bv32)
    requires 0x800 <= c < 0x1_0000
    ensures Stored((c >> 12) | 0xE0) == 0xE0 + Num(Byte1(c)) / 0x10
    ensures Stored(((c & 0xFC0) >> 6) | 0x80) == 0x80 + Num(Byte1(c)) % 0x10 * 4 + Num(Byte0(c)) / 0x40
    ensures Stored((c & 0x3F) | 0x80) == 0x80 + Num(Byte0(c)) % 0x40
  {
    hide Num, Byte0, Byte1, Byte2, Byte3;
    var c0, c1 := Byte0(c), Byte1(c);
    Stored3(c);
    Middle(c0, c1);
    First3(c1);
    Last(c0);
  }

  lemma Stored3(c: bv32)
    requires 0x800 <= c < 0x1_0000
    ensures Byte0((c >> 12) | 0xE0) == (Byte1(c) >> 4) | 0xE0
    ensures Byte0(((c & 0xFC0) >> 6) | 0x80) == (Byte0(c) >> 6) | (((Byte1(c) & 0xF) << 2) | 0x80)
    ensures Byte0((c & 0x3F) | 0x80) == (Byte0(c) & 0x3F) | 0x80
  {
  }

  lemma Middle(c0: bv8, c1: bv8)
    ensures Num((c0 >> 6) | (((c1 & 0xF) << 2) | 0x80)) == 0x80 + Num(c1) % 0x10 * 4 + Num(c0) / 0x40
  {
    Disjoint2(c0 >> 6, ((c1 & 0xF) << 2) | 0x80);
    MiddleParts(c0, c1);
  }

  lemma MiddleParts(c0: bv8, c1: bv8)
    ensures Num(c0 >> 6) == Num(c0) / 0x40 && Num(((c1 & 0xF) << 2) | 0x80) == 0x80 + Num(c1) % 0x10 * 4
  {
  }

  lemma First3(c1: bv8)
    ensures Num((c1 >> 4) | 0xE0) == 0xE0 + Num(c1) / 0x10
  {
  }

  lemma Chars3(x0: Byte, x1: Byte)
    requires x1 >= 8
    ensures 0x800 <= Join4(x0, x1, 0, 0) < 0x1_0000
    ensures Utf8.CharBytes(Join4(x0, x1, 0, 0))
      == [0xE0 + x1 / 0x10, 0x80 + x1 % 0x10 * 4 + x0 / 0x40, 0x80 + x0 % 0x40]
  {
    var x := Join4(x0, x1, 0, 0);
    assert x / 0x40 == x1 * 4 + x0 / 0x40;
    Utf8.Quotient12(x);
    assert x / 0x40 / 0x40 == x1 / 0x10;
  }

  lemma Put4(c: bv32)
    requires 0x1_0000 <= c <= 0x10_FFFF
    ensures 0x1_0000 <= Value(c) <= 0x10_FFFF
    ensures Utf8.CharBytes(Value(c)) == [Stored((c >> 18) | 0xF0), Stored(((c >> 12) & 0x3F) | 0x80),
      Stored(((c >> 6) & 0x3F) | 0x80), Stored((c & 0x3F) | 0x80)]
  {
    hide Value, Num, Byte0, Byte1, Byte2, Byte3, Stored, Utf8.CharBytes;
    Small4(c);
    Numbers4(c);
    Value4(c);
    Chars4(Num(Byte0(c)), Num(Byte1(c)), Num(Byte2(c)));
  }

  lemma Value4(c: bv32)
    requires Byte3(c) == 0
    ensures Value(c) == Join4(Num(Byte0(c)), Num(Byte1(c)), Num(Byte2(c)), 0)
  {
    hide Num, Byte0, Byte1, Byte2, Byte3;
    Zero();
  }

  lemma Numbers4(c: bv32)
    requires 0x1_0000 <= c <= 0x10_FFFF
    ensures Stored((c >> 18) | 0xF0) == 0xF0 + Num(Byte2(c)) / 4
    ensures Stored(((c >> 12) & 0x3F) | 0x80) == 0x80 + Num(Byte2(c)) % 4 * 0x10 + Num(Byte1(c)) / 0x10
    ensures Stored(((c >> 6) & 0x3F) | 0x80) == 0x80 + Num(Byte1(c)) % 0x10 * 4 + Num(Byte0(c)) / 0x40
    ensures Stored((c & 0x3F) | 0x80) == 0x80 + Num(Byte0(c)) % 0x40
  {
    hide Num, Byte0, Byte1, Byte2, Byte3;
    var c0, c1, c2 := Byte0(c), Byte1(c), Byte2(c);
    Small4(c);
    Stored4(c);
    First4(c2);
    Second(c1, c2);
    Middle(c0, c1);
    Last(c0);
  }

  lemma Stored4(c: bv32)
    requires 0x1_0000 <= c <= 0x10_FFFF
    ensures Byte0((c >> 18) | 0xF0) == (Byte2(c) >> 2) | 0xF0
    ensures Byte0(((c >> 12) & 0x3F) | 0x80) == (Byte1(c) >> 4) | (((Byte2(c) & 3) << 4) | 0x80)
    ensures Byte0(((c >> 6) & 0x3F) | 0x80) == (Byte0(c) >> 6) | (((Byte1(c) & 0xF) << 2) | 0x80)
    ensures Byte0((c & 0x3F) | 0x80) == (Byte0(c) & 0x3F) | 0x80
  {
  }

  lemma Small4(c: bv32)
    requires 0x1_0000 <= c <= 0x10_FFFF
    ensures Byte3(c) == 0 && 1 <= Num(Byte2(c)) <= 0x10
  {
  }

  lemma First4(c2: bv8)
    requires Num(c2) <= 0x10
    ensures Num((c2 >> 2) | 0xF0) == 0xF0 + Num(c2) / 4
  {
  }

  lemma Second(c1: bv8, c2: bv8)
    ensures Num((c1 >> 4) | (((c2 & 3) << 4) | 0x80)) == 0x80 + Num(c2) % 4 * 0x10 + Num(c1) / 0x10
  {
    Disjoint4(c1 >> 4, ((c2 & 3) << 4) | 0x80);
    SecondParts(c1, c2);
  }

  lemma SecondParts(c1: bv8, c2: bv8)
    ensures Num(c1 >> 4) == Num(c1) / 0x10 && Num(((c2 & 3) << 4) | 0x80) == 0x80 + Num(c2) % 4 * 0x10
  {
  }

  lemma Chars4(x0: Byte, x1: Byte, x2: Byte)
    requires 1 <= x2 <= 0x10
    ensures 0x1_0000 <= Join4(x0, x1, x2, 0) <= 0x10_FFFF
    ensures Utf8.CharBytes(Join4(x0, x1, x2, 0))
      == [0xF0 + x2 / 4, 0x80 + x2 % 4 * 0x10 + x1 / 0x10, 0x80 + x1 % 0x10 * 4 + x0 / 0x40, 0x80 + x0 % 0x40]
  {
    Quotients4(x0, x1, x2);
  }

  lemma Quotients4(x0: Byte, x1: Byte, x2: Byte)
    ensures var x := Join4(x0, x1, x2, 0);
      && x / 0x4_0000 == x2 / 4 && x / 0x1000 % 0x40 == x2 % 4 * 0x10 + x1 / 0x10
      && x / 0x40 % 0x40 == x1 % 0x10 * 4 + x0 / 0x40 && x % 0x40 == x0 % 0x40
  {
    var x := Join4(x0, x1, x2, 0);
    Utf8.Digits(x2 / 4, x2 % 4 * 0x10 + x1 / 0x10, x1 % 0x10 * 4 + x0 / 0x40, x0 % 0x40);
    assert x == x2 / 4 * 0x4_0000 + (x2 % 4 * 0x10 + x1 / 0x10) * 0x1000 + (x1 % 0x10 * 4 + x0 / 0x40) * 0x40
      + x0 % 0x40;
  }

  // ----- Loads -----

  /** A word loaded from memory has the bytes that stand there. */
  lemma Loaded(m: seq<Byte>, at: nat, w: bv32)
    requires at + 4 <= |m| && Value(w) == Load(m, at, 4)
    ensures Num(Byte0(w)) == m[at] && Num(Byte1(w)) == m[at + 1]
    ensures Num(Byte2(w)) == m[at + 2] && Num(Byte3(w)) == m[at + 3]
  {
    hide Num, Byte0, Byte1, Byte2, Byte3;
    JoinUnique(Num(Byte0(w)), Num(Byte1(w)), Num(Byte2(w)), Num(Byte3(w)), m[at], m[at + 1], m[at + 2], m[at + 3]);
  }
}
