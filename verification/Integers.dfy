/** Printing integers: divisions by multiplication, two digits at a time, and a leading zero that is written over
    (src/encode/encode_shared.h). */
module Integers {
  import opened Remainders
  import opened Memory

  // ----- Decimal numerals -----

  /** The numeral of n, without leading zeros. */
  function Decimal(n: nat): (s: seq<Byte>)
    ensures |s| >= 1 && forall i :: 0 <= i < |s| ==> 48 <= s[i] <= 57
  {
    if n < 10 then [48 + n] else Decimal(n / 10) + [48 + n % 10]
  }

  /** The last k digits of n. */
  function Padded(n: nat, k: nat): (s: seq<Byte>)
    ensures |s| == k && forall i :: 0 <= i < |s| ==> 48 <= s[i] <= 57
  {
    if k == 0 then [] else Padded(n / 10, k - 1) + [48 + n % 10]
  }

  function Power10(k: nat): (p: nat)
    ensures p > 0
  {
    if k == 0 then 1 else 10 * Power10(k - 1)
  }

  function NumberOf(s: seq<nat>): int {
    if s == [] then 0 else 10 * NumberOf(s[..|s| - 1]) + (s[|s| - 1] as int - 48)
  }

  /** The numeral is the one whose value is n and that does not begin with a zero, unless it is "0". */
  lemma {:induction false} DecimalValue(n: nat)
    ensures NumberOf(Decimal(n)) == n && (n > 0 ==> Decimal(n)[0] != 48)
  {
    if n >= 10 {
      DecimalValue(n / 10);
      var s := Decimal(n);
      assert s[..|s| - 1] == Decimal(n / 10);
    } else {
      assert Decimal(n)[..0] == [];
    }
  }

  lemma {:induction false} DecimalLength(n: nat, k: nat)
    requires n < Power10(k) && k > 0
    ensures |Decimal(n)| <= k
  {
    if n >= 10 {
      DecimalLength(n / 10, k - 1);
    }
  }

  /** A numeral in two parts, the second of k digits. */
  lemma {:induction false} DecimalSplit(h: nat, l: nat, k: nat)
    requires h > 0 && l < Power10(k)
    ensures Decimal(h * Power10(k) + l) == Decimal(h) + Padded(l, k)
  {
    if k > 0 {
      LastDigit(h, l, Power10(k - 1));
      DecimalSplit(h, l / 10, k - 1);
    }
  }

  lemma LastDigit(h: nat, l: nat, p: nat)
    requires h > 0 && p > 0
    ensures (h * (10 * p) + l) / 10 == h * p + l / 10 && (h * (10 * p) + l) % 10 == l % 10
    ensures h * (10 * p) + l >= 10
  {
    assert h * (10 * p) == 10 * (h * p);
    AtLeastOnce(p, h);
    RemainderUnique(10 * (h * p) + l, 10, h * p + l / 10, l % 10);
  }

  lemma PaddedPair(n: nat, k: nat)
    ensures Padded(n, k + 2) == Padded(n / 100, k) + Padded(n % 100, 2)
  {
    var r := n % 100;
    assert n / 10 / 10 == n / 100 && n / 10 % 10 == r / 10 && n % 10 == r % 10;
    assert Padded(r, 2) == [48 + r / 10, 48 + r % 10] by {
      assert Padded(r / 10 / 10, 0) == [];
      assert Padded(r / 10, 1) == [48 + r / 10];
    }
    assert Padded(n, k + 2) == Padded(n / 10 / 10, k) + [48 + n / 10 % 10] + [48 + n % 10];
  }

  lemma DecimalPair(n: nat)
    requires n >= 100
    ensures Decimal(n) == Decimal(n / 100) + Padded(n % 100, 2)
  {
    assert Power10(2) == 100;
    DecimalSplit(n / 100, n % 100, 2);
  }

  // ----- Divisions by multiplication -----

  lemma By100(v: nat)
    requires v < 10000
    ensures (v * 5243) / 0x8_0000 == v / 100 && v * 5243 < 0x1_0000_0000
  {
    var q, r := v / 100, v % 100;
    assert v * 5243 == 0x8_0000 * q + (12 * q + 5243 * r);
    RemainderUnique(v * 5243, 0x8_0000, q, 12 * q + 5243 * r);
  }

  lemma By10000(v: nat)
    requires v < 1_000_000
    ensures (v * 429497) / 0x1_0000_0000 == v / 10000
  {
    var q, r := v / 10000, v % 10000;
    assert v * 429497 == 0x1_0000_0000 * q + (2704 * q + 429497 * r);
    RemainderUnique(v * 429497, 0x1_0000_0000, q, 2704 * q + 429497 * r);
  }

  lemma By10000Wide(v: nat)
    requires v < 100_000_000
    ensures (v * 109951163) / 0x100_0000_0000 == v / 10000 && v * 109951163 < 0x1_0000_0000_0000_0000
  {
    var q, r := v / 10000, v % 10000;
    assert v * 109951163 == 0x100_0000_0000 * q + (2224 * q + 109951163 * r);
    RemainderUnique(v * 109951163, 0x100_0000_0000, q, 2224 * q + 109951163 * r);
  }

  // ----- Writing -----

  /** EncodeDigitTable: the numbers 00 to 99. */
  function DigitTable(i: nat): Byte
    requires i < 200
  {
    if i % 2 == 0 then 48 + i / 20 else 48 + i / 2 % 10
  }

  lemma WroteThen(m: seq<Byte>, m': seq<Byte>, m'': seq<Byte>, at: nat, a: seq<nat>, r: nat, b: seq<nat>, s: nat,
      room: nat)
    requires Wrote(m, m', at, a, r) && Wrote(m', m'', at + |a|, b, s)
    requires r <= room && |a| + s <= room && at + room <= |m|
    ensures Wrote(m, m'', at, a + b, room)
  {
    assert m''[at..at + |a|] == m'[at..at + |a|];
    assert m''[at..at + |a + b|] == m''[at..at + |a|] + m''[at + |a|..at + |a| + |b|];
  }

  /** byte_copy_2 of two digits. */
  method CopyPair(buf: array<Byte>, at: nat, aa: nat)
    requires aa < 100 && at + 2 <= buf.Length
    modifies buf
    ensures Wrote(old(buf[..]), buf[..], at, Padded(aa, 2), 2)
  {
    hide DigitTable, Padded;
    PairDigits(aa);
    buf[at], buf[at + 1] := DigitTable(aa * 2), DigitTable(aa * 2 + 1);
  }

  lemma PairDigits(aa: nat)
    requires aa < 100
    ensures Padded(aa, 2) == [DigitTable(aa * 2), DigitTable(aa * 2 + 1)]
  {
    assert Padded(aa / 10 / 10, 0) == [];
    assert Padded(aa / 10, 1) == [48 + aa / 10];
  }

  lemma LeadDigits(aa: nat, lz: nat)
    requires aa < 100 && lz == if aa < 10 then 1 else 0
    ensures aa * 2 + lz + 1 < 200
    ensures Decimal(aa) == if lz == 1 then [DigitTable(aa * 2 + 1)] else [DigitTable(aa * 2), DigitTable(aa * 2 + 1)]
  {
    if aa >= 10 {
      assert Decimal(aa / 10) == [48 + aa / 10];
    }
  }

  /** The first one or two digits: of a single one the copy begins at the second digit of the table's pair, and
      what is written behind it is written over. */
  method CopyLead(buf: array<Byte>, at: nat, aa: nat) returns (w: nat)
    requires aa < 100 && at + 2 <= buf.Length
    modifies buf
    ensures w == at + |Decimal(aa)| && Wrote(old(buf[..]), buf[..], at, Decimal(aa), 2)
  {
    hide DigitTable, Decimal;
    var lz := if aa < 10 then 1 else 0;
    LeadDigits(aa, lz);
    buf[at], buf[at + 1] := DigitTable(aa * 2 + lz), DigitTable(aa * 2 + lz + 1);
    w := at + 2 - lz;
  }

  /** write_u32_len_8 */
  method WriteLen8(buf: array<Byte>, at: nat, val: nat) returns (w: nat)
    requires val < 100_000_000 && at + 8 <= buf.Length
    modifies buf
    ensures w == at + 8 && Wrote(old(buf[..]), buf[..], at, Padded(val, 8), 8)
  {
    hide Wrote, Padded;
    By10000Wide(val);
    var aabb := val * 109951163 / 0x100_0000_0000;
    var ccdd := val - aabb * 10000;
    ghost var m := buf[..];
    var _ := WriteLen4(buf, at, aabb);
    ghost var m1 := buf[..];
    w := WriteLen4(buf, at + 4, ccdd);
    WroteThen(m, m1, buf[..], at, Padded(aabb, 4), 4, Padded(ccdd, 4), 4, 8);
    EightDigits(val);
  }

  lemma EightDigits(n: nat)
    ensures Padded(n, 8) == Padded(n / 10000, 4) + Padded(n % 10000, 4)
  {
    hide Padded;
    var r := n % 10000;
    assert n / 100 / 100 == n / 10000 && n / 100 % 100 == r / 100 && n % 100 == r % 100;
    PaddedPair(n, 6);
    PaddedPair(n / 100, 4);
    PaddedPair(r, 2);
    assert Padded(r / 100, 2) == Padded(n / 100 % 100, 2);
  }

  /** write_u32_len_4 */
  method WriteLen4(buf: array<Byte>, at: nat, val: nat) returns (w: nat)
    requires val < 10000 && at + 4 <= buf.Length
    modifies buf
    ensures w == at + 4 && Wrote(old(buf[..]), buf[..], at, Padded(val, 4), 4)
  {
    hide Wrote, Padded;
    By100(val);
    var aa := val * 5243 / 0x8_0000;
    var bb := val - aa * 100;
    ghost var m := buf[..];
    CopyPair(buf, at, aa);
    ghost var m1 := buf[..];
    CopyPair(buf, at + 2, bb);
    WroteThen(m, m1, buf[..], at, Padded(aa, 2), 2, Padded(bb, 2), 2, 4);
    PaddedPair(val, 2);
    w := at + 4;
  }

  /** write_u32_len_1_8 */
  method WriteLen1To8(buf: array<Byte>, at: nat, val: nat) returns (w: nat)
    requires val < 100_000_000 && at + 8 <= buf.Length
    modifies buf
    ensures w == at + |Decimal(val)| && Wrote(old(buf[..]), buf[..], at, Decimal(val), 8)
  {
    hide Wrote, Decimal;
    ghost var m := buf[..];
    if val < 100 {
      w := CopyLead(buf, at, val);
      WroteWider(m, buf[..], at, Decimal(val), 2, 8);
    } else if val < 10000 {
      w := WriteLen3To4(buf, at, val);
      WroteWider(m, buf[..], at, Decimal(val), 4, 8);
    } else {
      w := WriteLen5To8(buf, at, val);
    }
  }

  method WriteLen3To4(buf: array<Byte>, at: nat, val: nat) returns (w: nat)
    requires 100 <= val < 10000 && at + 4 <= buf.Length
    modifies buf
    ensures w == at + |Decimal(val)| && Wrote(old(buf[..]), buf[..], at, Decimal(val), 4)
  {
    hide Wrote, Decimal, Padded;
    By100(val);
    var aa := val * 5243 / 0x8_0000;
    var bb := val - aa * 100;
    ghost var m := buf[..];
    w := CopyLead(buf, at, aa);
    ghost var m1 := buf[..];
    WroteInside(m, m1, at, Decimal(aa), 2);
    CopyPair(buf, w, bb);
    WroteThen(m, m1, buf[..], at, Decimal(aa), 2, Padded(bb, 2), 2, 4);
    DecimalPair(val);
    w := w + 2;
  }

  /** write_u64_len_5_8, and the same branches of write_u32_len_1_8 */
  method WriteLen5To8(buf: array<Byte>, at: nat, val: nat) returns (w: nat)
    requires 10000 <= val < 100_000_000 && at + 8 <= buf.Length
    modifies buf
    ensures w == at + |Decimal(val)| && Wrote(old(buf[..]), buf[..], at, Decimal(val), 8)
  {
    hide Wrote, Decimal, Padded;
    ghost var m := buf[..];
    if val < 1_000_000 {
      By10000(val);
      var aa := val * 429497 / 0x1_0000_0000;
      var bbcc := val - aa * 10000;
      w := CopyLead(buf, at, aa);
      ghost var m1 := buf[..];
      WroteInside(m, m1, at, Decimal(aa), 2);
      w := WriteLen4(buf, w, bbcc);
      WroteThen(m, m1, buf[..], at, Decimal(aa), 2, Padded(bbcc, 4), 4, 8);
    } else {
      By10000Wide(val);
      var aabb := val * 109951163 / 0x100_0000_0000;
      var ccdd := val - aabb * 10000;
      w := WriteLen3To4(buf, at, aabb);
      ghost var m1 := buf[..];
      WroteInside(m, m1, at, Decimal(aabb), 4);
      w := WriteLen4(buf, w, ccdd);
      WroteThen(m, m1, buf[..], at, Decimal(aabb), 4, Padded(ccdd, 4), 4, 8);
    }
    Power10s();
    DecimalSplit(val / 10000, val % 10000, 4);
  }

  lemma Power10s()
    ensures Power10(4) == 10000 && Power10(8) == 100_000_000
  {
  }

  lemma WroteWider(m: seq<Byte>, m': seq<Byte>, at: nat, text: seq<nat>, room: nat, more: nat)
    requires Wrote(m, m', at, text, room) && room <= more && at + more <= |m|
    ensures Wrote(m, m', at, text, more)
  {
  }

  lemma WroteInside(m: seq<Byte>, m': seq<Byte>, at: nat, text: seq<nat>, room: nat)
    requires Wrote(m, m', at, text, room)
    ensures |text| <= room && |m'| == |m| && at + room <= |m|
  {
  }

  /** write_u64: at most twenty bytes, and nothing else is touched. */
  method WriteU64(buf: array<Byte>, at: nat, val: nat) returns (w: nat)
    requires val < 0x1_0000_0000_0000_0000 && at + 20 <= buf.Length
    modifies buf
    ensures w == at + |Decimal(val)| && Wrote(old(buf[..]), buf[..], at, Decimal(val), 20)
  {
    hide Wrote, Decimal, Padded;
    ghost var m := buf[..];
    Power10s();
    if val < 100_000_000 {
      w := WriteLen1To8(buf, at, val);
      WroteWider(m, buf[..], at, Decimal(val), 8, 20);
    } else {
      var tmp := val / 100_000_000;
      var low := val - tmp * 100_000_000;
      if tmp < 100_000_000 {
        w := WriteLen1To8(buf, at, tmp);
        WroteWider(m, buf[..], at, Decimal(tmp), 8, 12);
      } else {
        w := WriteUpTo12(buf, at, tmp);
      }
      ghost var m1 := buf[..];
      WroteInside(m, m1, at, Decimal(tmp), 12);
      w := WriteLen8(buf, w, low);
      WroteThen(m, m1, buf[..], at, Decimal(tmp), 12, Padded(low, 8), 8, 20);
      DecimalSplit(tmp, low, 8);
    }
  }

  method WriteUpTo12(buf: array<Byte>, at: nat, tmp: nat) returns (w: nat)
    requires 100_000_000 <= tmp < 1_000_000_000_000 && at + 12 <= buf.Length
    modifies buf
    ensures w == at + |Decimal(tmp)| && Wrote(old(buf[..]), buf[..], at, Decimal(tmp), 12)
  {
    hide Wrote, Decimal, Padded;
    ghost var m := buf[..];
    var hgh := tmp / 10000;
    var mid := tmp - hgh * 10000;
    w := WriteLen5To8(buf, at, hgh);
    ghost var m1 := buf[..];
    WroteInside(m, m1, at, Decimal(hgh), 8);
    w := WriteLen4(buf, w, mid);
    WroteThen(m, m1, buf[..], at, Decimal(hgh), 8, Padded(mid, 4), 4, 12);
    Power10s();
    DecimalSplit(hgh, mid, 4);
  }

  // ----- Signed integers -----

  /** pylong_to_clong succeeds. */
  predicate InRange(value: int) {
    -0x8000_0000_0000_0000 <= value < 0x1_0000_0000_0000_0000
  }

  /** The text of an int: a minus sign if it is negative, and the numeral of its magnitude. */
  function IntText(value: int): (s: seq<Byte>) {
    if value < 0 then [45] + Decimal(-value) else Decimal(value)
  }

  /** Reading the text back gives the int. */
  lemma IntTextValue(value: int)
    ensures IntText(value) != []
    ensures var s := IntText(value); value == if s[0] == 45 then -NumberOf(s[1..]) else NumberOf(s)
  {
    if value < 0 {
      DecimalValue(-value);
      assert IntText(value)[1..] == Decimal(-value);
    } else {
      DecimalValue(value);
    }
  }

  lemma IntTextLength(value: int)
    requires InRange(value)
    ensures 1 <= |IntText(value)| <= 21
    ensures forall i :: 0 <= i < |IntText(value)| ==> IntText(value)[i] < 0x80
  {
    LongestU64(if value < 0 then -value else value);
  }

  /** pylong_to_clong for an int other than zero: its magnitude in 64 bits, and whether it is negative. */
  method ToU64(value: int) returns (ok: bool, magnitude: nat, sign: nat)
    ensures ok == InRange(value)
    ensures ok ==> sign == (if value < 0 then 1 else 0) && magnitude == if value < 0 then -value else value
  {
    ok, magnitude, sign := true, 0, 0;
    if value >= 0 {
      if value >= 0x1_0000_0000_0000_0000 {
        ok := false;
      } else {
        magnitude := value;
      }
    } else if value < -0x8000_0000_0000_0000 {
      ok := false;
    } else {
      var unsigned := value + 0x1_0000_0000_0000_0000;
      magnitude, sign := (0x1_0000_0000_0000_0000 - unsigned) % 0x1_0000_0000_0000_0000, 1;
    }
  }

  /** u64_to_unicode, into a buffer of its own: the minus sign is stored in any case, and written over for a number
      without sign. */
  method U64ToText(val: nat, sign: nat) returns (buffer: array<Byte>, end: nat)
    requires val < 0x1_0000_0000_0000_0000 && sign <= 1
    ensures fresh(buffer) && buffer.Length == 32 && 1 <= end <= 21
    ensures buffer[..end] == (if sign == 1 then [45] else []) + Decimal(val)
  {
    buffer := new Byte[32](_ => 0);
    buffer[0] := 45;
    LongestU64(val);
    end := WriteU64(buffer, sign, val);
    hide Decimal;
    assert buffer[..end] == buffer[..sign] + buffer[sign..end];
  }

  lemma LongestU64(val: nat)
    requires val < 0x1_0000_0000_0000_0000
    ensures |Decimal(val)| <= 20
  {
    assert Power10(5) == 100_000;
    assert Power10(10) == 10_000_000_000;
    assert Power10(15) == 1_000_000_000_000_000;
    assert Power10(20) == 100_000_000_000_000_000_000;
    DecimalLength(val, 20);
  }
}
