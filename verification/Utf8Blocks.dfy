/** Sixteen bytes of a JSON string at once: the vector block of the decoder
    (src/decode/bytes/_w_utf8_block.inl.h, src/decode/bytes/utf8_simd128.h). */
module Utf8Blocks {
  import opened Remainders
  import opened Memory
  import opened PyObjects
  import opened JsonText
  import opened Utf8
  import opened JsonString

  /** A byte that ends a run of characters: a quote, a backslash or a control character. */
  predicate AsciiStop(c: Byte) {
    c == QUOTE || c == SLASH || c < 32
  }

  predicate Cont(c: Byte) {
    c / 0x40 == 2
  }

  predicate AllBelow(chars: Text, limit: nat) {
    forall i :: 0 <= i < |chars| ==> chars[i] < limit
  }

  /** Code points that a cell of this width may hold. */
  function WidthLimit(width: nat): nat {
    if width == 1 then 0x100 else if width == 2 then 0x1_0000 else 0x11_0000
  }

  // ----- Tests on the sixteen bytes at p -----

  /** utf8_has_stop_128 */
  predicate HasStop(src: seq<Byte>, p: nat)
    requires p + 16 <= |src|
  {
    exists i :: p <= i < p + 16 && AsciiStop(src[i])
  }

  /** utf8_all_ascii_128 */
  predicate AllAscii(src: seq<Byte>, p: nat)
    requires p + 16 <= |src|
  {
    forall i :: p <= i < p + 16 ==> src[i] < 0x80
  }

  /** utf8_any_byte_above_128 */
  predicate AnyAbove(src: seq<Byte>, p: nat, limit: nat)
    requires p + 16 <= |src|
  {
    exists i :: p <= i < p + 16 && src[i] > limit
  }

  /** The number of bytes with the high bit set among n. */
  function HighCount(src: seq<Byte>, p: nat, n: nat): nat
    requires p + n <= |src|
  {
    if n == 0 then 0 else HighCount(src, p, n - 1) + if src[p + n - 1] >= 0x80 then 1 else 0
  }

  /** utf8_end_of_cp_bitmask_128 against a pattern: among the first n bytes exactly every k-th one ends a code
      point, that is, has no continuation byte behind it. */
  predicate EndsEvery(src: seq<Byte>, p: nat, n: nat, k: nat)
    requires p + n < |src| && k > 0
  {
    forall i :: 0 <= i < n ==> (!Cont(src[p + i + 1]) <==> i % k == k - 1)
  }

  /** utf8_seq2x8_has_error_128 */
  predicate Error2x8(src: seq<Byte>, p: nat)
    requires p + 16 <= |src|
  {
    exists j :: 0 <= j < 8 && !(0xC2 <= src[p + 2 * j] <= 0xDF && 0x80 <= src[p + 2 * j + 1] <= 0xBF)
  }

  /** utf8_seq3x4_has_error_128 */
  predicate Error3x4(src: seq<Byte>, p: nat)
    requires p + 12 <= |src|
  {
    exists j: nat :: j < 4 && Error3(src, p, j)
  }

  predicate Error3(src: seq<Byte>, p: nat, j: nat)
    requires p + 3 * j + 3 <= |src|
  {
    var lead, cp := src[p + 3 * j], ToB3(src[p + 3 * j], src[p + 3 * j + 1], src[p + 3 * j + 2]);
    lead / 0x10 != 14 || cp <= 0x7FF || 0xD800 <= cp <= 0xDFFF
  }

  /** utf8_seq4x4_has_error_128 */
  predicate Error4x4(src: seq<Byte>, p: nat)
    requires p + 16 <= |src|
  {
    exists j: nat :: j < 4 && Error4(src, p, j)
  }

  predicate Error4(src: seq<Byte>, p: nat, j: nat)
    requires p + 4 * j + 4 <= |src|
  {
    var q := p + 4 * j;
    var cp := ToB4(src[q], src[q + 1], src[q + 2], src[q + 3]);
    src[q] / 8 != 30 || cp < 0x1_0000 || cp > 0x10_FFFF
  }

  // ----- The lookup tables of utf8_block_has_error_128 -----

  const TOO_SHORT: bv8 := 0x01
  const TOO_LONG: bv8 := 0x02
  const OVERLONG_3: bv8 := 0x04
  const TOO_LARGE: bv8 := 0x08
  const SURROGATE: bv8 := 0x10
  const OVERLONG_2: bv8 := 0x20
  const TOO_LARGE_1000: bv8 := 0x40
  const OVERLONG_4: bv8 := 0x40
  const TWO_CONTS: bv8 := 0x80
  const CARRY: bv8 := TOO_SHORT | TOO_LONG | TWO_CONTS

  /** By the high nibble of the byte before. */
  function PrevHigh(n: nat): bv8 {
    if n < 8 then TOO_LONG
    else if n < 12 then TWO_CONTS
    else if n == 12 then TOO_SHORT | OVERLONG_2
    else if n == 13 then TOO_SHORT
    else if n == 14 then TOO_SHORT | OVERLONG_3 | SURROGATE
    else TOO_SHORT | TOO_LARGE | TOO_LARGE_1000 | OVERLONG_4
  }

  /** By the low nibble of the byte before. */
  function PrevLow(n: nat): bv8 {
    if n == 0 then CARRY | OVERLONG_3 | OVERLONG_2 | OVERLONG_4
    else if n == 1 then CARRY | OVERLONG_2
    else if n < 4 then CARRY
    else if n == 4 then CARRY | TOO_LARGE
    else if n == 13 then CARRY | TOO_LARGE | TOO_LARGE_1000 | SURROGATE
    else CARRY | TOO_LARGE | TOO_LARGE_1000
  }

  /** By the high nibble of the byte itself. */
  function CurHigh(n: nat): bv8 {
    if n == 8 then TOO_LONG | OVERLONG_2 | TWO_CONTS | OVERLONG_3 | TOO_LARGE_1000
    else if n == 9 then TOO_LONG | OVERLONG_2 | TWO_CONTS | OVERLONG_3 | TOO_LARGE
    else if n == 10 || n == 11 then TOO_LONG | OVERLONG_2 | TWO_CONTS | SURROGATE | TOO_LARGE
    else TOO_SHORT
  }

  /** The byte k before the i-th; before the first there are zeros. */
  function Prev(src: seq<Byte>, p: nat, i: nat, k: nat): Byte
    requires p + i < |src|
  {
    if k <= i then src[p + i - k] else 0
  }

  predicate LaneError(prev1: Byte, prev2: Byte, prev3: Byte, cur: Byte) {
    var must23: bv8 := if prev2 >= 0xE0 || prev3 >= 0xF0 then 0x80 else 0;
    must23 ^ (PrevHigh(prev1 / 0x10) & PrevLow(prev1 % 0x10) & CurHigh(cur / 0x10)) != 0
  }

  predicate BlockError(src: seq<Byte>, p: nat)
    requires p + 16 <= |src|
  {
    exists i :: 0 <= i < 16 && LaneError(Prev(src, p, i, 1), Prev(src, p, i, 2), Prev(src, p, i, 3), src[p + i])
  }

  /** What can be wrong with two neighbours when there are no longer sequences than of two bytes. */
  predicate PairBad(prev: Byte, cur: Byte) {
    if Cont(cur) then prev < 0xC2 else prev >= 0xC0
  }

  /** Without bytes above DF the tables find exactly such pairs. */
  lemma LaneErrorIsPair(prev1: Byte, prev2: Byte, prev3: Byte, cur: Byte)
    requires prev1 <= 0xDF && prev2 <= 0xDF && prev3 <= 0xDF && cur <= 0xDF
    ensures LaneError(prev1, prev2, prev3, cur) <==> PairBad(prev1, cur)
  {
    var a, b, c := prev1 / 0x10, prev1 % 0x10, cur / 0x10;
    assert Cont(cur) <==> 8 <= c < 12;
    assert prev1 < 0xC2 <==> a < 12 || (a == 12 && b < 2);
    assert prev1 >= 0xC0 <==> a >= 12;
  }

  // ----- Composition -----

  /** The code points of n sequences of k bytes each. */
  function Groups(src: seq<Byte>, p: nat, k: nat, n: nat): (r: seq<nat>)
    requires 2 <= k <= 4 && Past(p, k, n) <= |src|
    ensures |r| == n
    decreases n
  {
    if n == 0 then [] else [Group(src, p, k)] + Groups(src, p + k, k, n - 1)
  }

  function Group(src: seq<Byte>, p: nat, k: nat): nat
    requires 2 <= k <= 4 && p + k <= |src|
  {
    if k == 2 then ToB2(src[p], src[p + 1])
    else if k == 3 then ToB3(src[p], src[p + 1], src[p + 2])
    else ToB4(src[p], src[p + 1], src[p + 2], src[p + 3])
  }

  /** The position behind n sequences of k bytes. */
  function Past(p: nat, k: nat, n: nat): nat {
    if k == 2 then p + 2 * n else if k == 3 then p + 3 * n else p + 4 * n
  }

  /** n code points of one or two bytes each, as the shuffle gathers them. */
  function Points(src: seq<Byte>, p: nat, n: nat): (r: seq<nat>)
    requires p + 2 * n <= |src|
    ensures |r| == n
    decreases n
  {
    if n == 0 then []
    else if src[p] < 0x80 then [src[p]] + Points(src, p + 1, n - 1)
    else [ToB2(src[p], src[p + 1])] + Points(src, p + 2, n - 1)
  }

  function PointsEnd(src: seq<Byte>, p: nat, n: nat): (q: nat)
    requires p + 2 * n <= |src|
    ensures p + n <= q <= p + 2 * n
    decreases n
  {
    if n == 0 then p else PointsEnd(src, if src[p] < 0x80 then p + 1 else p + 2, n - 1)
  }

  /** `units` are stored, the first `kept` of them count, and `size` bytes are done. */
  datatype Composed = Rejected | Taken(units: seq<nat>, kept: nat, size: nat) | Undecided

  /** The patterns that decode_bytes_block knows in the instance of some width; the last one is for x64. */
  function Compose(src: seq<Byte>, p: nat, width: nat, x64: bool): Composed
    requires p + 16 < |src|
  {
    if EndsEvery(src, p, 16, 2) then
      if Error2x8(src, p) then Rejected else Taken(Groups(src, p, 2, 8), 8, 16)
    else if width == 4 && EndsEvery(src, p, 16, 4) then
      if Error4x4(src, p) then Rejected else Taken(Groups(src, p, 4, 4), 4, 16)
    else if width != 1 && EndsEvery(src, p, 12, 3) then
      if Error3x4(src, p) then Rejected else Taken(Groups(src, p, 3, 4), 4, 12)
    else if width != 4 && x64 && HighCount(src, p, 16) >= 12 && !AnyAbove(src, p, 0xDF) then
      if BlockError(src, p) then Rejected
      else Taken(Points(src, p, 6) + [0, 0], 6, PointsEnd(src, p, 6) - p)
    else Undecided
  }

  // ----- Against reading item by item -----

  /** From p to q the items are these characters. */
  ghost predicate Items(src: seq<Byte>, end: nat, p: nat, chars: Text, q: nat)
    requires Source(src, end)
    decreases |chars|
  {
    if chars == [] then p == q && q <= end
    else
      && p <= end && ItemAt(src, end, p).Char? && ItemAt(src, end, p).value == chars[0] && !AsciiStop(src[p])
      && Items(src, end, p + ItemAt(src, end, p).size, chars[1..], q)
  }

  lemma ItemsFirst(src: seq<Byte>, end: nat, p: nat, c: nat, n: nat, chars: Text, q: nat)
    requires Source(src, end) && p <= end && ItemAt(src, end, p) == Char(c, n) && !AsciiStop(src[p])
    requires Items(src, end, p + n, chars, q)
    ensures Items(src, end, p, [c] + chars, q)
  {
    assert ([c] + chars)[1..] == chars;
  }

  /** Where reading item by item stops: at the closing quote or at the first thing that is no character. */
  function StopsAt(src: seq<Byte>, end: nat, p: nat): (q: nat)
    requires Source(src, end) && p <= end
    ensures p <= q <= end && !ItemAt(src, end, q).Char?
    decreases end - p
  {
    if ItemAt(src, end, p).Char? then StopsAt(src, end, p + ItemAt(src, end, p).size) else p
  }

  /** Reading item by item from p fails at a byte sequence that begins before `limit`. */
  ghost predicate BadAhead(src: seq<Byte>, end: nat, p: nat, limit: nat)
    requires Source(src, end)
  {
    && p <= end && StopsAt(src, end, p) < limit && src[StopsAt(src, end, p)] >= 0x80
    && ItemAt(src, end, StopsAt(src, end, p)).Bad?
  }

  lemma BadHere(src: seq<Byte>, end: nat, p: nat, limit: nat)
    requires Source(src, end) && p <= end && src[p] >= 0x80 && ItemAt(src, end, p).Bad? && p < limit
    ensures BadAhead(src, end, p, limit)
  {
  }

  lemma BadBehind(src: seq<Byte>, end: nat, p: nat, n: nat, limit: nat)
    requires Source(src, end) && p <= end && ItemAt(src, end, p).Char? && ItemAt(src, end, p).size == n
    requires BadAhead(src, end, p + n, limit)
    ensures BadAhead(src, end, p, limit)
  {
  }

  /** Then reading ends with the error of that sequence. */
  lemma {:induction false} StopsWrong(src: seq<Byte>, end: nat, p: nat)
    requires Source(src, end) && p <= end && ItemAt(src, end, StopsAt(src, end, p)).Bad?
    ensures Chars(src, end, p) == Wrong(ItemAt(src, end, StopsAt(src, end, p)).error)
    decreases end - p
  {
    hide ItemAt;
    if ItemAt(src, end, p).Char? {
      StopsWrong(src, end, p + ItemAt(src, end, p).size);
    }
  }

  lemma ContBad(src: seq<Byte>, end: nat, p: nat)
    requires Source(src, end) && p <= end && Cont(src[p])
    ensures src[p] >= 0x80 && ItemAt(src, end, p).Bad?
  {
  }

  // ----- Groups of equal size -----

  predicate IsGroup(src: seq<Byte>, p: nat, k: nat)
    requires 2 <= k <= 4 && p + k <= |src|
  {
    if k == 2 then IsSeq2(src[p], src[p + 1])
    else if k == 3 then IsSeq3(src[p], src[p + 1], src[p + 2])
    else IsSeq4(src[p], src[p + 1], src[p + 2], src[p + 3])
  }

  /** A byte with k - 1 continuation bytes behind it, and no more. */
  predicate Tailed(src: seq<Byte>, p: nat, k: nat)
    requires 2 <= k <= 4 && p + k < |src|
  {
    Cont(src[p + 1]) && (k > 2 ==> Cont(src[p + 2])) && (k > 3 ==> Cont(src[p + 3])) && !Cont(src[p + k])
  }

  predicate AllTailed(src: seq<Byte>, p: nat, k: nat, n: nat)
    requires 2 <= k <= 4 && Past(p, k, n) < |src|
    decreases n
  {
    n == 0 || (Tailed(src, p, k) && AllTailed(src, p + k, k, n - 1))
  }

  predicate AllGroups(src: seq<Byte>, p: nat, k: nat, n: nat)
    requires 2 <= k <= 4 && Past(p, k, n) <= |src|
    decreases n
  {
    n == 0 || (IsGroup(src, p, k) && AllGroups(src, p + k, k, n - 1))
  }

  lemma GroupItem(src: seq<Byte>, end: nat, p: nat, k: nat)
    requires Source(src, end) && 2 <= k <= 4 && p + k <= end && IsGroup(src, p, k)
    ensures ItemAt(src, end, p) == Char(Group(src, p, k), k) && src[p] >= 0xC2
    ensures 0x80 <= Group(src, p, k) < if k == 2 then 0x800 else if k == 3 then 0x1_0000 else 0x11_0000
    ensures k == 2 && src[p] < 0xC4 ==> Group(src, p, k) < 0x100
  {
    hide ToB2, ToB3, ToB4;
    if k == 2 {
      Decoded2(src[p], src[p + 1]);
    } else if k == 3 {
      Decoded3(src[p], src[p + 1], src[p + 2]);
    } else {
      Decoded4(src[p], src[p + 1], src[p + 2], src[p + 3]);
    }
  }

  /** Good groups are items. */
  lemma {:induction false} GroupsRead(src: seq<Byte>, end: nat, p: nat, k: nat, n: nat)
    requires Source(src, end) && 2 <= k <= 4 && Past(p, k, n) <= end && AllGroups(src, p, k, n)
    ensures Items(src, end, p, Groups(src, p, k, n), Past(p, k, n))
    decreases n
  {
    hide ItemAt, Group, IsGroup;
    if n > 0 {
      GroupItem(src, end, p, k);
      GroupsRead(src, end, p + k, k, n - 1);
      ItemsFirst(src, end, p, Group(src, p, k), k, Groups(src, p + k, k, n - 1), Past(p, k, n));
    }
  }

  /** A group that is not of the pattern's length, or no sequence at all, has a bad item in it. */
  lemma GroupBad(src: seq<Byte>, end: nat, p: nat, k: nat, limit: nat)
    requires Source(src, end) && 2 <= k <= 4 && p + k <= end && p + k <= limit
    requires Tailed(src, p, k)
    requires !IsGroup(src, p, k) && !AsciiStop(src[p])
    ensures BadAhead(src, end, p, limit)
  {
    hide ToB2, ToB3, ToB4;
    if ItemAt(src, end, p).Char? {
      var m := ItemAt(src, end, p).size;
      assert m < k && Cont(src[p + m]);
      ContBad(src, end, p + m);
      hide ItemAt;
      BadHere(src, end, p + m, limit);
      BadBehind(src, end, p, m, limit);
    } else {
      hide ItemAt;
      BadHere(src, end, p, limit);
    }
  }

  /** Bad groups mean a bad item within the block. */
  lemma {:induction false} GroupsBad(src: seq<Byte>, end: nat, p: nat, k: nat, n: nat, limit: nat)
    requires Source(src, end) && 2 <= k <= 4 && Past(p, k, n) <= end && Past(p, k, n) <= limit
    requires AllTailed(src, p, k, n) && !AllGroups(src, p, k, n)
    requires forall i :: p <= i < limit && i < |src| ==> !AsciiStop(src[i])
    ensures BadAhead(src, end, p, limit)
    decreases n
  {
    hide ItemAt, Group, IsGroup, BadAhead, AsciiStop, Tailed;
    if n > 0 {
      if IsGroup(src, p, k) {
        GroupsBad(src, end, p + k, k, n - 1, limit);
        GroupItem(src, end, p, k);
        BadBehind(src, end, p, k, limit);
      } else {
        GroupBad(src, end, p, k, limit);
      }
    }
  }

  // ----- Characters of one or two bytes -----

  /** No bad pair from the k-th byte on: the characters are items. */
  lemma {:induction false} PointsRead(src: seq<Byte>, end: nat, p: nat, n: nat, limit: nat)
    requires Source(src, end) && p + 2 * n <= limit <= end
    requires forall i :: p <= i < limit ==> !AsciiStop(src[i]) && src[i] <= 0xDF
    requires forall i :: p < i < limit ==> !PairBad(src[i - 1], src[i])
    requires n > 0 ==> !Cont(src[p])
    ensures Items(src, end, p, Points(src, p, n), PointsEnd(src, p, n))
    decreases n
  {
    hide ItemAt, ToB2;
    if n > 0 {
      var c := src[p];
      assert n > 1 ==> p + 2 < limit;
      if c < 0x80 {
        PlainItem(src, end, p);
        assert !PairBad(src[p], src[p + 1]);
        PointsRead(src, end, p + 1, n - 1, limit);
        ItemsFirst(src, end, p, c, 1, Points(src, p + 1, n - 1), PointsEnd(src, p, n));
      } else {
        assert !PairBad(src[p], src[p + 1]);
        PairItem(src, end, p);
        if n > 1 {
          assert !PairBad(src[p + 1], src[p + 2]);
        }
        PointsRead(src, end, p + 2, n - 1, limit);
        ItemsFirst(src, end, p, ToB2(c, src[p + 1]), 2, Points(src, p + 2, n - 1), PointsEnd(src, p, n));
      }
    }
  }

  lemma PlainItem(src: seq<Byte>, end: nat, p: nat)
    requires Source(src, end) && p <= end && src[p] < 0x80 && !AsciiStop(src[p])
    ensures ItemAt(src, end, p) == Char(src[p], 1)
  {
  }

  lemma PairItem(src: seq<Byte>, end: nat, p: nat)
    requires Source(src, end) && p + 2 <= end && 0x80 <= src[p] <= 0xDF && !Cont(src[p]) && !PairBad(src[p], src[p + 1])
    ensures IsSeq2(src[p], src[p + 1]) && ItemAt(src, end, p) == Char(ToB2(src[p], src[p + 1]), 2)
  {
    hide ToB2;
    assert IsSeq2(src[p], src[p + 1]);
  }

  /** A bad pair means a bad item within the block. */
  lemma {:induction false} PairsBad(src: seq<Byte>, end: nat, p: nat, prev: Byte, bad: nat, limit: nat)
    requires Source(src, end) && p <= bad < limit <= end && (prev < 0x80 || Cont(prev))
    requires forall i :: p <= i < limit ==> !AsciiStop(src[i]) && src[i] <= 0xDF
    requires PairBad(if bad == p then prev else src[bad - 1], src[bad])
    ensures BadAhead(src, end, p, limit)
    decreases end - p
  {
    hide ToB2, ItemAt;
    var c := src[p];
    if Cont(c) {
      ContBad(src, end, p);
      BadHere(src, end, p, limit);
    } else if c < 0x80 {
      PlainItem(src, end, p);
      PairsBad(src, end, p + 1, c, bad, limit);
      BadBehind(src, end, p, 1, limit);
    } else if PairBad(c, src[p + 1]) {
      LoneLead(src, end, p);
      BadHere(src, end, p, limit);
    } else {
      PairItem(src, end, p);
      PairsBad(src, end, p + 2, src[p + 1], bad, limit);
      BadBehind(src, end, p, 2, limit);
    }
  }

  lemma LoneLead(src: seq<Byte>, end: nat, p: nat)
    requires Source(src, end) && p < end && 0xC0 <= src[p] <= 0xDF && PairBad(src[p], src[p + 1])
    ensures ItemAt(src, end, p).Bad?
  {
  }

  // ----- The block against the items -----

  /** The bytes above which a block leaves the sixteen to the scalar form, which may promote. */
  function PromoteAbove(width: nat): nat {
    if width == 1 then 0xC3 else if width == 2 then 0xEF else 0xFF
  }

  /** Sixteen bytes without a stop lie before the terminating zero. */
  lemma WindowInside(src: seq<Byte>, end: nat, p: nat)
    requires Source(src, end) && p <= end && p + 16 <= |src| && !HasStop(src, p)
    ensures p + 16 <= end
  {
    assert AsciiStop(src[end]);
  }

  lemma {:induction false} PlainRead(src: seq<Byte>, end: nat, p: nat, q: nat)
    requires Source(src, end) && p <= q <= end
    requires forall i :: p <= i < q ==> !AsciiStop(src[i]) && src[i] < 0x80
    ensures Items(src, end, p, src[p..q], q)
    decreases q - p
  {
    hide ItemAt;
    if p < q {
      PlainItem(src, end, p);
      PlainRead(src, end, p + 1, q);
      ItemsFirst(src, end, p, src[p], 1, src[p + 1..q], q);
      assert src[p..q] == [src[p]] + src[p + 1..q];
    } else {
      assert src[p..q] == [];
    }
  }

  lemma PatternTailed(src: seq<Byte>, p: nat, k: nat, n: nat)
    requires (k == 2 && n == 8) || (k == 3 && n == 4) || (k == 4 && n == 4)
    requires Past(p, k, n) < |src| && EndsEvery(src, p, Past(0, k, n), k)
    ensures AllTailed(src, p, k, n)
  {
    hide Cont;
    TailedFrom(src, p, k, n, 0);
  }

  lemma {:induction false} TailedFrom(src: seq<Byte>, p: nat, k: nat, n: nat, j: nat)
    requires 2 <= k <= 4 && Past(p, k, n) < |src| && EndsEvery(src, p, Past(0, k, n), k) && j <= n
    ensures AllTailed(src, Past(p, k, j), k, n - j)
    decreases n - j
  {
    hide Cont;
    if j < n {
      var i := Past(0, k, j);
      GroupEnds(k, j);
      assert forall m :: 0 <= m < Past(0, k, n) ==> (!Cont(src[p + m + 1]) <==> m % k == k - 1);
      assert !Cont(src[p + (i + k - 1) + 1]);
      assert Cont(src[p + i + 1]);
      assert k > 2 ==> Cont(src[p + (i + 1) + 1]);
      assert k > 3 ==> Cont(src[p + (i + 2) + 1]);
      TailedFrom(src, p, k, n, j + 1);
    }
  }

  /** Which bytes of the j-th group end a code point. */
  lemma GroupEnds(k: nat, j: nat)
    requires 2 <= k <= 4
    ensures Past(0, k, j + 1) == Past(0, k, j) + k
    ensures Past(0, k, j) % k == 0 && (Past(0, k, j) + 1) % k == 1 % k
    ensures (Past(0, k, j) + 2) % k == 2 % k && (Past(0, k, j) + k - 1) % k == k - 1
  {
    var i := Past(0, k, j);
    if k == 2 {
      RemainderUnique(i, 2, j, 0);
      RemainderUnique(i + 1, 2, j, 1);
      RemainderUnique(i + 2, 2, j + 1, 0);
    } else if k == 3 {
      RemainderUnique(i, 3, j, 0);
      RemainderUnique(i + 1, 3, j, 1);
      RemainderUnique(i + 2, 3, j, 2);
    } else {
      RemainderUnique(i, 4, j, 0);
      RemainderUnique(i + 1, 4, j, 1);
      RemainderUnique(i + 2, 4, j, 2);
      RemainderUnique(i + 3, 4, j, 3);
    }
  }

  // The error tests accept exactly the groups that are sequences.

  lemma Checked2x8(src: seq<Byte>, p: nat)
    requires p + 16 < |src| && AllTailed(src, p, 2, 8)
    ensures Error2x8(src, p) <==> !AllGroups(src, p, 2, 8)
  {
    hide IsSeq2;
    forall j | 0 <= j < 8 ensures Checked2(src[p + 2 * j], src[p + 2 * j + 1]) {
      SeqIsGrammar2(src[p + 2 * j], src[p + 2 * j + 1]);
    }
    Each2(src, p);
  }

  predicate Checked2(b0: Byte, b1: Byte) {
    IsSeq2(b0, b1) <==> 0xC2 <= b0 <= 0xDF && 0x80 <= b1 <= 0xBF
  }

  lemma Each2(src: seq<Byte>, p: nat)
    requires p + 16 < |src|
    ensures AllGroups(src, p, 2, 8) <==> forall j :: 0 <= j < 8 ==> IsSeq2(src[p + 2 * j], src[p + 2 * j + 1])
  {
    hide IsSeq2;
    EachGroup(src, p, 2, 8);
    forall j: nat | j < 8 ensures GroupAt(src, p, 2, j) <==> IsSeq2(src[p + 2 * j], src[p + 2 * j + 1]) {
    }
  }

  predicate GroupAt(src: seq<Byte>, p: nat, k: nat, j: nat)
    requires 2 <= k <= 4 && Past(p, k, j + 1) <= |src|
  {
    IsGroup(src, Past(p, k, j), k)
  }

  lemma {:induction false} EachGroup(src: seq<Byte>, p: nat, k: nat, n: nat)
    requires 2 <= k <= 4 && Past(p, k, n) <= |src|
    ensures AllGroups(src, p, k, n) <==> forall j: nat :: j < n ==> GroupAt(src, p, k, j)
    decreases n
  {
    hide IsGroup;
    if n > 0 {
      var q := p + k;
      EachGroup(src, q, k, n - 1);
      assert GroupAt(src, p, k, 0) <==> IsGroup(src, p, k);
      forall j: nat | j < n - 1 ensures GroupAt(src, q, k, j) <==> GroupAt(src, p, k, j + 1) {
      }
      forall j: nat | 0 < j < n ensures GroupAt(src, p, k, j) <==> GroupAt(src, q, k, j - 1) {
      }
    }
  }

  lemma Checked3x4(src: seq<Byte>, p: nat)
    requires p + 12 < |src| && AllTailed(src, p, 3, 4)
    ensures Error3x4(src, p) <==> !AllGroups(src, p, 3, 4)
  {
    hide Error3, GroupAt, TailedAt;
    EachGroup(src, p, 3, 4);
    EachTailed(src, p, 3, 4);
    forall j: nat | j < 4 ensures GroupAt(src, p, 3, j) <==> !Error3(src, p, j) {
      assert TailedAt(src, p, 3, j);
      Checked3(src, p, j);
    }
  }

  lemma Checked3(src: seq<Byte>, p: nat, j: nat)
    requires p + 3 * j + 3 < |src| && TailedAt(src, p, 3, j)
    ensures GroupAt(src, p, 3, j) <==> !Error3(src, p, j)
  {
    ChecksSeq3(src[p + 3 * j], src[p + 3 * j + 1], src[p + 3 * j + 2]);
    hide ToB3, IsSeq3;
  }

  lemma ChecksSeq3(b0: Byte, b1: Byte, b2: Byte)
    requires Cont(b1) && Cont(b2)
    ensures var cp := ToB3(b0, b1, b2);
      IsSeq3(b0, b1, b2) <==> !(b0 / 0x10 != 14 || cp <= 0x7FF || 0xD800 <= cp <= 0xDFFF)
  {
    assert b1 / 0x20 % 2 == b1 % 0x40 / 0x20;
  }

  lemma Checked4x4(src: seq<Byte>, p: nat)
    requires p + 16 < |src| && AllTailed(src, p, 4, 4)
    ensures Error4x4(src, p) <==> !AllGroups(src, p, 4, 4)
  {
    hide Error4, GroupAt, TailedAt;
    EachGroup(src, p, 4, 4);
    EachTailed(src, p, 4, 4);
    forall j: nat | j < 4 ensures GroupAt(src, p, 4, j) <==> !Error4(src, p, j) {
      assert TailedAt(src, p, 4, j);
      Checked4(src, p, j);
    }
  }

  lemma Checked4(src: seq<Byte>, p: nat, j: nat)
    requires p + 4 * j + 4 < |src| && TailedAt(src, p, 4, j)
    ensures GroupAt(src, p, 4, j) <==> !Error4(src, p, j)
  {
    var q := p + 4 * j;
    ChecksSeq4(src[q], src[q + 1], src[q + 2], src[q + 3]);
    hide ToB4, IsSeq4;
  }

  lemma ChecksSeq4(b0: Byte, b1: Byte, b2: Byte, b3: Byte)
    requires Cont(b1) && Cont(b2) && Cont(b3)
    ensures var cp := ToB4(b0, b1, b2, b3);
      IsSeq4(b0, b1, b2, b3) <==> !(b0 / 8 != 30 || cp < 0x1_0000 || cp > 0x10_FFFF)
  {
    assert b1 / 0x10 % 4 == b1 % 0x40 / 0x10;
  }

  predicate TailedAt(src: seq<Byte>, p: nat, k: nat, j: nat)
    requires 2 <= k <= 4 && Past(p, k, j + 1) < |src|
  {
    Tailed(src, Past(p, k, j), k)
  }

  lemma {:induction false} EachTailed(src: seq<Byte>, p: nat, k: nat, n: nat)
    requires 2 <= k <= 4 && Past(p, k, n) < |src| && AllTailed(src, p, k, n)
    ensures forall j: nat :: j < n ==> TailedAt(src, p, k, j)
    decreases n
  {
    hide Tailed;
    if n > 0 {
      var q := p + k;
      EachTailed(src, q, k, n - 1);
      forall j: nat | 0 < j < n ensures TailedAt(src, p, k, j) <==> TailedAt(src, q, k, j - 1) {
      }
    }
  }

  // The mixed block.

  lemma MixedRead(src: seq<Byte>, end: nat, p: nat)
    requires Source(src, end) && p + 16 <= end && !HasStop(src, p) && !AnyAbove(src, p, 0xDF) && !BlockError(src, p)
    ensures Items(src, end, p, Points(src, p, 6), PointsEnd(src, p, 6))
  {
    hide LaneError, PairBad, AsciiStop;
    forall i: nat | i < 16 ensures !PairBad(Prev(src, p, i, 1), src[p + i]) {
      MixedLane(src, p, i);
    }
    assert Prev(src, p, 0, 1) == 0 && !PairBad(0, src[p + 0]);
    FirstNoCont(src[p]);
    forall i: nat | p < i < p + 16 ensures !PairBad(src[i - 1], src[i]) {
      assert !PairBad(Prev(src, p, i - p, 1), src[p + (i - p)]);
    }
    PointsRead(src, end, p, 6, p + 16);
  }

  lemma FirstNoCont(c: Byte)
    requires !PairBad(0, c)
    ensures !Cont(c)
  {
  }

  lemma MixedLane(src: seq<Byte>, p: nat, i: nat)
    requires p + 16 <= |src| && !AnyAbove(src, p, 0xDF) && i < 16
    ensures LaneError(Prev(src, p, i, 1), Prev(src, p, i, 2), Prev(src, p, i, 3), src[p + i])
      <==> PairBad(Prev(src, p, i, 1), src[p + i])
  {
    LaneErrorIsPair(Prev(src, p, i, 1), Prev(src, p, i, 2), Prev(src, p, i, 3), src[p + i]);
  }

  lemma MixedBad(src: seq<Byte>, end: nat, p: nat)
    requires Source(src, end) && p + 16 <= end && !HasStop(src, p) && !AnyAbove(src, p, 0xDF) && BlockError(src, p)
    ensures BadAhead(src, end, p, p + 16)
  {
    hide LaneError, PairBad, AsciiStop;
    var i: nat :| i < 16 && LaneError(Prev(src, p, i, 1), Prev(src, p, i, 2), Prev(src, p, i, 3), src[p + i]);
    MixedLane(src, p, i);
    PairsBad(src, end, p, 0, p + i, p + 16);
  }

  lemma NoneAbove(src: seq<Byte>, p: nat, width: nat)
    requires p + 16 <= |src| && (width < 4 ==> !AnyAbove(src, p, PromoteAbove(width))) && IsWidth(width)
    ensures !AnyAbove(src, p, PromoteAbove(width))
  {
  }

  /** What is taken is what reading item by item gives, and fits the view; what is rejected has a bad sequence. */
  ghost predicate Right(src: seq<Byte>, end: nat, p: nat, width: nat, c: Composed)
    requires Source(src, end)
  {
    match c
    case Rejected => BadAhead(src, end, p, p + 16)
    case Undecided => true
    case Taken(units, kept, size) =>
      && 0 < kept <= |units| <= 8 && AllBelow(units, WidthLimit(width)) && 0 < size <= 16
      && Items(src, end, p, units[..kept], p + size)
  }

  lemma ComposedReads(src: seq<Byte>, end: nat, p: nat, width: nat, x64: bool)
    requires Source(src, end) && p + 16 <= end && IsWidth(width)
    requires !HasStop(src, p) && !AnyAbove(src, p, PromoteAbove(width))
    ensures Right(src, end, p, width, Compose(src, p, width, x64))
  {
    hide Right, Groups, EndsEvery, HasStop, AnyAbove, BlockError, Error2x8, Error3x4, Error4x4, AllGroups, AllTailed,
      Points;
    if EndsEvery(src, p, 16, 2) {
      PatternTailed(src, p, 2, 8);
      Checked2x8(src, p);
      GroupsDone(src, end, p, 2, 8, width, Error2x8(src, p));
    } else if width == 4 && EndsEvery(src, p, 16, 4) {
      PatternTailed(src, p, 4, 4);
      Checked4x4(src, p);
      GroupsDone(src, end, p, 4, 4, width, Error4x4(src, p));
    } else if width != 1 && EndsEvery(src, p, 12, 3) {
      PatternTailed(src, p, 3, 4);
      Checked3x4(src, p);
      GroupsDone(src, end, p, 3, 4, width, Error3x4(src, p));
    } else if width != 4 && x64 && HighCount(src, p, 16) >= 12 && !AnyAbove(src, p, 0xDF) {
      MixedDone(src, end, p, width);
    } else {
      UndecidedRight(src, end, p, width);
    }
  }

  lemma UndecidedRight(src: seq<Byte>, end: nat, p: nat, width: nat)
    requires Source(src, end)
    ensures Right(src, end, p, width, Undecided)
  {
  }

  lemma MixedDone(src: seq<Byte>, end: nat, p: nat, width: nat)
    requires Source(src, end) && p + 16 <= end && !HasStop(src, p) && !AnyAbove(src, p, 0xDF)
    requires IsWidth(width) && !AnyAbove(src, p, PromoteAbove(width))
    ensures Right(src, end, p, width,
      if BlockError(src, p) then Rejected else Taken(Points(src, p, 6) + [0, 0], 6, PointsEnd(src, p, 6) - p))
  {
    hide HasStop, BlockError, Items, BadAhead;
    if BlockError(src, p) {
      MixedBad(src, end, p);
    } else {
      MixedRead(src, end, p);
      ItemsBelow(src, end, p, Points(src, p, 6), PointsEnd(src, p, 6), p + 16, width);
      assert (Points(src, p, 6) + [0, 0])[..6] == Points(src, p, 6);
    }
  }

  lemma GroupsDone(src: seq<Byte>, end: nat, p: nat, k: nat, n: nat, width: nat, error: bool)
    requires Source(src, end) && 2 <= k <= 4 && 0 < n <= 8 && p + 16 <= end && Past(p, k, n) <= p + 16
    requires AllTailed(src, p, k, n) && error == !AllGroups(src, p, k, n)
    requires !HasStop(src, p) && !AnyAbove(src, p, PromoteAbove(width)) && IsWidth(width)
    ensures Right(src, end, p, width, if error then Rejected else Taken(Groups(src, p, k, n), n, Past(0, k, n)))
  {
    hide ItemAt, Group, IsGroup, BadAhead, Items, Tailed, AsciiStop, AllTailed, AllGroups;
    if error {
      GroupsBad(src, end, p, k, n, p + 16);
    } else {
      GroupsRead(src, end, p, k, n);
      assert Groups(src, p, k, n)[..n] == Groups(src, p, k, n);
      ItemsBelow(src, end, p, Groups(src, p, k, n), Past(p, k, n), p + 16, width);
    }
  }

  /** Bytes up to that limit make characters that fit. */
  lemma {:induction false} ItemsBelow(src: seq<Byte>, end: nat, p: nat, chars: Text, q: nat, limit: nat, width: nat)
    requires Source(src, end) && IsWidth(width) && q <= limit <= end && Items(src, end, p, chars, q)
    requires forall i :: p <= i < limit ==> src[i] <= PromoteAbove(width)
    ensures AllBelow(chars, WidthLimit(width)) && p + |chars| <= q
    decreases |chars|
  {
    hide ItemAt;
    if chars != [] {
      ItemsBelow(src, end, p + ItemAt(src, end, p).size, chars[1..], q, limit, width);
      ItemScalar(src, end, p);
      ItemLevel(src, end, p);
      assert chars == [chars[0]] + chars[1..];
    }
  }

  lemma ItemLevel(src: seq<Byte>, end: nat, p: nat)
    requires Source(src, end) && p <= end && !AsciiStop(src[p]) && ItemAt(src, end, p).Char?
    ensures src[p] <= 0xC3 ==> ItemAt(src, end, p).value < 0x100
    ensures src[p] <= 0xEF ==> ItemAt(src, end, p).value < 0x1_0000
  {
    hide ToB2, ToB3, ToB4;
    if src[p] >= 0x80 {
      if IsSeq2(src[p], src[p + 1]) {
        Decoded2(src[p], src[p + 1]);
      } else if IsSeq3(src[p], src[p + 1], src[p + 2]) {
        Decoded3(src[p], src[p + 1], src[p + 2]);
      }
    }
  }

  // ----- Which error a rejected block reports -----

  /** A byte sequence with fewer bytes left than its lead byte asks for (utf8_set_seq_error). */
  predicate CutShort(src: seq<Byte>, end: nat, q: nat)
    requires q <= end < |src|
  {
    src[q] >= 0x80 && end - q < if src[q] < 0xE0 then 2 else if src[q] < 0xF0 then 3 else 4
  }

  /** A rejected block answers "invalid UTF-8". That is what reading item by item answers if and only if the bad
      sequence is not cut short by the end of the source. */
  lemma RejectedError(src: seq<Byte>, end: nat, p: nat, limit: nat)
    requires Source(src, end) && BadAhead(src, end, p, limit)
    ensures Chars(src, end, p) == Wrong(if CutShort(src, end, StopsAt(src, end, p)) then UnexpectedEnd else InvalidUtf8)
  {
    var q := StopsAt(src, end, p);
    StopsWrong(src, end, p);
    assert ItemAt(src, end, q) == Bad(SeqError(src, end, q));
  }

  /** A Cyrillic letter seven times, then the beginning of a three-byte sequence, and the terminating zero. */
  ghost predicate LettersCut(src: seq<Byte>) {
    && |src| >= 20 && (forall i :: 0 <= i < 14 ==> src[i] == if i % 2 == 0 then 0xD0 else 0x96)
    && src[14] == 0xE1 && src[15] == 0x80 && src[16] == 0
  }

  /** There the two answers differ: the two-byte view rejects the block, and item by item the source just ends. */
  lemma RejectedEarly(src: seq<Byte>, x64: bool)
    requires LettersCut(src)
    ensures !HasStop(src, 0) && !AnyAbove(src, 0, PromoteAbove(2)) && Compose(src, 0, 2, x64) == Rejected
    ensures StopsAt(src, 16, 0) == 14 && Chars(src, 16, 0) == Wrong(UnexpectedEnd)
  {
    hide ItemAt;
    LettersPattern(src);
    assert Error2x8(src, 0) by { assert !(0xC2 <= src[0 + 2 * 7] <= 0xDF); }
    LettersAhead(src, 7);
    StopsWrong(src, 16, 0);
  }

  lemma LettersPattern(src: seq<Byte>)
    requires LettersCut(src)
    ensures EndsEvery(src, 0, 16, 2)
  {
    forall i | 0 <= i < 16 ensures !Cont(src[0 + i + 1]) <==> i % 2 == 1 {
    }
  }

  lemma {:induction false} LettersAhead(src: seq<Byte>, n: nat)
    requires LettersCut(src) && n <= 7
    ensures StopsAt(src, 16, 2 * (7 - n)) == 14 && ItemAt(src, 16, 14) == Bad(UnexpectedEnd)
    decreases n
  {
    hide ItemAt;
    if n > 0 {
      LettersAhead(src, n - 1);
      LetterItem(src, 2 * (7 - n));
    } else {
      LetterEnd(src);
    }
  }

  lemma LetterEnd(src: seq<Byte>)
    requires LettersCut(src)
    ensures ItemAt(src, 16, 14) == Bad(UnexpectedEnd)
  {
  }

  lemma LetterItem(src: seq<Byte>, p: nat)
    requires LettersCut(src) && p < 14 && p % 2 == 0
    ensures ItemAt(src, 16, p).Char? && ItemAt(src, 16, p).size == 2
  {
    hide ToB2;
  }
}
