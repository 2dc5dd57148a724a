/** Where the loops of the string decoder stop, and whether they reject a block, as functions of the input alone
    (src/decode/bytes/_w_utf8_block.inl.h, src/decode/decode_bytes_str_wrap.h). */
module BlockLoop {
  import opened Memory
  import opened PyObjects
  import opened JsonText
  import opened Utf8
  import opened JsonString
  import opened Utf8Blocks

  /** char_is_ascii_stop */
  predicate Stop(c: Byte) {
    AsciiStop(c) || c >= 0x80
  }

  // ----- decode_bytes_block_scalar -----

  lemma GroupInside(src: seq<Byte>, end: nat, p: nat, k: nat)
    requires Source(src, end) && 2 <= k <= 4 && p <= end && p + k <= |src| && IsGroup(src, p, k)
    ensures p + k <= end
  {
    hide ToB2, ToB3, ToB4;
    assert ItemAt(src, end, p).Char? && ItemAt(src, end, p).size == k;
  }

  /** Behind the sequences of k bytes that stand at p. */
  function RunEnd(src: seq<Byte>, end: nat, p: nat, k: nat): (q: nat)
    requires Source(src, end) && 2 <= k <= 4 && p <= end
    ensures p <= q <= end
    decreases end - p
  {
    if IsGroup(src, p, k) then
      GroupInside(src, end, p, k);
      RunEnd(src, end, p + k, k)
    else p
  }

  /** Behind the two-byte sequences that stand at p and fit one byte. */
  function RunEndU8(src: seq<Byte>, end: nat, p: nat): (q: nat)
    requires Source(src, end) && p <= end
    ensures p <= q <= end
    decreases end - p
  {
    if IsGroup(src, p, 2) && ToB2(src[p], src[p + 1]) < 0x100 then
      GroupInside(src, end, p, 2);
      RunEndU8(src, end, p + 2)
    else p
  }

  /** Behind the multi-byte sequences at p that one pass over the loops of this width takes. */
  function MultiEnd(src: seq<Byte>, end: nat, p: nat, width: nat): (q: nat)
    requires Source(src, end) && p <= end
    ensures p <= q <= end
  {
    if width == 1 then RunEndU8(src, end, p)
    else if width == 2 then End32(src, end, p)
    else
      var q := RunEnd(src, end, p, 4);
      if src[q] < 0x80 then q else End32(src, end, q)
  }

  function End32(src: seq<Byte>, end: nat, p: nat): (q: nat)
    requires Source(src, end) && p <= end
    ensures p <= q <= end
  {
    var q := RunEnd(src, end, p, 3);
    if src[q] < 0x80 then q else RunEnd(src, end, q, 2)
  }

  /** Where the scalar form stops: at the limit or behind it, or at something that it does not take. */
  function ScalarEnd(src: seq<Byte>, end: nat, p: nat, width: nat, limit: nat): (q: nat)
    requires Source(src, end) && p <= end
    ensures p <= q <= end
    decreases end - p
  {
    if p >= limit then p
    else if !Stop(src[p]) then ScalarEnd(src, end, p + 1, width, limit)
    else if src[p] < 0x80 then p
    else
      var q := MultiEnd(src, end, p, width);
      if q == p then p else ScalarEnd(src, end, q, width, limit)
  }

  // ----- decode_bytes_block -----

  datatype Ended = Ended(pos: nat, rejected: bool)

  /** Where the block loop stops, and whether because a block was rejected. */
  function BlockEnd(src: seq<Byte>, end: nat, p: nat, width: nat, budget: nat, x64: bool): (e: Ended)
    requires Source(src, end) && p <= end && end + 16 <= |src| && IsWidth(width) && budget > 0
    ensures p <= e.pos <= end
    decreases end - p
  {
    if HasStop(src, p) then Ended(ScalarEnd(src, end, p, width, end + 1), false)
    else
      WindowInside(src, end, p);
      if AllAscii(src, p) then BlockEnd(src, end, p + 16, width, budget, x64)
      else if width < 4 && AnyAbove(src, p, PromoteAbove(width)) then
        Ended(ScalarEnd(src, end, p, width, end + 1), false)
      else
        NoneAbove(src, p, width);
        ComposedReads(src, end, p, width, x64);
        match Compose(src, p, width, x64)
        case Rejected => Ended(p, true)
        case Taken(_, _, size) => BlockEnd(src, end, p + size, width, 32, x64)
        case Undecided =>
          var q := ScalarEnd(src, end, p, width, p + budget);
          if q < p + budget then Ended(q, false)
          else BlockEnd(src, end, q, width, Budget(budget), x64)
  }

  /** The budget of the next scalar stretch: at most 256. */
  function Budget(budget: nat): (b: nat)
    ensures budget > 0 ==> b > 0
  {
    if budget < 256 then 2 * budget else budget
  }

  // ----- decode_bytes_utf8 and loads_bytes -----

  /** The view in use behind an escape. */
  function EscapeWidth(width: nat, v: nat): (w: nat)
    requires IsWidth(width)
    ensures IsWidth(w) && width <= w
  {
    if width == 1 then (if v < 0x100 then 1 else if v < 0x1_0000 then 2 else 4)
    else if width == 2 && v >= 0x1_0000 then 4
    else width
  }

  /** The view a lead byte asks for (utf8_lead_min_ucs_level). */
  function LeadWidth(width: nat, lead: Byte): (w: nat)
    requires IsWidth(width) && width < 4
    ensures IsWidth(w) && width < w
  {
    if width == 1 && lead < 0xF0 then 2 else 4
  }

  /** The three loops, from p on in the view of this width, end at a rejected block. */
  predicate Rejects(src: seq<Byte>, end: nat, p: nat, width: nat, x64: bool)
    requires Source(src, end) && p <= end && end + 16 <= |src| && IsWidth(width)
    decreases end - p, 4 - width
  {
    var e := BlockEnd(src, end, p, width, 32, x64);
    e.rejected || (
      if src[e.pos] == SLASH then
        var item := EscapeItem(src, end, e.pos);
        item.Char? && Rejects(src, end, e.pos + item.size, EscapeWidth(width, item.value), x64)
      else
        && src[e.pos] >= 0x80 && width < 4 && ItemAt(src, end, e.pos).Char?
        && Rejects(src, end, e.pos, LeadWidth(width, src[e.pos]), x64))
  }

  /** Where the scan stops. */
  function FirstStop(src: seq<Byte>, end: nat, p: nat): (q: nat)
    requires Source(src, end) && p <= end
    ensures p <= q <= end && Stop(src[q])
    decreases end - p
  {
    if Stop(src[p]) then p else FirstStop(src, end, p + 1)
  }

  lemma {:induction false} FirstStopIs(src: seq<Byte>, end: nat, p: nat, q: nat)
    requires Source(src, end) && p <= q <= end && Stop(src[q]) && forall i :: p <= i < q ==> !Stop(src[i])
    ensures FirstStop(src, end, p) == q
    decreases q - p
  {
    if p < q {
      FirstStopIs(src, end, p + 1, q);
    }
  }

  /** Loading the string whose first byte is at `start` ends at a rejected block. */
  predicate LoadRejects(src: seq<Byte>, end: nat, start: nat, x64: bool)
    requires Source(src, end) && start <= end && end + 16 <= |src|
  {
    var q := FirstStop(src, end, start);
    (src[q] == SLASH || src[q] >= 0x80) && Rejects(src, end, q, 1, x64)
  }

  // ----- Against reading item by item -----

  /** Reading on from q stops where reading on from p does. */
  ghost predicate ReadsTo(src: seq<Byte>, end: nat, p: nat, q: nat)
    requires Source(src, end)
  {
    p <= end && q <= end && StopsAt(src, end, p) == StopsAt(src, end, q)
  }

  lemma ItemReads(src: seq<Byte>, end: nat, p: nat)
    requires Source(src, end) && p <= end && ItemAt(src, end, p).Char?
    ensures ReadsTo(src, end, p, p + ItemAt(src, end, p).size)
  {
  }

  lemma {:induction false} ItemsRead(src: seq<Byte>, end: nat, p: nat, chars: Text, q: nat)
    requires Source(src, end) && Items(src, end, p, chars, q)
    ensures ReadsTo(src, end, p, q)
    decreases |chars|
  {
    hide ItemAt, StopsAt;
    if chars != [] {
      ItemReads(src, end, p);
      ItemsRead(src, end, p + ItemAt(src, end, p).size, chars[1..], q);
    }
  }

  lemma GroupReads(src: seq<Byte>, end: nat, p: nat, k: nat)
    requires Source(src, end) && 2 <= k <= 4 && p <= end && IsGroup(src, p, k)
    ensures ReadsTo(src, end, p, p + k)
  {
    hide ItemAt, Group, StopsAt;
    GroupInside(src, end, p, k);
    GroupItem(src, end, p, k);
    ItemReads(src, end, p);
  }

  lemma {:induction false} RunReads(src: seq<Byte>, end: nat, p: nat, k: nat)
    requires Source(src, end) && 2 <= k <= 4 && p <= end
    ensures ReadsTo(src, end, p, RunEnd(src, end, p, k))
    decreases end - p
  {
    hide StopsAt, IsGroup;
    if IsGroup(src, p, k) {
      GroupInside(src, end, p, k);
      GroupReads(src, end, p, k);
      RunReads(src, end, p + k, k);
    }
  }

  lemma {:induction false} RunU8Reads(src: seq<Byte>, end: nat, p: nat)
    requires Source(src, end) && p <= end
    ensures ReadsTo(src, end, p, RunEndU8(src, end, p))
    decreases end - p
  {
    hide StopsAt, IsGroup;
    if IsGroup(src, p, 2) && ToB2(src[p], src[p + 1]) < 0x100 {
      GroupInside(src, end, p, 2);
      GroupReads(src, end, p, 2);
      RunU8Reads(src, end, p + 2);
    }
  }

  lemma MultiReads(src: seq<Byte>, end: nat, p: nat, width: nat)
    requires Source(src, end) && p <= end
    ensures ReadsTo(src, end, p, MultiEnd(src, end, p, width))
  {
    hide StopsAt, RunEnd, RunEndU8;
    var q := if width == 1 || width == 2 then p else RunEnd(src, end, p, 4);
    RunU8Reads(src, end, p);
    RunReads(src, end, p, 4);
    RunReads(src, end, q, 3);
    RunReads(src, end, RunEnd(src, end, q, 3), 2);
  }

  lemma {:induction false} ScalarReads(src: seq<Byte>, end: nat, p: nat, width: nat, limit: nat)
    requires Source(src, end) && p <= end
    ensures ReadsTo(src, end, p, ScalarEnd(src, end, p, width, limit))
    decreases end - p
  {
    hide StopsAt, ItemAt, MultiEnd;
    if p < limit {
      if !Stop(src[p]) {
        PlainItem(src, end, p);
        ItemReads(src, end, p);
        ScalarReads(src, end, p + 1, width, limit);
      } else if src[p] >= 0x80 {
        var q := MultiEnd(src, end, p, width);
        MultiReads(src, end, p, width);
        if q != p {
          ScalarReads(src, end, q, width, limit);
        }
      }
    }
  }

  /** The block loop passes over whole items; where it rejects a block, a bad sequence begins within sixteen bytes. */
  lemma {:induction false} BlockReads(src: seq<Byte>, end: nat, p: nat, width: nat, budget: nat, x64: bool)
    requires Source(src, end) && p <= end && end + 16 <= |src| && IsWidth(width) && budget > 0
    ensures var e := BlockEnd(src, end, p, width, budget, x64);
      ReadsTo(src, end, p, e.pos) && (e.rejected ==> BadAhead(src, end, e.pos, e.pos + 16))
    decreases end - p
  {
    hide StopsAt, ItemAt, ScalarEnd, Compose, HasStop, AllAscii, AnyAbove, Items, BadAhead;
    if HasStop(src, p) {
      ScalarReads(src, end, p, width, end + 1);
    } else {
      WindowInside(src, end, p);
      if AllAscii(src, p) {
        AsciiReads(src, end, p);
        BlockReads(src, end, p + 16, width, budget, x64);
      } else if width < 4 && AnyAbove(src, p, PromoteAbove(width)) {
        ScalarReads(src, end, p, width, end + 1);
      } else {
        NoneAbove(src, p, width);
        ComposedReads(src, end, p, width, x64);
        match Compose(src, p, width, x64)
        case Rejected =>
        case Taken(units, kept, size) =>
          ItemsRead(src, end, p, units[..kept], p + size);
          BlockReads(src, end, p + size, width, 32, x64);
        case Undecided =>
          var q := ScalarEnd(src, end, p, width, p + budget);
          ScalarReads(src, end, p, width, p + budget);
          if q >= p + budget {
            BlockReads(src, end, q, width, Budget(budget), x64);
          }
      }
    }
  }

  lemma AsciiReads(src: seq<Byte>, end: nat, p: nat)
    requires Source(src, end) && p + 16 <= end && AllAscii(src, p) && !HasStop(src, p)
    ensures ReadsTo(src, end, p, p + 16)
  {
    hide ItemAt, StopsAt;
    PlainRead(src, end, p, p + 16);
    ItemsRead(src, end, p, src[p..p + 16], p + 16);
  }

  lemma {:induction false} RejectsBad(src: seq<Byte>, end: nat, p: nat, width: nat, x64: bool)
    requires Source(src, end) && p <= end && end + 16 <= |src| && IsWidth(width) && Rejects(src, end, p, width, x64)
    ensures BadAhead(src, end, p, end)
    decreases end - p, 4 - width
  {
    hide StopsAt, EscapeItem, BlockEnd;
    BlockReads(src, end, p, width, 32, x64);
    var e := BlockEnd(src, end, p, width, 32, x64);
    if e.rejected {
      BadInside(src, end, p, e.pos, e.pos + 16);
    } else if src[e.pos] == SLASH {
      var item := EscapeItem(src, end, e.pos);
      assert ItemAt(src, end, e.pos) == item;
      hide ItemAt;
      ItemReads(src, end, e.pos);
      RejectsBad(src, end, e.pos + item.size, EscapeWidth(width, item.value), x64);
      BadInside(src, end, p, e.pos + item.size, end);
    } else {
      hide ItemAt;
      RejectsBad(src, end, e.pos, LeadWidth(width, src[e.pos]), x64);
      BadInside(src, end, p, e.pos, end);
    }
  }

  lemma BadInside(src: seq<Byte>, end: nat, p: nat, q: nat, limit: nat)
    requires Source(src, end) && ReadsTo(src, end, p, q) && BadAhead(src, end, q, limit)
    ensures BadAhead(src, end, p, end)
  {
    hide StopsAt;
  }

  lemma {:induction false} PrefixReads(src: seq<Byte>, end: nat, p: nat)
    requires Source(src, end) && p <= end
    ensures ReadsTo(src, end, p, FirstStop(src, end, p))
    decreases end - p
  {
    hide StopsAt, ItemAt;
    if !Stop(src[p]) {
      PlainItem(src, end, p);
      ItemReads(src, end, p);
      PrefixReads(src, end, p + 1);
    }
  }

  /** A string that is rejected is one that cannot be read: reading item by item ends at a byte sequence, as "invalid
      UTF-8" or, if and only if the end of the source cuts the sequence short, as "unexpected end". */
  lemma LoadRejectsWrong(src: seq<Byte>, end: nat, start: nat, x64: bool)
    requires Source(src, end) && start <= end && end + 16 <= |src| && LoadRejects(src, end, start, x64)
    ensures Chars(src, end, start)
      == Wrong(if CutShort(src, end, StopsAt(src, end, start)) then UnexpectedEnd else InvalidUtf8)
  {
    hide StopsAt, Rejects, Chars;
    var q := FirstStop(src, end, start);
    PrefixReads(src, end, start);
    RejectsBad(src, end, q, 1, x64);
    BadInside(src, end, start, q, end);
    RejectedError(src, end, start, end);
  }

  // ----- An input on which a block is rejected -----

  /** The one-byte view gives the first letter to the two-byte view, and that one rejects the block. */
  lemma EarlyRejects(src: seq<Byte>, x64: bool)
    requires LettersCut(src) && |src| >= 32
    ensures LoadRejects(src, 16, 0, x64)
  {
    hide ItemAt, Compose;
    LettersRead(src);
    RejectedEarly(src, x64);
    assert BlockEnd(src, 16, 0, 1, 32, x64) == Ended(0, false) by { FirstViewStops(src, x64); }
    assert BlockEnd(src, 16, 0, 2, 32, x64) == Ended(0, true);
    assert Rejects(src, 16, 0, 2, x64);
  }

  lemma LettersRead(src: seq<Byte>)
    requires LettersCut(src)
    ensures src[0] == 0xD0 && src[1] == 0x96 && ItemAt(src, 16, 0).Char?
    ensures !HasStop(src, 0) && !AllAscii(src, 0) && AnyAbove(src, 0, PromoteAbove(1))
  {
    LetterItem(src, 0);
    assert src[0] == 0xD0;
  }

  lemma FirstViewStops(src: seq<Byte>, x64: bool)
    requires LettersCut(src) && |src| >= 32
    ensures BlockEnd(src, 16, 0, 1, 32, x64) == Ended(0, false)
  {
    hide Compose;
    LettersRead(src);
    assert ToB2(src[0], src[1]) == 0x416;
    assert RunEndU8(src, 16, 0) == 0;
    assert ScalarEnd(src, 16, 0, 1, 17) == 0;
  }
}
