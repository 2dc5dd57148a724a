/** The three-width string decoder and the assembly of its segments
    (src/decode/decode_bytes_str_wrap.h, src/decode/bytes, src/decode/str/ascii.h). */
module StringSegments {
  import opened Memory
  import opened PyObjects

  /** The width of element i: the first `a` elements are bytes, those up to `b` are two bytes wide. */
  function WidthOf(a: nat, b: nat, i: nat): (w: nat)
    ensures IsWidth(w)
  {
    if i < a then 1 else if i < b then 2 else 4
  }

  /** The temporary buffer shows `text`: each element at its index, scaled by its width. */
  ghost predicate Shows(m: seq<Byte>, a: nat, b: nat, text: Text) {
    && a <= b <= |text| && Span(4, |text|) <= |m|
    && forall i: nat :: i < |text| ==>
      Span(WidthOf(a, b, i), i) + WidthOf(a, b, i) <= |m|
        && Load(m, Span(WidthOf(a, b, i), i), WidthOf(a, b, i)) == text[i]
  }

  /** A store behind all elements, in a view at least as wide, touches none of them. */
  lemma ShowsMore(m: seq<Byte>, m': seq<Byte>, a: nat, b: nat, text: Text, w: nat, c: nat)
    requires Shows(m, a, b, text) && IsWidth(w) && Span(4, |text| + 1) <= |m|
    requires (w == 1 ==> a == |text|) && (w == 2 ==> b == |text|)
    requires SameOutside(m, m', Span(w, |text|), Span(w, |text|) + w)
    requires Load(m', Span(w, |text|), w) == c
    ensures Shows(m', if w == 1 then a + 1 else a, if w <= 2 then (if w == 1 then a + 1 else b + 1) else b, text + [c])
  {
  }

  /** The same for a store of several cells, of which the first `kept` count. */
  lemma ShowsMany(m: seq<Byte>, m': seq<Byte>, a: nat, b: nat, text: Text, w: nat, units: Text, kept: nat)
    requires Shows(m, a, b, text) && IsWidth(w) && kept <= |units| && Span(4, |text| + |units|) <= |m|
    requires (w == 1 ==> a == |text|) && (w == 2 ==> b == |text|) && (w == 1 ==> b == |text|)
    requires StoredAt(m, m', Span(w, |text|), w, units)
    ensures Shows(m', if w == 1 then a + kept else a, if w <= 2 then b + kept else b, text + units[..kept])
  {
    hide Load;
    var n, a', b' := |text|, if w == 1 then a + kept else a, if w <= 2 then b + kept else b;
    var more := text + units[..kept];
    forall i: nat | i < |more| ensures ShownAt(m', a', b', i, more[i]) {
      if i < n {
        assert ShownAt(m, a, b, i, text[i]);
        CellKept(m, m', a, b, text, w, units, i);
      } else {
        StoredCell(m, m', Span(w, n), w, units, i - n);
        SpanSum(w, n, i - n);
      }
    }
    AllShown(m', a', b', more);
  }

  ghost predicate ShownAt(m: seq<Byte>, a: nat, b: nat, i: nat, c: nat) {
    Span(WidthOf(a, b, i), i) + WidthOf(a, b, i) <= |m| && Load(m, Span(WidthOf(a, b, i), i), WidthOf(a, b, i)) == c
  }

  lemma AllShown(m: seq<Byte>, a: nat, b: nat, text: Text)
    requires a <= b <= |text| && Span(4, |text|) <= |m| && forall i: nat :: i < |text| ==> ShownAt(m, a, b, i, text[i])
    ensures Shows(m, a, b, text)
  {
    hide Load;
    forall i: nat | i < |text| ensures ShownAt(m, a, b, i, text[i]) {
    }
  }

  lemma CellKept(m: seq<Byte>, m': seq<Byte>, a: nat, b: nat, text: Text, w: nat, units: Text, i: nat)
    requires Shows(m, a, b, text) && IsWidth(w) && i < |text| && Span(w, |text|) <= |m|
    requires (w == 1 ==> a == |text|) && (w == 2 ==> b == |text|)
    requires StoredAt(m, m', Span(w, |text|), w, units)
    ensures ShownAt(m', a, b, i, text[i])
  {
  }
}

module StringDecoder {
  import opened Memory
  import opened Segments
  import opened PyObjects
  import opened JsonText
  import opened Utf8
  import opened JsonString
  import opened Utf8Blocks
  import opened BlockLoop
  import opened StringSegments

  /** DECODE_LOOPSTATE_* */
  datatype Status = Continue | End | Escape | Promote | Invalid(error: StrError)

  lemma BelowMore(chars: Text, c: nat, limit: nat)
    ensures AllBelow(chars + [c], limit) <==> AllBelow(chars, limit) && c < limit
  {
    assert (chars + [c])[|chars|] == c;
    assert forall i :: 0 <= i < |chars| ==> (chars + [c])[i] == chars[i];
  }

  predicate Reaches(chars: Text, floor: nat) {
    exists i :: 0 <= i < |chars| && chars[i] >= floor
  }

  /** The first code point that makes a view of this width necessary. */
  function WidthFloor(width: nat): nat {
    if width == 4 then 0x1_0000 else if width == 2 then 0x100 else 0
  }

  /** The finished string object: its kind and its cells. */
  datatype StrObject = StrObject(level: Level, data: array<Byte>)

  ghost predicate Holds(o: StrObject, chars: Text)
    reads o.data
  {
    && o.data.Length == Span(o.level.Width(), |chars|)
    && forall i: nat :: i < |chars| ==>
      Span(o.level.Width(), i) + o.level.Width() <= o.data.Length
        && Load(o.data[..], Span(o.level.Width(), i), o.level.Width()) == chars[i]
  }

  /** What was read so far, and that reading on from `pos` completes it. */
  ghost predicate ReadSoFar(src: seq<Byte>, end: nat, start: nat, pos: nat, text: Text) {
    && Source(src, end) && start <= pos <= end && |text| <= pos - start
    && Chars(src, end, start) == Chars(src, end, pos).After(text) && StopsAt(src, end, start) == StopsAt(src, end, pos)
  }

  lemma ReachesNow(text: Text, c: nat, floor: nat)
    requires c >= floor
    ensures Reaches(text + [c], floor)
  {
    assert (text + [c])[|text|] >= floor;
  }

  lemma ReadMore(src: seq<Byte>, end: nat, start: nat, pos: nat, text: Text, c: nat, n: nat)
    requires ReadSoFar(src, end, start, pos, text) && ItemAt(src, end, pos) == Char(c, n)
    ensures ReadSoFar(src, end, start, pos + n, text + [c])
  {
    hide ItemAt;
    var rest := Chars(src, end, pos + n);
    if rest.Read? {
      assert text + ([c] + rest.chars) == text + [c] + rest.chars;
    }
  }

  /** A whole run of items. */
  lemma {:induction false} ReadMany(src: seq<Byte>, end: nat, start: nat, pos: nat, text: Text, chars: Text, q: nat)
    requires Source(src, end) && ReadSoFar(src, end, start, pos, text) && Items(src, end, pos, chars, q)
    ensures ReadSoFar(src, end, start, q, text + chars)
    decreases |chars|
  {
    hide ItemAt, ReadSoFar;
    if chars == [] {
      assert text + chars == text;
    } else {
      var c, n := chars[0], ItemAt(src, end, pos).size;
      assert ItemAt(src, end, pos) == Char(c, n);
      ReadMore(src, end, start, pos, text, c, n);
      ReadMany(src, end, start, pos + n, text + [c], chars[1..], q);
      assert text + [c] + chars[1..] == text + chars;
    }
  }

  // ----- Whether the text is ASCII -----

  /** A byte of a multi-byte sequence comes before the next quote, backslash or control character. */
  ghost predicate NonAsciiAhead(src: seq<Byte>, end: nat, p: nat)
    requires end < |src|
  {
    exists q :: p <= q < end && src[q] >= 0x80 && forall i :: p <= i < q ==> !AsciiStop(src[i])
  }

  /** The flag is cleared at the first block with such a byte, before the byte is read. */
  ghost predicate AsciiFact(src: seq<Byte>, end: nat, pos: nat, text: Text, isAscii: bool)
    requires end < |src|
  {
    if isAscii then AllBelow(text, 0x80) else Reaches(text, 0x80) || NonAsciiAhead(src, end, pos)
  }

  lemma AsciiOn(src: seq<Byte>, end: nat, pos: nat, text: Text, isAscii: bool, c: nat, n: nat)
    requires Source(src, end) && pos <= end && ItemAt(src, end, pos) == Char(c, n)
    requires AsciiFact(src, end, pos, text, isAscii) && (isAscii ==> c < 0x80)
    ensures AsciiFact(src, end, pos + n, text + [c], isAscii)
  {
    BelowMore(text, c, 0x80);
    if !isAscii {
      if Reaches(text, 0x80) {
        var i :| 0 <= i < |text| && text[i] >= 0x80;
        assert (text + [c])[i] >= 0x80;
      } else if src[pos] < 0x80 {
        PlainItem(src, end, pos);
      } else {
        SequenceAbove(src, end, pos);
        assert (text + [c])[|text|] >= 0x80;
      }
    }
  }

  lemma SequenceAbove(src: seq<Byte>, end: nat, p: nat)
    requires Source(src, end) && p <= end && src[p] >= 0x80 && ItemAt(src, end, p).Char?
    ensures ItemAt(src, end, p).value >= 0x80
  {
    SeqItems(src, end, p);
    hide ToB2, ToB3, ToB4;
  }

  lemma {:induction false} AsciiMany(src: seq<Byte>, end: nat, pos: nat, text: Text, isAscii: bool, chars: Text, q: nat)
    requires Source(src, end) && Items(src, end, pos, chars, q)
    requires AsciiFact(src, end, pos, text, isAscii) && (isAscii ==> AllBelow(chars, 0x80))
    ensures AsciiFact(src, end, q, text + chars, isAscii)
    decreases |chars|
  {
    hide ItemAt, AsciiFact;
    if chars == [] {
      assert text + chars == text;
    } else {
      var c, n := chars[0], ItemAt(src, end, pos).size;
      AsciiOn(src, end, pos, text, isAscii, c, n);
      AsciiMany(src, end, pos + n, text + [c], isAscii, chars[1..], q);
      assert text + [c] + chars[1..] == text + chars;
    }
  }

  lemma EscapeAscii(src: seq<Byte>, end: nat, pos: nat, text: Text, isAscii: bool, v: nat, n: nat)
    requires Source(src, end) && pos < end && ItemAt(src, end, pos) == Char(v, n) && src[pos] == SLASH
    requires AsciiFact(src, end, pos, text, isAscii)
    ensures AsciiFact(src, end, pos + n, text + [v], isAscii && v < 0x80)
  {
    if v < 0x80 {
      AsciiOn(src, end, pos, text, isAscii, v, n);
    } else {
      ReachesNow(text, v, 0x80);
    }
  }

  /** At a quote or an escape the flag says what the text is. */
  lemma AsciiSettled(src: seq<Byte>, end: nat, pos: nat, text: Text, isAscii: bool)
    requires Source(src, end) && pos <= end && AsciiStop(src[pos]) && AsciiFact(src, end, pos, text, isAscii)
    ensures isAscii <==> AllBelow(text, 0x80)
  {
  }

  /** The view in use is one the text needs, counting the item about to be read. */
  ghost predicate Justified(src: seq<Byte>, end: nat, pos: nat, text: Text, width: nat)
    requires Source(src, end) && pos <= end
  {
    width == 1 || Reaches(text, WidthFloor(width))
      || (ItemAt(src, end, pos).Char? && ItemAt(src, end, pos).value >= WidthFloor(width))
  }

  /** decode_bytes_utf8 with its local variables as fields. */
  class Decoder {
    const src: seq<Byte>
    const end: nat
    const start: nat
    const buf: array<Byte>
    var pos: nat
    /** Which of the three writers is in use, and its index in its view. */
    var width: nat
    var count: nat
    var u8size: nat
    var u16size: nat
    var isAscii: bool
    ghost var text: Text

    ghost predicate Buffered()
      reads `count, `text, `width, `u8size, `u16size, buf
    {
      && IsWidth(width) && count == |text| && (width <= 2 ==> u16size == 0)
      && Shows(buf[..], if width == 1 then count else u8size, if width <= 2 then count else u8size + u16size, text)
    }

    ghost predicate Reading()
      reads `pos, `text
    {
      ReadSoFar(src, end, start, pos, text) && Span(4, end - start) <= buf.Length
    }

    ghost predicate Leveled()
      reads `pos, `text, `width
    {
      && Source(src, end) && pos <= end
      && AllBelow(text, WidthLimit(width)) && Justified(src, end, pos, text, width)
    }

    ghost predicate AsciiKnown()
      reads `isAscii, `text, `width, `pos
    {
      Source(src, end) && (width == 1 ==> AsciiFact(src, end, pos, text, isAscii))
    }

    constructor (src: seq<Byte>, end: nat, start: nat, buf: array<Byte>)
      requires Source(src, end) && start <= end && Span(4, end - start) <= buf.Length
      ensures this.src == src && this.end == end && this.start == start && this.buf == buf
      ensures Buffered() && Reading() && Leveled() && AsciiKnown() && pos == start && text == [] && width == 1
    {
      this.src, this.end, this.start, this.buf := src, end, start, buf;
      pos, width, count, u8size, u16size, isAscii, text := start, 1, 0, 0, 0, true, [];
    }

    /** One element through the writer in use, and past its bytes in the source. */
    method Take(c: nat, n: nat)
      requires Buffered() && Reading() && Leveled()
      requires ItemAt(src, end, pos) == Char(c, n) && c < WidthLimit(width)
      modifies this`pos, this`count, this`text, buf
      ensures Buffered() && Reading() && Leveled()
      ensures text == old(text) + [c] && pos == old(pos) + n
    {
      hide ItemAt, Shows, ReadSoFar, Load;
      ReadRoom();
      ghost var m := buf[..];
      Store(buf, Span(width, count), width, c);
      ShowsMore(m, buf[..], if width == 1 then count else u8size,
        if width <= 2 then count else u8size + u16size, text, width, c);
      ReadMore(src, end, start, pos, text, c, n);
      JustifiedOn(src, end, pos, text, width, c, n);
      text := text + [c];
      count, pos := count + 1, pos + n;
    }

    lemma ReadRoom()
      requires Buffered() && Reading() && ItemAt(src, end, pos).Char?
      ensures Span(4, count + 1) <= buf.Length && Span(width, count) + width <= Span(4, count + 1)
    {
    }

    ghost predicate Valid()
      reads `pos, `count, `text, `width, `u8size, `u16size, buf
    {
      Buffered() && Reading() && Leveled()
    }

    lemma Bounds()
      requires Valid()
      ensures Source(src, end) && start <= pos <= end && pos + 4 <= |src| && IsWidth(width) && src[end] == 0
      ensures width == 2 ==> u8size <= count
    {
    }

    // ----- decode_bytes_block_scalar -----

    /** Plain characters, copied up to the limit. */
    method PlainRun(limit: nat)
      requires Valid() && AsciiKnown()
      modifies this`pos, this`count, this`text, buf
      ensures Valid() && AsciiKnown() && old(pos) <= pos <= end && Source(src, end)
      ensures pos >= limit || Stop(src[pos])
      ensures ScalarEnd(src, end, pos, width, limit) == ScalarEnd(src, end, old(pos), width, limit)
    {
      hide Valid, AsciiKnown, ItemAt, Buffered, Reading, Leveled, MultiEnd;
      Bounds();
      while pos < limit && !Stop(src[pos])
        invariant Valid() && AsciiKnown() && old(pos) <= pos <= end && pos + 4 <= |src|
        invariant ScalarEnd(src, end, pos, width, limit) == ScalarEnd(src, end, old(pos), width, limit)
        decreases limit - pos
      {
        TakePlain();
        Bounds();
      }
    }

    method TakePlain()
      requires Valid() && AsciiKnown() && pos < |src| && !Stop(src[pos])
      modifies this`pos, this`count, this`text, buf
      ensures Valid() && AsciiKnown() && pos == old(pos) + 1
    {
      hide Buffered, Reading, AsciiFact;
      Bounds();
      PlainItem(src, end, pos);
      if width == 1 {
        AsciiOn(src, end, pos, text, isAscii, src[pos], 1);
      }
      Take(src[pos], 1);
    }

    /** The multi-byte part of the u8 block: two-byte sequences below 0x100. */
    method RunU8()
      requires Valid() && AsciiKnown() && width == 1
      modifies this`pos, this`count, this`text, this`isAscii, buf
      ensures Valid() && AsciiKnown() && Source(src, end) && old(pos) <= end
      ensures pos == RunEndU8(src, end, old(pos))
      ensures pos == old(pos) ==> !(IsSeq2(src[pos], src[pos + 1]) && ToB2(src[pos], src[pos + 1]) < 0x100)
    {
      hide ItemAt, Buffered, Reading, Leveled, IsSeq2, ToB2;
      var runStart := pos;
      Bounds();
      while IsSeq2(src[pos], src[pos + 1]) && ToB2(src[pos], src[pos + 1]) < 0x100
        invariant Valid() && runStart <= pos && pos + 4 <= |src| && pos <= end
        invariant if pos == runStart then AsciiKnown() else Reaches(text, 0x80)
        invariant RunEndU8(src, end, pos) == RunEndU8(src, end, runStart)
        decreases end - pos
      {
        SeqItems(src, end, pos);
        ReachesNow(text, ToB2(src[pos], src[pos + 1]), 0x80);
        Take(ToB2(src[pos], src[pos + 1]), 2);
        Bounds();
      }
      if pos != runStart {
        isAscii := false;
      }
    }

    method RunOf2()
      requires Valid() && width >= 2
      modifies this`pos, this`count, this`text, buf
      ensures Valid() && Source(src, end) && old(pos) <= end && pos == RunEnd(src, end, old(pos), 2)
      ensures !IsSeq2(src[pos], src[pos + 1])
    {
      hide Valid, ItemAt, Buffered, Reading, Leveled, IsSeq2, ToB2;
      Bounds();
      while IsSeq2(src[pos], src[pos + 1])
        invariant Valid() && old(pos) <= pos <= end && pos + 4 <= |src|
        invariant RunEnd(src, end, pos, 2) == RunEnd(src, end, old(pos), 2)
        decreases end - pos
      {
        SeqItems(src, end, pos);
        TakeSeq(ToB2(src[pos], src[pos + 1]), 2);
        Bounds();
      }
    }

    method RunOf3()
      requires Valid() && width >= 2
      modifies this`pos, this`count, this`text, buf
      ensures Valid() && Source(src, end) && old(pos) <= end && pos == RunEnd(src, end, old(pos), 3)
      ensures !IsSeq3(src[pos], src[pos + 1], src[pos + 2])
    {
      hide Valid, ItemAt, Buffered, Reading, Leveled, IsSeq3, ToB3;
      Bounds();
      while IsSeq3(src[pos], src[pos + 1], src[pos + 2])
        invariant Valid() && old(pos) <= pos <= end && pos + 4 <= |src|
        invariant RunEnd(src, end, pos, 3) == RunEnd(src, end, old(pos), 3)
        decreases end - pos
      {
        SeqItems(src, end, pos);
        TakeSeq(ToB3(src[pos], src[pos + 1], src[pos + 2]), 3);
        Bounds();
      }
    }

    method RunOf4()
      requires Valid() && width == 4
      modifies this`pos, this`count, this`text, buf
      ensures Valid() && Source(src, end) && old(pos) <= end && pos == RunEnd(src, end, old(pos), 4)
      ensures !IsSeq4(src[pos], src[pos + 1], src[pos + 2], src[pos + 3])
    {
      hide Valid, ItemAt, Buffered, Reading, Leveled, IsSeq4, ToB4;
      Bounds();
      while IsSeq4(src[pos], src[pos + 1], src[pos + 2], src[pos + 3])
        invariant Valid() && old(pos) <= pos <= end && pos + 4 <= |src|
        invariant RunEnd(src, end, pos, 4) == RunEnd(src, end, old(pos), 4)
        decreases end - pos
      {
        SeqItems(src, end, pos);
        TakeSeq(ToB4(src[pos], src[pos + 1], src[pos + 2], src[pos + 3]), 4);
        Bounds();
      }
    }

    method TakeSeq(c: nat, n: nat)
      requires Valid() && Source(src, end) && pos <= end && ItemAt(src, end, pos) == Char(c, n) && c < WidthLimit(width)
      modifies this`pos, this`count, this`text, buf
      ensures Valid() && pos == old(pos) + n
    {
      Take(c, n);
    }

    /** decode_bytes_block_scalar in the instance of the current width. */
    method BlockScalar(limit: nat) returns (status: Status)
      requires Valid() && AsciiKnown()
      modifies this`pos, this`count, this`text, this`isAscii, buf
      ensures Valid() && AsciiKnown() && old(pos) <= pos <= end && Source(src, end)
      ensures pos == ScalarEnd(src, end, old(pos), width, limit)
      ensures if status == Continue then pos >= limit else pos < limit && Stopped(status)
    {
      hide Valid, AsciiKnown, Buffered, Reading, Leveled, IsSeq2, IsSeq3, IsSeq4, ToB2, ToB3, ToB4, EscapeItem,
        MultiEnd;
      Bounds();
      while true
        invariant Valid() && AsciiKnown() && old(pos) <= pos <= end
        invariant ScalarEnd(src, end, pos, width, limit) == ScalarEnd(src, end, old(pos), width, limit)
        decreases end - pos
      {
        PlainRun(limit);
        Bounds();
        if pos >= limit {
          return Continue;
        }
        var c := src[pos];
        if c < 0x80 {
          if c == QUOTE {
            return End;
          }
          if c == SLASH {
            return Escape;
          }
          return Invalid(if pos >= end then UnexpectedEnd else InvalidControl);
        }
        var runStart := pos;
        MultiByteRun();
        Bounds();
        if pos != runStart {
          continue;
        }
        SeqItems(src, end, pos);
        var is4 := IsSeq4(src[pos], src[pos + 1], src[pos + 2], src[pos + 3]);
        if width == 1 && (IsSeq2(src[pos], src[pos + 1]) || IsSeq3(src[pos], src[pos + 1], src[pos + 2]) || is4) {
          return Promote;
        }
        if width == 2 && is4 {
          return Promote;
        }
        return Invalid(SeqError(src, end, pos));
      }
    }

    /** The loops over multi-byte sequences that fit the width. */
    method MultiByteRun()
      requires Valid() && AsciiKnown() && pos + 4 <= |src| && src[pos] >= 0x80
      modifies this`pos, this`count, this`text, this`isAscii, buf
      ensures Valid() && AsciiKnown() && Source(src, end) && old(pos) <= end && pos + 4 <= |src|
      ensures pos == MultiEnd(src, end, old(pos), width)
      ensures pos == old(pos) && width == 1 ==>
        !(IsSeq2(src[pos], src[pos + 1]) && ToB2(src[pos], src[pos + 1]) < 0x100)
      ensures pos == old(pos) && width >= 2 ==>
        !IsSeq2(src[pos], src[pos + 1]) && !IsSeq3(src[pos], src[pos + 1], src[pos + 2])
      ensures pos == old(pos) && width == 4 ==> !IsSeq4(src[pos], src[pos + 1], src[pos + 2], src[pos + 3])
    {
      hide Valid, Buffered, Reading, Leveled, IsSeq2, IsSeq3, IsSeq4, ToB2, RunEnd, RunEndU8;
      Bounds();
      if width == 1 {
        RunU8();
      } else {
        if width == 4 {
          RunOf4();
          Bounds();
          if src[pos] < 0x80 {
            return;
          }
        }
        RunOf3();
        Bounds();
        if src[pos] < 0x80 {
          return;
        }
        RunOf2();
      }
      Bounds();
    }

    // ----- decode_bytes_block -----

    /** The units of a block, stored at once; the first `kept` of them are the next characters. */
    method StoreBlock(units: Text, kept: nat, size: nat)
      requires Valid() && AsciiKnown() && pos + 16 <= end && 0 < kept <= |units| <= 16
        && AllBelow(units, WidthLimit(width))
      requires Items(src, end, pos, units[..kept], pos + size)
        && (width == 1 && isAscii ==> AllBelow(units[..kept], 0x80))
      modifies this`pos, this`count, this`text, buf
      ensures Valid() && AsciiKnown() && pos == old(pos) + size
    {
      hide ItemAt, Shows, ReadSoFar, Load, Items, AsciiFact, StoredAt;
      BlockRoom(|units|);
      ghost var m, chars := buf[..], units[..kept];
      StoreAll(buf, Span(width, count), width, units);
      ShowsMany(m, buf[..], if width == 1 then count else u8size, if width <= 2 then count else u8size + u16size,
        text, width, units, kept);
      ReadMany(src, end, start, pos, text, chars, pos + size);
      BlockLeveled(src, end, pos, text, width, chars, pos + size);
      if width == 1 {
        AsciiMany(src, end, pos, text, isAscii, chars, pos + size);
      }
      text := text + chars;
      count, pos := count + kept, pos + size;
    }

    lemma BlockRoom(n: nat)
      requires Buffered() && Reading() && pos + 16 <= end && n <= 16
      ensures Span(4, |text| + n) <= buf.Length && Span(width, count) + Span(width, n) <= Span(4, |text| + n)
    {
    }

    /** decode_bytes_block in the instance of the current width: sixteen bytes at a time, as long as they show a
        pattern, and the scalar form in between. */
    method Block(x64: bool) returns (status: Status)
      requires Valid() && AsciiKnown() && end + 16 <= |src|
      modifies this`pos, this`count, this`text, this`isAscii, buf
      ensures Valid() && AsciiKnown() && old(pos) <= pos <= end && Source(src, end) && IsWidth(width)
      ensures pos == BlockEnd(src, end, old(pos), width, 32, x64).pos
      ensures if BlockEnd(src, end, old(pos), width, 32, x64).rejected
        then status == Invalid(InvalidUtf8)
        else Stopped(status)
    {
      hide Valid, AsciiKnown, Buffered, Reading, Leveled, HasStop, AllAscii, AnyAbove, Items, ItemAt,
        ScalarEnd, Compose, Stopped;
      Bounds();
      var budget: nat := 32;
      while true
        invariant Valid() && AsciiKnown() && old(pos) <= pos <= end && budget > 0
        invariant BlockEnd(src, end, pos, width, budget, x64) == BlockEnd(src, end, old(pos), width, 32, x64)
        decreases end - pos
      {
        Bounds();
        if HasStop(src, pos) {
          break;
        }
        WindowInside(src, end, pos);
        if AllAscii(src, pos) {
          StoreAscii();
          continue;
        }
        if width < 4 && AnyAbove(src, pos, PromoteAbove(width)) {
          break;
        }
        var c := Pattern(x64);
        match c {
          case Rejected =>
            status := Invalid(InvalidUtf8);
            return;
          case Taken(_, _, _) =>
            budget := 32;
          case Undecided =>
            status := BlockScalar(pos + budget);
            budget := Budget(budget);
            if status != Continue {
              return;
            }
        }
      }
      status := BlockScalar(end + 1);
    }

    /** Sixteen bytes that are not all ASCII and have no stop among them: one pattern, or none. */
    method Pattern(x64: bool) returns (c: Composed)
      requires Valid() && AsciiKnown() && Source(src, end) && pos + 16 <= end && IsWidth(width)
      requires !AllAscii(src, pos) && !HasStop(src, pos) && (width < 4 ==> !AnyAbove(src, pos, PromoteAbove(width)))
      modifies this`pos, this`count, this`text, this`isAscii, buf
      ensures Valid() && AsciiKnown() && c == Compose(src, old(pos), width, x64)
      ensures if c.Taken? then old(pos) < pos == old(pos) + c.size else pos == old(pos)
    {
      hide Valid, AsciiKnown, Buffered, Reading, Leveled, HasStop, AllAscii, AnyAbove, Items, ItemAt, Compose;
      if width == 1 {
        NotAscii();
      }
      NoneAbove(src, pos, width);
      ComposedReads(src, end, pos, width, x64);
      c := Compose(src, pos, width, x64);
      if c.Taken? {
        StoreBlock(c.units, c.kept, c.size);
      }
    }

    /** Why the scalar form stopped before its limit. */
    ghost predicate Stopped(status: Status)
      reads `pos, `width
      requires Source(src, end) && pos <= end
    {
      match status
      case Continue => false
      case End => ItemAt(src, end, pos) == Close
      case Escape => src[pos] == SLASH
      case Promote =>
        src[pos] >= 0x80 && width < 4 && ItemAt(src, end, pos).Char? && ItemAt(src, end, pos).value >= WidthLimit(width)
      case Invalid(e) => ItemAt(src, end, pos) == Bad(e)
    }

    method StoreAscii()
      requires Valid() && AsciiKnown() && pos + 16 <= end && AllAscii(src, pos) && !HasStop(src, pos)
      modifies this`pos, this`count, this`text, buf
      ensures Valid() && AsciiKnown() && pos == old(pos) + 16
    {
      hide Valid, AsciiKnown, ItemAt, Items;
      Bounds();
      var units := src[pos..pos + 16];
      PlainRead(src, end, pos, pos + 16);
      assert units[..16] == units;
      StoreBlock(units, 16, 16);
    }

    /** is_ascii is cleared before the bytes above 7F are read. */
    method NotAscii()
      requires Valid() && pos + 16 <= end && !AllAscii(src, pos) && !HasStop(src, pos)
      modifies this`isAscii
      ensures Valid() && AsciiKnown() && !isAscii
    {
      isAscii := false;
      var q :| pos <= q < pos + 16 && src[q] >= 0x80;
      assert NonAsciiAhead(src, end, pos);
    }

    // ----- decode_bytes_utf8 -----

    /** promote_buffer_u8_to_u16, promote_buffer_u8_to_u32, promote_buffer_u16_to_u32: the writer goes to
        the same element index of the wider view. */
    method Widen(to: nat)
      requires Valid() && width < to && (to == 2 || to == 4)
      requires Source(src, end) && pos <= end && ItemAt(src, end, pos).Char?
        && ItemAt(src, end, pos).value >= WidthFloor(to)
      modifies this`width, this`u8size, this`u16size
      ensures Valid() && width == to
    {
      hide ItemAt, Shows, ReadSoFar;
      Bounds();
      if width == 1 {
        u8size := count;
      } else {
        u16size := count - u8size;
      }
      width := to;
    }

    /** process_escape_ascii_u8, process_escape_ascii_u16 and process_escape_ascii_u32 */
    method ProcessEscape(v: nat, n: nat)
      requires Valid() && AsciiKnown() && Source(src, end) && pos < end
      requires src[pos] == SLASH && EscapeItem(src, end, pos) == Char(v, n)
      modifies this`pos, this`count, this`text, this`width, this`u8size, this`u16size, this`isAscii, buf
      ensures Valid() && AsciiKnown() && old(pos) < pos == old(pos) + n
      ensures IsWidth(old(width)) && width == EscapeWidth(old(width), v)
    {
      hide Valid, Buffered, Reading, Leveled, EscapeItem;
      assert ItemAt(src, end, pos) == Char(v, n);
      ItemScalar(src, end, pos);
      Bounds();
      ghost var wasAscii := isAscii;
      if width == 1 {
        if v < 0x80 {
        } else if v < 0x100 {
          isAscii := false;
        } else if v < 0x1_0000 {
          Widen(2);
        } else {
          Widen(4);
        }
      } else if width == 2 {
        if v >= 0x1_0000 {
          Widen(4);
        }
      }
      hide ItemAt, AllBelow, AsciiFact;
      if width == 1 {
        EscapeAscii(src, end, pos, text, wasAscii, v, n);
      }
      TakeEscape(v, n);
    }

    method TakeEscape(v: nat, n: nat)
      requires Valid() && Source(src, end) && pos <= end && ItemAt(src, end, pos) == Char(v, n) && v < WidthLimit(width)
      modifies this`pos, this`count, this`text, buf
      ensures Valid() && pos == old(pos) + n && text == old(text) + [v]
    {
      Take(v, n);
    }

    /** utf8_lead_min_ucs_level and the promotion. */
    method PromoteFor()
      requires Valid() && AsciiKnown() && Source(src, end) && pos <= end && src[pos] >= 0x80 && width < 4
      requires ItemAt(src, end, pos).Char? && ItemAt(src, end, pos).value >= WidthLimit(width)
      modifies this`width, this`u8size, this`u16size
      ensures Valid() && AsciiKnown() && IsWidth(old(width)) && width == LeadWidth(old(width), src[pos])
    {
      hide Valid, Buffered, Reading, Leveled;
      LeadLevel(src, end, pos);
      Bounds();
      if width == 1 && src[pos] < 0xF0 {
        Widen(2);
      } else {
        Widen(4);
      }
    }

    /** The loops of decode_bytes_utf8 up to the closing quote. */
    method Run(x64: bool) returns (r: Status)
      requires Valid() && AsciiKnown() && end + 16 <= |src|
      modifies this`pos, this`count, this`text, this`width, this`u8size, this`u16size, this`isAscii, buf
      ensures Valid() && AsciiKnown() && Source(src, end) && pos <= end && old(pos) <= end && IsWidth(old(width))
      ensures if Rejects(src, end, old(pos), old(width), x64)
        then r == Invalid(InvalidUtf8)
        else (r.End? && ItemAt(src, end, pos) == Close) || (r.Invalid? && ItemAt(src, end, pos) == Bad(r.error))
    {
      hide Valid, AsciiKnown, Buffered, Reading, Leveled, EscapeItem, BlockEnd;
      Bounds();
      while true
        invariant Valid() && AsciiKnown() && pos <= end && Source(src, end) && IsWidth(width)
        invariant Rejects(src, end, pos, width, x64) == Rejects(src, end, old(pos), old(width), x64)
        decreases end - pos, 4 - width
      {
        r := Block(x64);
        Bounds();
        match r {
          case Continue =>
            assert false;
          case End =>
            return;
          case Escape =>
            var item := EscapeItem(src, end, pos);
            if item.Bad? {
              return Invalid(item.error);
            }
            ProcessEscape(item.value, item.size);
            Bounds();
          case Promote =>
            PromoteFor();
            Bounds();
          case Invalid(_) =>
            return;
        }
      }
    }

    // ----- The string object -----

    /** Copy elements of one segment to their places in the object. */
    method CopySegment(data: array<Byte>, w: nat, to: nat, from: nat, upTo: nat)
      requires IsWidth(w) && IsWidth(to) && w <= to && from <= upTo && Span(to, upTo) <= data.Length
        && Span(w, upTo) <= buf.Length
      requires data != buf
      modifies data
      ensures SameOutside(old(data[..]), data[..], Span(to, from), Span(to, upTo))
      ensures forall i: nat :: from <= i < upTo ==>
        Span(to, i) + to <= data.Length && Span(w, i) + w <= buf.Length
          && Load(data[..], Span(to, i), to) == Load(buf[..], Span(w, i), w)
    {
      hide Load;
      ghost var m, d := buf[..], data[..];
      var k := from;
      forall i: nat | i < upTo ensures Span(to, i) + to <= data.Length && Span(w, i) + w <= buf.Length {
        SpanStep(to, i);
        SpanStep(w, i);
        SpanMono(to, i + 1, upTo);
        SpanMono(w, i + 1, upTo);
      }
      while k < upTo
        invariant from <= k <= upTo && buf[..] == m
        invariant SameOutside(d, data[..], Span(to, from), Span(to, k))
        invariant forall i: nat :: from <= i < k ==> Load(data[..], Span(to, i), to) == Load(m, Span(w, i), w)
      {
        var v := LoadFrom(buf, Span(w, k), w);
        ghost var before := data[..];
        CellGrows(w, to);
        Store(data, Span(to, k), to, v);
        forall i: nat | from <= i < k ensures Load(data[..], Span(to, i), to) == Load(m, Span(w, i), w) {
          SpanStep(to, i);
          LoadLocal(before, data[..], Span(to, i), to);
        }
        k := k + 1;
      }
    }

    /** make_unicode_from_src_ascii, make_unicode_ucs1, make_unicode_ucs2 and make_unicode_ucs4: the kind is the
        smallest one for the characters. */
    method MakeUnicode() returns (o: StrObject)
      requires Valid() && AsciiKnown() && Source(src, end) && pos <= end && ItemAt(src, end, pos) == Close
      ensures fresh(o.data) && Holds(o, text) && Fits(o.level, text) && Needed(o.level, text)
    {
      AsciiSettledHere();
      hide ItemAt, ReadSoFar, Load, Shows, AsciiFact;
      var level := if width == 1 then (if isAscii then Ascii else Ucs1) else if width == 2 then Ucs2 else Ucs4;
      var data := new Byte[Span(level.Width(), count)];
      var a := if width == 1 then count else u8size;
      var b := if width <= 2 then count else u8size + u16size;
      CopySegments(data, level.Width(), a, b);
      o := StrObject(level, data);
    }

    lemma AsciiSettledHere()
      requires Valid() && AsciiKnown() && Source(src, end) && pos <= end && ItemAt(src, end, pos) == Close
      ensures width == 1 ==> (isAscii <==> AllBelow(text, 0x80))
    {
      if width == 1 {
        AsciiSettled(src, end, pos, text, isAscii);
      }
    }

    /** Each segment to its place. */
    method CopySegments(data: array<Byte>, to: nat, a: nat, b: nat)
      requires IsWidth(to) && Shows(buf[..], a, b, text) && data != buf
      requires (a < b ==> to >= 2) && (b < |text| ==> to == 4) && count == |text|
      requires data.Length == Span(to, |text|)
      modifies data
      ensures forall i: nat :: i < |text| ==>
        Span(to, i) + to <= data.Length && Load(data[..], Span(to, i), to) == text[i]
    {
      ghost var n := |text|;
      SpanMono(to, a, b);
      SpanMono(to, b, n);
      CopySegment(data, 1, to, 0, a);
      ghost var d1 := data[..];
      if a < b {
        CopySegment(data, 2, to, a, b);
      }
      ghost var d2 := data[..];
      if b < count {
        CopySegment(data, 4, to, b, count);
      }
      hide Shows, Load;
      forall i: nat | i < n
        ensures Span(to, i) + to <= data.Length && Load(data[..], Span(to, i), to) == text[i]
      {
        Assembled(buf[..], d1, d2, data[..], to, a, b, text, i);
      }
    }

    /** The prefix that the scan found plain, copied at once. */
    method CopyPrefix(upTo: nat)
      requires Valid() && AsciiKnown() && pos == start && width == 1 && text == [] && start <= upTo <= end
      requires forall i :: start <= i < upTo ==> !Stop(src[i])
      modifies this`pos, this`count, this`text, buf
      ensures Valid() && AsciiKnown() && pos == upTo
    {
      hide ItemAt, ReadSoFar, Load, StoredAt;
      PrefixRoom(upTo);
      var prefix := src[start..upTo];
      PlainText(src, end, start, upTo);
      SpanWider(1, 4, |prefix|);
      ghost var m := buf[..];
      StoreAll(buf, 0, 1, prefix);
      pos, count, text := upTo, |prefix|, prefix;
      PrefixShown(m, buf[..], prefix);
      PrefixBelow(src, start, upTo);
    }

    lemma PrefixRoom(upTo: nat)
      requires Valid() && start <= upTo <= end
      ensures Source(src, end) && end < |src| && Span(4, upTo - start) <= buf.Length
    {
      SpanMono(4, upTo - start, end - start);
    }
  }

  lemma PrefixShown(m: seq<Byte>, m': seq<Byte>, prefix: Text)
    requires Span(4, |prefix|) <= |m'| && StoredAt(m, m', 0, 1, prefix)
    ensures Shows(m', |prefix|, |prefix|, prefix)
  {
    hide Load;
    forall i: nat | i < |prefix| ensures Load(m', Span(1, i), 1) == prefix[i] {
      assert Load(m', 0 + Span(1, i), 1) == prefix[i];
    }
  }

  lemma PrefixBelow(src: seq<Byte>, start: nat, upTo: nat)
    requires start <= upTo <= |src| && forall i :: start <= i < upTo ==> !Stop(src[i])
    ensures AllBelow(src[start..upTo], 0x80)
  {
  }

  /** Plain bytes are the characters they show. */
  lemma {:induction false} PlainText(src: seq<Byte>, end: nat, start: nat, upTo: nat)
    requires Source(src, end) && start <= upTo <= end
    requires forall i :: start <= i < upTo ==> !Stop(src[i])
    ensures ReadSoFar(src, end, start, upTo, src[start..upTo])
    decreases upTo
  {
    if start == upTo {
      assert src[start..upTo] == [];
      NothingRead(src, end, start);
    } else {
      PlainText(src, end, start, upTo - 1);
      ReadMore(src, end, start, upTo - 1, src[start..upTo - 1], src[upTo - 1], 1);
      assert src[start..upTo] == src[start..upTo - 1] + [src[upTo - 1]];
    }
  }

  lemma NothingRead(src: seq<Byte>, end: nat, start: nat)
    requires Source(src, end) && start <= end
    ensures ReadSoFar(src, end, start, start, [])
  {
  }

  lemma Assembled(m: seq<Byte>, d1: seq<Byte>, d2: seq<Byte>, d3: seq<Byte>, to: nat, a: nat, b: nat, text: Text,
      i: nat)
    requires Shows(m, a, b, text) && IsWidth(to) && i < |text| && |d1| == |d2| == |d3| == Span(to, |text|)
    requires i < a ==> Span(to, i) + to <= |d1| && Load(d1, Span(to, i), to) == Load(m, Span(1, i), 1)
    requires a <= i < b ==> Span(to, i) + to <= |d2| && Load(d2, Span(to, i), to) == Load(m, Span(2, i), 2)
    requires b <= i ==> Span(to, i) + to <= |d3| && Load(d3, Span(to, i), to) == Load(m, Span(4, i), 4)
    requires SameOutside(d1, d2, Span(to, a), Span(to, b)) && SameOutside(d2, d3, Span(to, b), Span(to, |text|))
    ensures Span(to, i) + to <= |d3| && Load(d3, Span(to, i), to) == text[i]
  {
  }

  lemma CellGrows(w: nat, to: nat)
    requires IsWidth(w) && IsWidth(to) && w <= to
    ensures CellLimit(w) <= CellLimit(to)
  {
  }

  /** What the lead byte tells about the width needed. */
  lemma LeadLevel(src: seq<Byte>, end: nat, p: nat)
    requires Source(src, end) && p <= end && src[p] >= 0x80 && ItemAt(src, end, p).Char?
    ensures ItemAt(src, end, p).value < 0x100 <==> src[p] < 0xC4
    ensures ItemAt(src, end, p).value < 0x1_0000 <==> src[p] < 0xF0
  {
  }

  /** The items at the three kinds of sequences. */
  lemma SeqItems(src: seq<Byte>, end: nat, p: nat)
    requires Source(src, end) && p <= end
    ensures IsSeq2(src[p], src[p + 1]) ==>
      ItemAt(src, end, p) == Char(ToB2(src[p], src[p + 1]), 2) && 0x80 <= ToB2(src[p], src[p + 1]) < 0x800
    ensures IsSeq3(src[p], src[p + 1], src[p + 2]) ==>
      ItemAt(src, end, p) == Char(ToB3(src[p], src[p + 1], src[p + 2]), 3)
        && 0x800 <= ToB3(src[p], src[p + 1], src[p + 2]) < 0x1_0000
    ensures IsSeq4(src[p], src[p + 1], src[p + 2], src[p + 3]) ==>
      ItemAt(src, end, p) == Char(ToB4(src[p], src[p + 1], src[p + 2], src[p + 3]), 4)
      && 0x1_0000 <= ToB4(src[p], src[p + 1], src[p + 2], src[p + 3]) < 0x11_0000
  {
    hide ToB2, ToB3, ToB4;
    var b0, b1, b2, b3 := src[p], src[p + 1], src[p + 2], src[p + 3];
    if IsSeq2(b0, b1) {
      Decoded2(b0, b1);
    } else if IsSeq3(b0, b1, b2) {
      Decoded3(b0, b1, b2);
    } else if IsSeq4(b0, b1, b2, b3) {
      Decoded4(b0, b1, b2, b3);
    }
  }

  /** After a block every character fits the view, which is as much needed as before. */
  lemma BlockLeveled(src: seq<Byte>, end: nat, pos: nat, text: Text, width: nat, chars: Text, q: nat)
    requires Source(src, end) && pos <= end && Justified(src, end, pos, text, width)
    requires Items(src, end, pos, chars, q) && chars != []
    requires AllBelow(text, WidthLimit(width)) && AllBelow(chars, WidthLimit(width))
    ensures q <= end && Justified(src, end, q, text + chars, width) && AllBelow(text + chars, WidthLimit(width))
  {
    hide ItemAt;
    ItemsInside(src, end, pos, chars, q);
    if Reaches(text, WidthFloor(width)) {
      var i :| 0 <= i < |text| && text[i] >= WidthFloor(width);
      assert (text + chars)[i] == text[i];
    } else if width != 1 {
      assert (text + chars)[|text|] >= WidthFloor(width);
    }
  }

  lemma {:induction false} ItemsInside(src: seq<Byte>, end: nat, p: nat, chars: Text, q: nat)
    requires Source(src, end) && Items(src, end, p, chars, q)
    ensures q <= end
    decreases |chars|
  {
    hide ItemAt;
    if chars != [] {
      ItemsInside(src, end, p + ItemAt(src, end, p).size, chars[1..], q);
    }
  }

  lemma JustifiedOn(src: seq<Byte>, end: nat, pos: nat, text: Text, width: nat, c: nat, n: nat)
    requires Source(src, end) && pos <= end && ItemAt(src, end, pos) == Char(c, n)
      && Justified(src, end, pos, text, width)
    ensures pos + n <= end && Justified(src, end, pos + n, text + [c], width)
  {
    hide ItemAt;
    if Reaches(text, WidthFloor(width)) {
      var i :| 0 <= i < |text| && text[i] >= WidthFloor(width);
      assert (text + [c])[i] == text[i];
    } else if width != 1 {
      assert (text + [c])[|text|] >= WidthFloor(width);
    }
  }

  // ----- loads_bytes -----

  /** decode_bytes_scan_loop and decode_bytes_scan_loop4: n bytes at once, or up to the first stop byte. */
  method ScanLoop(src: seq<Byte>, p: nat, n: nat) returns (q: nat, clean: bool)
    requires p + n <= |src|
    ensures p <= q <= p + n && forall i :: p <= i < q ==> !Stop(src[i])
    ensures if clean then q == p + n else q < p + n && Stop(src[q])
  {
    q := p;
    while q < p + n && !Stop(src[q])
      invariant p <= q <= p + n && forall i :: p <= i < q ==> !Stop(src[i])
    {
      q := q + 1;
    }
    clean := q == p + n;
  }

  /** Find the first stop byte; the terminating zero is one, so no scan runs away. */
  method Scan(src: seq<Byte>, end: nat, start: nat, batch: nat, isKey: bool) returns (q: nat)
    requires Source(src, end) && start <= end && 0 < batch && end + batch <= |src|
    ensures start <= q <= end && Stop(src[q]) && forall i :: start <= i < q ==> !Stop(src[i])
  {
    q := start;
    var clean := true;
    if !isKey {
      q, clean := ScanLoop(src, q, batch);
      if clean {
        q, clean := ScanLoop(src, q, batch);
        while clean && end - q >= 3 * batch
          invariant start <= q <= end && forall i :: start <= i < q ==> !Stop(src[i])
          invariant !clean ==> Stop(src[q])
          decreases end - q, clean
        {
          q, clean := ScanLoop(src, q, 4 * batch);
        }
      }
    }
    while clean
      invariant start <= q <= end && forall i :: start <= i < q ==> !Stop(src[i])
      invariant !clean ==> Stop(src[q])
      decreases end - q, clean
    {
      q, clean := ScanLoop(src, q, batch);
    }
  }

  datatype Loaded = Loaded(str: StrObject, next: nat) | Failed(error: StrError)

  /** What reading one item at a time gives: the characters in the smallest kind and the place behind the closing
      quote, or the error. */
  ghost predicate AsRead(src: seq<Byte>, end: nat, start: nat, r: Loaded)
    requires Source(src, end) && start <= end
    reads if r.Loaded? then {r.str.data} else {}
  {
    match Chars(src, end, start)
    case Wrong(e) => r == Failed(e)
    case Read(chars, next) =>
      && r.Loaded? && r.next == next
      && Holds(r.str, chars) && Fits(r.str.level, chars) && Needed(r.str.level, chars)
  }

  /** What loading answers: the same, except that a block that is rejected as a whole answers "invalid UTF-8".
      Whether one is rejected depends on the input alone. */
  ghost predicate Answers(src: seq<Byte>, end: nat, start: nat, x64: bool, r: Loaded)
    requires Source(src, end) && start <= end && end + 16 <= |src|
    reads if r.Loaded? then {r.str.data} else {}
  {
    if LoadRejects(src, end, start, x64) then r == Failed(InvalidUtf8) else AsRead(src, end, start, r)
  }

  /** Loading answers what reading gives if and only if no block is rejected in which the end of the source cuts the
      bad sequence short. */
  lemma SameAnswer(src: seq<Byte>, end: nat, start: nat, x64: bool, r: Loaded)
    requires Source(src, end) && start <= end && end + 16 <= |src| && Answers(src, end, start, x64, r)
    ensures AsRead(src, end, start, r)
      <==> !(LoadRejects(src, end, start, x64) && CutShort(src, end, StopsAt(src, end, start)))
  {
    hide LoadRejects, CutShort, StopsAt, Chars, Holds;
    if LoadRejects(src, end, start, x64) {
      LoadRejectsWrong(src, end, start, x64);
    }
  }

  /** A string that can be read is loaded as it is read. */
  lemma ReadIsLoaded(src: seq<Byte>, end: nat, start: nat, x64: bool, r: Loaded)
    requires Source(src, end) && start <= end && end + 16 <= |src| && Answers(src, end, start, x64, r)
    requires Chars(src, end, start).Read?
    ensures AsRead(src, end, start, r)
  {
    hide LoadRejects, CutShort, StopsAt, Chars, Holds;
    if LoadRejects(src, end, start, x64) {
      LoadRejectsWrong(src, end, start, x64);
    }
  }

  /** loads_bytes, from the byte behind the opening quote. */
  method LoadsBytes(src: seq<Byte>, end: nat, start: nat, buf: array<Byte>, batch: nat, isKey: bool, x64: bool)
    returns (r: Loaded)
    requires Source(src, end) && start <= end && Span(4, end - start) <= buf.Length
    requires 0 < batch && end + batch <= |src| && end + 16 <= |src|
    modifies buf
    ensures Answers(src, end, start, x64, r) && (r.Loaded? ==> fresh(r.str.data))
  {
    hide ItemAt, Load, Holds, Rejects;
    var q := Scan(src, end, start, batch, isKey);
    FirstStopIs(src, end, start, q);
    PlainText(src, end, start, q);
    var c := src[q];
    if c == QUOTE {
      var o := AsciiObject(src[start..q]);
      ReadsClose(src, end, q);
      r := Loaded(o, q + 1);
      assert src[start..q] + [] == src[start..q];
      return;
    }
    if c < 32 {
      ReadsBad(src, end, q);
      r := Failed(if q >= end then UnexpectedEnd else InvalidControl);
      return;
    }
    r := DecodeBytesUtf8(src, end, start, q, buf, x64);
  }

  /** make_unicode_from_src_ascii, without the cache. */
  method AsciiObject(chars: seq<Byte>) returns (o: StrObject)
    requires AllBelow(chars, 0x80)
    ensures fresh(o.data) && Holds(o, chars) && o.level == Ascii && Fits(Ascii, chars)
  {
    var data := new Byte[|chars|];
    StoreAll(data, 0, 1, chars);
    o := StrObject(Ascii, data);
    forall i: nat | i < |chars| ensures Load(data[..], Span(1, i), 1) == chars[i] {
      assert Load(data[..], 0 + Span(1, i), 1) == chars[i];
    }
  }

  lemma ReadsBad(src: seq<Byte>, end: nat, p: nat)
    requires Source(src, end) && p <= end && src[p] < 32
    ensures Chars(src, end, p) == Wrong(if p >= end then UnexpectedEnd else InvalidControl)
  {
  }

  method DecodeBytesUtf8(src: seq<Byte>, end: nat, start: nat, q: nat, buf: array<Byte>, x64: bool)
    returns (r: Loaded)
    requires Source(src, end) && start <= q <= end && Span(4, end - start) <= buf.Length && end + 16 <= |src|
    requires forall i :: start <= i < q ==> !Stop(src[i])
    requires src[q] == SLASH || src[q] >= 0x80
    modifies buf
    ensures Answers(src, end, start, x64, r) && (r.Loaded? ==> fresh(r.str.data))
  {
    hide ItemAt, Load, Holds, Decoder.AsciiKnown, Decoder.Leveled, Decoder.Buffered, Rejects;
    FirstStopIs(src, end, start, q);
    var d := new Decoder(src, end, start, buf);
    d.CopyPrefix(q);
    var status := d.Run(x64);
    if status.Invalid? {
      r := Failed(status.error);
      if !Rejects(src, end, q, 1, x64) {
        StopsWrong(src, end, d.pos);
      }
      return;
    }
    var o := d.MakeUnicode();
    r := Loaded(o, d.pos + 1);
    assert d.text + [] == d.text;
  }

  /** The loader on a Cyrillic letter seven times and the beginning of a three-byte sequence. */
  method LoadsCutLetters(x64: bool) returns (src: seq<Byte>, r: Loaded)
    ensures |src| == 32 && LettersCut(src) && Source(src, 16)
    ensures r == Failed(InvalidUtf8) && Chars(src, 16, 0) == Wrong(UnexpectedEnd)
  {
    hide LoadRejects, Chars, AsRead;
    src := seq(32, i requires 0 <= i => if i < 14 then (if i % 2 == 0 then 0xD0 else 0x96)
      else if i == 14 then 0xE1 else if i == 15 then 0x80 else 0);
    EarlyRejects(src, x64);
    RejectedEarly(src, x64);
    var buf := new Byte[Span(4, 16)];
    r := LoadsBytes(src, 16, 0, buf, 16, false, x64);
  }
}

/** Encoder and decoder together. */
module StringRoundTrip {
  import opened Memory
  import opened Segments
  import opened PyObjects
  import opened JsonText
  import opened Utf8
  import opened Utf8Writers
  import opened JsonString
  import opened StringDecoder

  /** For every surrogate-free string in any kind that holds it, every vector width and processor: what the encoder
      writes, loaded, is the same string in its smallest kind, and loading ends just behind the closing quote. */
  method WriteThenLoad(chars: Text, width: nat, compact: bool, vector: VectorBytes, tried: nat -> nat,
      junk: nat -> Byte, batch: nat, isKey: bool, x64: bool) returns (str: StrObject, next: nat)
    requires KindOk(width, chars) && AllScalar(chars) && batch > 0 && forall i :: tried(i) <= MostBytes(width)
    ensures Holds(str, chars) && Fits(str.level, chars) && Needed(str.level, chars)
    ensures next == |JsonBody(chars)| + 1
  {
    hide JsonBody, JsonChars, Chars, Holds, Excess, Answers;
    var out := new Byte[6 * |chars| + Excess(vector, width) + 24 + batch](_ => 0);
    var w := EncodeString(out, 0, chars, width, compact, vector, tried, junk);
    var end := w.value + 1;
    ghost var written := out[..];
    out[w.value], out[end] := QUOTE, 0;
    var src := out[..];
    assert Stands(src, 0, JsonBody(chars)) by {
      forall i | 0 <= i < |JsonBody(chars)| ensures src[0 + i] == JsonBody(chars)[i] {
        assert written[0..0 + |JsonBody(chars)|][i] == JsonBody(chars)[i];
      }
    }
    RoundTrip(src, end, 0, chars);
    var temp := new Byte[Span(4, end)];
    var r := LoadsBytes(src, end, 0, temp, batch, isKey, x64);
    ReadIsLoaded(src, end, 0, x64, r);
    str, next := r.str, r.next;
  }
}
