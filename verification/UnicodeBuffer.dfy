/** The encoder's output buffer (src/encode/states.h, src/encode/encode_cvt.h, src/_reserve.inl.h). */
module Segments {
  import opened Memory

  /** The width a text is written at; Ascii differs from Ucs1 in where its bytes start. */
  datatype Level = Ascii | Ucs1 | Ucs2 | Ucs4 {
    function Width(): (w: nat)
      ensures IsWidth(w)
    {
      match this case Ascii => 1 case Ucs1 => 1 case Ucs2 => 2 case Ucs4 => 4
    }

    /** `next` is a strictly wider level. */
    predicate Below(next: Level) {
      match this
      case Ascii => !next.Ascii?
      case Ucs1 => next.Ucs2? || next.Ucs4?
      case Ucs2 => next.Ucs4?
      case Ucs4 => false
    }

    /** How many wider levels there are. */
    function Above(): nat {
      match this case Ascii => 3 case Ucs1 => 2 case Ucs2 => 1 case Ucs4 => 0
    }

    /** Code points below this can be written at this level. */
    function CharLimit(): nat {
      match this case Ascii => 0x80 case Ucs1 => 0x100 case Ucs2 => 0x1_0000 case Ucs4 => 0x11_0000
    }
  }

  lemma LimitGrows(level: Level, next: Level)
    requires level == next || level.Below(next)
    ensures level.CharLimit() <= next.CharLimit()
  {
  }

  predicate Fits(level: Level, s: seq<nat>) {
    forall i :: 0 <= i < |s| ==> s[i] < level.CharLimit()
  }

  /** Code points below this do not need the level. */
  function Floor(level: Level): nat {
    match level case Ascii => 0 case Ucs1 => 0x80 case Ucs2 => 0x100 case Ucs4 => 0x1_0000
  }

  /** Some character needs the level. */
  predicate Needed(level: Level, s: seq<nat>) {
    level == Ascii || exists i :: 0 <= i < |s| && s[i] >= Floor(level)
  }

  /** The canonical kind of a string: no narrower level would do. */
  lemma NeededIsSmallest(level: Level, s: seq<nat>, other: Level)
    requires Needed(level, s) && Fits(other, s)
    ensures other == level || level.Below(other)
  {
  }

  lemma NeededGrows(level: Level, s: seq<nat>, t: seq<nat>)
    requires Needed(level, s)
    ensures Needed(level, s + t)
  {
    if level != Ascii {
      var i :| 0 <= i < |s| && s[i] >= Floor(level);
      assert (s + t)[i] == s[i];
    }
  }

  lemma NeededDrops(level: Level, s: seq<nat>)
    requires Needed(level, s) && s != [] && s[|s| - 1] < 0x80
    ensures Needed(level, s[..|s| - 1])
  {
  }

  /** Where the segments of a text end: element t is an ASCII byte for t < ascii, then a one-byte,
      a two-byte and at last a four-byte cell. The elements of the last three kinds stand at the
      index they have in the whole text, scaled by their own width. */
  datatype Ends = Ends(ascii: nat, ucs1: nat, ucs2: nat)

  datatype Layout = Layout(asciiStart: nat, compactStart: nat) {
    function WidthAt(e: Ends, t: nat): (w: nat)
      ensures IsWidth(w)
    {
      if t < e.ascii || t < e.ucs1 then 1 else if t < e.ucs2 then 2 else 4
    }

    function Address(e: Ends, t: nat): nat {
      if t < e.ascii then asciiStart + t
      else if t < e.ucs1 then compactStart + t
      else if t < e.ucs2 then compactStart + 2 * t
      else compactStart + 4 * t
    }

    /** The address just behind n elements written up to `level`. */
    function After(level: Level, n: nat): nat {
      match level
      case Ascii => asciiStart + n
      case Ucs1 => compactStart + n
      case Ucs2 => compactStart + 2 * n
      case Ucs4 => compactStart + 4 * n
    }

    /** Element t is read as c from its own segment. */
    ghost predicate Reads(m: seq<Byte>, e: Ends, t: nat, c: nat) {
      Address(e, t) + WidthAt(e, t) <= |m| && Load(m, Address(e, t), WidthAt(e, t)) == c
    }

    ghost predicate Shows(m: seq<Byte>, e: Ends, text: seq<nat>) {
      forall t: nat :: t < |text| ==> Reads(m, e, t, text[t])
    }
  }
}

/** What a buffer holds, as facts about its bytes. */
module BufferContents {
  import opened Memory
  import opened Segments

  /** EncodeUnicodeInfo: the recorded segment lengths and the level being written. */
  datatype UnicodeInfo = UnicodeInfo(asciiSize: nat, u8Size: nat, u16Size: nat, level: Level) {
    /** The length of everything before the segment of the current level. */
    function Recorded(): nat {
      asciiSize + u8Size + u16Size
    }

    /** The segments of a text of n elements. */
    function EndsOf(n: nat): Ends {
      match level
      case Ascii => Ends(n, n, n)
      case Ucs1 => Ends(asciiSize, n, n)
      case Ucs2 => Ends(asciiSize, asciiSize + u8Size, n)
      case Ucs4 => Ends(asciiSize, asciiSize + u8Size, Recorded())
    }

    ghost predicate Fresh() {
      && (level == Ascii ==> asciiSize == 0)
      && (level.Ascii? || level.Ucs1? ==> u8Size == 0)
      && (!level.Ucs4? ==> u16Size == 0)
    }
  }

  /** The bytes m, with the writer where it is, hold `text`. */
  ghost predicate Holds(l: Layout, info: UnicodeInfo, m: seq<Byte>, writer: nat, text: seq<nat>) {
    && l.asciiStart <= l.compactStart
    && info.Recorded() <= |text| && info.Fresh()
    && writer == l.After(info.level, |text|)
    && l.Shows(m, info.EndsOf(|text|), text)
    && Fits(info.level, text)
  }

  lemma GrownHolds(l: Layout, info: UnicodeInfo, m: seq<Byte>, m': seq<Byte>, writer: nat, text: seq<nat>)
    requires Holds(l, info, m, writer, text)
    requires |m| <= |m'| && forall b :: 0 <= b < |m| && b < writer ==> m'[b] == m[b]
    ensures Holds(l, info, m', writer, text)
  {
  }

  /** Cells stored behind the text continue it. */
  lemma PutHolds(l: Layout, info: UnicodeInfo, m: seq<Byte>, m': seq<Byte>, writer: nat, text: seq<nat>,
      units: seq<nat>, n: nat)
    requires Holds(l, info, m, writer, text)
    requires n <= |units| && Fits(info.level, units[..n])
    requires StoredAt(m, m', writer, info.level.Width(), units)
    ensures Holds(l, info, m', writer + Span(info.level.Width(), n), text + units[..n])
  {
    hide Layout.Reads, StoredAt, Layout.After, UnicodeInfo.EndsOf, Layout.Address, Layout.WidthAt, Span, Load;
    var s := text + units[..n];
    AfterMore(l, info, |text|, n);
    forall t: nat | t < |s| ensures l.Reads(m', info.EndsOf(|s|), t, s[t]) {
      PutReads(l, info, m, m', writer, text, units, n, t);
    }
  }

  lemma PutReads(l: Layout, info: UnicodeInfo, m: seq<Byte>, m': seq<Byte>, writer: nat, text: seq<nat>,
      units: seq<nat>, n: nat, t: nat)
    requires Holds(l, info, m, writer, text) && n <= |units| && t < |text| + n
    requires StoredAt(m, m', writer, info.level.Width(), units)
    ensures l.Reads(m', info.EndsOf(|text| + n), t, (text + units[..n])[t])
  {
    hide Holds, Layout.Reads;
    if t < |text| {
      GrownHolds(l, info, m, m', writer, text);
      OldCell(l, info, m', writer, text, |text| + n, t);
    } else {
      NewCell(l, info, m, m', writer, text, units, t - |text|, |text| + n);
    }
  }

  lemma OldCell(l: Layout, info: UnicodeInfo, m: seq<Byte>, writer: nat, text: seq<nat>, n: nat, t: nat)
    requires Holds(l, info, m, writer, text) && t < |text| <= n
    ensures l.Reads(m, info.EndsOf(n), t, text[t])
  {
    SameCell(l, info, |text|, n, t);
    assert l.Reads(m, info.EndsOf(|text|), t, text[t]);
  }

  lemma NewCell(l: Layout, info: UnicodeInfo, m: seq<Byte>, m': seq<Byte>, writer: nat, text: seq<nat>,
      units: seq<nat>, k: nat, n: nat)
    requires Holds(l, info, m, writer, text) && k < |units| && |text| + k < n
    requires StoredAt(m, m', writer, info.level.Width(), units)
    ensures l.Reads(m', info.EndsOf(n), |text| + k, units[k])
  {
    hide Load, Layout.Address, Layout.WidthAt, UnicodeInfo.EndsOf, Layout.After, Layout.Shows, Span;
    NextCell(l, info, |text|, n, k);
    SpanMono(info.level.Width(), k + 1, |units|);
    SpanStep(info.level.Width(), k);
  }

  lemma SameCell(l: Layout, info: UnicodeInfo, n: nat, n': nat, t: nat)
    requires t < n <= n'
    ensures l.WidthAt(info.EndsOf(n'), t) == l.WidthAt(info.EndsOf(n), t)
    ensures l.Address(info.EndsOf(n'), t) == l.Address(info.EndsOf(n), t)
  {
  }

  lemma AfterMore(l: Layout, info: UnicodeInfo, n: nat, k: nat)
    ensures l.After(info.level, n + k) == l.After(info.level, n) + Span(info.level.Width(), k)
  {
  }

  lemma NextCell(l: Layout, info: UnicodeInfo, n: nat, n': nat, k: nat)
    requires info.Recorded() <= n && n + k < n' && info.Fresh()
    ensures l.WidthAt(info.EndsOf(n'), n + k) == info.level.Width()
    ensures l.Address(info.EndsOf(n'), n + k) == l.After(info.level, n) + Span(info.level.Width(), k)
  {
    assert l.WidthAt(info.EndsOf(n'), n + k) == info.level.Width();
    assert info.level != Ascii ==> n + k >= info.EndsOf(n').ascii;
  }

  lemma TakenBackHolds(l: Layout, info: UnicodeInfo, m: seq<Byte>, writer: nat, text: seq<nat>)
    requires Holds(l, info, m, writer, text) && info.Recorded() < |text|
    ensures writer >= info.level.Width()
    ensures Holds(l, info, m, writer - info.level.Width(), text[..|text| - 1])
  {
    hide Layout.Reads, Layout.After, UnicodeInfo.EndsOf, Layout.Address, Layout.WidthAt, Load;
    var s := text[..|text| - 1];
    AfterMore(l, info, |s|, 1);
    forall t: nat | t < |s| ensures l.Reads(m, info.EndsOf(|s|), t, s[t]) {
      assert l.Reads(m, info.EndsOf(|text|), t, text[t]);
      ShorterReads(l, info, m, |s|, |text|, t, s[t]);
    }
  }

  lemma ShorterReads(l: Layout, info: UnicodeInfo, m: seq<Byte>, n: nat, n': nat, t: nat, c: nat)
    requires t < n <= n' && l.Reads(m, info.EndsOf(n'), t, c)
    ensures l.Reads(m, info.EndsOf(n), t, c)
  {
  }

  /** memorize_*: what is recorded when `n` elements are written and the level rises. */
  function Memorized(info: UnicodeInfo, next: Level, n: nat): (info': UnicodeInfo)
    requires info.Fresh() && info.Recorded() <= n && info.level.Below(next)
    ensures info'.Fresh() && info'.Recorded() == n && info'.level == next
  {
    match info.level
    case Ascii => info.(asciiSize := n, level := next)
    case Ucs1 => info.(u8Size := n - info.asciiSize, level := next)
    case Ucs2 => info.(u16Size := n - info.asciiSize - info.u8Size, level := next)
  }

  /** Recording a segment and going on wider keeps the text, at the same element index. */
  lemma MemorizedHolds(l: Layout, info: UnicodeInfo, next: Level, m: seq<Byte>, writer: nat, text: seq<nat>)
    requires Holds(l, info, m, writer, text) && info.level.Below(next)
    ensures Holds(l, Memorized(info, next, |text|), m, l.After(next, |text|), text)
    ensures Memorized(info, next, |text|).Recorded() == |text|
  {
    var info' := Memorized(info, next, |text|);
    MemorizedShows(l, info, next, m, writer, text);
    FitsHigher(info.level, next, text);
    hide Layout.Shows, Memorized, UnicodeInfo.EndsOf, Layout.After, Fits;
  }

  lemma FitsHigher(level: Level, next: Level, s: seq<nat>)
    requires level.Below(next) && Fits(level, s)
    ensures Fits(next, s)
  {
  }

  lemma MemorizedShows(l: Layout, info: UnicodeInfo, next: Level, m: seq<Byte>, writer: nat, text: seq<nat>)
    requires Holds(l, info, m, writer, text) && info.level.Below(next)
    ensures l.Shows(m, Memorized(info, next, |text|).EndsOf(|text|), text)
  {
    hide Layout.Reads, Memorized, UnicodeInfo.EndsOf, Layout.After, Fits;
    var info' := Memorized(info, next, |text|);
    forall t: nat | t < |text| ensures l.Reads(m, info'.EndsOf(|text|), t, text[t]) {
      assert l.Reads(m, info.EndsOf(|text|), t, text[t]);
      MemorizedReads(l, info, next, m, |text|, t, text[t]);
    }
  }

  lemma MemorizedReads(l: Layout, info: UnicodeInfo, next: Level, m: seq<Byte>, n: nat, t: nat, c: nat)
    requires info.Recorded() <= n && t < n && info.level.Below(next) && info.Fresh()
    requires l.Reads(m, info.EndsOf(n), t, c)
    ensures l.Reads(m, Memorized(info, next, n).EndsOf(n), t, c)
  {
    hide Load, Layout.Address, Layout.WidthAt, Memorized, UnicodeInfo.EndsOf;
    MemorizedCell(l, info, next, n, t);
  }

  /** Every element stays in its cell. */
  lemma MemorizedCell(l: Layout, info: UnicodeInfo, next: Level, n: nat, t: nat)
    requires info.Recorded() <= n && t < n && info.level.Below(next) && info.Fresh()
    ensures l.Address(Memorized(info, next, n).EndsOf(n), t) == l.Address(info.EndsOf(n), t)
    ensures l.WidthAt(Memorized(info, next, n).EndsOf(n), t) == l.WidthAt(info.EndsOf(n), t)
  {
  }

  /** Behind an element of the current segment the writer is inside the buffer. */
  lemma LastInBounds(l: Layout, info: UnicodeInfo, m: seq<Byte>, writer: nat, text: seq<nat>)
    requires Holds(l, info, m, writer, text) && info.Recorded() < |text|
    ensures writer <= |m|
  {
    var n := |text| - 1;
    assert l.Reads(m, info.EndsOf(|text|), n, text[n]);
    NextCell(l, info, n, |text|, 0);
    AfterMore(l, info, n, 1);
  }

  /** Where the writer stands tells how many elements there are. */
  lemma WriterTells(l: Layout, info: UnicodeInfo, m: seq<Byte>, writer: nat, text: seq<nat>)
    requires Holds(l, info, m, writer, text)
    ensures info.Recorded() <= |text| && info.Fresh()
    ensures info.level == Ascii ==> writer == l.asciiStart + |text|
    ensures info.level == Ucs1 ==> writer == l.compactStart + |text|
    ensures info.level == Ucs2 ==> writer == l.compactStart + 2 * |text|
    ensures info.level == Ucs4 ==> writer == l.compactStart + 4 * |text|
  {
  }
}

/** In-place widening of the recorded segments, highest first (src/encode/encode_cvt.h). */
module Elevation {
  import opened Memory
  import opened Segments
  import opened BufferContents

  /** ASCII bytes below `a`, one-byte cells below `b`, the rest of the n elements at the final level. */
  function From(final: Level, a: nat, b: nat, n: nat): Ends {
    match final
    case Ascii => Ends(n, n, n)
    case Ucs1 => Ends(a, n, n)
    case Ucs2 => Ends(a, b, n)
    case Ucs4 => Ends(a, b, b)
  }

  /** Element t moves with its segment, or its cell is outside the bytes written. */
  ghost predicate Moves(l: Layout, e: Ends, e': Ends, src: nat, w: nat, dst: nat, w': nat, count: nat, from: nat,
      t: nat)
    requires IsWidth(w) && IsWidth(w')
  {
    if from <= t < from + count then
      && l.WidthAt(e, t) == w && l.Address(e, t) == src + Span(w, t - from)
      && l.WidthAt(e', t) == w' && l.Address(e', t) == dst + Span(w', t - from)
    else
      && l.WidthAt(e', t) == l.WidthAt(e, t) && l.Address(e', t) == l.Address(e, t)
      && (l.Address(e, t) + l.WidthAt(e, t) <= dst || dst + Span(w', count) <= l.Address(e, t))
  }

  lemma MovedReads(l: Layout, m: seq<Byte>, m': seq<Byte>, e: Ends, e': Ends,
                   src: nat, w: nat, dst: nat, w': nat, count: nat, from: nat, t: nat, c: nat)
    requires IsWidth(w) && IsWidth(w') && w <= w' && src <= dst && dst + Span(w', count) <= |m|
    requires Widened(m, m', src, w, dst, w', 0, count)
    requires Moves(l, e, e', src, w, dst, w', count, from, t)
    requires l.Reads(m, e, t, c)
    ensures l.Reads(m', e', t, c)
  {
    hide Load, Layout.Address, Layout.WidthAt;
    if from <= t < from + count {
      CellInside(w', t - from, count);
      assert Load(m', dst + Span(w', t - from), w') == Load(m, src + Span(w, t - from), w);
    } else {
      LoadLocal(m, m', l.Address(e, t), l.WidthAt(e, t));
    }
  }

  lemma CellInside(w: nat, k: nat, count: nat)
    requires IsWidth(w) && k < count
    ensures Span(w, k) + w <= Span(w, count)
  {
  }

  lemma FlatCell(l: Layout, final: Level, n: nat, t: nat)
    requires t < n
    ensures l.WidthAt(From(final, 0, 0, n), t) == final.Width()
    ensures l.Address(From(final, 0, 0, n), t) == l.After(final, t)
  {
  }

  // The moves of the six elevation functions.

  lemma Ucs2Moves(l: Layout, a: nat, b: nat, u16: nat, n: nat, t: nat)
    requires a <= b && b + u16 <= n && t < n && l.asciiStart <= l.compactStart
    ensures Moves(l, Ends(a, b, b + u16), From(Ucs4, a, b, n), l.compactStart + 2 * b, 2,
      l.compactStart + 4 * b, 4, u16, b, t)
  {
  }

  lemma Ucs1Moves(l: Layout, final: Level, a: nat, u8: nat, n: nat, t: nat)
    requires (final.Ucs2? || final.Ucs4?) && a + u8 <= n && t < n && l.asciiStart <= l.compactStart
    ensures Moves(l, From(final, a, a + u8, n), From(final, a, a, n),
                  l.compactStart + a, 1, l.compactStart + Span(final.Width(), a), final.Width(), u8, a, t)
  {
  }

  lemma AsciiMoves(l: Layout, final: Level, a: nat, n: nat, t: nat)
    requires !final.Ascii? && a <= n && t < n && l.asciiStart <= l.compactStart
    ensures Moves(l, From(final, a, a, n), From(final, 0, 0, n),
                  l.asciiStart, 1, l.compactStart, final.Width(), a, 0, t)
  {
  }
}

module UnicodeBuffer {
  import opened Memory
  import opened Segments
  import opened BufferContents
  import opened Elevation

  /** EncodeUBufInfo, EncodeUnicodeInfo and the writer. Addresses count from the head of the buffer. */
  class Buffer {
    const layout: Layout
    /** The vector width of the build. */
    const vector: VectorBytes
    var mem: array<Byte>
    var writer: nat
    var info: UnicodeInfo
    /** The code points written so far. */
    ghost var text: seq<nat>

    ghost predicate Valid()
      reads this, mem
    {
      mem.Length > 0 && Holds(layout, info, mem[..], writer, text)
    }

    constructor (layout: Layout, vector: VectorBytes, size: nat)
      requires layout.asciiStart <= layout.compactStart && size > 0
      ensures Valid() && text == [] && info.level == Ascii && fresh(mem) && this.layout == layout
    {
      this.layout, this.vector := layout, vector;
      mem := new Byte[size](_ => 0);
      writer := layout.asciiStart;
      info := UnicodeInfo(0, 0, 0, Ascii);
      text := [];
    }

    lemma RecordedBound()
      requires Valid()
      ensures info.Recorded() <= |text|
    {
    }

    /** get_u_buf_final_len, backwards. */
    lemma Measure()
      requires Valid()
      ensures writer == layout.After(info.level, |text|) && Fits(info.level, text)
      ensures info.Recorded() <= |text| && info.Fresh()
    {
    }

    /** Units that can be stored from the writer on. */
    ghost predicate Room(count: nat)
      reads this
    {
      writer + Span(info.level.Width(), count) <= mem.Length
    }

    /** u_buf_reserve: room for `count` more units; the text so far stays. */
    method Reserve(count: nat)
      requires Valid()
      modifies this`mem
      ensures Valid() && (mem == old(mem) || fresh(mem))
      ensures Room(count)
    {
      hide Holds;
      var target := writer + Span(info.level.Width(), count);
      if target > mem.Length {
        ghost var m := mem[..];
        mem := Grown(mem, target);
        GrownHolds(layout, info, m, mem[..], writer, text);
      }
    }

    /** _u_buf_reserve: double the size until it is enough. */
    static method Grown(mem: array<Byte>, target: nat) returns (grown: array<Byte>)
      requires mem.Length > 0
      ensures fresh(grown) && grown.Length >= target && grown.Length >= mem.Length
      ensures forall b :: 0 <= b < mem.Length ==> grown[b] == mem[b]
    {
      var size := mem.Length;
      while target > size
        invariant size >= mem.Length
        decreases target - size
      {
        size := 2 * size;
      }
      grown := new Byte[size](_ => 0);
      forall b | 0 <= b < mem.Length {
        grown[b] := mem[b];
      }
    }

    /** Store all of `units` behind the text but advance over the first n only, as the fixed-size
        copies do. The stores are in bounds because there is room for all of them. */
    method Put(units: seq<nat>, n: nat, ghost room: nat)
      requires Valid() && n <= |units| <= room && Room(room)
      requires forall i :: 0 <= i < |units| ==> units[i] < CellLimit(info.level.Width())
      requires Fits(info.level, units[..n])
      modifies this`writer, this`text, mem
      ensures Valid() && text == old(text) + units[..n]
      ensures Room(room - n)
    {
      hide Holds;
      ghost var m := mem[..];
      var w := info.level.Width();
      SpanMono(w, |units|, room);
      SpanSum(w, n, room - n);
      StoreAll(mem, writer, w, units);
      PutHolds(layout, info, m, mem[..], writer, text, units, n);
      writer := writer + Span(w, n);
      text := text + units[..n];
    }

    /** writer--, which must stay inside the current segment. */
    method TakeBack()
      requires Valid() && info.Recorded() < |text|
      modifies this`writer, this`text
      ensures Valid() && text == old(text)[..|old(text)| - 1]
      ensures writer + info.level.Width() <= mem.Length
    {
      hide Holds;
      LastInBounds(layout, info, mem[..], writer, text);
      TakenBackHolds(layout, info, mem[..], writer, text);
      writer := writer - info.level.Width();
      text := text[..|text| - 1];
    }

    /** memorize_*: record the segment just ended and go on at the same element index, `next` wide. */
    method Memorize(next: Level)
      requires Valid() && info.level.Below(next)
      modifies this`writer, this`info
      ensures Valid() && info.level == next && info.Recorded() == |text|
    {
      hide Holds, Layout.After, Memorized, UnicodeInfo.Fresh, UnicodeInfo.Recorded;
      Measure();
      MemorizedHolds(layout, info, next, mem[..], writer, text);
      var total := Total();
      info := Memorized(info, next, total);
      writer := layout.After(next, total);
    }

    /** How many elements there are, from where the writer stands. */
    method Total() returns (total: nat)
      requires Valid() && !info.level.Ucs4?
      ensures total == |text|
    {
      hide Holds, Layout.After, UnicodeInfo.Fresh, UnicodeInfo.Recorded;
      WriterTells(layout, info, mem[..], writer, text);
      match info.level {
        case Ascii =>
          total := writer - layout.asciiStart;
        case Ucs1 =>
          total := writer - layout.compactStart;
        case Ucs2 =>
          total := (writer - layout.compactStart) / 2;
      }
    }

    /** One elevation: widen the `count` elements from `from` on, which leaves every element readable. Cells of
        one width are moved at once (memmove); wider ones are converted wherever the allocator put the buffer. */
    method Widen(src: nat, w: nat, dst: nat, w': nat, count: nat, ghost e: Ends, ghost e': Ends, ghost from: nat)
      requires IsWidth(w) && IsWidth(w') && w <= w' && src <= dst && dst + Span(w', count) <= mem.Length
      requires layout.Shows(mem[..], e, text)
      requires forall t: nat :: t < |text| ==> Moves(layout, e, e', src, w, dst, w', count, from, t)
      modifies mem
      ensures layout.Shows(mem[..], e', text)
    {
      hide Moves, Widened, Layout.Reads, Span;
      ghost var m := mem[..];
      if w == w' {
        WidenedNone(m, src, w, dst, w', count);
        MoveBatch(mem, src, w, dst, w', count, count, count, m);
      } else {
        var address: nat := *;
        BackConvert(mem, src, w, dst, w', count, vector, address);
      }
      forall t: nat | t < |text| ensures layout.Reads(mem[..], e', t, text[t]) {
        assert layout.Reads(m, e, t, text[t]);
        MovedReads(layout, m, mem[..], e, e', src, w, dst, w', count, from, t, text[t]);
      }
    }

    method Ucs2Elevate4()
      requires Valid() && info.level == Ucs4 && writer <= mem.Length
      modifies mem
      ensures layout.Shows(mem[..], From(Ucs4, info.asciiSize, info.asciiSize + info.u8Size, |text|), text)
    {
      var offset := info.asciiSize + info.u8Size;
      forall t: nat | t < |text| {
        Ucs2Moves(layout, info.asciiSize, offset, info.u16Size, |text|, t);
      }
      Widen(layout.compactStart + 2 * offset, 2, layout.compactStart + 4 * offset, 4, info.u16Size,
            info.EndsOf(|text|), From(Ucs4, info.asciiSize, offset, |text|), offset);
    }

    /** ucs1_elevate2 and ucs1_elevate4 */
    method Ucs1Elevate()
      requires info.level.Ucs2? || info.level.Ucs4?
      requires layout.asciiStart <= layout.compactStart && info.Recorded() <= |text|
      requires layout.After(info.level, |text|) <= mem.Length
      requires layout.Shows(mem[..], From(info.level, info.asciiSize, info.asciiSize + info.u8Size, |text|), text)
      modifies mem
      ensures layout.Shows(mem[..], From(info.level, info.asciiSize, info.asciiSize, |text|), text)
    {
      var offset := info.asciiSize;
      forall t: nat | t < |text| {
        Ucs1Moves(layout, info.level, offset, info.u8Size, |text|, t);
      }
      Widen(layout.compactStart + offset, 1, layout.compactStart + Span(info.level.Width(), offset), info.level.Width(),
            info.u8Size, From(info.level, offset, offset + info.u8Size, |text|),
            From(info.level, offset, offset, |text|), offset);
    }

    /** ascii_elevate1, ascii_elevate2 and ascii_elevate4 */
    method AsciiElevate()
      requires !info.level.Ascii?
      requires layout.asciiStart <= layout.compactStart && info.Recorded() <= |text|
      requires layout.After(info.level, |text|) <= mem.Length
      requires layout.Shows(mem[..], From(info.level, info.asciiSize, info.asciiSize, |text|), text)
      modifies mem
      ensures layout.Shows(mem[..], From(info.level, 0, 0, |text|), text)
    {
      forall t: nat | t < |text| {
        AsciiMoves(layout, info.level, info.asciiSize, |text|, t);
      }
      Widen(layout.asciiStart, 1, layout.compactStart, info.level.Width(), info.asciiSize,
            From(info.level, info.asciiSize, info.asciiSize, |text|), From(info.level, 0, 0, |text|), 0);
    }

    /** The end of a successful run: after it the whole text stands in one array of final-width cells. */
    method Finish()
      requires Valid() && writer <= mem.Length
      modifies mem
      ensures mem.Length == old(mem.Length) && writer <= mem.Length
      ensures forall t: nat :: t < |text| ==>
        && layout.After(info.level, t) + info.level.Width() <= mem.Length
        && Load(mem[..], layout.After(info.level, t), info.level.Width()) == text[t]
    {
      match info.level {
        case Ascii =>
        case Ucs1 =>
          AsciiElevate();
        case Ucs2 =>
          Ucs1Elevate();
          AsciiElevate();
        case Ucs4 =>
          Ucs2Elevate4();
          Ucs1Elevate();
          AsciiElevate();
      }
      OneArray(mem[..]);
    }

    lemma OneArray(m: seq<Byte>)
      requires layout.Shows(m, From(info.level, 0, 0, |text|), text)
      ensures forall t: nat :: t < |text| ==>
        && layout.After(info.level, t) + info.level.Width() <= |m|
        && Load(m, layout.After(info.level, t), info.level.Width()) == text[t]
    {
      hide Load;
      forall t: nat | t < |text|
        ensures layout.After(info.level, t) + info.level.Width() <= |m|
          && Load(m, layout.After(info.level, t), info.level.Width()) == text[t]
      {
        assert layout.Reads(m, From(info.level, 0, 0, |text|), t, text[t]);
        FlatCell(layout, info.level, |text|, t);
      }
    }
  }
}
