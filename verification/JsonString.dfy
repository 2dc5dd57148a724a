/** What a JSON string in UTF-8 means, read one item at a time (src/decode/bytes/_w_utf8_block.inl.h,
    src/decode/str/decoder_impl/_sr_impls.inl.h), and that it reads back what the encoder wrote. */
module JsonString {
  import opened Options
  import opened Memory
  import opened PyObjects
  import opened JsonText
  import opened Utf8
  import opened Utf8Writers

  /** The error messages; the two hexadecimal messages differ in the source. */
  datatype StrError =
    | UnexpectedEnd
    | InvalidControl
    | InvalidUtf8
    | InvalidEscape
    | EscapeCutShort
    | InvalidHighSurrogate
    | NoLowSurrogate
    | InvalidLowEscape
    | InvalidLowSurrogate

  datatype Item = Close | Char(value: nat, size: nat) | Bad(error: StrError)

  /** A source of `end` bytes in memory: a zero byte and some readable bytes of no meaning follow. */
  ghost predicate Source(src: seq<Byte>, end: nat) {
    end + 4 <= |src| && src[end] == 0
  }

  // ----- Escapes -----

  /** hex_conv_table; a byte that is no hexadecimal digit has high bits set. */
  function HexValue(c: Byte): nat {
    if 48 <= c <= 57 then c - 48 else if 65 <= c <= 70 then c - 55 else if 97 <= c <= 102 then c - 87 else 0xF0
  }

  /** to_hex */
  function ToHex(src: seq<Byte>, p: nat): (v: Option<nat>)
    requires p + 4 <= |src|
    ensures v.Some? ==> v.value < 0x1_0000
  {
    var c0, c1, c2, c3 := HexValue(src[p]), HexValue(src[p + 1]), HexValue(src[p + 2]), HexValue(src[p + 3]);
    if c0 < 16 && c1 < 16 && c2 < 16 && c3 < 16 then Some(((c0 * 16 + c1) * 16 + c2) * 16 + c3)
    else None
  }

  /** The character of a two-character escape. */
  function Unescaped(c: Byte): nat {
    if c == QUOTE || c == SLASH || c == 47 then c
    else if c == 98 then 8 else if c == 102 then 12 else if c == 110 then 10 else if c == 114 then 13 else 9
  }

  /** do_decode_escape at a backslash. */
  function EscapeItem(src: seq<Byte>, end: nat, p: nat): (i: Item)
    requires Source(src, end) && p < end
    ensures !i.Close?
    ensures i.Char? ==> Scalar(i.value) && 0 < i.size && p + i.size <= end
  {
    var c := src[p + 1];
    if c in {QUOTE, SLASH, 47, 98, 102, 110, 114, 116} then Char(Unescaped(c), 2)
    else if c != 117 then Bad(InvalidEscape)
    else if p + 6 > end then Bad(EscapeCutShort)
    else
      match ToHex(src, p + 2)
      case None => Bad(InvalidEscape)
      case Some(hi) =>
        if hi / 0x800 != 0x1B then Char(hi, 6)
        else if hi / 0x400 != 0x36 then Bad(InvalidHighSurrogate)
        else if p + 12 > end || src[p + 6] != SLASH || src[p + 7] != 117 then Bad(NoLowSurrogate)
        else
          match ToHex(src, p + 8)
          case None => Bad(InvalidLowEscape)
          case Some(lo) =>
            if lo / 0x400 != 0x37 then Bad(InvalidLowSurrogate)
            else Char((hi - 0xD800) * 0x400 + (lo - 0xDC00) + 0x1_0000, 12)
  }

  // ----- Characters -----

  /** utf8_set_seq_error */
  function SeqError(src: seq<Byte>, end: nat, p: nat): StrError
    requires p < end <= |src|
  {
    var want := if src[p] < 0xE0 then 2 else if src[p] < 0xF0 then 3 else 4;
    if end - p < want then UnexpectedEnd else InvalidUtf8
  }

  /** The item at p. */
  function ItemAt(src: seq<Byte>, end: nat, p: nat): (i: Item)
    requires Source(src, end) && p <= end
    ensures i.Close? <==> src[p] == QUOTE
    ensures i.Close? ==> p < end
    ensures i.Char? ==> 0 < i.size && p + i.size <= end
  {
    var c := src[p];
    if c == QUOTE then Close
    else if c == SLASH then EscapeItem(src, end, p)
    else if c < 32 then Bad(if p >= end then UnexpectedEnd else InvalidControl)
    else if c < 0x80 then Char(c, 1)
    else MultiByte(src, end, p)
  }

  function MultiByte(src: seq<Byte>, end: nat, p: nat): (i: Item)
    requires Source(src, end) && p < end && src[p] >= 0x80
    ensures !i.Close?
    ensures i.Char? ==> 0 < i.size && p + i.size <= end
  {
    hide ToB2, ToB3, ToB4;
    if IsSeq2(src[p], src[p + 1]) then Char(ToB2(src[p], src[p + 1]), 2)
    else if IsSeq3(src[p], src[p + 1], src[p + 2]) then Char(ToB3(src[p], src[p + 1], src[p + 2]), 3)
    else if IsSeq4(src[p], src[p + 1], src[p + 2], src[p + 3]) then
      Char(ToB4(src[p], src[p + 1], src[p + 2], src[p + 3]), 4)
    else Bad(SeqError(src, end, p))
  }

  lemma ItemScalar(src: seq<Byte>, end: nat, p: nat)
    requires Source(src, end) && p <= end && ItemAt(src, end, p).Char?
    ensures Scalar(ItemAt(src, end, p).value)
  {
    hide ToB2, ToB3, ToB4;
    var b0, b1, b2, b3 := src[p], src[p + 1], src[p + 2], src[p + 3];
    if IsSeq2(b0, b1) {
      Decoded2(b0, b1);
    } else if IsSeq3(b0, b1, b2) {
      Decoded3(b0, b1, b2);
    } else if IsSeq4(b0, b1, b2, b3) {
      Decoded4(b0, b1, b2, b3);
    }
  }

  /** The characters from p up to the closing quote, and the position behind it. */
  function Chars(src: seq<Byte>, end: nat, p: nat): Outcome
    requires Source(src, end) && p <= end
    decreases end - p
  {
    match ItemAt(src, end, p)
    case Close => Read([], p + 1)
    case Bad(e) => Wrong(e)
    case Char(v, n) => Chars(src, end, p + n).After([v])
  }

  datatype Outcome = Read(chars: Text, next: nat) | Wrong(why: StrError) {
    function After(text: Text): Outcome {
      if Wrong? then this else Read(text + chars, next)
    }
  }

  /** Everything read is a scalar value. */
  lemma {:induction false} OnlyScalars(src: seq<Byte>, end: nat, p: nat)
    requires Source(src, end) && p <= end && Chars(src, end, p).Read?
    ensures forall i :: 0 <= i < |Chars(src, end, p).chars| ==> Scalar(Chars(src, end, p).chars[i])
    ensures p + |Chars(src, end, p).chars| < Chars(src, end, p).next <= end
    decreases end - p
  {
    hide ItemAt;
    match ItemAt(src, end, p)
    case Close =>
    case Char(v, n) =>
      ItemScalar(src, end, p);
      OnlyScalars(src, end, p + n);
  }

  /** Nothing behind the terminating zero is looked at. */
  lemma PaddingItem(src: seq<Byte>, src': seq<Byte>, end: nat, p: nat)
    requires Source(src, end) && Source(src', end) && src[..end + 1] == src'[..end + 1] && p <= end
    ensures ItemAt(src, end, p) == ItemAt(src', end, p)
  {
    assert forall i :: 0 <= i <= end ==> src[i] == src[..end + 1][i] == src'[i];
  }

  lemma {:induction false} PaddingIgnored(src: seq<Byte>, src': seq<Byte>, end: nat, p: nat)
    requires Source(src, end) && Source(src', end) && src[..end + 1] == src'[..end + 1] && p <= end
    ensures Chars(src, end, p) == Chars(src', end, p)
    decreases end - p
  {
    PaddingItem(src, src', end, p);
    match ItemAt(src, end, p)
    case Close =>
    case Bad(_) =>
    case Char(v, n) =>
      PaddingIgnored(src, src', end, p + n);
  }

  // ----- Reading back -----

  /** The text stands in the source at p. */
  ghost predicate Stands(src: seq<Byte>, p: nat, text: Text) {
    p + |text| <= |src| && forall i :: 0 <= i < |text| ==> src[p + i] == text[i]
  }

  lemma StandsSplit(src: seq<Byte>, p: nat, a: Text, b: Text)
    requires Stands(src, p, a + b)
    ensures Stands(src, p, a) && Stands(src, p + |a|, b)
  {
    assert forall i :: 0 <= i < |a| ==> a[i] == (a + b)[i];
    forall i | 0 <= i < |b| ensures src[p + |a| + i] == b[i] {
      assert src[p + (|a| + i)] == (a + b)[|a| + i];
    }
  }

  /** One written character reads as itself. */
  lemma ReadsOne(src: seq<Byte>, end: nat, p: nat, c: nat)
    requires Source(src, end) && Scalar(c) && Stands(src, p, JsonBytes(c)) && p + |JsonBytes(c)| <= end
    ensures ItemAt(src, end, p) == Char(c, |JsonBytes(c)|)
  {
    if c >= 0x1_0000 {
      Encoded4(c);
    } else if c >= 0x800 {
      Encoded3(c);
    } else if c >= 0x80 {
      Encoded2(c);
    } else if ShortEscape(c) == 0 && c < 32 {
      ReadsControl(src, end, p, c);
    }
  }

  lemma ReadsControl(src: seq<Byte>, end: nat, p: nat, c: nat)
    requires Source(src, end) && c < 32 && ShortEscape(c) == 0 && Stands(src, p, JsonBytes(c)) && p + 6 <= end
    ensures ItemAt(src, end, p) == Char(c, 6)
  {
    hide MultiByte;
    var t := [SLASH, 117, 48, 48, HexDigit(c / 16), HexDigit(c % 16)];
    assert JsonBytes(c) == t;
    assert src[p + 0] == t[0];
    assert src[p + 1] == t[1];
    assert src[p + 2] == t[2];
    assert src[p + 3] == t[3];
    assert src[p + 4] == t[4];
    assert src[p + 5] == t[5];
    assert ToHex(src, p + 2) == Some(c);
  }

  predicate AllScalar(chars: Text) {
    forall i :: 0 <= i < |chars| ==> Scalar(chars[i])
  }

  lemma {:induction false} JsonBodyFirst(chars: Text)
    requires chars != [] && AllScalar(chars)
    ensures JsonBody(chars) == JsonBytes(chars[0]) + JsonBody(chars[1..])
  {
    hide JsonBytes, JsonBody;
    var n := |chars| - 1;
    JsonBodyLast(chars);
    if n > 0 {
      var init, rest := chars[..n], chars[1..];
      JsonBodyFirst(init);
      JsonBodyLast(rest);
      assert rest[..n - 1] == init[1..];
      assert JsonBytes(chars[0]) + JsonBody(init[1..]) + JsonBytes(chars[n])
        == JsonBytes(chars[0]) + (JsonBody(init[1..]) + JsonBytes(chars[n]));
    } else {
      assert chars[1..] == [] && chars[..n] == [];
      JsonBodyNone();
    }
  }

  lemma JsonBodyNone()
    ensures JsonBody([]) == []
  {
  }

  lemma JsonBodyLast(chars: Text)
    requires chars != [] && AllScalar(chars)
    ensures var n := |chars| - 1; JsonBody(chars) == JsonBody(chars[..n]) + JsonBytes(chars[n])
  {
    hide JsonBytes;
  }

  /** For every surrogate-free string: the body the encoder wrote, closed by a quote, reads as the same
      characters, and reading ends just behind the quote. */
  lemma {:induction false} RoundTrip(src: seq<Byte>, end: nat, p: nat, chars: Text)
    requires Source(src, end) && AllScalar(chars)
    requires Stands(src, p, JsonBody(chars)) && p + |JsonBody(chars)| < end && src[p + |JsonBody(chars)|] == QUOTE
    ensures Chars(src, end, p) == Read(chars, p + |JsonBody(chars)| + 1)
    decreases |chars|
  {
    hide JsonBytes, Stands, ItemAt, Source, Chars;
    if chars == [] {
      ReadsClose(src, end, p);
    } else {
      hide JsonBody;
      var c, rest := chars[0], chars[1..];
      JsonBodyFirst(chars);
      StandsSplit(src, p, JsonBytes(c), JsonBody(rest));
      ReadsOne(src, end, p, c);
      ReadsOn(src, end, p, c, |JsonBytes(c)|);
      RoundTrip(src, end, p + |JsonBytes(c)|, rest);
      assert [c] + rest == chars;
    }
  }

  lemma ReadsClose(src: seq<Byte>, end: nat, p: nat)
    requires Source(src, end) && p < end && src[p] == QUOTE
    ensures Chars(src, end, p) == Read([], p + 1)
  {
  }

  lemma ReadsOn(src: seq<Byte>, end: nat, p: nat, c: nat, n: nat)
    requires Source(src, end) && p <= end && ItemAt(src, end, p) == Char(c, n)
    ensures p + n <= end && Chars(src, end, p) == Chars(src, end, p + n).After([c])
  {
  }
}
