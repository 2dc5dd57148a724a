/** What a JSON string in UTF-8 means, by section 7 of RFC 8259 and section 4 of RFC 3629: what reading an item gives,
    said of the bytes alone. */
module JsonEscapes {
  import opened Options
  import opened Memory
  import opened Utf8
  import opened JsonString

  /** The spellings of a hexadecimal digit. */
  predicate DigitFor(b: Byte, d: nat) {
    if d < 10 then b == 48 + d else d < 16 && (b == 65 + (d - 10) || b == 97 + (d - 10))
  }

  predicate IsDigit(b: Byte) {
    48 <= b <= 57 || 65 <= b <= 70 || 97 <= b <= 102
  }

  /** The four digits at p spell v, the most significant one first. */
  predicate Spells(src: seq<Byte>, p: nat, v: nat) {
    && p + 4 <= |src| && v < 0x1_0000
    && DigitFor(src[p], v / 0x1000) && DigitFor(src[p + 1], v / 0x100 % 0x10)
    && DigitFor(src[p + 2], v / 0x10 % 0x10) && DigitFor(src[p + 3], v % 0x10)
  }

  /** Four digits, in upper or lower case, read as the number they spell, and only they do. */
  lemma HexReads(src: seq<Byte>, p: nat, v: nat)
    requires p + 4 <= |src|
    ensures ToHex(src, p) == Some(v) <==> Spells(src, p, v)
  {
    hide HexValue, DigitFor;
    var c0, c1, c2, c3 := HexValue(src[p]), HexValue(src[p + 1]), HexValue(src[p + 2]), HexValue(src[p + 3]);
    if c0 < 16 && c1 < 16 && c2 < 16 && c3 < 16 {
      DigitsOf(c0, c1, c2, c3);
    }
    Recombined(v);
    OneDigit(src[p], v / 0x1000);
    OneDigit(src[p + 1], v / 0x100 % 0x10);
    OneDigit(src[p + 2], v / 0x10 % 0x10);
    OneDigit(src[p + 3], v % 0x10);
  }

  lemma OneDigit(b: Byte, d: nat)
    ensures DigitFor(b, d) <==> HexValue(b) == d && d < 16
  {
  }

  lemma DigitsOf(c0: nat, c1: nat, c2: nat, c3: nat)
    requires c0 < 16 && c1 < 16 && c2 < 16 && c3 < 16
    ensures var v := ((c0 * 16 + c1) * 16 + c2) * 16 + c3;
      v / 0x1000 == c0 && v / 0x100 % 0x10 == c1 && v / 0x10 % 0x10 == c2 && v % 0x10 == c3
  {
    var v := ((c0 * 16 + c1) * 16 + c2) * 16 + c3;
    LastNibble((c0 * 16 + c1) * 16 + c2, c3);
    LastNibble(c0 * 16 + c1, c2);
    LastNibble(c0, c1);
    QuotientTwice(v);
    Quotient16th(v);
  }

  lemma LastNibble(x: nat, d: nat)
    requires d < 16
    ensures (x * 16 + d) / 0x10 == x && (x * 16 + d) % 0x10 == d
  {
  }

  lemma Recombined(v: nat)
    ensures v == ((v / 0x1000 * 16 + v / 0x100 % 0x10) * 16 + v / 0x10 % 0x10) * 16 + v % 0x10
  {
    QuotientTwice(v);
    Quotient16th(v);
    OneNibble(v);
    OneNibble(v / 0x10);
    OneNibble(v / 0x100);
  }

  lemma OneNibble(x: nat)
    ensures x == x / 0x10 * 16 + x % 0x10
  {
  }

  lemma QuotientTwice(x: nat)
    ensures x / 0x10 / 0x10 == x / 0x100
  {
  }

  lemma Quotient16th(x: nat)
    ensures x / 0x100 / 0x10 == x / 0x1000
  {
  }

  predicate FourDigits(src: seq<Byte>, p: nat) {
    p + 4 <= |src| && IsDigit(src[p]) && IsDigit(src[p + 1]) && IsDigit(src[p + 2]) && IsDigit(src[p + 3])
  }

  lemma HexFails(src: seq<Byte>, p: nat)
    requires p + 4 <= |src|
    ensures ToHex(src, p).None? <==> !FourDigits(src, p)
  {
  }

  /** The character of a two-character escape. */
  predicate TwoChar(letter: Byte, c: nat) {
    || (letter == '"' as nat && c == 0x22) || (letter == '\\' as nat && c == 0x5C) || (letter == '/' as nat
      && c == 0x2F)
    || (letter == 'b' as nat && c == 0x08) || (letter == 'f' as nat && c == 0x0C) || (letter == 'n' as nat && c == 0x0A)
    || (letter == 'r' as nat && c == 0x0D) || (letter == 't' as nat && c == 0x09)
  }

  /** A backslash and a u. */
  predicate OpensHex(src: seq<Byte>, p: nat) {
    p + 2 <= |src| && src[p] == '\\' as nat && src[p + 1] == 'u' as nat
  }

  /** The escape of the code unit v. */
  predicate UnitAt(src: seq<Byte>, p: nat, v: nat) {
    OpensHex(src, p) && Spells(src, p + 2, v)
  }

  /** The UTF-16 surrogate pair of a code point above FFFF. */
  function HighOf(c: nat): nat
    requires c >= 0x1_0000
  {
    0xD800 + (c - 0x1_0000) / 0x400
  }

  function LowOf(c: nat): nat
    requires c >= 0x1_0000
  {
    0xDC00 + (c - 0x1_0000) % 0x400
  }

  /** The n bytes at p are an escape of the character c. */
  predicate EscapeOf(src: seq<Byte>, p: nat, c: nat, n: nat) {
    || (n == 2 && p + 2 <= |src| && src[p] == '\\' as nat && TwoChar(src[p + 1], c))
    || (n == 6 && !Surrogate(c) && UnitAt(src, p, c))
    || (n == 12 && 0x1_0000 <= c <= MAX_UNICODE && UnitAt(src, p, HighOf(c)) && UnitAt(src, p + 6, LowOf(c)))
  }

  function Payload(b: Byte, mark: nat): nat
    requires mark <= b
  {
    b as nat - mark
  }

  /** The n bytes at p are the character c itself, in UTF-8. */
  predicate PlainOf(src: seq<Byte>, p: nat, c: nat, n: nat) {
    && p + n <= |src| && c >= 32 && c != '"' as nat && c != '\\' as nat
    && match n
      case 1 => c < 0x80 && c == src[p]
      case 2 => Grammar2(src[p], src[p + 1]) && c == Payload(src[p], 0xC0) * 0x40 + Payload(src[p + 1], 0x80)
      case 3 => Grammar3(src[p], src[p + 1], src[p + 2])
        && c == Payload(src[p], 0xE0) * 0x1000 + Payload(src[p + 1], 0x80) * 0x40 + Payload(src[p + 2], 0x80)
      case 4 => Grammar4(src[p], src[p + 1], src[p + 2], src[p + 3])
        && c == Payload(src[p], 0xF0) * 0x4_0000 + Payload(src[p + 1], 0x80) * 0x1000
          + Payload(src[p + 2], 0x80) * 0x40 + Payload(src[p + 3], 0x80)
      case _ => false
  }

  /** Inside the source, an item is a character exactly if its bytes are that character or an escape of it. */
  lemma ItemMeans(src: seq<Byte>, end: nat, p: nat, c: nat, n: nat)
    requires Source(src, end) && p < end
    ensures ItemAt(src, end, p) == Char(c, n) <==> p + n <= end && (PlainOf(src, p, c, n) || EscapeOf(src, p, c, n))
  {
    hide EscapeItem, EscapeOf, MultiByte, PlainOf;
    if src[p] == '\\' as nat {
      EscapeMeans(src, end, p, c, n);
      NotPlain(src, p, c, n);
    } else {
      NotEscape(src, p, c, n);
      if src[p] >= 0x80 {
        MultiByteMeans(src, end, p, c, n);
      } else {
        OneByteMeans(src, end, p, c, n);
      }
    }
  }

  lemma NotPlain(src: seq<Byte>, p: nat, c: nat, n: nat)
    requires p < |src| && src[p] == '\\' as nat
    ensures !PlainOf(src, p, c, n)
  {
  }

  lemma NotEscape(src: seq<Byte>, p: nat, c: nat, n: nat)
    requires p < |src| && src[p] != '\\' as nat
    ensures !EscapeOf(src, p, c, n)
  {
    hide Spells, TwoChar;
  }

  lemma OneByteMeans(src: seq<Byte>, end: nat, p: nat, c: nat, n: nat)
    requires Source(src, end) && p < end && src[p] < 0x80 && src[p] != '\\' as nat
    ensures ItemAt(src, end, p) == Char(c, n) <==> p + n <= end && PlainOf(src, p, c, n)
  {
    hide EscapeItem, MultiByte;
  }

  lemma MultiByteMeans(src: seq<Byte>, end: nat, p: nat, c: nat, n: nat)
    requires Source(src, end) && p < end && src[p] >= 0x80
    ensures MultiByte(src, end, p) == Char(c, n) <==> p + n <= end && PlainOf(src, p, c, n)
  {
    var b0, b1, b2, b3 := src[p], src[p + 1], src[p + 2], src[p + 3];
    hide IsSeq2, IsSeq3, IsSeq4, ToB2, ToB3, ToB4;
    SeqIsGrammar2(b0, b1);
    SeqIsGrammar3(b0, b1, b2);
    SeqIsGrammar4(b0, b1, b2, b3);
    if Grammar2(b0, b1) {
      Payload2(b0, b1);
    } else if Grammar3(b0, b1, b2) {
      Payload3(b0, b1, b2);
    } else if Grammar4(b0, b1, b2, b3) {
      Payload4(b0, b1, b2, b3);
    }
  }

  lemma Payload2(b0: Byte, b1: Byte)
    requires Grammar2(b0, b1)
    ensures ToB2(b0, b1) == Payload(b0, 0xC0) * 0x40 + Payload(b1, 0x80)
  {
  }

  lemma Payload3(b0: Byte, b1: Byte, b2: Byte)
    requires Grammar3(b0, b1, b2)
    ensures ToB3(b0, b1, b2) == Payload(b0, 0xE0) * 0x1000 + Payload(b1, 0x80) * 0x40 + Payload(b2, 0x80)
  {
  }

  lemma Payload4(b0: Byte, b1: Byte, b2: Byte, b3: Byte)
    requires Grammar4(b0, b1, b2, b3)
    ensures ToB4(b0, b1, b2, b3)
      == Payload(b0, 0xF0) * 0x4_0000 + Payload(b1, 0x80) * 0x1000 + Payload(b2, 0x80) * 0x40 + Payload(b3, 0x80)
  {
  }

  /** An escape reads as a character exactly if it is an escape of it. */
  lemma EscapeMeans(src: seq<Byte>, end: nat, p: nat, c: nat, n: nat)
    requires Source(src, end) && p < end && src[p] == '\\' as nat
    ensures EscapeItem(src, end, p) == Char(c, n) <==> p + n <= end && EscapeOf(src, p, c, n)
  {
    hide ToHex, Spells;
    if src[p + 1] == 'u' as nat && p + 6 <= end {
      HexReads(src, p + 2, c);
      if ToHex(src, p + 2).Some? {
        UnitMeans(src, end, p, ToHex(src, p + 2).value, c, n);
      } else if 0x1_0000 <= c <= MAX_UNICODE {
        HexReads(src, p + 2, HighOf(c));
      }
    }
  }

  lemma UnitMeans(src: seq<Byte>, end: nat, p: nat, hi: nat, c: nat, n: nat)
    requires Source(src, end) && p + 6 <= end && OpensHex(src, p) && ToHex(src, p + 2) == Some(hi)
    ensures EscapeItem(src, end, p) == Char(c, n) <==> p + n <= end && EscapeOf(src, p, c, n)
  {
    hide ToHex, Spells;
    HexReads(src, p + 2, hi);
    HexReads(src, p + 2, c);
    if 0x1_0000 <= c <= MAX_UNICODE {
      HexReads(src, p + 2, HighOf(c));
    }
    if p + 12 <= end {
      if 0x1_0000 <= c <= MAX_UNICODE {
        HexReads(src, p + 8, LowOf(c));
      }
      if ToHex(src, p + 8).Some? && hi / 0x400 == 0x36 && ToHex(src, p + 8).value / 0x400 == 0x37 {
        PairCombined(hi, ToHex(src, p + 8).value);
      }
    }
  }

  lemma PairCombined(hi: nat, lo: nat)
    requires hi / 0x400 == 0x36 && lo / 0x400 == 0x37
    ensures var c := (hi - 0xD800) * 0x400 + (lo - 0xDC00) + 0x1_0000;
      0x1_0000 <= c <= MAX_UNICODE && HighOf(c) == hi && LowOf(c) == lo
  {
  }

  // ----- Errors -----

  /** The bytes at p begin with one character in UTF-8. */
  predicate Utf8At(src: seq<Byte>, p: nat)
    requires p + 4 <= |src|
  {
    || Grammar2(src[p], src[p + 1]) || Grammar3(src[p], src[p + 1], src[p + 2])
    || Grammar4(src[p], src[p + 1], src[p + 2], src[p + 3])
  }

  /** The lead byte asks for more bytes than there are. */
  predicate CutShort(lead: Byte, left: nat) {
    left < if lead < 0xE0 then 2 else if lead < 0xF0 then 3 else 4
  }

  /** The escape at p is of a code unit from 0x400 * q on. */
  predicate UnitFrom(src: seq<Byte>, end: nat, p: nat, q: nat) {
    p + 6 <= end && exists v: nat :: UnitAt(src, p, v) && 0x400 * q <= v < 0x400 * (q + 1)
  }

  /** What is wrong at p. */
  predicate ErrorOf(src: seq<Byte>, end: nat, p: nat, e: StrError)
    requires Source(src, end) && p <= end
  {
    var escape := p < end && src[p] == '\\' as nat;
    var high := UnitFrom(src, end, p, 0x36);
    match e
    case UnexpectedEnd => p == end || (src[p] >= 0x80 && !Utf8At(src, p) && CutShort(src[p], end - p))
    case InvalidUtf8 => p < end && src[p] >= 0x80 && !Utf8At(src, p) && !CutShort(src[p], end - p)
    case InvalidControl => p < end && src[p] < 32
    case InvalidEscape => escape && (
      if src[p + 1] == 'u' as nat then p + 6 <= end && !FourDigits(src, p + 2) else !IsEscaped(src[p + 1]))
    case EscapeCutShort => escape && src[p + 1] == 'u' as nat && p + 6 > end
    case InvalidHighSurrogate => UnitFrom(src, end, p, 0x37)
    case NoLowSurrogate => high && !(p + 12 <= end && OpensHex(src, p + 6))
    case InvalidLowEscape => high && p + 12 <= end && OpensHex(src, p + 6) && !FourDigits(src, p + 8)
    case InvalidLowSurrogate =>
      high && p + 12 <= end && OpensHex(src, p + 6) && FourDigits(src, p + 8) && !UnitFrom(src, end, p + 6, 0x37)
  }

  predicate IsEscaped(letter: Byte) {
    letter in {34, 92, 47, 98, 102, 110, 114, 116}
  }

  lemma EscapedLetters(letter: Byte)
    ensures IsEscaped(letter) <==> exists c: nat :: TwoChar(letter, c)
  {
    forall c: nat | TwoChar(letter, c) ensures IsEscaped(letter) {
    }
    if IsEscaped(letter) {
      assert TwoChar(letter, Unescaped(letter));
    }
  }

  /** An item is an error exactly if that is what is wrong with its bytes. */
  lemma ErrorMeans(src: seq<Byte>, end: nat, p: nat, e: StrError)
    requires Source(src, end) && p <= end
    ensures ItemAt(src, end, p) == Bad(e) <==> ErrorOf(src, end, p, e)
  {
    hide EscapeItem, MultiByte, UnitAt, Utf8At, OpensHex, FourDigits;
    forall v: nat | UnitAt(src, p, v) ensures src[p] == '\\' as nat {
      UnitOpens(src, p, v);
    }
    if p < end && src[p] == '\\' as nat {
      EscapeFails(src, end, p, e);
    } else if src[p] >= 0x80 {
      MultiByteFails(src, end, p, e);
    }
  }

  lemma UnitOpens(src: seq<Byte>, p: nat, v: nat)
    requires UnitAt(src, p, v)
    ensures OpensHex(src, p) && src[p] == '\\' as nat && src[p + 1] == 'u' as nat
  {
  }

  lemma MultiByteFails(src: seq<Byte>, end: nat, p: nat, e: StrError)
    requires Source(src, end) && p < end && src[p] >= 0x80
    ensures MultiByte(src, end, p) == Bad(e)
      <==> !Utf8At(src, p) && e == if CutShort(src[p], end - p) then UnexpectedEnd else InvalidUtf8
  {
    hide IsSeq2, IsSeq3, IsSeq4, ToB2, ToB3, ToB4, Grammar2, Grammar3, Grammar4;
    SeqIsGrammar2(src[p], src[p + 1]);
    SeqIsGrammar3(src[p], src[p + 1], src[p + 2]);
    SeqIsGrammar4(src[p], src[p + 1], src[p + 2], src[p + 3]);
  }

  lemma EscapeFails(src: seq<Byte>, end: nat, p: nat, e: StrError)
    requires Source(src, end) && p < end && src[p] == '\\' as nat
    ensures EscapeItem(src, end, p) == Bad(e) <==> ErrorOf(src, end, p, e)
  {
    hide ToHex, Spells, FourDigits;
    if src[p + 1] == 'u' as nat && p + 6 <= end {
      UnitRead(src, end, p);
      if p + 12 <= end && OpensHex(src, p + 6) {
        UnitRead(src, end, p + 6);
      }
    }
  }

  /** The code unit of an escape, as read. */
  lemma UnitRead(src: seq<Byte>, end: nat, p: nat)
    requires Source(src, end) && p + 6 <= end && OpensHex(src, p)
    ensures FourDigits(src, p + 2) <==> ToHex(src, p + 2).Some?
    ensures forall q: nat ::
      UnitFrom(src, end, p, q) <==> ToHex(src, p + 2).Some? && ToHex(src, p + 2).value / 0x400 == q
  {
    hide ToHex, Spells;
    HexFails(src, p + 2);
    forall v: nat ensures UnitAt(src, p, v) <==> ToHex(src, p + 2) == Some(v) {
      HexReads(src, p + 2, v);
    }
    forall q: nat
      ensures UnitFrom(src, end, p, q) <==> ToHex(src, p + 2).Some? && ToHex(src, p + 2).value / 0x400 == q
    {
      if ToHex(src, p + 2).Some? {
        assert UnitAt(src, p, ToHex(src, p + 2).value);
      }
    }
  }

  // ----- Whole strings -----

  /** From p on, the characters stand one behind the other, plain or escaped; character i begins at cuts[i]. */
  ghost predicate Spelled(src: seq<Byte>, end: nat, p: nat, chars: seq<nat>, cuts: seq<nat>) {
    && |cuts| == |chars| + 1 && cuts[0] == p && cuts[|chars|] <= end
    && forall i :: 0 <= i < |chars| ==> Occupies(src, end, cuts[i], cuts[i + 1], chars[i])
  }

  ghost predicate Occupies(src: seq<Byte>, end: nat, p: nat, q: nat, c: nat) {
    p < q <= end && (PlainOf(src, p, c, q - p) || EscapeOf(src, p, c, q - p))
  }

  /** A string is read exactly if its characters are spelled before the first quote that is not escaped. */
  lemma StringMeans(src: seq<Byte>, end: nat, p: nat, chars: seq<nat>, next: nat)
    requires Source(src, end) && p <= end
    ensures Chars(src, end, p) == Read(chars, next)
      <==> exists cuts :: Spelled(src, end, p, chars, cuts) && Closed(src, end, cuts[|chars|], next)
  {
    hide Chars, Occupies, Closed;
    if Chars(src, end, p) == Read(chars, next) {
      var text, cuts := Cuts(src, end, p);
    }
    forall cuts | Spelled(src, end, p, chars, cuts) && Closed(src, end, cuts[|chars|], next)
      ensures Chars(src, end, p) == Read(chars, next)
    {
      CutsRead(src, end, p, chars, cuts);
      CloseMeans(src, end, cuts[|chars|], next);
      assert chars + [] == chars;
    }
  }

  /** Reading fails exactly if, behind characters that are spelled, there is something wrong. */
  lemma FailureMeans(src: seq<Byte>, end: nat, p: nat, e: StrError)
    requires Source(src, end) && p <= end
    ensures Chars(src, end, p) == Wrong(e)
      <==> exists chars, cuts :: Spelled(src, end, p, chars, cuts) && ErrorOf(src, end, cuts[|chars|], e)
  {
    hide Chars, Occupies, Closed, ErrorOf;
    if Chars(src, end, p) == Wrong(e) {
      var chars, cuts := Cuts(src, end, p);
    }
    forall chars, cuts | Spelled(src, end, p, chars, cuts) && ErrorOf(src, end, cuts[|chars|], e)
      ensures Chars(src, end, p) == Wrong(e)
    {
      CutsRead(src, end, p, chars, cuts);
      WrongMeans(src, end, cuts[|chars|], e);
    }
  }

  predicate Closed(src: seq<Byte>, end: nat, p: nat, next: nat)
    requires Source(src, end)
  {
    p < end && src[p] == '"' as nat && next == p + 1
  }

  lemma CloseMeans(src: seq<Byte>, end: nat, p: nat, next: nat)
    requires Source(src, end) && p <= end && Closed(src, end, p, next)
    ensures Chars(src, end, p) == Read([], next)
  {
  }

  lemma WrongMeans(src: seq<Byte>, end: nat, p: nat, e: StrError)
    requires Source(src, end) && p <= end && ErrorOf(src, end, p, e)
    ensures Chars(src, end, p) == Wrong(e)
  {
    hide ItemAt, ErrorOf;
    ErrorMeans(src, end, p, e);
  }

  lemma {:induction false} CutsRead(src: seq<Byte>, end: nat, p: nat, chars: seq<nat>, cuts: seq<nat>)
    requires Source(src, end) && p <= end && Spelled(src, end, p, chars, cuts)
    ensures Chars(src, end, p) == Chars(src, end, cuts[|chars|]).After(chars)
    decreases |chars|
  {
    hide Chars, Source, ItemAt, PlainOf, EscapeOf;
    if chars != [] {
      assert Occupies(src, end, cuts[0], cuts[1], chars[0]);
      ItemMeans(src, end, p, chars[0], cuts[1] - p);
      ReadsOn(src, end, p, chars[0], cuts[1] - p);
      forall i | 0 <= i < |chars[1..]| ensures Occupies(src, end, cuts[1..][i], cuts[1..][i + 1], chars[1..][i]) {
        assert Occupies(src, end, cuts[i + 1], cuts[i + 2], chars[i + 1]);
      }
      CutsRead(src, end, cuts[1], chars[1..], cuts[1..]);
      assert [chars[0]] + chars[1..] == chars;
      AfterTwice(Chars(src, end, cuts[|chars|]), [chars[0]], chars[1..]);
    } else {
      AfterNone(Chars(src, end, p));
    }
  }

  lemma AfterTwice(o: Outcome, a: seq<nat>, b: seq<nat>)
    ensures o.After(b).After(a) == o.After(a + b)
  {
    if o.Read? {
      assert a + (b + o.chars) == a + b + o.chars;
    }
  }

  lemma AfterNone(o: Outcome)
    ensures o.After([]) == o
  {
    if o.Read? {
      assert [] + o.chars == o.chars;
    }
  }

  /** Where the characters read begin. */
  lemma {:induction false} Cuts(src: seq<Byte>, end: nat, p: nat) returns (chars: seq<nat>, cuts: seq<nat>)
    requires Source(src, end) && p <= end
    ensures Spelled(src, end, p, chars, cuts)
    ensures match Chars(src, end, p)
      case Read(text, next) => chars == text && Closed(src, end, cuts[|chars|], next)
      case Wrong(e) => ErrorOf(src, end, cuts[|chars|], e)
    decreases end - p
  {
    hide ItemAt, ErrorOf, PlainOf, EscapeOf;
    chars, cuts := [], [p];
    match ItemAt(src, end, p) {
      case Close =>
        CloseAt(src, end, p);
      case Bad(e) =>
        ErrorMeans(src, end, p, e);
      case Char(c, n) =>
        NotAtEnd(src, end, p);
        ItemMeans(src, end, p, c, n);
        chars, cuts := Cuts(src, end, p + n);
        SpelledMore(src, end, p, c, chars, cuts);
        chars, cuts := [c] + chars, [p] + cuts;
    }
  }

  lemma CloseAt(src: seq<Byte>, end: nat, p: nat)
    requires Source(src, end) && p <= end && ItemAt(src, end, p).Close?
    ensures Closed(src, end, p, p + 1)
  {
  }

  lemma NotAtEnd(src: seq<Byte>, end: nat, p: nat)
    requires Source(src, end) && p <= end && ItemAt(src, end, p).Char?
    ensures p < end
  {
  }

  lemma SpelledMore(src: seq<Byte>, end: nat, p: nat, c: nat, chars: seq<nat>, cuts: seq<nat>)
    requires cuts != [] && Spelled(src, end, cuts[0], chars, cuts) && Occupies(src, end, p, cuts[0], c)
    ensures Spelled(src, end, p, [c] + chars, [p] + cuts)
    ensures ([p] + cuts)[|[c] + chars|] == cuts[|chars|]
  {
    hide Occupies;
    forall i | 0 <= i < |[c] + chars| ensures Occupies(src, end, ([p] + cuts)[i], ([p] + cuts)[i + 1],
      ([c] + chars)[i]) {
      if i > 0 {
        assert Occupies(src, end, cuts[i - 1], cuts[i], chars[i - 1]);
      }
    }
  }
}
