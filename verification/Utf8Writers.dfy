/** Writing strings as UTF-8 JSON text (src/encode/encode_utf8_shared.h, src/utils/encode_utils.c). */
module Utf8Writers {
  import opened Options
  import opened Memory
  import opened Segments
  import opened PyObjects
  import opened JsonText
  import opened Utf8

  /** What a code point becomes inside a JSON string. */
  function JsonBytes(c: nat): (s: Text)
    requires c <= MAX_UNICODE
    ensures 1 <= |s| <= 6 && forall i :: 0 <= i < |s| ==> s[i] < 256
  {
    if c < 0x80 then EscapeOne(c) else CharBytes(c)
  }

  /** A string object of some kind: its cells hold code points below that kind's limit. */
  ghost predicate KindOk(width: nat, chars: Text) {
    IsWidth(width) && forall i :: 0 <= i < |chars| ==> chars[i] < CellLimit(width) && chars[i] <= MAX_UNICODE
  }

  function JsonBody(chars: Text): Text
    requires forall i :: 0 <= i < |chars| ==> chars[i] <= MAX_UNICODE
  {
    if chars == [] then [] else JsonBody(chars[..|chars| - 1]) + JsonBytes(chars[|chars| - 1])
  }

  // ----- What may stand between the quotes -----

  /** One unescaped character or one escape of section 7 of RFC 8259, as characters of section 4 of RFC 3629. */
  predicate JsonChar(s: Text) {
    || (|s| == 1 && 32 <= s[0] < 128 && s[0] != QUOTE && s[0] != SLASH)
    || (|s| == 2 && s[0] == SLASH && s[1] in {QUOTE, SLASH, 47, 98, 102, 110, 114, 116})
    || (|s| == 6 && s[0] == SLASH && s[1] == 117 && forall i :: 2 <= i < 6 ==> Hex(s[i]))
    || (|s| > 1 && (forall i :: 0 <= i < |s| ==> 128 <= s[i] < 256) && WellFormed(s))
  }

  predicate Hex(c: nat) {
    48 <= c <= 57 || 65 <= c <= 70 || 97 <= c <= 102
  }

  /** A concatenation of such pieces. */
  ghost predicate JsonChars(s: Text) {
    s == [] || exists k: nat :: k < |s| && JsonChar(s[k..]) && JsonChars(s[..k])
  }

  lemma ValidOutput(c: nat)
    requires Scalar(c)
    ensures JsonChar(JsonBytes(c))
  {
    if c >= 0x80 {
      GrammarIsScalar(c);
    }
  }

  /** A string without surrogates is written as a valid string body, in JSON and in UTF-8. */
  lemma {:induction false} ValidBody(chars: Text)
    requires forall i :: 0 <= i < |chars| ==> chars[i] <= MAX_UNICODE && Scalar(chars[i])
    ensures JsonChars(JsonBody(chars))
  {
    if chars != [] {
      var n := |chars| - 1;
      var body, piece := JsonBody(chars[..n]), JsonBytes(chars[n]);
      ValidBody(chars[..n]);
      ValidOutput(chars[n]);
      assert (body + piece)[..|body|] == body && (body + piece)[|body|..] == piece;
    }
  }

  // ----- One code point -----

  /** The 8-byte copy of an escape row; only its first bytes count. */
  method PutEscape(buf: array<Byte>, writer: nat, c: nat) returns (w: nat)
    requires c < 256 && writer + 8 <= buf.Length
    modifies buf
    ensures w == writer + |EscapeOne(c)| && Wrote(old(buf[..]), buf[..], writer, EscapeOne(c), 8)
  {
    ghost var m := buf[..];
    StoreAll(buf, writer, 1, EscapeRow(c));
    w := writer + Jump(c);
    assert buf[writer..w] == EscapeRow(c)[..Jump(c)] by {
      forall j | 0 <= j < Jump(c) ensures buf[writer + j] == EscapeRow(c)[j] {
        assert Load(buf[..], writer + Span(1, j), 1) == EscapeRow(c)[j];
      }
    }
  }

  method PutByte(buf: array<Byte>, writer: nat, b: nat) returns (w: nat)
    requires b < 256 && writer < buf.Length
    modifies buf
    ensures w == writer + 1 && Wrote(old(buf[..]), buf[..], writer, [b], 1)
  {
    buf[writer] := b;
    w := writer + 1;
  }

  method Put2(buf: array<Byte>, writer: nat, c: nat) returns (w: nat)
    requires 0x80 <= c < 0x800 && writer + 2 <= buf.Length
    modifies buf
    ensures w == writer + 2 && Wrote(old(buf[..]), buf[..], writer, CharBytes(c), 2)
  {
    buf[writer] := 0xC0 + c / 0x40;
    buf[writer + 1] := 0x80 + c % 0x40;
    w := writer + 2;
  }

  method Put3(buf: array<Byte>, writer: nat, c: nat) returns (w: nat)
    requires 0x800 <= c < 0x1_0000 && writer + 3 <= buf.Length
    modifies buf
    ensures w == writer + 3 && Wrote(old(buf[..]), buf[..], writer, CharBytes(c), 3)
  {
    buf[writer] := 0xE0 + c / 0x1000;
    buf[writer + 1] := 0x80 + c / 0x40 % 0x40;
    buf[writer + 2] := 0x80 + c % 0x40;
    w := writer + 3;
  }

  method Put4(buf: array<Byte>, writer: nat, c: nat) returns (w: nat)
    requires 0x1_0000 <= c <= MAX_UNICODE && writer + 4 <= buf.Length
    modifies buf
    ensures w == writer + 4 && Wrote(old(buf[..]), buf[..], writer, CharBytes(c), 4)
  {
    buf[writer] := 0xF0 + c / 0x4_0000;
    buf[writer + 1] := 0x80 + c / 0x1000 % 0x40;
    buf[writer + 2] := 0x80 + c / 0x40 % 0x40;
    buf[writer + 3] := 0x80 + c % 0x40;
    w := writer + 4;
  }

  /** encode_one_ucs1 and encode_one_special_ucs1 */
  method EncodeOneUcs1(buf: array<Byte>, writer: nat, c: nat) returns (w: nat)
    requires c < 0x100 && writer + 8 <= buf.Length
    modifies buf
    ensures w == writer + |JsonBytes(c)| && Wrote(old(buf[..]), buf[..], writer, JsonBytes(c), 8)
  {
    if c < 128 && c >= 32 && c != QUOTE && c != SLASH {
      w := PutByte(buf, writer, c);
    } else if c >= 128 {
      w := Put2(buf, writer, c);
    } else {
      w := PutEscape(buf, writer, c);
    }
  }

  /** encode_one_ucs2; nothing is written for a surrogate. */
  method EncodeOneUcs2(buf: array<Byte>, writer: nat, c: nat) returns (r: Option<nat>)
    requires c < 0x1_0000 && writer + 8 <= buf.Length
    modifies buf
    ensures r == if Surrogate(c) then None else Some(writer + |JsonBytes(c)|)
    ensures r.Some? ==> Wrote(old(buf[..]), buf[..], writer, JsonBytes(c), 8)
  {
    var w;
    if c < 128 {
      if c >= 32 && c != SLASH && c != QUOTE {
        w := PutByte(buf, writer, c);
      } else {
        w := PutEscape(buf, writer, c);
      }
    } else if c < 0x800 {
      w := Put2(buf, writer, c);
    } else {
      if 0xD800 <= c <= 0xDFFF {
        return None;
      }
      w := Put3(buf, writer, c);
    }
    r := Some(w);
  }

  /** encode_one_ucs4 */
  method EncodeOneUcs4(buf: array<Byte>, writer: nat, c: nat) returns (r: Option<nat>)
    requires c <= MAX_UNICODE && writer + 8 <= buf.Length
    modifies buf
    ensures r == if Surrogate(c) then None else Some(writer + |JsonBytes(c)|)
    ensures r.Some? ==> Wrote(old(buf[..]), buf[..], writer, JsonBytes(c), 8)
  {
    var w;
    if c < 128 {
      if c >= 32 && c != SLASH && c != QUOTE {
        w := PutByte(buf, writer, c);
      } else {
        w := PutEscape(buf, writer, c);
      }
    } else if c < 0x800 {
      w := Put2(buf, writer, c);
    } else if c < 0x1_0000 {
      if 0xD800 <= c <= 0xDFFF {
        return None;
      }
      w := Put3(buf, writer, c);
    } else {
      w := Put4(buf, writer, c);
    }
    r := Some(w);
  }

  // ----- Strings -----

  /** encode_bytes_ucs1_scalar, encode_bytes_ucs2_scalar and encode_bytes_ucs4_scalar: six bytes a
      character and two more always hold every copy; a string is refused exactly for a surrogate. */
  method EncodeBytes(buf: array<Byte>, start: nat, chars: Text, width: nat) returns (r: Option<nat>)
    requires KindOk(width, chars) && start + 6 * |chars| + 2 <= buf.Length
    modifies buf
    ensures r.Some? <==> forall i :: 0 <= i < |chars| ==> Scalar(chars[i])
    ensures r.Some? ==> r.value == start + |JsonBody(chars)| && JsonChars(JsonBody(chars))
    ensures r.Some? ==> Wrote(old(buf[..]), buf[..], start, JsonBody(chars), 6 * |chars| + 2)
  {
    hide Wrote, JsonBytes, JsonBody, JsonChars, Surrogate, Written;
    ghost var m := buf[..];
    var writer, i: nat := start, 0;
    WroteNothing(m, start, chars, 6 * |chars| + 2);
    while i < |chars|
      invariant i <= |chars| && forall k :: 0 <= k < i ==> Scalar(chars[k])
      invariant Written(m, buf[..], start, chars, i, writer, 6 * |chars| + 2)
    {
      var o := SingleTurn(buf, writer, chars, i, width, 2, start, m);
      if o.None? {
        return None;
      }
      writer, i := o.value, i + 1;
    }
    WroteAll(m, buf[..], start, chars, writer, 6 * |chars| + 2);
    r := Some(writer);
  }

  /** The next character by itself. */
  method SingleTurn(buf: array<Byte>, writer: nat, chars: Text, i: nat, width: nat, ghost extra: nat, ghost start: nat,
      ghost m: seq<Byte>) returns (r: Option<nat>)
    requires KindOk(width, chars) && i < |chars| && extra >= 2 && start + 6 * |chars| + extra <= buf.Length
    requires Written(m, buf[..], start, chars, i, writer, 6 * |chars| + extra)
    modifies buf
    ensures r.Some? <==> Scalar(chars[i])
    ensures r.Some? ==> Written(m, buf[..], start, chars, i + 1, r.value, 6 * |chars| + extra)
  {
    hide Wrote, JsonBytes, JsonBody, Surrogate;
    ghost var before := buf[..];
    r := EncodeOne(buf, writer, chars[i], width);
    JsonBodyNext(chars, i);
    if r.Some? {
      WroteOne(before, buf[..], writer, JsonBytes(chars[i]));
      WroteFurther(m, before, buf[..], start, JsonBody(chars[..i]), 6 * |chars| + extra, JsonBytes(chars[i]), 8);
    }
  }

  /** The function of the string's kind. */
  method EncodeOne(buf: array<Byte>, writer: nat, c: nat, width: nat) returns (r: Option<nat>)
    requires IsWidth(width) && c < CellLimit(width) && c <= MAX_UNICODE && writer + 8 <= buf.Length
    modifies buf
    ensures r == if Surrogate(c) then None else Some(writer + |JsonBytes(c)|)
    ensures r.Some? ==> Wrote(old(buf[..]), buf[..], writer, JsonBytes(c), 8)
  {
    hide Wrote, JsonBytes;
    if width == 1 {
      var w := EncodeOneUcs1(buf, writer, c);
      r := Some(w);
    } else if width == 2 {
      r := EncodeOneUcs2(buf, writer, c);
    } else {
      r := EncodeOneUcs4(buf, writer, c);
    }
  }

  /** The first i characters are written; the writer is at w. */
  ghost predicate Written(m: seq<Byte>, m': seq<Byte>, start: nat, chars: Text, i: nat, w: nat, room: nat) {
    && i <= |chars| && (forall j :: 0 <= j < |chars| ==> chars[j] <= MAX_UNICODE)
    && w == start + |JsonBody(chars[..i])| <= start + 6 * i && Wrote(m, m', start, JsonBody(chars[..i]), room)
  }

  lemma WroteNothing(m: seq<Byte>, at: nat, chars: Text, room: nat)
    requires at + room <= |m| && forall j :: 0 <= j < |chars| ==> chars[j] <= MAX_UNICODE
    ensures Written(m, m, at, chars, 0, at, room)
  {
    assert chars[..0] == [];
  }

  lemma WroteAll(m: seq<Byte>, m': seq<Byte>, start: nat, chars: Text, w: nat, room: nat)
    requires Written(m, m', start, chars, |chars|, w, room)
    requires forall j :: 0 <= j < |chars| ==> chars[j] <= MAX_UNICODE && Scalar(chars[j])
    ensures w == start + |JsonBody(chars)| && JsonChars(JsonBody(chars)) && Wrote(m, m', start, JsonBody(chars), room)
  {
    hide Wrote, JsonBody, JsonChars;
    assert chars[..|chars|] == chars;
    ValidBody(chars);
  }

  lemma JsonBodyNext(chars: Text, i: nat)
    requires i < |chars| && forall k :: 0 <= k < |chars| ==> chars[k] <= MAX_UNICODE
    ensures JsonBody(chars[..i + 1]) == JsonBody(chars[..i]) + JsonBytes(chars[i])
  {
    assert chars[..i + 1][..i] == chars[..i];
  }

  lemma WroteOne(m: seq<Byte>, m': seq<Byte>, at: nat, text: Text)
    requires Wrote(m, m', at, text, 8)
    ensures at + |text| <= |m'| && SameOutside(m, m', at, at + 8) && m'[at..at + |text|] == text
  {
  }

  /** Stores behind the text and inside the room, of which the first bytes count. */
  lemma WroteFurther(m: seq<Byte>, m': seq<Byte>, m'': seq<Byte>, at: nat, text: Text, room: nat, more: Text,
      stored: nat)
    requires Wrote(m, m', at, text, room)
    requires |text| + |more| <= room && |text| + stored <= room && at + |text| + |more| <= |m''|
    requires SameOutside(m', m'', at + |text|, at + |text| + stored)
    requires m''[at + |text|..at + |text| + |more|] == more
    ensures Wrote(m, m'', at, text + more, room)
  {
    assert m''[at..at + |text|] == m'[at..at + |text|];
    assert m''[at..at + |text + more|] == m''[at..at + |text|] + m''[at + |text|..at + |text| + |more|];
  }

  // ----- Vectors of characters -----

  /** The most bytes a character that the vector loops of this kind of strings convert; four-byte ones go singly. */
  function MostBytes(width: nat): nat {
    if width == 1 then 1 else 3
  }

  /** The characters of a vector (READ_BATCH_COUNT). */
  function BatchCount(vector: VectorBytes, width: nat): nat
    requires IsWidth(width)
  {
    vector / width
  }

  function Times(k: nat, n: nat): nat {
    if k == 0 then 0 else if k == 1 then n else if k == 2 then 2 * n else 3 * n
  }

  /** __excess_bytes_write_ucs1_trailing, __excess_bytes_write_ucs2_trailing, __excess_bytes_write_ucs4_trailing */
  function Excess(vector: VectorBytes, width: nat): (e: nat)
    requires IsWidth(width)
    ensures e >= 6
  {
    Times(MostBytes(width), BatchCount(vector, width)) - 6
  }

  /** The characters that a loop over k-byte characters converts rightly. */
  predicate InClass(k: nat, c: nat) {
    if k == 1 then 32 <= c < 0x80 && c != QUOTE && c != SLASH
    else if k == 2 then 0x80 <= c < 0x800
    else k == 3 && 0x800 <= c < 0x1_0000 && !Surrogate(c)
  }

  /** How many of the characters from i up to `end`, one after the other, are of the class. */
  function ClassRun(k: nat, chars: Text, i: nat, end: nat): (r: nat)
    requires i <= end <= |chars|
    ensures i + r <= end && (forall j :: i <= j < i + r ==> InClass(k, chars[j]))
    ensures i + r < end ==> !InClass(k, chars[i + r])
    decreases end - i
  {
    if i == end || !InClass(k, chars[i]) then 0 else 1 + ClassRun(k, chars, i + 1, end)
  }

  lemma {:induction false} BodyAppend(a: Text, b: Text)
    requires forall i :: 0 <= i < |a| ==> a[i] <= MAX_UNICODE
    requires forall i :: 0 <= i < |b| ==> b[i] <= MAX_UNICODE
    ensures JsonBody(a + b) == JsonBody(a) + JsonBody(b)
    decreases |b|
  {
    hide JsonBytes, JsonBody;
    if b == [] {
      EmptyBody();
      assert a + b == a;
    } else {
      var n := |b| - 1;
      var ab, init := a + b, b[..n];
      BodyAppend(a, init);
      assert ab[..|ab| - 1] == a + init;
      BodyLast(ab);
      BodyLast(b);
    }
  }

  lemma BodyLast(chars: Text)
    requires chars != [] && forall i :: 0 <= i < |chars| ==> chars[i] <= MAX_UNICODE
    ensures JsonBody(chars) == JsonBody(chars[..|chars| - 1]) + JsonBytes(chars[|chars| - 1])
  {
    hide JsonBytes;
  }

  /** A run of one class takes k bytes a character and has nothing to escape. */
  lemma {:induction false} ClassBody(k: nat, chars: Text)
    requires forall j :: 0 <= j < |chars| ==> InClass(k, chars[j]) && chars[j] <= MAX_UNICODE && Scalar(chars[j])
    ensures |JsonBody(chars)| == Times(k, |chars|)
    decreases |chars|
  {
    if chars != [] {
      var n := |chars| - 1;
      ClassBody(k, chars[..n]);
      ClassBytes(k, chars[n]);
      hide JsonBytes;
    }
  }

  lemma ClassBytes(k: nat, c: nat)
    requires InClass(k, c)
    ensures Scalar(c) && |JsonBytes(c)| == k && JsonBytes(c) == CharBytes(c)
  {
  }

  /** The bytes of the characters of one class, put together. */
  method Converted(k: nat, chars: Text) returns (out: seq<Byte>)
    requires forall j :: 0 <= j < |chars| ==> InClass(k, chars[j])
    ensures forall j :: 0 <= j < |chars| ==> chars[j] <= MAX_UNICODE && Scalar(chars[j])
    ensures out == JsonBody(chars) && |out| == Times(k, |chars|)
  {
    hide JsonBody, InClass, Scalar, JsonBytes, CharBytes;
    forall j | 0 <= j < |chars| ensures chars[j] <= MAX_UNICODE && Scalar(chars[j]) {
      ClassBytes(k, chars[j]);
      ScalarBound(chars[j]);
    }
    out := [];
    var j := 0;
    EmptyBody();
    while j < |chars|
      invariant 0 <= j <= |chars| && out == JsonBody(chars[..j])
    {
      ClassBytes(k, chars[j]);
      JsonBodyNext(chars, j);
      out := out + CharBytes(chars[j]);
      j := j + 1;
    }
    assert chars[..j] == chars;
    ClassBody(k, chars);
  }

  lemma EmptyBody()
    ensures JsonBody([]) == []
  {
  }

  lemma ScalarBound(c: nat)
    requires Scalar(c)
    ensures c <= MAX_UNICODE
  {
  }

  /** One vector: it is stored whole, whatever the conversion makes of the characters that are not of the class and
      of those behind the end; the writer goes behind the run of the class. */
  method EncodeVector(buf: array<Byte>, writer: nat, chars: Text, i: nat, k: nat, batch: nat, junk: nat -> Byte)
    returns (w: nat, run: nat)
    requires 0 < k <= 3 && i <= |chars| && writer + Times(k, batch) <= buf.Length
    modifies buf
    ensures i + run <= |chars| && w == writer + Times(k, run) <= writer + Times(k, batch)
    ensures run == ClassRun(k, chars, i, Min(i + batch, |chars|))
    ensures forall j :: i <= j < i + run ==> chars[j] <= MAX_UNICODE && Scalar(chars[j])
    ensures SameOutside(old(buf[..]), buf[..], writer, writer + Times(k, batch))
    ensures |JsonBody(chars[i..i + run])| == Times(k, run) && buf[..][writer..w] == JsonBody(chars[i..i + run])
  {
    hide InClass, Scalar, JsonBody, StoredAt;
    run := ClassRun(k, chars, i, Min(i + batch, |chars|));
    var part := chars[i..i + run];
    forall j | 0 <= j < run ensures part[j] == chars[i + j] {
    }
    var out := Converted(k, part);
    w := writer + |out|;
    var rest := seq(Times(k, batch) - |out|, j requires 0 <= j => junk(j));
    StoreAll(buf, writer, 1, out + rest);
    FirstStored(old(buf[..]), buf[..], writer, out, rest);
    forall j | i <= j < i + run ensures chars[j] <= MAX_UNICODE && Scalar(chars[j]) {
      assert part[j - i] == chars[j];
    }
  }

  function Min(a: nat, b: nat): nat {
    if a < b then a else b
  }

  lemma FirstStored(m: seq<Byte>, m': seq<Byte>, at: nat, a: seq<Byte>, b: seq<Byte>)
    requires StoredAt(m, m', at, 1, a + b)
    ensures SameOutside(m, m', at, at + |a| + |b|) && at + |a| <= |m'| && m'[at..at + |a|] == a
  {
    forall j: nat | j < |a| ensures m'[at + j] == a[j] {
      assert Load(m', at + Span(1, j), 1) == (a + b)[j];
    }
  }

  /** The same as a step of the loop over a string. */
  method VectorTurn(buf: array<Byte>, writer: nat, chars: Text, i: nat, width: nat, vector: VectorBytes, k: nat,
      junk: nat -> Byte, ghost start: nat, ghost m: seq<Byte>) returns (w: nat, next: nat)
    requires KindOk(width, chars) && i < |chars| && 0 < k <= MostBytes(width)
    requires start + 6 * |chars| + Excess(vector, width) <= buf.Length
    requires Written(m, buf[..], start, chars, i, writer, 6 * |chars| + Excess(vector, width))
    modifies buf
    ensures i <= next <= |chars| && forall j :: i <= j < next ==> Scalar(chars[j])
    ensures Written(m, buf[..], start, chars, next, w, 6 * |chars| + Excess(vector, width))
  {
    hide Wrote, JsonBytes, JsonBody, Surrogate, InClass, ClassRun, Scalar, Excess, Times, BatchCount, MostBytes,
      Written;
    TriesAtMost(width, k);
    var batch := BatchCount(vector, width);
    VectorFits(vector, width, k);
    WriterBound(m, buf[..], start, chars, i, writer, 6 * |chars| + Excess(vector, width));
    ghost var before := buf[..];
    var run;
    w, run := EncodeVector(buf, writer, chars, i, k, batch, junk);
    next := i + run;
    RunAppended(m, before, buf[..], start, chars, i, writer, run, k, Times(k, batch),
      6 * |chars| + Excess(vector, width));
  }

  lemma TriesAtMost(width: nat, k: nat)
    requires k <= MostBytes(width)
    ensures k <= 3
  {
  }

  lemma VectorFits(vector: VectorBytes, width: nat, k: nat)
    requires IsWidth(width) && k <= MostBytes(width)
    ensures Times(k, BatchCount(vector, width)) <= Excess(vector, width) + 6
  {
  }

  lemma WriterBound(m: seq<Byte>, m': seq<Byte>, start: nat, chars: Text, i: nat, writer: nat, room: nat)
    requires Written(m, m', start, chars, i, writer, room)
    ensures start <= writer <= start + 6 * i
  {
  }

  lemma RunAppended(m: seq<Byte>, m': seq<Byte>, m'': seq<Byte>, start: nat, chars: Text, i: nat, writer: nat, run: nat,
      k: nat, stored: nat, room: nat)
    requires i + run <= |chars| && k <= 3 && Written(m, m', start, chars, i, writer, room)
    requires writer + stored <= start + room && Times(k, run) <= stored
    requires forall j :: i <= j < i + run ==> chars[j] <= MAX_UNICODE
    requires |JsonBody(chars[i..i + run])| == Times(k, run)
    requires SameOutside(m', m'', writer, writer + stored) && writer + Times(k, run) <= |m''|
    requires m''[writer..writer + Times(k, run)] == JsonBody(chars[i..i + run])
    ensures Written(m, m'', start, chars, i + run, writer + Times(k, run), room)
  {
    hide Wrote, JsonBody;
    var part := chars[i..i + run];
    assert chars[..i + run] == chars[..i] + part;
    BodyAppend(chars[..i], part);
    WroteFurther(m, m', m'', start, JsonBody(chars[..i]), room, JsonBody(part), stored);
  }

  /** The vector loops and the trailing forms, for every vector width and whatever class of characters is tried at
      each place (none, where single characters are written at once): stores stay inside six bytes a character and
      the stated excess, and what is written is what the single characters give. */
  method EncodeBytesVector(buf: array<Byte>, start: nat, chars: Text, width: nat, vector: VectorBytes,
      tried: nat -> nat, junk: nat -> Byte) returns (r: Option<nat>)
    requires KindOk(width, chars) && start + 6 * |chars| + Excess(vector, width) <= buf.Length
    requires forall i :: tried(i) <= MostBytes(width)
    modifies buf
    ensures r.Some? <==> forall i :: 0 <= i < |chars| ==> Scalar(chars[i])
    ensures r.Some? ==> r.value == start + |JsonBody(chars)| && JsonChars(JsonBody(chars))
    ensures r.Some? ==> Wrote(old(buf[..]), buf[..], start, JsonBody(chars), 6 * |chars| + Excess(vector, width))
  {
    hide Wrote, JsonBytes, JsonBody, JsonChars, Surrogate, InClass, ClassRun, Scalar, Excess, Written;
    ghost var m, room := buf[..], 6 * |chars| + Excess(vector, width);
    var writer, i: nat := start, 0;
    WroteNothing(m, start, chars, room);
    while i < |chars|
      invariant i <= |chars| && forall j :: 0 <= j < i ==> Scalar(chars[j])
      invariant Written(m, buf[..], start, chars, i, writer, room)
    {
      var k := tried(i);
      var at := i;
      if k > 0 {
        writer, i := VectorTurn(buf, writer, chars, i, width, vector, k, junk, start, m);
      }
      if i == at || (i < |chars| && i < at + BatchCount(vector, width)) {
        var o := SingleTurn(buf, writer, chars, i, width, Excess(vector, width), start, m);
        if o.None? {
          return None;
        }
        writer, i := o.value, i + 1;
      }
    }
    WroteAll(m, buf[..], start, chars, writer, 6 * |chars| + Excess(vector, width));
    r := Some(writer);
  }

  /** bytes_write_ucs1_str, bytes_write_ucs2_str and bytes_write_ucs4_str: short strings that are not compact go
      character by character, unless the loads can be masked. */
  method EncodeString(buf: array<Byte>, start: nat, chars: Text, width: nat, compact: bool, vector: VectorBytes,
      tried: nat -> nat, junk: nat -> Byte) returns (r: Option<nat>)
    requires KindOk(width, chars) && start + 6 * |chars| + Excess(vector, width) <= buf.Length
    requires forall i :: tried(i) <= MostBytes(width)
    modifies buf
    ensures r.Some? <==> forall i :: 0 <= i < |chars| ==> Scalar(chars[i])
    ensures r.Some? ==> r.value == start + |JsonBody(chars)| && JsonChars(JsonBody(chars))
    ensures r.Some? ==> Wrote(old(buf[..]), buf[..], start, JsonBody(chars), 6 * |chars| + Excess(vector, width))
  {
    hide Wrote, JsonBody, JsonChars, Scalar, Excess;
    ghost var m := buf[..];
    if vector != 64 && !compact && |chars| < BatchCount(vector, width) {
      r := EncodeBytes(buf, start, chars, width);
      if r.Some? {
        WroteInMore(m, buf[..], start, JsonBody(chars), 6 * |chars| + 2, 6 * |chars| + Excess(vector, width));
      }
    } else {
      r := EncodeBytesVector(buf, start, chars, width, vector, tried, junk);
    }
  }

  lemma WroteInMore(m: seq<Byte>, m': seq<Byte>, at: nat, text: Text, room: nat, more: nat)
    requires Wrote(m, m', at, text, room) && room <= more && at + more <= |m|
    ensures Wrote(m, m', at, text, more)
  {
  }
}
