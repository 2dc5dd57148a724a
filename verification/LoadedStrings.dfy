/** Strings and keys of a document, from their bytes to the object that the value stack gets
    (src/decode/decode_bytes_str_wrap.h, src/decode/str/ascii.h). */
module LoadedStrings {
  import opened Memory
  import opened Segments
  import opened PyObjects
  import opened JsonString
  import opened BlockLoop
  import opened StringSegments
  import opened StringDecoder
  import opened References
  import opened Values
  import opened PyHeap
  import opened ValueStack
  import opened KeyCache

  /** The `kind` argument of create_empty_unicode. */
  function KindOf(level: Level): nat {
    match level case Ascii => 0 case Ucs1 => 1 case Ucs2 => 2 case Ucs4 => 4
  }

  /** The bytes are these characters in cells of one width. */
  ghost predicate Cells(bytes: seq<Byte>, w: nat, chars: Text)
    requires IsWidth(w)
  {
    |bytes| == Span(w, |chars|) && forall i: nat :: i < |chars| ==> CellIs(bytes, w, i, chars[i])
  }

  ghost predicate CellIs(bytes: seq<Byte>, w: nat, i: nat, c: nat)
    requires IsWidth(w)
  {
    Span(w, i) + w <= |bytes| && Load(bytes, Span(w, i), w) == c
  }

  /** Object i is a string of these characters in the smallest kind. */
  ghost predicate IsString(nodes: seq<Node>, i: Id, chars: Text) {
    && i < |nodes| && nodes[i].Str?
    && exists level: Level ::
      Smallest(level, chars) && nodes[i].kind == KindOf(level) && Cells(nodes[i].bytes, level.Width(), chars)
  }

  ghost predicate Smallest(level: Level, chars: Text) {
    Fits(level, chars) && Needed(level, chars)
  }

  lemma OneSmallest(a: Level, b: Level, chars: Text)
    requires Smallest(a, chars) && Smallest(b, chars)
    ensures a == b
  {
  }

  lemma OneByteString(a: seq<Byte>, b: seq<Byte>, w: nat, chars: Text)
    requires IsWidth(w) && Cells(a, w, chars) && Cells(b, w, chars)
    ensures a == b
  {
    forall k: nat | k < |a| ensures a[k] == b[k] {
      var i := k / w;
      CellBytes(w, k, |chars|);
      assert CellIs(a, w, i, chars[i]) && CellIs(b, w, i, chars[i]);
      LoadedBytes(a, b, Span(w, i), w);
    }
  }

  /** Byte k lies in cell k / w. */
  lemma CellBytes(w: nat, k: nat, n: nat)
    requires IsWidth(w) && k < Span(w, n)
    ensures k / w < n && Span(w, k / w) <= k < Span(w, k / w) + w
  {
  }

  /** Strings of the same characters have the same kind and bytes: a dict that compares those compares characters. */
  lemma SameCharacters(nodes: seq<Node>, i: Id, j: Id, chars: Text)
    requires IsString(nodes, i, chars) && IsString(nodes, j, chars)
    ensures nodes[i].kind == nodes[j].kind && nodes[i].bytes == nodes[j].bytes
  {
    var a: Level :| Smallest(a, chars) && nodes[i].kind == KindOf(a) && Cells(nodes[i].bytes, a.Width(), chars);
    var b: Level :| Smallest(b, chars) && nodes[j].kind == KindOf(b) && Cells(nodes[j].bytes, b.Width(), chars);
    OneSmallest(a, b, chars);
    OneByteString(nodes[i].bytes, nodes[j].bytes, a.Width(), chars);
  }

  /** What the kind of a string object says: kind 0 exactly if all characters are ASCII, and otherwise the smallest of
      1, 2 and 4 whose cells hold them; the bytes are so many cells, least significant byte first. */
  lemma StringObject(nodes: seq<Node>, i: Id, chars: Text)
    requires IsString(nodes, i, chars)
    ensures nodes[i].kind == 0 <==> forall j :: 0 <= j < |chars| ==> chars[j] < 0x80
    ensures nodes[i].kind <= 1 <==> forall j :: 0 <= j < |chars| ==> chars[j] < 0x100
    ensures nodes[i].kind <= 2 <==> forall j :: 0 <= j < |chars| ==> chars[j] < 0x1_0000
    ensures nodes[i].kind in {0, 1, 2, 4}
    ensures var k, bytes := if nodes[i].kind == 0 then 1 else nodes[i].kind, nodes[i].bytes;
      && |bytes| == k * |chars|
      && (k == 1 ==> forall j :: 0 <= j < |chars| ==> bytes[j] == chars[j])
      && (k == 2 ==> forall j :: 0 <= j < |chars| ==> bytes[2 * j] as nat + 0x100 * bytes[2 * j + 1] as nat == chars[j])
      && (k == 4 ==> forall j :: 0 <= j < |chars| ==>
        bytes[4 * j] as nat + 0x100 * bytes[4 * j + 1] as nat + 0x1_0000 * bytes[4 * j + 2] as nat
          + 0x100_0000 * bytes[4 * j + 3] as nat == chars[j])
  {
    hide Cells;
    var level: Level :|
      Smallest(level, chars) && nodes[i].kind == KindOf(level) && Cells(nodes[i].bytes, level.Width(), chars);
    SmallestKind(level, chars);
    CellsAre(nodes[i].bytes, level.Width(), chars);
  }

  lemma SmallestKind(level: Level, chars: Text)
    requires Smallest(level, chars)
    ensures KindOf(level) == 0 <==> forall j :: 0 <= j < |chars| ==> chars[j] < 0x80
    ensures KindOf(level) <= 1 <==> forall j :: 0 <= j < |chars| ==> chars[j] < 0x100
    ensures KindOf(level) <= 2 <==> forall j :: 0 <= j < |chars| ==> chars[j] < 0x1_0000
    ensures KindOf(level) in {0, 1, 2, 4}
    ensures level.Width() == if KindOf(level) == 0 then 1 else KindOf(level)
  {
  }

  lemma CellsAre(bytes: seq<Byte>, w: nat, chars: Text)
    requires IsWidth(w) && Cells(bytes, w, chars)
    ensures |bytes| == w * |chars|
    ensures w == 1 ==> forall j :: 0 <= j < |chars| ==> bytes[j] == chars[j]
    ensures w == 2 ==> forall j :: 0 <= j < |chars| ==>
      bytes[2 * j] as nat + 0x100 * bytes[2 * j + 1] as nat == chars[j]
    ensures w == 4 ==> forall j :: 0 <= j < |chars| ==>
      bytes[4 * j] as nat + 0x100 * bytes[4 * j + 1] as nat + 0x1_0000 * bytes[4 * j + 2] as nat
          + 0x100_0000 * bytes[4 * j + 3] as nat == chars[j]
  {
    forall j | 0 <= j < |chars| ensures CellIs(bytes, w, j, chars[j]) {
    }
  }

  datatype Got = Got(obj: Id, next: nat) | Lost(error: StrError)

  /** loads_bytes with the objects it makes: a string that can be read becomes one object, through the key cache if
      it is an ASCII key, and a key knows its hash, as the insertion into a dict needs it. */
  method LoadString(src: seq<Byte>, end: nat, start: nat, buf: array<Byte>, batch: nat, isKey: bool, x64: bool,
      cache: Cache, ghost elsewhere: multiset<Id>) returns (r: Got)
    requires Source(src, end) && start <= end && Span(4, end - start) <= buf.Length
    requires 0 < batch && end + batch <= |src| && end + 16 <= |src|
    requires cache.Valid(elsewhere)
    modifies buf, cache.heap, cache.slots
    ensures match Chars(src, end, start)
      case Wrong(e) =>
        r == Lost(if LoadRejects(src, end, start, x64) then InvalidUtf8 else e) && cache.Valid(elsewhere)
      case Read(chars, next) =>
        && r.Got? && r.next == next && cache.Valid(elsewhere + multiset{r.obj})
        && IsString(cache.heap.nodes, r.obj, chars) && (isKey ==> KeyKnown(cache.heap.nodes, r.obj))
    ensures LaterUpTo(old(cache.heap.nodes), cache.heap.nodes, |old(cache.heap.nodes)|)
  {
    hide Cache.Valid, Answers, LoadRejects, Chars, LaterUpTo, IsString;
    var l := LoadsBytes(src, end, start, buf, batch, isKey, x64);
    LoadedAsRead(src, end, start, x64, l);
    if l.Failed? {
      LaterSelf(cache.heap.nodes, |cache.heap.nodes|);
      return Lost(l.error);
    }
    var bytes, level := l.str.data[..], l.str.level;
    var obj;
    if level == Ascii {
      obj := cache.MakeString(0, bytes, isKey, true, elsewhere);
    } else {
      obj := cache.Make(KindOf(level), bytes, isKey, false, elsewhere);
    }
    r := Got(obj, l.next);
    MadeString(cache.heap.nodes, obj, level, bytes, Chars(src, end, start).chars);
  }

  lemma LoadedAsRead(src: seq<Byte>, end: nat, start: nat, x64: bool, l: Loaded)
    requires Source(src, end) && start <= end && end + 16 <= |src| && Answers(src, end, start, x64, l)
    ensures match Chars(src, end, start)
      case Wrong(e) => l == Failed(if LoadRejects(src, end, start, x64) then InvalidUtf8 else e)
      case Read(chars, next) =>
        l.Loaded? && l.next == next && Smallest(l.str.level, chars) && Cells(l.str.data[..], l.str.level.Width(), chars)
  {
    hide LoadRejects, Chars, Load;
    if Chars(src, end, start).Read? {
      ReadIsLoaded(src, end, start, x64, l);
      var chars := Chars(src, end, start).chars;
      forall i: nat | i < |chars| ensures CellIs(l.str.data[..], l.str.level.Width(), i, chars[i]) {
      }
    }
  }

  lemma MadeString(nodes: seq<Node>, obj: Id, level: Level, bytes: seq<Byte>, chars: Text)
    requires IsText(nodes, obj, KindOf(level), bytes) && Smallest(level, chars) && Cells(bytes, level.Width(), chars)
    ensures IsString(nodes, obj, chars)
  {
    if bytes == [] {
      EmptyCells(bytes, level.Width(), chars);
      assert level == Ascii;
    }
  }

  lemma EmptyCells(bytes: seq<Byte>, w: nat, chars: Text)
    requires IsWidth(w) && bytes == [] && Cells(bytes, w, chars)
    ensures chars == []
  {
  }
}
