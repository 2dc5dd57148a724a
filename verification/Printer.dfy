/** Python objects as the encoder sees them: a frozen graph, shared and possibly cyclic. */
module PyObjects {
  import opened Segments
  import opened Integers

  /** An object address. */
  type Ref = int

  type Text = seq<nat>

  datatype Obj =
    | Null
    | Bool(value: bool)
    | Long(number: int)
    | Float(digits: Text)
    | Str(level: Level, compact: bool, chars: Text)
    | List(items: seq<Ref>)
    | Tuple(items: seq<Ref>)
    | Dict(entries: seq<(Ref, Ref)>)
    | Unsupported
  {
    /** An int that fits neither 64 bits with sign nor 64 bits without. */
    predicate OutOfRange() {
      Long? && !InRange(number)
    }

    predicate IsContainer() {
      List? || Tuple? || Dict?
    }

    /** Containers that have a mutex to lock. */
    predicate Lockable() {
      List? || Dict?
    }

    function Size(): nat
      requires IsContainer()
    {
      if Dict? then |entries| else |items|
    }

    function Child(pos: nat): Ref
      requires IsContainer() && pos < Size()
    {
      if Dict? then entries[pos].1 else items[pos]
    }
  }

  /** What CPython and the number printers guarantee about single objects: a string's characters fit
      its kind and one of them needs it, a float takes at most 24 ASCII characters (ssrjson_dtoa_output_maxlen),
      an index fits 61 bits. */
  ghost predicate ObjOk(o: Obj) {
    && (o.Str? ==> Fits(o.level, o.chars) && Needed(o.level, o.chars))
    && (o.Float? ==> |o.digits| <= 24 && Fits(Ascii, o.digits))
    && (o.IsContainer() ==> o.Size() < 0x2000_0000_0000_0000)
  }

  datatype Error = CircularReference | TooManyNested | UnsupportedType | KeyNotStr | NumberOutOfRange

  datatype Result<+T> = Ok(value: T) | Err(error: Error) {
    predicate IsFailure() {
      Err?
    }

    function PropagateFailure<U>(): Result<U>
      requires Err?
    {
      Err(error)
    }

    function Extract(): T
      requires Ok?
    {
      value
    }
  }

  /** SSRJSON_ENCODE_MAX_RECURSION */
  const MAX_RECURSION: nat := 1024

  /** The graph, COMPILE_INDENT_LEVEL, and whether the build locks containers. */
  datatype Env = Env(heap: map<Ref, Obj>, indent: nat, locking: bool) {
    /** The object at r; an address outside the modelled graph is some object that cannot be encoded. */
    function At(r: Ref): Obj {
      if r in heap then heap[r] else Unsupported
    }

    ghost predicate WellFormed() {
      && (indent == 0 || indent == 2 || indent == 4)
      && forall r :: ObjOk(At(r))
    }

    /** The containers in `path` after entering r. */
    function Entered(r: Ref, path: set<Ref>): set<Ref> {
      if locking && At(r).Lockable() then path + {r} else path
    }
  }
}

/** Escaping and the fixed pieces of JSON text (src/utils/float_tables.c). */
module JsonText {
  import opened Segments
  import opened PyObjects

  const QUOTE: nat := 34
  const SLASH: nat := 92
  const COMMA: nat := 44
  const COLON: nat := 58
  const SPACE: nat := 32
  const NEWLINE: nat := 10

  function HexDigit(d: nat): nat
    requires d < 16
  {
    if d < 10 then 48 + d else 87 + d
  }

  /** The letter of a two-character escape, or 0. */
  function ShortEscape(c: nat): nat {
    if c == 8 then 98 else if c == 9 then 116 else if c == 10 then 110 else if c == 12 then 102
    else if c == 13 then 114 else if c == QUOTE then QUOTE else if c == SLASH then SLASH else 0
  }

  /** _ControlJump */
  function Jump(c: nat): (n: nat)
    ensures 1 <= n <= 6
  {
    if ShortEscape(c) != 0 then 2 else if c < 32 then 6 else 1
  }

  /** A row of ControlEscapeTable. */
  function EscapeRow(c: nat): (row: Text)
    requires c < 256
    ensures |row| == 8
    ensures forall i :: 0 <= i < 8 ==> row[i] < 128 || row[i] == c
  {
    if ShortEscape(c) != 0 then [SLASH, ShortEscape(c), 0, 0, 0, 0, 0, 0]
    else if c < 32 then [SLASH, 117, 48, 48, HexDigit(c / 16), HexDigit(c % 16), 0, 0]
    else [c, 0, 0, 0, 0, 0, 0, 0]
  }

  /** The characters the writers must escape. */
  predicate Special(c: nat) {
    c < 32 || c == QUOTE || c == SLASH
  }

  function EscapeOne(c: nat): (t: Text)
    ensures 1 <= |t| <= 6
    ensures !Special(c) ==> t == [c]
  {
    if c > 255 then [c] else EscapeRow(c)[..Jump(c)]
  }

  function Escape(s: Text): Text {
    if s == [] then [] else EscapeOne(s[0]) + Escape(s[1..])
  }

  function Quoted(s: Text): Text {
    [QUOTE] + Escape(s) + [QUOTE]
  }

  function Spaces(n: nat): (t: Text)
    ensures |t| == n
  {
    seq(n, _ => SPACE)
  }

  /** get_indent_char_count */
  function IndentCount(indent: nat, depth: nat): nat {
    if indent == 0 then 0 else indent * depth + 1
  }

  function Indentation(indent: nat, depth: nat): (t: Text)
    ensures |t| == IndentCount(indent, depth)
  {
    if indent == 0 then [] else [NEWLINE] + Spaces(indent * depth)
  }

  function Opening(o: Obj): nat {
    if o.Dict? then 123 else 91
  }

  function Closing(o: Obj): nat {
    if o.Dict? then 125 else 93
  }

  const NULL_TEXT: Text := [110, 117, 108, 108]
  const TRUE_TEXT: Text := [116, 114, 117, 101]
  const FALSE_TEXT: Text := [102, 97, 108, 115, 101]

  lemma {:induction false} EscapeAppend(s: Text, t: Text)
    ensures Escape(s + t) == Escape(s) + Escape(t)
  {
    if s == [] {
      assert s + t == t;
    } else {
      assert (s + t)[1..] == s[1..] + t;
      EscapeAppend(s[1..], t);
    }
  }

  lemma {:induction false} PlainEscape(s: Text)
    requires forall i :: 0 <= i < |s| ==> !Special(s[i])
    ensures Escape(s) == s
  {
    if s != [] {
      PlainEscape(s[1..]);
    }
  }

  /** A character that needs a level is not escaped. */
  lemma {:induction false} EscapeNeeds(level: Level, s: Text)
    requires Needed(level, s)
    ensures Needed(level, Escape(s))
  {
    if level != Ascii {
      var i :| 0 <= i < |s| && s[i] >= Floor(level);
      assert s == s[..i] + [s[i]] + s[i + 1..];
      EscapeAppend(s[..i] + [s[i]], s[i + 1..]);
      EscapeAppend(s[..i], [s[i]]);
      assert Escape([s[i]]) == [s[i]] by { assert [s[i]][1..] == []; }
      var k := |Escape(s[..i])|;
      assert Escape(s)[k] == s[i];
    }
  }

  /** Writing a string at the wider of two levels leaves the text at the level it needs. */
  lemma StringNeeds(level: Level, o: Obj, was: Text, lead: Text, tail: Text)
    requires o.Str? && Needed(o.level, o.chars) && Needed(level, was)
    ensures Needed(if level.Below(o.level) then o.level else level, was + (lead + Quoted(o.chars) + tail))
  {
    var t := was + (lead + Quoted(o.chars) + tail);
    if level.Below(o.level) {
      EscapeNeeds(o.level, o.chars);
      var i :| 0 <= i < |Escape(o.chars)| && Escape(o.chars)[i] >= Floor(o.level);
      assert t[|was| + |lead| + 1 + i] == Escape(o.chars)[i];
    } else {
      NeededGrows(level, was, lead + Quoted(o.chars) + tail);
    }
  }

  lemma EscapeOneFits(level: Level, c: nat)
    requires c < level.CharLimit()
    ensures Fits(level, EscapeOne(c))
  {
  }

  lemma {:induction false} EscapeBounds(level: Level, s: Text)
    requires Fits(level, s)
    ensures Fits(level, Escape(s)) && |Escape(s)| <= 6 * |s|
  {
    if s != [] {
      EscapeOneFits(level, s[0]);
      EscapeBounds(level, s[1..]);
    }
  }
}

/** The reference printer: plain recursion over the graph, commas between members only. */
module Printer {
  import opened Integers
  import opened PyObjects
  import opened JsonText

  function Join(parts: seq<Text>): Text {
    if parts == [] then [] else if |parts| == 1 then parts[0] else parts[0] + [COMMA] + Join(parts[1..])
  }

  /** What precedes the value at `pos`: line break and indentation, and in a dict its key. */
  function Lead(env: Env, o: Obj, pos: nat, depth: nat): Result<Text>
    requires o.IsContainer() && pos < o.Size()
  {
    if !o.Dict? then Ok(Indentation(env.indent, depth))
    else
      var key := env.At(o.entries[pos].0);
      if !key.Str? then Err(KeyNotStr)
      else Ok(Indentation(env.indent, depth) + Quoted(key.chars) + [COLON] + (if env.indent > 0 then [SPACE] else []))
  }

  /** The text of r inside `depth` open containers, the lockable ones of which are `path`. */
  function Print(env: Env, r: Ref, depth: nat, path: set<Ref>): Result<Text>
    requires depth <= MAX_RECURSION
    decreases MAX_RECURSION - depth, 0, 0
  {
    var o := env.At(r);
    match o
    case Null => Ok(NULL_TEXT)
    case Bool(value) => Ok(if value then TRUE_TEXT else FALSE_TEXT)
    case Long(number) => if InRange(number) then Ok(IntText(number)) else Err(NumberOutOfRange)
    case Float(digits) => Ok(digits)
    case Str(_, _, chars) => Ok(Quoted(chars))
    case Unsupported => Err(UnsupportedType)
    case _ =>
      if o.Size() == 0 then Ok([Opening(o), Closing(o)])
      else if env.locking && o.Lockable() && r in path then Err(CircularReference)
      else if depth == MAX_RECURSION then Err(TooManyNested)
      else
        var members :- PrintMembers(env, r, 0, depth + 1, env.Entered(r, path));
        Ok([Opening(o)] + Join(members) + Indentation(env.indent, depth) + [Closing(o)])
  }

  function PrintMembers(env: Env, r: Ref, pos: nat, depth: nat, path: set<Ref>): Result<seq<Text>>
    requires depth <= MAX_RECURSION && env.At(r).IsContainer() && pos <= env.At(r).Size()
    decreases MAX_RECURSION - depth, 1, env.At(r).Size() - pos
  {
    var o := env.At(r);
    if pos == o.Size() then Ok([])
    else
      var lead :- Lead(env, o, pos, depth);
      var value :- Print(env, o.Child(pos), depth, path);
      var rest :- PrintMembers(env, r, pos + 1, depth, path);
      Ok([lead + value] + rest)
  }

  /** dumps: only a container may be the root. */
  function Dumps(env: Env, root: Ref): Result<Text> {
    if env.At(root).IsContainer() then Print(env, root, 0, {}) else Err(UnsupportedType)
  }
}
