/** What is printed is JSON: read back, it is the tree of the object graph. */
module PrintedJson {
  import opened Options
  import opened Integers
  import opened PyObjects
  import opened JsonText
  import opened Printer
  import opened JsonReader

  /** The tree is what the object is: lists and tuples are arrays, a dict has its keys and values in the order of its
      entries. */
  ghost predicate IsTreeOf(env: Env, r: Ref, v: Tree)
    decreases v
  {
    var o := env.At(r);
    match v
    case JNull => o == Null
    case JBool(value) => o == Bool(value)
    case JInt(number) => o == Long(number)
    case JFloat(token) => o == Float(token)
    case JStr(chars) => o.Str? && o.chars == chars
    case JArr(items) =>
      && (o.List? || o.Tuple?) && |o.items| == |items|
      && forall i :: 0 <= i < |items| ==> IsTreeOf(env, o.items[i], items[i])
    case JObj(members) =>
      && o.Dict? && |o.entries| == |members|
      && forall i :: 0 <= i < |members| ==>
        && env.At(o.entries[i].0).Str? && env.At(o.entries[i].0).chars == members[i].key
        && IsTreeOf(env, o.entries[i].1, members[i].value)
  }

  /** Floats are printed as numbers with a fraction or an exponent, or as one of Python's three names. */
  ghost predicate FloatsReadable(env: Env) {
    forall r :: env.At(r).Float? ==> IsFloat(env.At(r).digits)
  }

  // ----- Positions -----

  lemma StandsParts(s: Text, p: nat, a: Text, b: Text)
    ensures StandsAt(s, p, a + b) <==> StandsAt(s, p, a) && StandsAt(s, p + |a|, b)
  {
    if p + |a + b| <= |s| {
      assert s[p..p + |a + b|] == s[p..p + |a|] + s[p + |a|..p + |a| + |b|];
      if StandsAt(s, p, a + b) {
        assert (a + b)[..|a|] == a && (a + b)[|a|..] == b;
      }
    }
  }

  lemma StandsOne(s: Text, p: nat, t: Text, i: nat)
    requires StandsAt(s, p, t) && i < |t|
    ensures p + i < |s| && s[p + i] == t[i]
  {
    assert s[p..p + |t|][i] == t[i];
  }

  /** A value may end here. */
  predicate Ended(s: Text, p: nat) {
    p == |s| || (p < |s| && Delimits(s[p]))
  }

  lemma {:induction false} SkipsGap(s: Text, p: nat, gap: Text)
    requires StandsAt(s, p, gap) && forall i :: 0 <= i < |gap| ==> IsWhite(gap[i])
    requires p + |gap| < |s| ==> !IsWhite(s[p + |gap|])
    ensures Skip(s, p) == p + |gap|
    decreases |gap|
  {
    if gap != [] {
      StandsOne(s, p, gap, 0);
      assert gap == [gap[0]] + gap[1..];
      StandsParts(s, p, [gap[0]], gap[1..]);
      SkipsGap(s, p + 1, gap[1..]);
    }
  }

  lemma SpacePast(f: Format, gap: Text, s: Text, p: nat)
    requires StandsAt(s, p, gap) && forall i :: 0 <= i < |gap| ==> IsWhite(gap[i])
    requires p + |gap| < |s| ==> !IsWhite(s[p + |gap|])
    ensures Space(f, gap, s, p) == p + |gap|
  {
    SkipsGap(s, p, gap);
  }

  /** Where there is no space, or where it would be, the next token is. */
  lemma NoSpace(f: Format, s: Text, p: nat)
    requires p <= |s| && (p < |s| ==> !IsWhite(s[p]))
    ensures Space(f, [], s, p) == p
  {
    SpacePast(f, [], s, p);
  }

  lemma LineIs(indent: nat, depth: nat)
    ensures Indentation(indent, depth) == Line(indent, depth)
    ensures forall i :: 0 <= i < |Line(indent, depth)| ==> IsWhite(Line(indent, depth)[i])
  {
  }

  // ----- Tokens -----

  lemma {:induction false} ReadsToken(s: Text, p: nat, t: Text)
    requires StandsAt(s, p, t) && Ended(s, p + |t|) && forall i :: 0 <= i < |t| ==> !Delimits(t[i])
    ensures TokenEnd(s, p) == p + |t|
    decreases |t|
  {
    if t != [] {
      StandsOne(s, p, t, 0);
      assert t == [t[0]] + t[1..];
      StandsParts(s, p, [t[0]], t[1..]);
      ReadsToken(s, p + 1, t[1..]);
    }
  }

  lemma TokenValue(f: Format, depth: nat, s: Text, p: nat, t: Text, v: Tree)
    requires StandsAt(s, p, t) && Ended(s, p + |t|) && t != [] && forall i :: 0 <= i < |t| ==> !Delimits(t[i])
    requires Token(t) == Some(v)
    ensures ReadValue(f, depth, s, p) == Parsed(v, p + |t|)
  {
    hide Token;
    StandsOne(s, p, t, 0);
    ReadsToken(s, p, t);
  }

  lemma NumberToken(n: int)
    ensures Token(IntText(n)) == Some(JInt(n))
    ensures forall i :: 0 <= i < |IntText(n)| ==> !Delimits(IntText(n)[i])
  {
    hide NumberOf, Decimal, IsFloat;
    var t := IntText(n);
    IntTextValue(n);
    DecimalValue(if n < 0 then -n else n);
    if n < 0 {
      assert t[1..] == Decimal(-n);
      SmallDecimal(-n);
      assert t[0] == 45;
    } else {
      SmallDecimal(n);
    }
  }

  lemma SmallDecimal(n: nat)
    ensures n == 0 ==> |Decimal(n)| == 1
  {
  }

  lemma FloatToken(t: Text)
    requires IsFloat(t)
    ensures t != [] && Token(t) == Some(JFloat(t)) && forall i :: 0 <= i < |t| ==> !Delimits(t[i])
  {
    hide IsFloat, Token, Delimits, IsNumeral, IsWord;
    NoInt(t);
    NoLiteral(t);
    InsideToken(t);
    FloatOnly(t);
  }

  lemma FloatOnly(t: Text)
    requires IsFloat(t) && !IsWord(t, "null") && !IsWord(t, "true") && !IsWord(t, "false")
    requires !IsNumeral(t) && (t != [] && t[0] == '-' as nat ==> !IsNumeral(t[1..]))
    ensures Token(t) == Some(JFloat(t))
  {
    hide NumberOf, IsNumeral, IsWord, IsFloat;
  }

  lemma InsideToken(t: Text)
    requires IsFloat(t)
    ensures t != [] && forall i :: 0 <= i < |t| ==> !Delimits(t[i])
  {
  }

  lemma NoLiteral(t: Text)
    requires IsFloat(t)
    ensures !IsWord(t, "null") && !IsWord(t, "true") && !IsWord(t, "false")
  {
    if |t| > 0 {
      assert t[0] == 'n' as nat || t[0] == 't' as nat || t[0] == 'f' as nat ==> !InFloat(t[0]);
    }
  }

  lemma NoInt(t: Text)
    requires IsFloat(t)
    ensures !IsNumeral(t) && (t != [] && t[0] == '-' as nat ==> !IsNumeral(t[1..]))
  {
    if exists i :: 0 <= i < |t| && MarksFloat(t[i]) {
      var i :| 0 <= i < |t| && MarksFloat(t[i]);
      if i > 0 {
        assert t[1..][i - 1] == t[i];
      }
    } else if |t| > 1 {
      assert t[1..][0] == t[1];
    }
  }

  // ----- Strings -----

  lemma HexRead(d: nat)
    requires d < 16
    ensures IsHex(HexDigit(d)) && HexOf(HexDigit(d)) == d
  {
  }

  /** An escaped character reads as itself. */
  lemma ReadsEscaped(s: Text, p: nat, c: nat)
    requires StandsAt(s, p, EscapeOne(c))
    ensures p < |s| && !Sees(s, p, '"') && ReadChar(s, p) == Parsed(c, p + |EscapeOne(c)|)
  {
    var t := EscapeOne(c);
    StandsOne(s, p, t, 0);
    if |t| > 1 {
      StandsOne(s, p, t, 1);
    }
    if |t| > 2 {
      ReadsControl(s, p, c);
    }
  }

  lemma ReadsControl(s: Text, p: nat, c: nat)
    requires StandsAt(s, p, EscapeOne(c)) && |EscapeOne(c)| > 2
    ensures p + 6 <= |s| && c < 32 && |EscapeOne(c)| == 6 && Unit(s, p + 2) == Some(c)
  {
    var t := EscapeOne(c);
    assert t == [92, 117, 48, 48, HexDigit(c / 16), HexDigit(c % 16)];
    StandsOne(s, p, t, 2);
    StandsOne(s, p, t, 3);
    StandsOne(s, p, t, 4);
    StandsOne(s, p, t, 5);
    HexRead(c / 16);
    HexRead(c % 16);
  }

  lemma {:induction false} ReadsString(s: Text, p: nat, chars: Text)
    requires StandsAt(s, p, Escape(chars) + [QUOTE])
    ensures ReadChars(s, p) == Parsed(chars, p + |Escape(chars)| + 1)
    decreases |chars|
  {
    hide EscapeOne, ReadChar, StandsAt;
    if chars == [] {
      assert Escape(chars) + [QUOTE] == [QUOTE];
      StandsOne(s, p, [QUOTE], 0);
    } else {
      var c, rest := chars[0], chars[1..];
      assert Escape(chars) + [QUOTE] == EscapeOne(c) + (Escape(rest) + [QUOTE]);
      StandsParts(s, p, EscapeOne(c), Escape(rest) + [QUOTE]);
      ReadsEscaped(s, p, c);
      ReadsString(s, p + |EscapeOne(c)|, rest);
      assert chars == [c] + rest;
    }
  }

  lemma ReadsQuoted(s: Text, p: nat, chars: Text)
    requires StandsAt(s, p, Quoted(chars))
    ensures Sees(s, p, '"') && ReadChars(s, p + 1) == Parsed(chars, p + |Quoted(chars)|)
  {
    hide Escape;
    var body := Escape(chars) + [QUOTE];
    assert Quoted(chars) == [QUOTE] + body;
    StandsParts(s, p, [QUOTE], body);
    StandsOne(s, p, [QUOTE], 0);
    ReadsString(s, p + 1, chars);
  }

  // ----- Values -----

  /** How the text of a value may begin. */
  predicate Starts(t: Text) {
    t != [] && !IsWhite(t[0]) && t[0] != ']' as nat && t[0] != '}' as nat
  }

  /** A non-empty container is its bracket, its members and its closing bracket. */
  lemma PrintOpened(env: Env, r: Ref, depth: nat, path: set<Ref>)
    requires depth <= MAX_RECURSION && Print(env, r, depth, path).Ok?
    requires env.At(r).IsContainer() && env.At(r).Size() > 0
    ensures depth < MAX_RECURSION && PrintMembers(env, r, 0, depth + 1, env.Entered(r, path)).Ok?
    ensures Print(env, r, depth, path).value == [Opening(env.At(r))]
      + (Join(PrintMembers(env, r, 0, depth + 1, env.Entered(r, path)).value) + ClosingText(env, r, depth))
  {
    hide PrintMembers, Join, Indentation;
  }

  /** The end of a container. */
  ghost function ClosingText(env: Env, r: Ref, depth: nat): Text {
    Indentation(env.indent, depth) + [Closing(env.At(r))]
  }

  lemma PrintStarts(env: Env, r: Ref, depth: nat, path: set<Ref>)
    requires depth <= MAX_RECURSION && Print(env, r, depth, path).Ok? && FloatsReadable(env)
    ensures Starts(Print(env, r, depth, path).value)
  {
    hide PrintMembers, Join, Indentation, Escape, IntText, IsFloat;
    var o := env.At(r);
    if o.Long? {
      NumberToken(o.number);
      IntTextValue(o.number);
    } else if o.Float? {
      assert IsFloat(o.digits);
      FloatToken(o.digits);
    } else if o.IsContainer() && o.Size() > 0 {
      PrintOpened(env, r, depth, path);
    }
  }

  /** One more member. */
  lemma MemberPrinted(env: Env, r: Ref, pos: nat, depth: nat, path: set<Ref>)
    requires depth <= MAX_RECURSION && env.At(r).IsContainer() && pos < env.At(r).Size()
    requires PrintMembers(env, r, pos, depth, path).Ok?
    ensures var o := env.At(r);
      && Lead(env, o, pos, depth).Ok? && Print(env, o.Child(pos), depth, path).Ok?
      && PrintMembers(env, r, pos + 1, depth, path).Ok?
      && PrintMembers(env, r, pos, depth, path).value
        == [Lead(env, o, pos, depth).value + Print(env, o.Child(pos), depth, path).value]
          + PrintMembers(env, r, pos + 1, depth, path).value
      && (pos + 1 == o.Size() <==> PrintMembers(env, r, pos + 1, depth, path).value == [])
  {
    hide Lead, Print;
  }

  lemma JoinFirst(m: Text, rest: seq<Text>, tail: Text)
    ensures Join([m] + rest) + tail == m + (if rest == [] then tail else [COMMA] + (Join(rest) + tail))
  {
    assert ([m] + rest)[1..] == rest;
  }

  /** The scalars and the empty containers. */
  lemma ScalarReads(env: Env, f: Format, r: Ref, depth: nat, path: set<Ref>, s: Text, p: nat) returns (v: Tree)
    requires depth <= MAX_RECURSION && Print(env, r, depth, path).Ok? && FloatsReadable(env)
    requires env.At(r).IsContainer() ==> env.At(r).Size() == 0
    requires StandsAt(s, p, Print(env, r, depth, path).value) && Ended(s, p + |Print(env, r, depth, path).value|)
    ensures ReadValue(f, depth, s, p) == Parsed(v, p + |Print(env, r, depth, path).value|) && IsTreeOf(env, r, v)
  {
    hide Quoted, IntText, PrintMembers, ReadValue, IsFloat, Token, StandsAt;
    var o := env.At(r);
    match o {
      case Null =>
        v := JNull;
        Literals(false);
        TokenValue(f, depth, s, p, NULL_TEXT, v);
      case Bool(value) =>
        v := JBool(value);
        Literals(value);
        TokenValue(f, depth, s, p, if value then TRUE_TEXT else FALSE_TEXT, v);
      case Long(number) =>
        v := JInt(number);
        NumberToken(number);
        IntTextValue(number);
        TokenValue(f, depth, s, p, IntText(number), v);
      case Float(digits) =>
        v := JFloat(digits);
        assert IsFloat(o.digits);
        FloatToken(digits);
        TokenValue(f, depth, s, p, digits, v);
      case Str(_, _, chars) =>
        v := JStr(chars);
        StringValue(f, depth, s, p, chars);
      case _ =>
        v := if o.Dict? then JObj([]) else JArr([]);
        EmptyReads(f, depth, s, p, o);
    }
  }

  lemma Literals(value: bool)
    ensures Token(NULL_TEXT) == Some(JNull)
    ensures Token(if value then TRUE_TEXT else FALSE_TEXT) == Some(JBool(value))
  {
  }

  lemma StringValue(f: Format, depth: nat, s: Text, p: nat, chars: Text)
    requires StandsAt(s, p, Quoted(chars))
    ensures ReadValue(f, depth, s, p) == Parsed(JStr(chars), p + |Quoted(chars)|)
  {
    hide Quoted, ReadChars, StandsAt;
    ReadsQuoted(s, p, chars);
  }

  lemma EmptyReads(f: Format, depth: nat, s: Text, p: nat, o: Obj)
    requires o.IsContainer() && StandsAt(s, p, [Opening(o), Closing(o)])
    ensures ReadValue(f, depth, s, p) == Parsed(if o.Dict? then JObj([]) else JArr([]), p + 2)
  {
    StandsOne(s, p, [Opening(o), Closing(o)], 0);
    StandsOne(s, p, [Opening(o), Closing(o)], 1);
    NoSpace(f, s, p + 1);
  }

  // ----- Containers -----

  lemma BehindComma(f: Format, depth: nat, s: Text, p: nat, close: char)
    requires 0 < depth && Sees(s, p, ',')
    ensures BehindMember(f, depth, s, p, close) == More(p + 1)
  {
    NoSpace(f, s, p);
  }

  lemma BehindLast(f: Format, depth: nat, s: Text, p: nat, close: char)
    requires 0 < depth && StandsAt(s, p, Line(f.indent, depth - 1) + [close as nat]) && close in {']', '}'}
    ensures BehindMember(f, depth, s, p, close) == Last(p + |Line(f.indent, depth - 1)| + 1)
  {
    hide StandsAt, Space, Line;
    var line := Line(f.indent, depth - 1);
    StandsParts(s, p, line, [close as nat]);
    StandsOne(s, p + |line|, [close as nat], 0);
    LineIs(f.indent, depth - 1);
    SpacePast(f, line, s, p);
    if line != [] {
      StandsOne(s, p, line, 0);
      StandsNone(s, p);
      WithoutGap(f, line, s, p);
    }
  }

  lemma StandsNone(s: Text, p: nat)
    requires p <= |s|
    ensures StandsAt(s, p, [])
  {
  }

  /** What an exact format takes for the next token where there is a gap is white space. */
  lemma WithoutGap(f: Format, gap: Text, s: Text, p: nat)
    requires p <= |s| && StandsAt(s, p, [])
    ensures Space(f, [], s, p) == if f.exact then p else Space(f, gap, s, p)
  {
  }

  /** What stands behind a member: the end, or a comma and the other members. */
  ghost predicate Followed(s: Text, e: nat, rest: seq<Text>, tail: Text) {
    && Ended(s, e)
    && if rest == [] then StandsAt(s, e, tail) else Sees(s, e, ',') && StandsAt(s, e + 1, Join(rest) + tail)
  }

  lemma MemberStands(s: Text, p: nat, lead: Text, t: Text, rest: seq<Text>, tail: Text)
    requires StandsAt(s, p, Join([lead + t] + rest) + tail) && tail != [] && Delimits(tail[0])
    ensures StandsAt(s, p, lead) && StandsAt(s, p + |lead|, t) && Followed(s, p + |lead| + |t|, rest, tail)
    ensures |Join([lead + t] + rest)| == |lead| + |t| + if rest == [] then 0 else 1 + |Join(rest)|
  {
    hide Join, StandsAt;
    JoinFirst(lead + t, rest, []);
    JoinFirst(lead + t, rest, tail);
    var more := if rest == [] then tail else [COMMA] + (Join(rest) + tail);
    StandsParts(s, p, lead + t, more);
    StandsParts(s, p, lead, t);
    StandsOne(s, p + |lead + t|, more, 0);
    if rest != [] {
      StandsParts(s, p + |lead + t|, [COMMA], Join(rest) + tail);
    }
  }

  lemma ClosingStarts(env: Env, r: Ref, depth: nat)
    requires env.At(r).IsContainer()
    ensures ClosingText(env, r, depth) != [] && Delimits(ClosingText(env, r, depth)[0])
    ensures ClosingText(env, r, depth) == Line(env.indent, depth) + [if env.At(r).Dict? then 125 else 93]
  {
  }

  lemma StartsAt(s: Text, p: nat, t: Text)
    requires StandsAt(s, p, t) && Starts(t)
    ensures p < |s| && !IsWhite(s[p]) && !Sees(s, p, ']') && !Sees(s, p, '}')
  {
    StandsOne(s, p, t, 0);
  }

  /** The indentation before a member. */
  lemma LineRead(f: Format, depth: nat, s: Text, p: nat)
    requires StandsAt(s, p, Line(f.indent, depth)) && p + |Line(f.indent, depth)| < |s|
    requires !IsWhite(s[p + |Line(f.indent, depth)|])
    ensures Space(f, Line(f.indent, depth), s, p) == p + |Line(f.indent, depth)|
  {
    hide StandsAt;
    LineIs(f.indent, depth);
    SpacePast(f, Line(f.indent, depth), s, p);
  }

  /** An element and what is behind it. */
  lemma ItemsNext(f: Format, depth: nat, s: Text, p: nat, q: nat, v: Tree, e: nat, more: seq<Tree>, n: nat)
    requires 0 < depth && p <= |s| && q == Space(f, Line(f.indent, depth), s, p)
    requires ReadValue(f, depth, s, q) == Parsed(v, e)
    requires match BehindMember(f, depth, s, e, ']')
      case More(m) => ReadItems(f, depth, s, m) == Parsed(more, n)
      case Last(m) => more == [] && m == n
      case Neither => false
    ensures ReadItems(f, depth, s, p) == Parsed([v] + more, n)
  {
    hide BehindMember, ReadValue, Space;
    assert more == [] ==> [v] + more == [v];
  }

  lemma MembersNext(f: Format, depth: nat, s: Text, p: nat, q: nat, m: Member, e: nat, more: seq<Member>, n: nat)
    requires 0 < depth && p <= |s| && q == Space(f, Line(f.indent, depth), s, p)
    requires ReadMember(f, depth, s, q) == Parsed(m, e)
    requires match BehindMember(f, depth, s, e, '}')
      case More(m) => ReadMembers(f, depth, s, m) == Parsed(more, n)
      case Last(m) => more == [] && m == n
      case Neither => false
    ensures ReadMembers(f, depth, s, p) == Parsed([m] + more, n)
  {
    hide BehindMember, ReadMember, Space;
    assert more == [] ==> [m] + more == [m];
  }

  ghost predicate Readable(env: Env, f: Format) {
    FloatsReadable(env) && f.indent == env.indent
  }

  /** The elements from `pos` on, and the closing bracket. */
  lemma {:induction false} ItemsRead(env: Env, f: Format, r: Ref, pos: nat, depth: nat, path: set<Ref>, s: Text, p: nat)
    returns (vs: seq<Tree>)
    requires 0 < depth <= MAX_RECURSION && Readable(env, f)
    requires (env.At(r).List? || env.At(r).Tuple?) && pos < env.At(r).Size()
    requires PrintMembers(env, r, pos, depth, path).Ok?
    requires StandsAt(s, p, Join(PrintMembers(env, r, pos, depth, path).value) + ClosingText(env, r, depth - 1))
    ensures ReadItems(f, depth, s, p) == Parsed(vs,
      p + |Join(PrintMembers(env, r, pos, depth, path).value)| + |ClosingText(env, r, depth - 1)|)
    ensures |vs| == env.At(r).Size() - pos
    ensures forall i :: 0 <= i < |vs| ==> IsTreeOf(env, env.At(r).items[pos + i], vs[i])
    decreases MAX_RECURSION - depth, 1, env.At(r).Size() - pos
  {
    hide PrintMembers, Print, Join, Indentation, Line, ReadValue, ReadItems, BehindMember, StandsAt, Space, IsTreeOf,
      ClosingText, FloatsReadable;
    var o := env.At(r);
    var child, tail := o.Child(pos), ClosingText(env, r, depth - 1);
    MemberPrinted(env, r, pos, depth, path);
    var lead, t := Line(env.indent, depth), Print(env, child, depth, path).value;
    var rest := PrintMembers(env, r, pos + 1, depth, path).value;
    LineIs(env.indent, depth);
    ClosingStarts(env, r, depth - 1);
    MemberStands(s, p, lead, t, rest, tail);
    PrintStarts(env, child, depth, path);
    StartsAt(s, p + |lead|, t);
    LineRead(f, depth, s, p);
    var e := p + |lead| + |t|;
    var v := ValueReads(env, f, child, depth, path, s, p + |lead|);
    var more := [];
    if rest == [] {
      BehindLast(f, depth, s, e, ']');
      ItemsNext(f, depth, s, p, p + |lead|, v, e, more, e + |tail|);
    } else {
      BehindComma(f, depth, s, e, ']');
      more := ItemsRead(env, f, r, pos + 1, depth, path, s, e + 1);
      ItemsNext(f, depth, s, p, p + |lead|, v, e, more, e + 1 + |Join(rest)| + |tail|);
    }
    vs := [v] + more;
    forall i | 0 <= i < |vs| ensures IsTreeOf(env, o.items[pos + i], vs[i]) {
      assert i > 0 ==> o.items[pos + i] == o.items[pos + 1 + (i - 1)];
    }
  }

  /** A key, the colon and the value. */
  lemma KeyReads(f: Format, depth: nat, s: Text, p: nat, key: Text, v: Tree, e: nat)
    requires StandsAt(s, p, Quoted(key) + [COLON] + (if f.indent > 0 then [SPACE] else []))
    requires var q := p + |Quoted(key)| + 1 + (if f.indent > 0 then 1 else 0);
      q < |s| && !IsWhite(s[q]) && ReadValue(f, depth, s, q) == Parsed(v, e)
    ensures ReadMember(f, depth, s, p) == Parsed(Member(key, v), e)
  {
    hide Quoted, ReadValue, ReadChars, Space, StandsAt;
    var gap := if f.indent > 0 then [SPACE] else [];
    StandsParts(s, p, Quoted(key) + [COLON], gap);
    StandsParts(s, p, Quoted(key), [COLON]);
    ReadsQuoted(s, p, key);
    StandsOne(s, p + |Quoted(key)|, [COLON], 0);
    NoSpace(f, s, p + |Quoted(key)|);
    SpacePast(f, gap, s, p + |Quoted(key)| + 1);
  }

  /** The entries from `pos` on, and the closing brace. */
  lemma {:induction false} MembersRead(env: Env, f: Format, r: Ref, pos: nat, depth: nat, path: set<Ref>, s: Text,
      p: nat) returns (ms: seq<Member>)
    requires 0 < depth <= MAX_RECURSION && Readable(env, f)
    requires env.At(r).Dict? && pos < env.At(r).Size()
    requires PrintMembers(env, r, pos, depth, path).Ok?
    requires StandsAt(s, p, Join(PrintMembers(env, r, pos, depth, path).value) + ClosingText(env, r, depth - 1))
    ensures ReadMembers(f, depth, s, p) == Parsed(ms,
      p + |Join(PrintMembers(env, r, pos, depth, path).value)| + |ClosingText(env, r, depth - 1)|)
    ensures |ms| == env.At(r).Size() - pos
    ensures forall i :: 0 <= i < |ms| ==> IsMemberOf(env, env.At(r).entries[pos + i], ms[i])
    decreases MAX_RECURSION - depth, 1, env.At(r).Size() - pos
  {
    hide PrintMembers, Print, Join, Indentation, Line, ReadValue, ReadMembers, ReadMember, BehindMember, StandsAt,
      Space,
      IsTreeOf, ClosingText, FloatsReadable, Quoted, IsMemberOf;
    var o := env.At(r);
    var child, tail := o.Child(pos), ClosingText(env, r, depth - 1);
    MemberPrinted(env, r, pos, depth, path);
    var t := Print(env, child, depth, path).value;
    var rest := PrintMembers(env, r, pos + 1, depth, path).value;
    var line, key := Line(env.indent, depth), env.At(o.entries[pos].0).chars;
    var quoted := Quoted(key) + [COLON] + (if env.indent > 0 then [SPACE] else []);
    LineIs(env.indent, depth);
    LeadIs(env, o, pos, depth, quoted);
    ClosingStarts(env, r, depth - 1);
    MemberStands(s, p, line + quoted, t, rest, tail);
    StandsParts(s, p, line, quoted);
    PrintStarts(env, child, depth, path);
    StartsAt(s, p + |line + quoted|, t);
    assert quoted == Quoted(key) + ([COLON] + (if env.indent > 0 then [SPACE] else []));
    QuoteFirst(s, p + |line|, quoted, key, [COLON] + (if env.indent > 0 then [SPACE] else []));
    LineRead(f, depth, s, p);
    var e := p + |line + quoted| + |t|;
    var v := ValueReads(env, f, child, depth, path, s, p + |line + quoted|);
    KeyReads(f, depth, s, p + |line|, key, v, e);
    var m := Member(key, v);
    MemberIs(env, o, pos, m);
    var more := [];
    if rest == [] {
      BehindLast(f, depth, s, e, '}');
      MembersNext(f, depth, s, p, p + |line|, m, e, more, e + |tail|);
    } else {
      BehindComma(f, depth, s, e, '}');
      more := MembersRead(env, f, r, pos + 1, depth, path, s, e + 1);
      MembersNext(f, depth, s, p, p + |line|, m, e, more, e + 1 + |Join(rest)| + |tail|);
    }
    ms := [m] + more;
    forall i | 0 <= i < |ms| ensures IsMemberOf(env, o.entries[pos + i], ms[i]) {
      assert i > 0 ==> o.entries[pos + i] == o.entries[pos + 1 + (i - 1)];
    }
  }

  ghost predicate IsMemberOf(env: Env, entry: (Ref, Ref), m: Member) {
    env.At(entry.0).Str? && env.At(entry.0).chars == m.key && IsTreeOf(env, entry.1, m.value)
  }

  lemma LeadIs(env: Env, o: Obj, pos: nat, depth: nat, quoted: Text)
    requires o.Dict? && pos < o.Size() && Lead(env, o, pos, depth).Ok? && env.At(o.entries[pos].0).Str?
    requires quoted == Quoted(env.At(o.entries[pos].0).chars) + [COLON] + (if env.indent > 0 then [SPACE] else [])
    ensures Lead(env, o, pos, depth).value == Indentation(env.indent, depth) + quoted
  {
  }

  lemma QuoteFirst(s: Text, p: nat, quoted: Text, key: Text, more: Text)
    requires StandsAt(s, p, quoted) && quoted == Quoted(key) + more
    ensures p < |s| && !IsWhite(s[p]) && Sees(s, p, '"')
  {
    StandsOne(s, p, quoted, 0);
  }

  lemma MemberIs(env: Env, o: Obj, pos: nat, m: Member)
    requires o.Dict? && pos < o.Size() && env.At(o.entries[pos].0).Str? && m.key == env.At(o.entries[pos].0).chars
    requires IsTreeOf(env, o.Child(pos), m.value)
    ensures IsMemberOf(env, o.entries[pos], m)
  {
  }

  lemma NotClosed(f: Format, depth: nat, s: Text, p: nat, close: char)
    requires p <= |s| && close in {']', '}'}
    requires Sees(s, Space(f, [], s, p), close)
    ensures Space(f, Line(f.indent, depth), s, p) in {Space(f, [], s, p), |s|}
  {
    var line := Line(f.indent, depth);
    if f.exact {
      assert StandsAt(s, p, []) && Space(f, [], s, p) == p;
      if line != [] && StandsAt(s, p, line) {
        StandsOne(s, p, line, 0);
      }
    }
  }

  lemma NoValue(f: Format, depth: nat, s: Text, p: nat)
    requires p == |s| || Sees(s, p, ']') || Sees(s, p, '}')
    ensures ReadValue(f, depth, s, p) == Malformed
  {
  }

  lemma ArrOpens(f: Format, depth: nat, s: Text, p: nat, vs: seq<Tree>, n: nat)
    requires Sees(s, p, '[') && ReadItems(f, depth + 1, s, p + 1) == Parsed(vs, n)
    ensures ReadValue(f, depth, s, p) == Parsed(JArr(vs), n)
  {
    hide Space, Line, ReadMembers;
    var q := Space(f, [], s, p + 1);
    if Sees(s, q, ']') {
      NotClosed(f, depth + 1, s, p + 1, ']');
      NoValue(f, depth + 1, s, Space(f, Line(f.indent, depth + 1), s, p + 1));
    }
  }

  lemma ObjOpens(f: Format, depth: nat, s: Text, p: nat, ms: seq<Member>, n: nat)
    requires Sees(s, p, '{') && ReadMembers(f, depth + 1, s, p + 1) == Parsed(ms, n)
    ensures ReadValue(f, depth, s, p) == Parsed(JObj(ms), n)
  {
    hide Space, Line, ReadItems;
    var q := Space(f, [], s, p + 1);
    if Sees(s, q, '}') {
      NotClosed(f, depth + 1, s, p + 1, '}');
    }
  }

  lemma ArrIs(env: Env, r: Ref, vs: seq<Tree>)
    requires (env.At(r).List? || env.At(r).Tuple?) && |vs| == env.At(r).Size()
    requires forall i :: 0 <= i < |vs| ==> IsTreeOf(env, env.At(r).items[0 + i], vs[i])
    ensures IsTreeOf(env, r, JArr(vs))
  {
    forall i | 0 <= i < |vs| ensures IsTreeOf(env, env.At(r).items[i], vs[i]) {
      assert IsTreeOf(env, env.At(r).items[0 + i], vs[i]);
    }
  }

  lemma ObjIs(env: Env, r: Ref, ms: seq<Member>)
    requires env.At(r).Dict? && |ms| == env.At(r).Size()
    requires forall i :: 0 <= i < |ms| ==> IsMemberOf(env, env.At(r).entries[0 + i], ms[i])
    ensures IsTreeOf(env, r, JObj(ms))
  {
    forall i | 0 <= i < |ms|
      ensures IsMemberOf(env, env.At(r).entries[i], ms[i])
    {
      assert IsMemberOf(env, env.At(r).entries[0 + i], ms[i]);
    }
  }

  /** The text of a value, wherever it stands, reads as the tree of the object, up to its end. */
  lemma {:induction false} ValueReads(env: Env, f: Format, r: Ref, depth: nat, path: set<Ref>, s: Text, p: nat)
    returns (v: Tree)
    requires depth <= MAX_RECURSION && Print(env, r, depth, path).Ok? && Readable(env, f)
    requires StandsAt(s, p, Print(env, r, depth, path).value) && Ended(s, p + |Print(env, r, depth, path).value|)
    ensures ReadValue(f, depth, s, p) == Parsed(v, p + |Print(env, r, depth, path).value|) && IsTreeOf(env, r, v)
    decreases MAX_RECURSION - depth, 0, 0
  {
    hide PrintMembers, Print, Join, ReadValue, ReadMembers, ReadItems, StandsAt, IsTreeOf, ClosingText, FloatsReadable;
    var o := env.At(r);
    if !o.IsContainer() || o.Size() == 0 {
      v := ScalarReads(env, f, r, depth, path, s, p);
    } else {
      PrintOpened(env, r, depth, path);
      var inside := env.Entered(r, path);
      var body := Join(PrintMembers(env, r, 0, depth + 1, inside).value) + ClosingText(env, r, depth);
      StandsParts(s, p, [Opening(o)], body);
      StandsOne(s, p, [Opening(o)], 0);
      if o.Dict? {
        var ms := MembersRead(env, f, r, 0, depth + 1, inside, s, p + 1);
        v := JObj(ms);
        ObjOpens(f, depth, s, p, ms, p + 1 + |body|);
        ObjIs(env, r, ms);
      } else {
        var vs := ItemsRead(env, f, r, 0, depth + 1, inside, s, p + 1);
        v := JArr(vs);
        ArrOpens(f, depth, s, p, vs, p + 1 + |body|);
        ArrIs(env, r, vs);
      }
    }
  }

  // ----- Documents -----

  /** The text is JSON for the object, in any layout and in the one that the indentation asks for. */
  ghost predicate ReadsBack(env: Env, root: Ref, t: Text) {
    forall exact: bool ::
      var v := ReadDocument(Format(exact, env.indent), t);
      v.Some? && IsTreeOf(env, root, v.value)
  }

  /** What is printed reads back, to its last character, as the tree of the root. */
  lemma DumpsReads(env: Env, root: Ref)
    requires Printer.Dumps(env, root).Ok? && FloatsReadable(env)
    ensures ReadsBack(env, root, Printer.Dumps(env, root).value)
  {
    hide Print, ReadValue, IsTreeOf;
    var t := Print(env, root, 0, {}).value;
    assert t[0..0 + |t|] == t;
    PrintStarts(env, root, 0, {});
    forall exact: bool
      ensures var v := ReadDocument(Format(exact, env.indent), t); v.Some? && IsTreeOf(env, root, v.value)
    {
      var f := Format(exact, env.indent);
      var v := ValueReads(env, f, root, 0, {}, t, 0);
      NoSpace(f, t, 0);
      NoSpace(f, t, |t|);
    }
  }
}
