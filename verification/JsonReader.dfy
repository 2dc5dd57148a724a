/** A reader of JSON text by RFC 8259, one character at a time, which knows nothing of how the text was made. */
module JsonReader {
  import opened Options
  import opened Integers
  import opened PyObjects

  datatype Tree =
    | JNull
    | JBool(value: bool)
    | JInt(number: int)
    | JFloat(token: Text)
    | JStr(chars: Text)
    | JArr(items: seq<Tree>)
    | JObj(members: seq<Member>)

  datatype Member = Member(key: Text, value: Tree)

  /** What was read, and the position behind it. */
  datatype Parsed<+T> = Parsed(value: T, next: nat) | Malformed

  /** Exact: line breaks and spaces stand just where this indentation puts them. Otherwise they may stand anywhere
      between tokens. */
  datatype Format = Format(exact: bool, indent: nat)

  // ----- White space -----

  predicate IsWhite(c: nat) {
    c == ' ' as nat || c == '\n' as nat || c == '\r' as nat || c == '\t' as nat
  }

  function Skip(s: Text, p: nat): (q: nat)
    requires p <= |s|
    ensures p <= q <= |s|
    decreases |s| - p
  {
    if p < |s| && IsWhite(s[p]) then Skip(s, p + 1) else p
  }

  predicate StandsAt(s: Text, p: nat, t: Text) {
    p + |t| <= |s| && s[p..p + |t|] == t
  }

  /** A new line, with the spaces of the depth. */
  function Line(indent: nat, depth: nat): Text {
    if indent == 0 then [] else ['\n' as nat] + seq(indent * depth, _ => ' ' as nat)
  }

  /** Past the white space at p, which in an exact format is just `gap`; the end of the text if it is not there. */
  function Space(f: Format, gap: Text, s: Text, p: nat): (q: nat)
    requires p <= |s|
    ensures p <= q <= |s|
  {
    if !f.exact then Skip(s, p) else if StandsAt(s, p, gap) then p + |gap| else |s|
  }

  predicate Sees(s: Text, p: nat, c: char) {
    p < |s| && s[p] == c as nat
  }

  // ----- Tokens -----

  predicate IsDigit(c: nat) {
    '0' as nat <= c <= '9' as nat
  }

  predicate IsHex(c: nat) {
    IsDigit(c) || 'a' as nat <= c <= 'f' as nat || 'A' as nat <= c <= 'F' as nat
  }

  function HexOf(c: nat): (d: nat)
    requires IsHex(c)
    ensures d < 16
  {
    if IsDigit(c) then c - '0' as nat
    else if 'a' as nat <= c then c - 'a' as nat + 10
    else c - 'A' as nat + 10
  }

  /** The character of an escape of two. */
  function Letter(c: nat): Option<nat> {
    if c == '"' as nat then Some(0x22)
    else if c == '\\' as nat then Some(0x5C)
    else if c == '/' as nat then Some(0x2F)
    else if c == 'b' as nat then Some(0x08)
    else if c == 'f' as nat then Some(0x0C)
    else if c == 'n' as nat then Some(0x0A)
    else if c == 'r' as nat then Some(0x0D)
    else if c == 't' as nat then Some(0x09)
    else None
  }

  /** The code unit of a hexadecimal escape. Escapes of surrogates, which are not needed here, are refused. */
  function Unit(s: Text, p: nat): Option<nat> {
    if p + 4 > |s| || !IsHex(s[p]) || !IsHex(s[p + 1]) || !IsHex(s[p + 2]) || !IsHex(s[p + 3]) then None
    else
      var v := 0x1000 * HexOf(s[p]) + 0x100 * HexOf(s[p + 1]) + 0x10 * HexOf(s[p + 2]) + HexOf(s[p + 3]);
      if 0xD800 <= v <= 0xDFFF then None else Some(v)
  }

  function ReadChar(s: Text, p: nat): (r: Parsed<nat>)
    ensures r.Parsed? ==> p < r.next <= |s|
  {
    if p >= |s| || s[p] < 32 || s[p] == '"' as nat then Malformed
    else if s[p] != '\\' as nat then Parsed(s[p], p + 1)
    else if p + 1 >= |s| then Malformed
    else if s[p + 1] == 'u' as nat then
      match Unit(s, p + 2)
      case None => Malformed
      case Some(v) => Parsed(v, p + 6)
    else
      match Letter(s[p + 1])
      case None => Malformed
      case Some(c) => Parsed(c, p + 2)
  }

  /** The characters up to the closing quote. */
  function ReadChars(s: Text, p: nat): (r: Parsed<Text>)
    requires p <= |s|
    ensures r.Parsed? ==> p < r.next <= |s|
    decreases |s| - p
  {
    if Sees(s, p, '"') then Parsed([], p + 1)
    else
      match ReadChar(s, p)
      case Malformed => Malformed
      case Parsed(c, q) =>
        match ReadChars(s, q)
        case Malformed => Malformed
        case Parsed(cs, n) => Parsed([c] + cs, n)
  }

  predicate Delimits(c: nat) {
    IsWhite(c) || c == ',' as nat || c == ':' as nat || c == '"' as nat || c == '[' as nat || c == ']' as nat
    || c == '{' as nat || c == '}' as nat
  }

  /** The end of a literal or number. */
  function TokenEnd(s: Text, p: nat): (q: nat)
    requires p <= |s|
    ensures p <= q <= |s|
    decreases |s| - p
  {
    if p < |s| && !Delimits(s[p]) then TokenEnd(s, p + 1) else p
  }

  predicate IsNumeral(t: Text) {
    t != [] && (forall i :: 0 <= i < |t| ==> IsDigit(t[i])) && (|t| > 1 ==> t[0] != '0' as nat)
  }

  /** A number with a fraction or an exponent, or one of the names Python has for the numbers that JSON has not. */
  predicate IsFloat(t: Text) {
    || ((exists i :: 0 <= i < |t| && MarksFloat(t[i])) && forall i :: 0 <= i < |t| ==> InFloat(t[i]))
    || IsWord(t, "NaN") || IsWord(t, "Infinity") || IsWord(t, "-Infinity")
  }

  predicate MarksFloat(c: nat) {
    c == '.' as nat || c == 'e' as nat || c == 'E' as nat
  }

  predicate InFloat(c: nat) {
    IsDigit(c) || MarksFloat(c) || c == '-' as nat || c == '+' as nat
  }

  predicate IsWord(t: Text, word: string) {
    |t| == |word| && forall i :: 0 <= i < |t| ==> t[i] == word[i] as nat
  }

  function Token(t: Text): Option<Tree> {
    if IsWord(t, "null") then Some(JNull)
    else if IsWord(t, "true") then Some(JBool(true))
    else if IsWord(t, "false") then Some(JBool(false))
    else if IsNumeral(t) then Some(JInt(NumberOf(t)))
    else if t != [] && t[0] == '-' as nat && IsNumeral(t[1..]) then Some(JInt(-NumberOf(t[1..])))
    else if IsFloat(t) then Some(JFloat(t))
    else None
  }

  // ----- Values -----

  /** The value that begins at p, inside `depth` open containers. */
  function ReadValue(f: Format, depth: nat, s: Text, p: nat): (r: Parsed<Tree>)
    requires p <= |s|
    ensures r.Parsed? ==> p < r.next <= |s|
    decreases |s| - p, 0
  {
    if Sees(s, p, '"') then
      match ReadChars(s, p + 1)
      case Malformed => Malformed
      case Parsed(chars, n) => Parsed(JStr(chars), n)
    else if Sees(s, p, '[') then
      var q := Space(f, [], s, p + 1);
      if Sees(s, q, ']') then Parsed(JArr([]), q + 1)
      else
        match ReadItems(f, depth + 1, s, p + 1)
        case Malformed => Malformed
        case Parsed(items, n) => Parsed(JArr(items), n)
    else if Sees(s, p, '{') then
      var q := Space(f, [], s, p + 1);
      if Sees(s, q, '}') then Parsed(JObj([]), q + 1)
      else
        match ReadMembers(f, depth + 1, s, p + 1)
        case Malformed => Malformed
        case Parsed(members, n) => Parsed(JObj(members), n)
    else
      var q := TokenEnd(s, p);
      match Token(s[p..q])
      case None => Malformed
      case Some(v) => if q == p then Malformed else Parsed(v, q)
  }

  /** What stands behind a member. */
  datatype Behind = More(next: nat) | Last(next: nat) | Neither

  function BehindMember(f: Format, depth: nat, s: Text, p: nat, close: char): (b: Behind)
    requires 0 < depth && p <= |s|
    ensures b != Neither ==> p < b.next <= |s|
  {
    var q := Space(f, [], s, p);
    var e := Space(f, Line(f.indent, depth - 1), s, p);
    if Sees(s, q, ',') then More(q + 1) else if Sees(s, e, close) then Last(e + 1) else Neither
  }

  /** One or more elements, up to the closing bracket. */
  function ReadItems(f: Format, depth: nat, s: Text, p: nat): (r: Parsed<seq<Tree>>)
    requires 0 < depth && p <= |s|
    ensures r.Parsed? ==> p < r.next <= |s|
    decreases |s| - p, 1
  {
    match ReadValue(f, depth, s, Space(f, Line(f.indent, depth), s, p))
    case Malformed => Malformed
    case Parsed(v, e) =>
      match BehindMember(f, depth, s, e, ']')
      case Neither => Malformed
      case Last(n) => Parsed([v], n)
      case More(n) =>
        match ReadItems(f, depth, s, n)
        case Malformed => Malformed
        case Parsed(vs, n) => Parsed([v] + vs, n)
  }

  /** One or more keys with their values, up to the closing brace. */
  function ReadMembers(f: Format, depth: nat, s: Text, p: nat): (r: Parsed<seq<Member>>)
    requires 0 < depth && p <= |s|
    ensures r.Parsed? ==> p < r.next <= |s|
    decreases |s| - p, 1
  {
    match ReadMember(f, depth, s, Space(f, Line(f.indent, depth), s, p))
    case Malformed => Malformed
    case Parsed(m, e) =>
      match BehindMember(f, depth, s, e, '}')
      case Neither => Malformed
      case Last(n) => Parsed([m], n)
      case More(n) =>
        match ReadMembers(f, depth, s, n)
        case Malformed => Malformed
        case Parsed(ms, n) => Parsed([m] + ms, n)
  }

  /** A key, a colon and a value; in an exact format with indentation one space stands behind the colon. */
  function ReadMember(f: Format, depth: nat, s: Text, p: nat): (r: Parsed<Member>)
    requires p <= |s|
    ensures r.Parsed? ==> p < r.next <= |s|
    decreases |s| - p, 0
  {
    if !Sees(s, p, '"') then Malformed
    else
      match ReadChars(s, p + 1)
      case Malformed => Malformed
      case Parsed(key, e) =>
        var c := Space(f, [], s, e);
        if !Sees(s, c, ':') then Malformed
        else
          match ReadValue(f, depth, s, Space(f, if f.indent > 0 then [' ' as nat] else [], s, c + 1))
          case Malformed => Malformed
          case Parsed(v, n) => Parsed(Member(key, v), n)
  }

  /** The whole text is one value. */
  function ReadDocument(f: Format, s: Text): Option<Tree> {
    match ReadValue(f, 0, s, Space(f, [], s, 0))
    case Malformed => None
    case Parsed(v, n) => if Space(f, [], s, n) == |s| then Some(v) else None
  }
}
