/** The append functions of the encoder: reserve, then store (src/encode/_sw_writers.inl.h,
    src/encode/_indent.inl.h, src/encode/_sirw_encode_unicode_impl.inl.h). */
module Writers {
  import opened Integers
  import opened Memory
  import opened Segments
  import opened UnicodeBuffer
  import opened PyObjects
  import opened JsonText

  function Max(a: nat, b: nat): nat {
    if a < b then b else a
  }

  /** write_unicode_indent */
  method WriteIndent(b: Buffer, indent: nat, depth: nat, ghost room: nat)
    requires b.Valid() && b.Room(room) && IndentCount(indent, depth) <= room
    requires indent == 0 || indent == 2 || indent == 4
    modifies b`writer, b`text, b.mem
    ensures b.Valid() && b.text == old(b.text) + Indentation(indent, depth)
    ensures b.Room(room - IndentCount(indent, depth))
  {
    if indent > 0 {
      hide Buffer.Valid, Buffer.Room, IndentCount, Indentation;
      ghost var before := b.text;
      NoLevels(indent, depth);
      b.Put([NEWLINE], 1, room);
      var i := 0;
      while i < depth
        invariant i <= depth && b.Valid()
        invariant b.text == before + Indentation(indent, i)
        invariant IndentCount(indent, i) <= IndentCount(indent, depth) && b.Room(room - IndentCount(indent, i))
      {
        OneDeeper(indent, i, depth);
        WriteLevel(b, indent, room - IndentCount(indent, i));
        assert before + (Indentation(indent, i) + Spaces(indent)) == before + Indentation(indent, i) + Spaces(indent);
        i := i + 1;
      }
    } else {
      assert b.text + [] == b.text;
    }
  }

  /** One level of indentation: two spaces, and at level 4 two more. */
  method WriteLevel(b: Buffer, indent: nat, ghost room: nat)
    requires b.Valid() && b.Room(room) && indent <= room && (indent == 2 || indent == 4)
    modifies b`writer, b`text, b.mem
    ensures b.Valid() && b.text == old(b.text) + Spaces(indent)
    ensures b.Room(room - indent)
  {
    hide Buffer.Valid, Buffer.Room;
    ghost var before := b.text;
    b.Put([SPACE, SPACE], 2, room);
    if indent == 4 {
      b.Put([SPACE, SPACE], 2, room - 2);
    }
    assert b.text == before + Spaces(indent);
  }

  lemma NoLevels(indent: nat, depth: nat)
    requires indent > 0
    ensures IndentCount(indent, 0) == 1 <= IndentCount(indent, depth)
    ensures Indentation(indent, 0) == [NEWLINE]
  {
  }

  lemma OneDeeper(indent: nat, i: nat, depth: nat)
    requires i < depth && (indent == 2 || indent == 4)
    ensures IndentCount(indent, i + 1) == IndentCount(indent, i) + indent
    ensures IndentCount(indent, i + 1) <= IndentCount(indent, depth)
    ensures Indentation(indent, i + 1) == Indentation(indent, i) + Spaces(indent)
  {
  }

  /** The indentation a value or bracket gets: none in a dict, where the key has it already. */
  function IndentOf(env: Env, depth: nat, inObj: bool): Text {
    if inObj then [] else Indentation(env.indent, depth)
  }

  /** unicode_indent_writer: room for the indentation and `extra` units, then the indentation. */
  method ReserveAndIndent(b: Buffer, env: Env, depth: nat, inObj: bool, extra: nat)
    requires b.Valid() && env.WellFormed()
    modifies b`mem, b`writer, b`text, b.mem
    ensures b.Valid() && b.Room(extra) && (b.mem == old(b.mem) || fresh(b.mem))
    ensures b.text == old(b.text) + IndentOf(env, depth, inObj)
  {
    if !inObj && env.indent != 0 {
      var count := IndentCount(env.indent, depth);
      b.Reserve(count + extra);
      WriteIndent(b, env.indent, depth, count + extra);
    } else {
      b.Reserve(extra);
      assert b.text + [] == b.text;
    }
  }

  /** Indentation, then the first n units of a row that is stored whole. */
  method AppendRow(b: Buffer, env: Env, depth: nat, inObj: bool, row: Text, n: nat, extra: nat)
    requires b.Valid() && env.WellFormed()
    requires n <= |row| <= extra && forall i :: 0 <= i < |row| ==> row[i] < 128
    modifies b`mem, b`writer, b`text, b.mem
    ensures b.Valid() && (b.mem == old(b.mem) || fresh(b.mem))
    ensures b.text == old(b.text) + IndentOf(env, depth, inObj) + row[..n]
  {
    hide Buffer.Valid, Buffer.Room, IndentOf;
    ReserveAndIndent(b, env, depth, inObj, extra);
    AsciiRow(b.info.level, row, n);
    b.Put(row, n, extra);
  }

  lemma AsciiRow(level: Level, row: Text, n: nat)
    requires n <= |row| && forall i :: 0 <= i < |row| ==> row[i] < 128
    ensures Fits(level, row[..n])
    ensures forall i :: 0 <= i < |row| ==> row[i] < CellLimit(level.Width())
  {
  }

  /** write_unicode_bool: eight units are copied, five or six of them count. */
  method AppendBool(b: Buffer, env: Env, depth: nat, inObj: bool, isFalse: bool)
    requires b.Valid() && env.WellFormed()
    modifies b`mem, b`writer, b`text, b.mem
    ensures b.Valid() && (b.mem == old(b.mem) || fresh(b.mem))
    ensures b.text == old(b.text) + IndentOf(env, depth, inObj)
      + ((if isFalse then FALSE_TEXT else TRUE_TEXT) + [COMMA])
  {
    if isFalse {
      AppendRow(b, env, depth, inObj, FALSE_TEXT + [COMMA, 0, 0], 6, 8);
      assert (FALSE_TEXT + [COMMA, 0, 0])[..6] == FALSE_TEXT + [COMMA];
    } else {
      AppendRow(b, env, depth, inObj, TRUE_TEXT + [COMMA, 0, 0, 0], 5, 8);
      assert (TRUE_TEXT + [COMMA, 0, 0, 0])[..5] == TRUE_TEXT + [COMMA];
    }
  }

  /** write_unicode_null */
  method AppendNull(b: Buffer, env: Env, depth: nat, inObj: bool)
    requires b.Valid() && env.WellFormed()
    modifies b`mem, b`writer, b`text, b.mem
    ensures b.Valid() && (b.mem == old(b.mem) || fresh(b.mem))
    ensures b.text == old(b.text) + IndentOf(env, depth, inObj) + (NULL_TEXT + [COMMA])
  {
    AppendRow(b, env, depth, inObj, NULL_TEXT + [COMMA, 0, 0, 0], 5, 8);
    assert (NULL_TEXT + [COMMA, 0, 0, 0])[..5] == NULL_TEXT + [COMMA];
  }

  /** write_unicode_empty_arr and write_unicode_empty_obj: a fourth unit is cleared below level 4. */
  method AppendEmpty(b: Buffer, env: Env, depth: nat, inObj: bool, o: Obj)
    requires b.Valid() && env.WellFormed()
    modifies b`mem, b`writer, b`text, b.mem
    ensures b.Valid() && (b.mem == old(b.mem) || fresh(b.mem))
    ensures b.text == old(b.text) + IndentOf(env, depth, inObj) + ([Opening(o), Closing(o)] + [COMMA])
  {
    var row := [Opening(o), Closing(o), COMMA];
    if b.info.level != Ucs4 {
      row := row + [0];
    }
    AppendRow(b, env, depth, inObj, row, 3, 4);
    assert row[..3] == [Opening(o), Closing(o)] + [COMMA];
  }

  /** write_unicode_arr_begin and write_unicode_obj_begin */
  method AppendOpening(b: Buffer, env: Env, depth: nat, inObj: bool, o: Obj)
    requires b.Valid() && env.WellFormed()
    modifies b`mem, b`writer, b`text, b.mem
    ensures b.Valid() && (b.mem == old(b.mem) || fresh(b.mem))
    ensures b.text == old(b.text) + IndentOf(env, depth, inObj) + [Opening(o)]
  {
    AppendRow(b, env, depth, inObj, [Opening(o)], 1, 1);
    assert [Opening(o)][..1] == [Opening(o)];
  }

  /** u_buf_apd_arr_end and u_buf_apd_obj_end: take the comma back, indent, write bracket and comma. */
  method AppendClosing(b: Buffer, env: Env, depth: nat, o: Obj)
    requires b.Valid() && env.WellFormed() && b.info.Recorded() < |b.text|
    modifies b`mem, b`writer, b`text, b.mem
    ensures b.Valid() && (b.mem == old(b.mem) || fresh(b.mem))
    ensures b.text == old(b.text)[..|old(b.text)| - 1] + Indentation(env.indent, depth) + [Closing(o), COMMA]
  {
    b.TakeBack();
    AppendRow(b, env, depth, false, [Closing(o), COMMA], 2, 2);
    assert [Closing(o), COMMA][..2] == [Closing(o), COMMA];
  }

  /** An int in the range of pylong_to_clong: zero in two units, others in 32, all of which the wide levels convert. */
  method AppendLong(b: Buffer, env: Env, depth: nat, inObj: bool, value: int)
    requires b.Valid() && env.WellFormed() && InRange(value)
    modifies b`mem, b`writer, b`text, b.mem
    ensures b.Valid() && (b.mem == old(b.mem) || fresh(b.mem))
    ensures b.text == old(b.text) + IndentOf(env, depth, inObj) + (IntText(value) + [COMMA])
  {
    hide Buffer.Valid, Buffer.Room, IndentOf, Decimal;
    if value == 0 {
      ZeroText();
      ReserveAndIndent(b, env, depth, inObj, 2);
      PutNumber(b, [ZERO], 1, 2);
    } else {
      IntTextLength(value);
      var _, magnitude, sign := ToU64(value);
      ReserveAndIndent(b, env, depth, inObj, 32);
      var buffer, end := U64ToText(magnitude, sign);
      var block := if b.info.level == Ucs2 || b.info.level == Ucs4 then buffer[..] else buffer[..end];
      assert block[..end] == IntText(value);
      assert forall i :: 0 <= i < end ==> block[i] == IntText(value)[i];
      PutNumber(b, block, end, 32);
    }
    ghost var before := old(b.text) + IndentOf(env, depth, inObj);
    assert before + (IntText(value) + [COMMA]) == before + IntText(value) + [COMMA];
  }

  const ZERO: nat := 48

  lemma ZeroText()
    ensures IntText(0) == [ZERO]
  {
  }

  /** A float, whose digits are given: 64 units are reserved; the printer stores up to 34 bytes in place
      (ssrjson_dtoa_write_length), and the wide levels convert a block of 32. */
  method AppendFloat(b: Buffer, env: Env, depth: nat, inObj: bool, digits: Text)
    requires b.Valid() && env.WellFormed() && |digits| <= 24 && Fits(Ascii, digits)
    modifies b`mem, b`writer, b`text, b.mem
    ensures b.Valid() && (b.mem == old(b.mem) || fresh(b.mem))
    ensures b.text == old(b.text) + IndentOf(env, depth, inObj) + (digits + [COMMA])
  {
    hide Buffer.Valid, Buffer.Room, IndentOf;
    ReserveAndIndent(b, env, depth, inObj, 64);
    var stored := if b.info.level == Ucs2 || b.info.level == Ucs4 then 32 else 34;
    var block := digits + seq(stored - |digits|, _ => 0);
    assert block[..|digits|] == digits;
    PutNumber(b, block, |digits|, 64);
    ghost var before := old(b.text) + IndentOf(env, depth, inObj);
    assert before + (digits + [COMMA]) == before + digits + [COMMA];
  }

  /** The first n units of a block, which are ASCII characters, and a comma. */
  method PutNumber(b: Buffer, block: Text, n: nat, ghost room: nat)
    requires b.Valid() && n <= |block| <= room && n < room && b.Room(room)
    requires forall i :: 0 <= i < |block| ==> block[i] < if i < n then 128 else 256
    modifies b`writer, b`text, b.mem
    ensures b.Valid() && b.text == old(b.text) + block[..n] + [COMMA]
  {
    hide Buffer.Valid, Buffer.Room;
    NumberBlock(b.info.level, block, n);
    b.Put(block, n, room);
    AsciiRow(b.info.level, [COMMA], 1);
    b.Put([COMMA], 1, room - n);
    assert [COMMA][..1] == [COMMA];
  }

  lemma NumberBlock(level: Level, block: Text, n: nat)
    requires n <= |block| && forall i :: 0 <= i < |block| ==> block[i] < if i < n then 128 else 256
    ensures Fits(level, block[..n])
    ensures forall i :: 0 <= i < |block| ==> block[i] < CellLimit(level.Width())
  {
  }

  // ----- Strings -----

  /** How many of the first characters need no escape. */
  method PlainRun(s: Text) returns (n: nat)
    ensures n <= |s| && (forall i :: 0 <= i < n ==> !Special(s[i]))
    ensures n < |s| ==> Special(s[n])
  {
    n := 0;
    while n < |s| && !Special(s[n])
      invariant n <= |s| && forall i :: 0 <= i < n ==> !Special(s[i])
    {
      n := n + 1;
    }
  }

  /** Units to reserve for a string of n characters: six each, and slack for the last over-long store. */
  function BodyCount(n: nat, batch: nat): nat {
    6 * n + (Max(batch, 8) - 6)
  }

  /** Store the row of one character and advance over what counts of it. */
  method PutEscape(b: Buffer, c: nat, ghost room: nat)
    requires b.Valid() && b.Room(room) && 8 <= room
    requires c < 256 && c < b.info.level.CharLimit()
    modifies b`writer, b`text, b.mem
    ensures b.Valid() && b.text == old(b.text) + EscapeOne(c) && b.Room(room - |EscapeOne(c)|)
  {
    EscapeOneFits(b.info.level, c);
    b.Put(EscapeRow(c), Jump(c), room);
  }

  /** encode_unicode_impl: blocks of `batch` characters are stored whole; the writer stops at the first
      character of the block to escape and the row of that one is stored over the rest. */
  method EncodeBlocks(b: Buffer, s: Text, batch: nat, ghost room: nat)
    requires b.Valid() && Fits(b.info.level, s) && batch > 0
    requires b.Room(room) && BodyCount(|s|, batch) <= room
    modifies b`writer, b`text, b.mem
    ensures b.Valid() && b.text == old(b.text) + Escape(s)
    ensures |Escape(s)| <= 6 * |s| && b.Room(room - |Escape(s)|)
  {
    hide Buffer.Valid, Buffer.Room, Escape;
    ghost var before := b.text;
    var k := 0;
    Nothing(s);
    while k < |s|
      invariant k <= |s| && b.Valid()
      invariant b.text == before + Escape(s[..k]) && |Escape(s[..k])| <= 6 * k
      invariant b.Room(room - |Escape(s[..k])|)
    {
      k := EncodeBlock(b, s, k, batch, before, room);
    }
    assert s[..k] == s;
  }

  lemma Nothing(s: Text)
    ensures Escape(s[..0]) == []
  {
  }

  method EncodeBlock(b: Buffer, s: Text, k: nat, batch: nat, ghost before: Text, ghost room: nat) returns (k': nat)
    requires b.Valid() && Fits(b.info.level, s) && batch > 0 && k < |s|
    requires BodyCount(|s|, batch) <= room && |Escape(s[..k])| <= 6 * k && b.Room(room - |Escape(s[..k])|)
    requires b.text == before + Escape(s[..k])
    modifies b`writer, b`text, b.mem
    ensures b.Valid() && k < k' <= |s|
    ensures b.text == before + Escape(s[..k']) && |Escape(s[..k'])| <= 6 * k'
    ensures b.Room(room - |Escape(s[..k'])|)
  {
    hide Buffer.Valid, Buffer.Room, Escape, EscapeOne, Fits;
    var end := if k + batch <= |s| then k + batch else |s|;
    k' := PutRun(b, s, k, end, batch, before, room);
    if k' < end {
      EscapeNext(s, k');
      PutEscape(b, s[k'], room - |Escape(s[..k'])|);
      k' := k' + 1;
    }
  }

  /** The whole block is stored; the writer goes behind the characters before the first one to escape. */
  method PutRun(b: Buffer, s: Text, k: nat, end: nat, batch: nat, ghost before: Text, ghost room: nat) returns (k': nat)
    requires b.Valid() && Fits(b.info.level, s) && k < end <= |s| && end - k <= batch
    requires BodyCount(|s|, batch) <= room && |Escape(s[..k])| <= 6 * k && b.Room(room - |Escape(s[..k])|)
    requires b.text == before + Escape(s[..k])
    modifies b`writer, b`text, b.mem
    ensures b.Valid() && k <= k' <= end && (k' < end ==> Special(s[k']))
    ensures b.text == before + Escape(s[..k']) && |Escape(s[..k'])| <= 6 * k'
    ensures b.Room(room - |Escape(s[..k'])|)
  {
    hide Buffer.Valid, Buffer.Room, Escape, EscapeOne, Fits, Special;
    var rest := s[k..end];
    var block := rest + seq(batch - (end - k), _ => 0);
    var run := PlainRun(rest);
    BlockFits(b.info.level, s, k, end, batch, run);
    b.Put(block, run, room - |Escape(s[..k])|);
    k' := k + run;
    forall i | k <= i < k' ensures !Special(s[i]) {
      assert s[i] == rest[i - k];
    }
    EscapeRun(s, k, run);
  }

  lemma BlockFits(level: Level, s: Text, k: nat, end: nat, batch: nat, run: nat)
    requires Fits(level, s) && k <= end <= |s| && end - k <= batch && run <= end - k
    ensures var block := s[k..end] + seq(batch - (end - k), _ => 0);
      (forall i :: 0 <= i < |block| ==> block[i] < CellLimit(level.Width())) && Fits(level, block[..run])
      && block[..run] == s[k..k + run]
  {
  }

  lemma EscapeRun(s: Text, k: nat, run: nat)
    requires k + run <= |s| && forall i :: k <= i < k + run ==> !Special(s[i])
    ensures Escape(s[..k + run]) == Escape(s[..k]) + s[k..k + run]
  {
    assert s[..k + run] == s[..k] + s[k..k + run];
    EscapeAppend(s[..k], s[k..k + run]);
    PlainEscape(s[k..k + run]);
  }

  lemma EscapeNext(s: Text, k: nat)
    requires k < |s|
    ensures Escape(s[..k + 1]) == Escape(s[..k]) + EscapeOne(s[k])
  {
    assert s[..k + 1] == s[..k] + [s[k]];
    EscapeAppend(s[..k], [s[k]]);
    assert Escape([s[k]]) == EscapeOne(s[k]) + Escape([s[k]][1..]);
  }

  /** scalar_encoder: one row for each character below 256, the others as they are. */
  method EncodeScalar(b: Buffer, s: Text, ghost room: nat)
    requires b.Valid() && Fits(b.info.level, s)
    requires b.Room(room) && BodyCount(|s|, 8) <= room
    modifies b`writer, b`text, b.mem
    ensures b.Valid() && b.text == old(b.text) + Escape(s)
    ensures |Escape(s)| <= 6 * |s| && b.Room(room - |Escape(s)|)
  {
    hide Buffer.Valid, Buffer.Room, Escape;
    ghost var before := b.text;
    Nothing(s);
    for k := 0 to |s|
      invariant b.Valid()
      invariant b.text == before + Escape(s[..k]) && |Escape(s[..k])| <= 6 * k
      invariant b.Room(room - |Escape(s[..k])|)
    {
      EscapeNext(s, k);
      if s[k] > 255 {
        b.Put([s[k]], 1, room - |Escape(s[..k])|);
      } else {
        PutEscape(b, s[k], room - |Escape(s[..k])|);
      }
    }
    assert s[..|s|] == s;
  }

  /** u_buf_apd_key_impl and u_buf_apd_str_impl up to the closing quote. */
  method PutQuoted(b: Buffer, s: Text, compact: bool, batch: nat, ghost after: nat)
    requires b.Valid() && Fits(b.info.level, s) && batch > 0
    requires b.Room(1 + 6 * |s| + after) && after >= Max(2, Max(batch, 8) - 6)
    modifies b`writer, b`text, b.mem
    ensures b.Valid() && b.text == old(b.text) + Quoted(s) && b.Room(after - 1)
  {
    hide Buffer.Valid, Buffer.Room, Escape;
    ghost var before := b.text;
    EscapeBounds(b.info.level, s);
    b.Put([QUOTE], 1, 1 + 6 * |s| + after);
    if !compact && |s| < batch {
      EncodeScalar(b, s, 6 * |s| + after);
    } else {
      EncodeBlocks(b, s, batch, 6 * |s| + after);
    }
    b.Put([QUOTE], 1, 6 * |s| + after - |Escape(s)|);
    Less(b, 6 * |s| + after - |Escape(s)| - 1, after - 1);
    assert b.text == before + Quoted(s);
  }

  lemma Less(b: Buffer, room: nat, room': nat)
    requires b.Room(room) && room' <= room
    ensures b.Room(room')
  {
  }

  /** u_buf_apd_str */
  method AppendStr(b: Buffer, env: Env, depth: nat, inObj: bool, s: Text, compact: bool, batch: nat)
    requires b.Valid() && env.WellFormed() && Fits(b.info.level, s) && batch > 0
    modifies b`mem, b`writer, b`text, b.mem
    ensures b.Valid() && (b.mem == old(b.mem) || fresh(b.mem))
    ensures b.text == old(b.text) + IndentOf(env, depth, inObj) + (Quoted(s) + [COMMA])
  {
    hide Buffer.Valid, Buffer.Room, Quoted, IndentOf;
    var after := Max(2, Max(batch, 8) - 6);
    ReserveAndIndent(b, env, depth, inObj, 1 + 6 * |s| + after);
    ghost var before := b.text;
    PutQuoted(b, s, compact, batch, after);
    b.Put([COMMA], 1, after - 1);
    assert before + Quoted(s) + [COMMA] == before + (Quoted(s) + [COMMA]);
  }

  /** u_buf_apd_key: with indentation a space follows the colon, and below level 4 a unit is cleared. */
  method AppendKey(b: Buffer, env: Env, depth: nat, s: Text, compact: bool, batch: nat)
    requires b.Valid() && env.WellFormed() && Fits(b.info.level, s) && batch > 0
    modifies b`mem, b`writer, b`text, b.mem
    ensures b.Valid() && (b.mem == old(b.mem) || fresh(b.mem))
    ensures b.text == old(b.text) + (Indentation(env.indent, depth) + Quoted(s) + [COLON]
      + (if env.indent > 0 then [SPACE] else []))
  {
    hide Buffer.Valid, Buffer.Room, Quoted, Indentation;
    var after := Max(if env.indent > 0 then 4 else 2, Max(batch, 8) - 6);
    ghost var before := b.text;
    var count := IndentCount(env.indent, depth);
    b.Reserve(count + (1 + 6 * |s| + after));
    WriteIndent(b, env.indent, depth, count + (1 + 6 * |s| + after));
    PutQuoted(b, s, compact, batch, after);
    b.Put([COLON], 1, after - 1);
    if env.indent > 0 {
      if b.info.level == Ucs4 {
        b.Put([SPACE], 1, after - 2);
      } else {
        b.Put([SPACE, 0], 1, after - 2);
      }
    }
    assert b.text == before + (Indentation(env.indent, depth) + Quoted(s) + [COLON]
      + (if env.indent > 0 then [SPACE] else []));
  }
}
