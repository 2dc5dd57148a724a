/** The stack machine of ssrjson_dumps_obj (src/encode/_encode_impl.inl.h). */
module Encoder {
  import opened Options
  import opened Integers
  import opened Memory
  import opened Segments
  import opened UnicodeBuffer
  import opened PyObjects
  import opened JsonText
  import opened Printer
  import opened PrintedJson
  import Nesting
  import opened EncoderSteps
  import opened Writers
  import opened LockSet

  /** EncodeContainerType; the values are 0, 1 and 2. */
  datatype CtnType = DictCtn | ListCtn | TupleCtn

  function TypeOf(o: Obj): CtnType {
    if o.Dict? then DictCtn else if o.List? then ListCtn else TupleCtn
  }

  function Code(t: CtnType): nat {
    match t case DictCtn => 0 case ListCtn => 1 case TupleCtn => 2
  }

  /** EncodeCtnWithIndex: a suspended container, its next index and its type in one word. */
  datatype Entry = Entry(ctn: Ref, indexAndType: nat)

  /** set_index_and_type: (index << 2) | type, which needs an index below 2^62. */
  function Pack(ctn: Ref, index: nat, t: CtnType): Entry {
    Entry(ctn, 4 * index + Code(t))
  }

  /** extract_index_and_type: the word >> 2 and the word & 3. */
  function UnpackIndex(e: Entry): nat {
    e.indexAndType / 4
  }

  function UnpackType(e: Entry): CtnType {
    var code := e.indexAndType % 4;
    if code == 0 then DictCtn else if code == 1 then ListCtn else TupleCtn
  }

  lemma PackRoundTrip(ctn: Ref, index: nat, t: CtnType)
    ensures UnpackIndex(Pack(ctn, index, t)) == index && UnpackType(Pack(ctn, index, t)) == t
    ensures index < 0x4000_0000_0000_0000 ==> Pack(ctn, index, t).indexAndType < 0x1_0000_0000_0000_0000
  {
  }

  /** Where encode_process_val sends the caller. */
  datatype Jump = Default | ArrBegin | TupleBegin | DictBegin | Elevate | Fail(error: Error)

  /** Where a width instance starts. */
  datatype CallFlag = ObjVal | ArrVal | Key

  /** The labels of the machine: dict_pair_begin, dict_key_done and arr_val_begin. */
  datatype Label = DictPair | KeyDone | ArrValue

  /** Where one turn of the machine leads. */
  datatype Next = Goto(at: Label) | Call(flag: CallFlag) | Success | Failed(why: Error)

  function LabelOf(flag: CallFlag): Label {
    match flag case ObjVal => DictPair case ArrVal => ArrValue case Key => KeyDone
  }

  /** The container on top is not on the path below it. */
  ghost predicate NoRepeat(env: Env, frames: seq<Frame>) {
    frames == [] || (
      && NoRepeat(env, Rest(frames))
      && (env.locking && env.At(Top(frames).ctn).Lockable() ==> Top(frames).ctn !in PathOf(env, Rest(frames))))
  }

  class Run {
    const env: Env
    /** READ_BATCH_COUNT */
    const batch: nat
    const buf: Buffer
    const locks: Locks
    const stack: array<Entry>
    var curObj: Ref
    var curPos: nat
    var depth: nat
    var listSize: nat
    var curIsTuple: bool
    var val: Ref
    /** toplevel_locked_obj */
    var toplevel: Option<Ref>

    /** The open containers, the current one last. */
    ghost var frames: seq<Frame>
    /** While a member is being written: the frames and the text before it. */
    ghost var from: seq<Frame>
    ghost var before: Text

    ghost function TopLocked(): set<Ref>
      reads this
    {
      match toplevel case None => {} case Some(obj) => {obj}
    }

    ghost predicate Setup()
      reads this
    {
      env.WellFormed() && batch > 0 && stack.Length == MAX_RECURSION
    }

    /** The fields and the stack describe `frames`. */
    ghost predicate Control()
      reads this, stack
    {
      && Setup()
      && FramesOk(env, frames) && frames != [] && depth == |frames|
      && Top(frames) == Frame(curObj, curPos)
      && (forall k :: 0 <= k < depth - 1 ==>
            stack[k + 1] == Pack(frames[k].ctn, frames[k].pos, TypeOf(env.At(frames[k].ctn))))
      && TopLocked() == env.Entered(frames[0].ctn, {})
      && (!env.At(curObj).Dict? ==> listSize == env.At(curObj).Size())
    }

    /** The level of the buffer is the level the text needs. */
    ghost predicate Writing()
      reads buf, buf.mem
    {
      buf.Valid() && Needed(buf.info.level, buf.text)
    }

    /** At a label the last unit is punctuation of the current segment. */
    ghost predicate Output()
      reads buf, buf.mem
    {
      Writing() && buf.info.Recorded() < |buf.text| && buf.text[|buf.text| - 1] < 0x80
    }

    /** Whatever is appended at the same level, the level stays the one needed. */
    lemma Appended(was: Text, level: Level, t: Text, last: nat)
      requires buf.Valid() && Needed(level, was) && buf.info.level == level && buf.info.Recorded() <= |was|
      requires buf.text == was + t && t != [] && t[|t| - 1] == last && last < 0x80
      ensures Output()
    {
      NeededGrows(level, was, t);
    }

    /** The pointer set is the set of lockable containers on the path, each locked once. */
    ghost predicate Locking(frames: seq<Frame>)
      reads locks, locks.table, locks.table.flags, locks.table.keys
    {
      locks.Valid() && locks.held == PathOf(env, frames) && NoRepeat(env, frames)
    }

    /** A member is in hand: its lead is written, except an array element's indentation. */
    ghost predicate Holding(inObj: bool)
      reads this, buf
    {
      && Ready(env, from) && frames == Advanced(from) && val == NextChild(env, from)
      && inObj == env.At(curObj).Dict?
      && NextLead(env, from).Ok?
      && buf.text + IndentOf(env, |frames|, inObj) == before + NextLead(env, from).value
    }

    constructor (env: Env, batch: nat, buf: Buffer, locks: Locks)
      requires env.WellFormed() && batch > 0
      ensures Setup() && toplevel == None && this.env == env && this.buf == buf && this.locks == locks && fresh(stack)
    {
      this.env, this.batch, this.buf, this.locks := env, batch, buf, locks;
      stack := new Entry[MAX_RECURSION](_ => Entry(0, 0));
      curObj, curPos, depth, listSize, curIsTuple, val := 0, 0, 0, 0, false, 0;
      toplevel := None;
      frames, from, before := [], [], [];
    }

    /** prepare_unicode_write: a wider string raises the level first. */
    method PrepareLevel(level: Level)
      requires buf.Valid()
      modifies buf`writer, buf`info
      ensures buf.Valid()
      ensures buf.info.level == if old(buf.info.level).Below(level) then level else old(buf.info.level)
      ensures level == buf.info.level || level.Below(buf.info.level)
    {
      if buf.info.level.Below(level) {
        buf.Memorize(level);
      }
    }

    /** u_buf_apd_str_wrapped */
    method WriteStr(o: Obj, inObj: bool)
      requires Setup() && o.Str? && ObjOk(o) && Writing() && depth == |frames|
      modifies buf, buf.mem
      ensures Output() && (buf.mem == old(buf.mem) || fresh(buf.mem))
      ensures buf.text == old(buf.text) + IndentOf(env, depth, inObj) + (Quoted(o.chars) + [COMMA])
      ensures buf.info.level == old(buf.info.level) || old(buf.info.level).Below(buf.info.level)
    {
      hide Buffer.Valid, Quoted, IndentOf, Needed;
      ghost var was, level := buf.text, buf.info.level;
      buf.RecordedBound();
      PrepareLevel(o.level);
      LimitGrows(o.level, buf.info.level);
      FitsWider(o.level, buf.info.level, o.chars);
      buf.RecordedBound();
      AppendStr(buf, env, depth, inObj, o.chars, o.compact, batch);
      ghost var lead := IndentOf(env, depth, inObj);
      assert was + lead + (Quoted(o.chars) + [COMMA]) == was + (lead + Quoted(o.chars) + [COMMA]);
      StringNeeds(level, o, was, lead, [COMMA]);
    }

    static lemma FitsWider(level: Level, next: Level, s: Text)
      requires Fits(level, s) && level.CharLimit() <= next.CharLimit()
      ensures Fits(next, s)
    {
    }

    /** A scalar or an empty container, written whole; false when encode_process_val reports an error. */
    method WriteScalar(inObj: bool) returns (ok: bool)
      requires Setup() && Writing() && depth == |frames| <= MAX_RECURSION
      requires env.At(val).IsContainer() ==> env.At(val).Size() == 0
      modifies buf, buf.mem
      ensures ok <==> Print(env, val, depth, PathOf(env, frames)).Ok?
      ensures ok ==> Output()
      ensures ok ==>
        buf.text == old(buf.text) + IndentOf(env, depth, inObj)
        + (Print(env, val, depth, PathOf(env, frames)).value + [COMMA])
      ensures buf.mem == old(buf.mem) || fresh(buf.mem)
      ensures buf.info.level == old(buf.info.level) || old(buf.info.level).Below(buf.info.level)
    {
      hide Buffer.Valid, Quoted, IndentOf, Needed, Output, IntText, PrintMembers;
      var o := env.At(val);
      assert ObjOk(o);
      ok := !(o.OutOfRange() || o.Unsupported?);
      if o.Str? {
        WriteStr(o, inObj);
      } else if ok {
        WriteLeaf(inObj);
      }
    }

    /** The literals, numbers and empty brackets. */
    method WriteLeaf(inObj: bool)
      requires Setup() && Writing() && depth == |frames| <= MAX_RECURSION
      requires env.At(val).IsContainer() ==> env.At(val).Size() == 0
      requires !env.At(val).Str? && !env.At(val).OutOfRange() && !env.At(val).Unsupported?
      modifies buf, buf.mem
      ensures Output() && Print(env, val, depth, PathOf(env, frames)).Ok?
      ensures buf.text == old(buf.text) + IndentOf(env, depth, inObj)
        + (Print(env, val, depth, PathOf(env, frames)).value + [COMMA])
      ensures buf.mem == old(buf.mem) || fresh(buf.mem)
      ensures buf.info.level == old(buf.info.level)
    {
      hide Buffer.Valid, Quoted, IndentOf, Needed, Output, IntText, PrintMembers;
      buf.RecordedBound();
      ghost var was, level := buf.text, buf.info.level;
      var o := env.At(val);
      assert ObjOk(o);
      if o.Null? {
        AppendNull(buf, env, depth, inObj);
      } else if o.Bool? {
        AppendBool(buf, env, depth, inObj, !o.value);
      } else if o.Long? {
        AppendLong(buf, env, depth, inObj, o.number);
      } else if o.Float? {
        AppendFloat(buf, env, depth, inObj, o.digits);
      } else {
        AppendEmpty(buf, env, depth, inObj, o);
      }
      ghost var t := Print(env, val, depth, PathOf(env, frames)).value;
      assert was + IndentOf(env, depth, inObj) + (t + [COMMA]) == was + (IndentOf(env, depth, inObj) + t + [COMMA]);
      Appended(was, level, IndentOf(env, depth, inObj) + t + [COMMA], COMMA);
    }

    /** Write the bracket and, in a locking build, put the container into the set and lock it. */
    method OpenContainer(inObj: bool) returns (ok: bool)
      requires Setup() && Writing() && depth == |frames| <= MAX_RECURSION && Locking(frames)
      modifies buf, buf.mem, locks.Repr()
      ensures Output() && buf.info == old(buf.info)
      ensures buf.text == old(buf.text) + IndentOf(env, depth, inObj) + [Opening(env.At(val))]
      ensures buf.mem == old(buf.mem) || fresh(buf.mem)
      ensures locks.Valid() && fresh(locks.Repr() - old(locks.Repr()))
      ensures ok <==> !(env.locking && env.At(val).Lockable() && val in PathOf(env, frames))
      ensures locks.held == env.Entered(val, PathOf(env, frames))
    {
      hide Buffer.Valid, Locks.Valid, IndentOf, PathOf, NoRepeat, Needed;
      var o := env.At(val);
      buf.RecordedBound();
      ghost var was := buf.text;
      AppendOpening(buf, env, depth, inObj, o);
      assert was + IndentOf(env, depth, inObj) + [Opening(o)] == was + (IndentOf(env, depth, inObj) + [Opening(o)]);
      Appended(was, buf.info.level, IndentOf(env, depth, inObj) + [Opening(o)], Opening(o));
      ok := true;
      if env.locking && o.Lockable() {
        PathSize(env, frames);
        ok := locks.Acquire(val);
      }
    }

    /** Suspend the current container on the stack and make `val` the current one. */
    method Push(isInTuple: bool)
      requires Control() && depth < MAX_RECURSION && FrameOk(env, Frame(val, 0))
      requires env.At(curObj).Dict? || isInTuple == env.At(curObj).Tuple?
      modifies this`curObj, this`curPos, this`depth, this`listSize, this`frames, stack
      ensures Control() && frames == old(frames) + [Frame(val, 0)] && curObj == val
    {
      hide Pack, FramesOk, Env.Entered;
      OpenedBelow(env, frames, Frame(val, 0));
      var inObj := env.At(curObj).Dict?;
      var t := if inObj then DictCtn else if isInTuple then TupleCtn else ListCtn;
      assert t == TypeOf(env.At(curObj));
      stack[depth] := Pack(curObj, curPos, t);
      depth := depth + 1;
      curObj, curPos := val, 0;
      frames := frames + [Frame(val, 0)];
      if !env.At(val).Dict? {
        listSize := env.At(val).Size();
      }
    }

    /** A value or an opened container goes on exactly as the printer would. */
    ghost predicate Kept(frames: seq<Frame>)
      reads `from, `before, buf
    {
      && FramesOk(env, frames) && FramesOk(env, from)
      && Pending(env, frames, buf.text) == Pending(env, from, before)
      && WorkLeft(env, frames) < WorkLeft(env, from)
    }

    lemma ScalarKept(inObj: bool, was: Text)
      requires Ready(env, from) && frames == Advanced(from) && val == NextChild(env, from)
      requires NextLead(env, from).Ok? && was + IndentOf(env, |frames|, inObj) == before + NextLead(env, from).value
      requires NextValue(env, from).Ok?
      requires buf.text == was + IndentOf(env, |frames|, inObj) + (NextValue(env, from).value + [COMMA])
      ensures Kept(frames)
    {
      StepValue(env, from, before);
      WorkAdvances(env, from);
      var lead, value := NextLead(env, from).value, NextValue(env, from).value;
      assert before + lead + (value + [COMMA]) == before + lead + value + [COMMA];
    }

    lemma EnterKept(inObj: bool, was: Text)
      requires Ready(env, from) && frames == Advanced(from) && val == NextChild(env, from)
      requires NextLead(env, from).Ok? && was + IndentOf(env, |frames|, inObj) == before + NextLead(env, from).value
      requires |from| < MAX_RECURSION && FrameOk(env, Frame(val, 0))
      requires !(env.locking && env.At(val).Lockable() && val in PathOf(env, from))
      requires buf.text == was + IndentOf(env, |frames|, inObj) + [Opening(env.At(val))]
      ensures Kept(frames + [Frame(val, 0)])
    {
      StepEnter(env, from, before);
      WorkAdvances(env, from);
      WorkEnters(env, frames, val);
    }

    method ProcessScalar(inObj: bool) returns (j: Jump)
      requires Control() && Writing() && Locking(frames) && Holding(inObj)
      requires env.At(val).IsContainer() ==> env.At(val).Size() == 0
      modifies buf, buf.mem
      ensures buf.mem == old(buf.mem) || fresh(buf.mem)
      ensures j.Fail? ==> FramesOk(env, from) && Pending(env, from, before) == Err(j.error)
      ensures !j.Fail? ==> (j == Default || j == Elevate) && Output() && Kept(frames)
      ensures !j.Fail? ==> if j == Elevate then old(buf.info.level).Below(buf.info.level)
        else buf.info.level == old(buf.info.level)
    {
      hide Buffer.Valid, IndentOf, Print, Pending, Locks.Valid, WorkLeft;
      ghost var was := buf.text;
      var level := buf.info.level;
      AdvancedOk(env, from);
      var ok := WriteScalar(inObj);
      if ok {
        ScalarKept(inObj, was);
        j := if buf.info.level == level then Default else Elevate;
      } else {
        var e := if env.At(val).OutOfRange() then NumberOutOfRange else UnsupportedType;
        PrintFails(env, val, depth, PathOf(env, frames), e);
        StepFail(env, from, before, e);
        j := Fail(e);
      }
    }

    method ProcessContainer(inObj: bool, isInTuple: bool) returns (j: Jump)
      requires Control() && Writing() && Locking(frames) && Holding(inObj)
      requires inObj || isInTuple == env.At(curObj).Tuple?
      requires FrameOk(env, Frame(val, 0))
      modifies this`curObj, this`curPos, this`depth, this`listSize, this`frames, stack, buf, buf.mem, locks.Repr()
      ensures buf.mem == old(buf.mem) || fresh(buf.mem)
      ensures locks.Valid() && fresh(locks.Repr() - old(locks.Repr()))
      ensures j.Fail? ==> FramesOk(env, from) && Pending(env, from, before) == Err(j.error)
      ensures !j.Fail? ==> Control() && Output() && Locking(frames) && Kept(frames)
      ensures !j.Fail? ==> buf.info.level == old(buf.info.level) && curObj == val
      ensures !j.Fail? ==>
        j == match TypeOf(env.At(val)) case DictCtn => DictBegin case ListCtn => ArrBegin case TupleCtn => TupleBegin
    {
      hide Buffer.Valid, Locks.Valid, Pending, PathOf, NoRepeat, Needed, Writing, Output, Kept, FramesOk, Locking;
      Facts();
      j := TryOpen(inObj);
      if !j.Fail? {
        Push(isInTuple);
        j := match TypeOf(env.At(val)) case DictCtn => DictBegin case ListCtn => ArrBegin case TupleCtn => TupleBegin;
      }
    }

    /** The bracket, the lock and the depth check; what may fail. */
    method TryOpen(inObj: bool) returns (j: Jump)
      requires Control() && Writing() && Locking(frames) && Holding(inObj) && FrameOk(env, Frame(val, 0))
      modifies buf, buf.mem, locks.Repr()
      ensures buf.mem == old(buf.mem) || fresh(buf.mem)
      ensures locks.Valid() && fresh(locks.Repr() - old(locks.Repr()))
      ensures j.Fail? ==> FramesOk(env, from) && Pending(env, from, before) == Err(j.error)
      ensures !j.Fail? ==>
        depth < MAX_RECURSION && Output() && Locking(frames + [Frame(val, 0)])
        && Kept(frames + [Frame(val, 0)])
      ensures !j.Fail? ==> buf.info.level == old(buf.info.level)
    {
      hide Buffer.Valid, IndentOf, Print, Pending, Locks.Valid, WorkLeft, PathOf, NoRepeat, Needed, Writing, Output,
        Kept;
      ghost var was := buf.text;
      AdvancedOk(env, from);
      var ok := OpenContainer(inObj);
      if !ok {
        PrintRepeats(env, val, depth, PathOf(env, frames));
        StepFail(env, from, before, CircularReference);
        return Fail(CircularReference);
      }
      if depth == MAX_RECURSION {
        PrintTooDeep(env, val, PathOf(env, frames));
        StepFail(env, from, before, TooManyNested);
        return Fail(TooManyNested);
      }
      EnterKept(inObj, was);
      PathEnters(env, frames, val);
      j := Default;
    }

    /** encode_process_val */
    method ProcessVal(inObj: bool, isInTuple: bool) returns (j: Jump)
      requires Control() && Writing() && Locking(frames) && Holding(inObj)
      requires inObj || isInTuple == env.At(curObj).Tuple?
      modifies this`curObj, this`curPos, this`depth, this`listSize, this`frames, stack, buf, buf.mem, locks.Repr()
      ensures buf.mem == old(buf.mem) || fresh(buf.mem)
      ensures locks.Valid() && fresh(locks.Repr() - old(locks.Repr()))
      ensures j.Fail? ==> FramesOk(env, from) && Pending(env, from, before) == Err(j.error)
      ensures !j.Fail? ==> Control() && Output() && Locking(frames) && Kept(frames)
      ensures j == Default || j == Elevate ==> frames == old(frames)
      ensures !j.Fail? ==> if j == Elevate then old(buf.info.level).Below(buf.info.level)
        else buf.info.level == old(buf.info.level)
      ensures j == ArrBegin ==> env.At(curObj).List?
      ensures j == TupleBegin ==> env.At(curObj).Tuple?
      ensures j == DictBegin ==> env.At(curObj).Dict?
    {
      hide Control, Writing, Output, Holding, Kept, Buffer.Valid, Locks.Valid, FramesOk, Pending, PathOf, NoRepeat;
      var o := env.At(val);
      if o.IsContainer() && o.Size() > 0 {
        j := ProcessContainer(inObj, isInTuple);
      } else {
        j := ProcessScalar(inObj);
      }
    }

    /** Step over the next member and remember where the run was. */
    method Advance()
      requires Control() && env.At(curObj).IsContainer() && NoRepeat(env, frames) && curPos < env.At(curObj).Size()
      modifies this`curPos, this`frames, this`from, this`before
      ensures from == old(frames) && before == buf.text && FramesOk(env, from)
      ensures Control() && frames == Advanced(from) && Ready(env, from) && |frames| == |from|
      ensures PathOf(env, frames) == PathOf(env, from) && NoRepeat(env, frames)
    {
      hide PathOf, NoRepeat, FramesOk, Advanced, Pack;
      from, before := frames, buf.text;
      StepOver();
      AdvancedOk(env, from);
      AdvancedNoRepeat(env, from);
    }

    method StepOver()
      requires Control() && curPos < env.At(curObj).Size()
      modifies this`curPos, this`frames
      ensures Control() && Ready(env, old(frames)) && frames == Advanced(old(frames))
    {
      hide PathOf, Pack, TypeOf, Env.Entered, FramesOk, Advanced;
      AdvancedOk(env, frames);
      AdvancedBelow(frames);
      curPos := curPos + 1;
      frames := Advanced(frames);
    }

    /** u_buf_apd_key_wrapped */
    method WriteKey(key: Obj)
      requires Setup() && key.Str? && ObjOk(key) && Writing()
      modifies buf, buf.mem
      ensures Output() && (buf.mem == old(buf.mem) || fresh(buf.mem))
      ensures buf.text == old(buf.text)
        + (Indentation(env.indent, depth) + Quoted(key.chars) + [COLON] + (if env.indent > 0 then [SPACE] else []))
      ensures buf.info.level == old(buf.info.level) || old(buf.info.level).Below(buf.info.level)
    {
      hide Buffer.Valid, Quoted, Indentation, Needed;
      ghost var was, level, tail := buf.text, buf.info.level, [COLON] + (if env.indent > 0 then [SPACE] else []);
      buf.RecordedBound();
      PrepareLevel(key.level);
      LimitGrows(key.level, buf.info.level);
      FitsWider(key.level, buf.info.level, key.chars);
      buf.RecordedBound();
      AppendKey(buf, env, depth, key.chars, key.compact, batch);
      ghost var lead := Indentation(env.indent, depth);
      assert lead + Quoted(key.chars) + [COLON] + (if env.indent > 0 then [SPACE] else [])
        == lead + Quoted(key.chars) + tail;
      StringNeeds(level, key, was, lead, tail);
    }

    /** dict_pair_begin with an entry left: fetch it and write its key. */
    method BeginPair() returns (j: Jump)
      requires Control() && Output() && NoRepeat(env, frames)
      requires env.At(curObj).Dict? && curPos < env.At(curObj).Size()
      modifies this`curPos, this`val, this`frames, this`from, this`before, buf, buf.mem
      ensures buf.mem == old(buf.mem) || fresh(buf.mem)
      ensures from == old(frames) && before == old(buf.text) && FramesOk(env, from)
      ensures j.Fail? ==> Pending(env, from, before) == Err(j.error)
      ensures !j.Fail? ==> (j == Default || j == Elevate) && Control() && Output() && Holding(true)
      ensures !j.Fail? ==> PathOf(env, frames) == PathOf(env, from) && NoRepeat(env, frames)
      ensures !j.Fail? ==> if j == Elevate then old(buf.info.level).Below(buf.info.level)
        else buf.info.level == old(buf.info.level)
    {
      hide Buffer.Valid, Pending, Quoted, Indentation, PathOf, NoRepeat;
      var entry := env.At(curObj).entries[curPos];
      val := entry.1;
      Advance();
      var key := env.At(entry.0);
      if !key.Str? {
        StepFail(env, from, before, KeyNotStr);
        return Fail(KeyNotStr);
      }
      assert ObjOk(key);
      var level := buf.info.level;
      WriteKey(key);
      assert buf.text + [] == buf.text;
      j := if buf.info.level == level then Default else Elevate;
    }

    /** arr_val_begin with an element left. */
    method BeginElement()
      requires Control() && Output() && NoRepeat(env, frames)
      requires !env.At(curObj).Dict? && curPos < listSize
      modifies this`curPos, this`val, this`frames, this`from, this`before
      ensures from == old(frames) && before == buf.text && FramesOk(env, from)
      ensures Control() && Holding(false)
      ensures PathOf(env, frames) == PathOf(env, from) && NoRepeat(env, frames)
    {
      hide Buffer.Valid, Pending, Indentation, PathOf, NoRepeat;
      val := env.At(curObj).items[curPos];
      Advance();
    }

    /** Dict end and list end: close the container, unlock it, go on in the one below. */
    method Leave() returns (done: bool)
      requires Control() && Output() && Locking(frames) && curPos == env.At(curObj).Size()
      modifies this`curObj, this`curPos, this`depth, this`listSize, this`curIsTuple, this`frames
      modifies buf, buf.mem, locks.Repr()
      ensures buf.mem == old(buf.mem) || fresh(buf.mem)
      ensures fresh(locks.Repr() - old(locks.Repr()))
      ensures Output() && buf.info.level == old(buf.info.level) && FramesOk(env, frames)
      ensures Pending(env, frames, buf.text) == old(Pending(env, frames, buf.text))
      ensures WorkLeft(env, frames) < old(WorkLeft(env, frames))
      ensures done ==> frames == [] && locks.Valid() && locks.held == TopLocked()
      ensures !done ==> Control() && Locking(frames) && (!env.At(curObj).Dict? ==> curIsTuple == env.At(curObj).Tuple?)
    {
      hide Buffer.Valid, Locks.Valid, Pending, PathOf, NoRepeat, WorkLeft, FramesOk, Closed, Control, Pack;
      LeaveKept();
      CloseText();
      frames := Rest(frames);
      done := depth == 0;
      if !done {
        Unlock();
        Restore();
      }
    }

    /** What closing the current container means for the rest of the run. */
    lemma LeaveKept()
      requires Control() && Output() && Locking(frames) && curPos == env.At(curObj).Size()
      ensures FramesOk(env, frames) && frames != [] && FramesOk(env, Rest(frames)) && |Rest(frames)| == |frames| - 1
      ensures Pending(env, frames, buf.text)
        == Pending(env, Rest(frames), Closed(env, env.At(curObj), buf.text, |frames| - 1))
      ensures WorkLeft(env, Rest(frames)) < WorkLeft(env, frames)
      ensures |frames| == 1 ==> locks.held == TopLocked() && Rest(frames) == []
      ensures |frames| > 1 ==> TopLocked() == env.Entered(Rest(frames)[0].ctn, {})
      ensures Setup() && 0 < depth == |frames| <= MAX_RECURSION == stack.Length
      ensures env.locking && env.At(curObj).Lockable() ==> curObj in locks.held
      ensures NoRepeat(env, Rest(frames))
      ensures PathOf(env, Rest(frames)) == if env.locking && env.At(curObj).Lockable() then locks.held - {curObj}
        else locks.held
      ensures forall k :: 0 <= k < depth - 1 ==>
        stack[k + 1] == Pack(Rest(frames)[k].ctn, Rest(frames)[k].pos, TypeOf(env.At(Rest(frames)[k].ctn)))
    {
      hide Buffer.Valid, Locks.Valid, Pending, Indentation, PathOf, NoRepeat;
      StepLeave(env, frames, buf.text);
      PathLeaves(env, frames);
    }

    /** u_buf_apd_obj_end and u_buf_apd_arr_end */
    method CloseText()
      requires Setup() && Output() && depth > 0
      modifies this`depth, buf, buf.mem
      ensures depth == old(depth) - 1
      ensures buf.mem == old(buf.mem) || fresh(buf.mem)
      ensures Output() && buf.info == old(buf.info)
      ensures buf.text == Closed(env, env.At(curObj), old(buf.text), depth)
    {
      hide Buffer.Valid, Indentation, Needed;
      depth := depth - 1;
      buf.RecordedBound();
      var o := env.At(curObj);
      ghost var was := buf.text[..|buf.text| - 1];
      NeededDrops(buf.info.level, buf.text);
      AppendClosing(buf, env, depth, o);
      assert was + Indentation(env.indent, depth) + [Closing(o), COMMA]
        == was + (Indentation(env.indent, depth) + [Closing(o), COMMA]);
      Appended(was, buf.info.level, Indentation(env.indent, depth) + [Closing(o), COMMA], COMMA);
    }

    /** Unlock the container just left. */
    method Unlock()
      requires locks.Valid()
      requires env.locking && env.At(curObj).Lockable() ==> curObj in locks.held
      modifies locks.Repr()
      ensures locks.Valid() && locks.Repr() == old(locks.Repr())
      ensures locks.held == if env.locking && env.At(curObj).Lockable() then old(locks.held) - {curObj}
        else old(locks.held)
    {
      if env.locking && env.At(curObj).Lockable() {
        locks.Release(curObj);
      }
    }

    /** extract_index_and_type of the suspended container. */
    method Restore()
      requires Setup() && FramesOk(env, frames) && 0 < depth == |frames| < MAX_RECURSION
      requires forall k :: 0 <= k < depth ==>
        stack[k + 1] == Pack(frames[k].ctn, frames[k].pos, TypeOf(env.At(frames[k].ctn)))
      requires TopLocked() == env.Entered(frames[0].ctn, {})
      modifies this`curObj, this`curPos, this`listSize, this`curIsTuple
      ensures Control() && (!env.At(curObj).Dict? ==> curIsTuple == env.At(curObj).Tuple?)
    {
      var e := stack[depth];
      PackRoundTrip(Top(frames).ctn, Top(frames).pos, TypeOf(env.At(Top(frames).ctn)));
      curObj, curPos := e.ctn, UnpackIndex(e);
      match UnpackType(e) {
        case DictCtn =>
        case ListCtn =>
          listSize, curIsTuple := env.At(curObj).Size(), false;
        case TupleCtn =>
          listSize, curIsTuple := env.At(curObj).Size(), true;
      }
    }

    /** What holds at each label of a run that has to end with `goal`. */
    ghost predicate Inv(at: Label, goal: Result<Text>)
      reads this, stack, buf, buf.mem, locks, locks.table, locks.table.flags, locks.table.keys
    {
      && Control() && Output() && Locking(frames)
      && match at
         case DictPair => env.At(curObj).Dict? && Pending(env, frames, buf.text) == goal
         case ArrValue => !env.At(curObj).Dict? && curIsTuple == env.At(curObj).Tuple?
           && Pending(env, frames, buf.text) == goal
         case KeyDone => Holding(true) && FramesOk(env, from) && Pending(env, from, before) == goal
    }

    /** Turns left; a key and its value are two turns. */
    ghost function TurnsLeft(at: Label): nat
      reads this
    {
      match at
      case DictPair => if FramesOk(env, frames) then 2 * WorkLeft(env, frames) + 1 else 0
      case ArrValue => if FramesOk(env, frames) then 2 * WorkLeft(env, frames) + 1 else 0
      case KeyDone => if FramesOk(env, from) then 2 * WorkLeft(env, from) else 0
    }

    /** What a turn that does not end the run keeps. */
    twostate predicate Turned(next: Next, goal: Result<Text>)
      reads this, stack, buf, buf.mem, locks, locks.table, locks.table.flags, locks.table.keys
    {
      match next
      case Goto(at) => Inv(at, goal) && buf.info.level == old(buf.info.level)
      case Call(flag) => Inv(LabelOf(flag), goal) && old(buf.info.level).Below(buf.info.level)
      case Success => Setup() && Output() && locks.Valid() && locks.held == TopLocked() && goal == Ok(buf.text)
        && buf.info.level == old(buf.info.level)
      case Failed(e) => goal == Err(e) && locks.Valid()
    }

    /** One turn from dict_pair_begin. */
    method TurnDict(ghost goal: Result<Text>) returns (next: Next)
      requires Inv(DictPair, goal)
      modifies this, stack, buf, buf.mem, locks.Repr()
      ensures buf.mem == old(buf.mem) || fresh(buf.mem)
      ensures fresh(locks.Repr() - old(locks.Repr()))
      ensures Turned(next, goal)
      ensures next.Goto? ==> TurnsLeft(next.at) < old(TurnsLeft(DictPair))
    {
      hide Buffer.Valid, Locks.Valid, Pending, PathOf, NoRepeat, WorkLeft, Control, FramesOk;
      Facts();
      if curPos < env.At(curObj).Size() {
        var j := BeginPair();
        next := match j case Default => Goto(KeyDone) case Elevate => Call(Key) case Fail(e) => Failed(e);
      } else {
        next := TurnLeave(goal);
      }
    }

    lemma Facts()
      requires Control()
      ensures Setup() && FramesOk(env, frames) && env.At(curObj).IsContainer() && curPos <= env.At(curObj).Size()
      ensures !env.At(curObj).Dict? ==> listSize == env.At(curObj).Size()
    {
    }

    method TurnLeave(ghost goal: Result<Text>) returns (next: Next)
      requires Control() && Output() && Locking(frames) && curPos == env.At(curObj).Size()
      requires FramesOk(env, frames) && Pending(env, frames, buf.text) == goal
      modifies this, stack, buf, buf.mem, locks.Repr()
      ensures buf.mem == old(buf.mem) || fresh(buf.mem)
      ensures fresh(locks.Repr() - old(locks.Repr()))
      ensures Turned(next, goal)
      ensures next.Success? || (next.Goto? && TurnsLeft(next.at) < old(TurnsLeft(DictPair)))
    {
      hide Buffer.Valid, Locks.Valid, PathOf, NoRepeat, WorkLeft, FramesOk, Locking;
      var done := Leave();
      if done {
        next := Success;
      } else {
        next := if env.At(curObj).Dict? then Goto(DictPair) else Goto(ArrValue);
      }
    }

    /** One turn from arr_val_begin. */
    method TurnArr(ghost goal: Result<Text>) returns (next: Next)
      requires Inv(ArrValue, goal)
      modifies this, stack, buf, buf.mem, locks.Repr()
      ensures buf.mem == old(buf.mem) || fresh(buf.mem)
      ensures fresh(locks.Repr() - old(locks.Repr()))
      ensures Turned(next, goal)
      ensures next.Goto? ==> TurnsLeft(next.at) < old(TurnsLeft(ArrValue))
    {
      hide Buffer.Valid, Locks.Valid, Pending, PathOf, NoRepeat, WorkLeft, Control, FramesOk;
      Facts();
      if curPos < listSize {
        BeginElement();
        next := TurnValue(false, goal);
      } else {
        next := TurnLeave(goal);
      }
    }

    /** encode_process_val and the switch on its jump flag. */
    method TurnValue(inObj: bool, ghost goal: Result<Text>) returns (next: Next)
      requires Control() && Output() && Locking(frames) && Holding(inObj)
      requires inObj || curIsTuple == env.At(curObj).Tuple?
      requires FramesOk(env, from) && Pending(env, from, before) == goal
      modifies this, stack, buf, buf.mem, locks.Repr()
      ensures buf.mem == old(buf.mem) || fresh(buf.mem)
      ensures fresh(locks.Repr() - old(locks.Repr()))
      ensures Turned(next, goal)
      ensures next.Goto? ==> TurnsLeft(next.at) < old(TurnsLeft(KeyDone))
    {
      hide Buffer.Valid, Locks.Valid, Pending, PathOf, NoRepeat, WorkLeft, FramesOk, Locking, Writing, Control;
      SameTop();
      var j := ProcessVal(inObj, curIsTuple);
      if !j.Fail? {
        SameTop();
        next := AfterValue(inObj, j, goal);
      } else {
        next := Failed(j.error);
      }
    }

    lemma SameTop()
      requires Control()
      ensures frames != [] && Top(frames).ctn == curObj
    {
    }

    /** The switch on the jump flag. */
    method AfterValue(inObj: bool, j: Jump, ghost goal: Result<Text>) returns (next: Next)
      requires !j.Fail? && Control() && Output() && Locking(frames)
      requires FramesOk(env, frames) && Pending(env, frames, buf.text) == goal
      requires j == Default || j == Elevate ==>
        inObj == env.At(curObj).Dict? && (inObj || curIsTuple == env.At(curObj).Tuple?)
      requires j == ArrBegin ==> env.At(curObj).List?
      requires j == TupleBegin ==> env.At(curObj).Tuple?
      requires j == DictBegin ==> env.At(curObj).Dict?
      modifies this`curIsTuple
      ensures next == match j
        case Elevate => Call(if inObj then ObjVal else ArrVal)
        case _ => Goto(if env.At(curObj).Dict? then DictPair else ArrValue)
      ensures Inv(if next.Goto? then next.at else LabelOf(next.flag), goal)
    {
      hide Buffer.Valid, Locks.Valid, Pending, PathOf, NoRepeat, FramesOk, Locking, Output;
      match j {
        case Default =>
          next := if inObj then Goto(DictPair) else Goto(ArrValue);
        case ArrBegin =>
          curIsTuple := false;
          next := Goto(ArrValue);
        case TupleBegin =>
          curIsTuple := true;
          next := Goto(ArrValue);
        case DictBegin =>
          next := Goto(DictPair);
        case Elevate =>
          next := Call(if inObj then ObjVal else ArrVal);
      }
    }

    /** The finished string object: an array of cells of the final width, and room for a terminator. */
    ghost predicate Finished(t: Text)
      reads buf, buf.mem
    {
      && buf.layout.After(buf.info.level, |t|) + buf.info.level.Width() <= buf.mem.Length
      && buf.writer == buf.layout.After(buf.info.level, |t|)
      && Fits(buf.info.level, t) && Needed(buf.info.level, t)
      && forall i: nat :: i < |t| ==>
        && buf.layout.After(buf.info.level, i) + buf.info.level.Width() <= buf.mem.Length
        && Load(buf.mem[..], buf.layout.After(buf.info.level, i), buf.info.level.Width()) == t[i]
    }

    /** How a run with that goal ends: with the text or the error, and nothing locked. */
    ghost predicate Ended(r: Result<Level>, goal: Result<Text>)
      reads buf, buf.mem, locks
    {
      && locks.held == {}
      && match goal
         case Ok(t) => r == Ok(buf.info.level) && t != [] && Finished(DropLast(t))
         case Err(e) => r == Err(e)
    }

    /** The label `success`. */
    method Succeed(ghost goal: Result<Text>) returns (r: Result<Level>)
      requires Output() && locks.Valid() && locks.held == TopLocked() && goal == Ok(buf.text)
      modifies buf, buf.mem, locks`held
      ensures Ended(r, goal)
    {
      hide Buffer.Valid, Load, Layout.After, Needed;
      buf.RecordedBound();
      NeededDrops(buf.info.level, buf.text);
      buf.TakeBack();
      buf.Measure();
      buf.Finish();
      if toplevel.Some? {
        locks.Unlock(toplevel.value);
      }
      r := Ok(buf.info.level);
    }

    /** The label `fail`. */
    method Abandon(e: Error, ghost goal: Result<Text>) returns (r: Result<Level>)
      requires locks.Valid() && goal == Err(e)
      modifies locks`held
      ensures Ended(r, goal)
    {
      locks.ReleaseAll();
      r := Err(e);
    }

    /** One width instance, entered by the flag; it hands a wider string to a wider instance. */
    method Instance(flag: CallFlag, ghost goal: Result<Text>) returns (r: Result<Level>)
      requires Inv(LabelOf(flag), goal)
      modifies this, stack, buf, buf.mem, locks.Repr()
      ensures Ended(r, goal)
      decreases buf.info.level.Above()
    {
      hide Buffer.Valid, Inv, TurnsLeft, Setup, Ended, LabelOf, Locks.Valid;
      var at := LabelOf(flag);
      while true
        invariant Inv(at, goal) && buf.info.level == old(buf.info.level)
        invariant buf.mem == old(buf.mem) || fresh(buf.mem)
        invariant fresh(locks.Repr() - old(locks.Repr()))
        decreases TurnsLeft(at)
      {
        var next;
        match at {
          case DictPair =>
            next := TurnDict(goal);
          case ArrValue =>
            next := TurnArr(goal);
          case KeyDone =>
            next := TurnKeyDone(goal);
        }
        match next {
          case Goto(at') =>
            at := at';
          case Call(wider) =>
            Resume(wider, goal);
            r := Instance(wider, goal);
            return;
          case Success =>
            r := Succeed(goal);
            return;
          case Failed(e) =>
            r := Abandon(e, goal);
            return;
        }
      }
    }

    /** The switch at the head of a wider instance. It is not told whether the current array is a tuple. */
    method Resume(flag: CallFlag, ghost goal: Result<Text>)
      requires Inv(LabelOf(flag), goal)
      modifies `curIsTuple
      ensures Inv(LabelOf(flag), goal)
    {
      hide Buffer.Valid, Locks.Valid, Pending, PathOf, NoRepeat, FramesOk, Locking, Output;
      Facts();
      if flag.ArrVal? {
        curIsTuple := !env.At(curObj).List?;
      }
    }

    method TurnKeyDone(ghost goal: Result<Text>) returns (next: Next)
      requires Inv(KeyDone, goal)
      modifies this, stack, buf, buf.mem, locks.Repr()
      ensures buf.mem == old(buf.mem) || fresh(buf.mem)
      ensures fresh(locks.Repr() - old(locks.Repr()))
      ensures Turned(next, goal)
      ensures next.Goto? ==> TurnsLeft(next.at) < old(TurnsLeft(KeyDone))
    {
      next := TurnValue(true, goal);
    }

    /** ssrjson_dumps_obj, the ASCII instance, from its start. */
    method DumpsObj(root: Ref) returns (r: Result<Level>)
      requires Setup() && buf.Valid() && buf.text == [] && buf.info.level == Ascii
      requires locks.Valid() && locks.held == {} && toplevel == None
      modifies this, stack, buf, buf.mem, locks.Repr()
      ensures Ended(r, Goal(env, root))
    {
      hide Buffer.Valid, Locks.Valid, Inv, Pending;
      var o := env.At(root);
      if !o.IsContainer() {
        locks.ReleaseAll();
        return Err(UnsupportedType);
      }
      buf.RecordedBound();
      if o.Size() == 0 {
        AppendEmpty(buf, env, 0, true, o);
        assert buf.text == [Opening(o), Closing(o)] + [COMMA];
        r := Succeed(Goal(env, root));
        return;
      }
      Begin(root);
      r := Instance(if o.Dict? then ObjVal else ArrVal, Goal(env, root));
    }

    /** Open the root, lock it, and start at its first member; ctn_stack[0] is never used. */
    method Begin(root: Ref)
      requires Setup() && buf.Valid() && buf.text == [] && buf.info.level == Ascii
      requires locks.Valid() && locks.held == {} && toplevel == None
      requires FrameOk(env, Frame(root, 0))
      modifies this, stack, buf, buf.mem, locks.Repr()
      ensures buf.mem == old(buf.mem) || fresh(buf.mem)
      ensures fresh(locks.Repr() - old(locks.Repr()))
      ensures Inv(if env.At(root).Dict? then DictPair else ArrValue, Goal(env, root))
    {
      hide Buffer.Valid, Locks.Valid, Pending, WorkLeft, Print, Goal, PathOf, NoRepeat, Needed, Writing, Output,
        FramesOk, Control;
      OpenRoot(root);
      StepRoot(env, root);
      RootPath(env, root);
      StartAt(root);
    }

    /** The fields at the first member of the root. */
    method StartAt(root: Ref)
      requires Setup() && FrameOk(env, Frame(root, 0)) && TopLocked() == env.Entered(root, {})
      modifies this`frames, this`curObj, this`curPos, this`depth, this`listSize, this`curIsTuple
      ensures Control() && frames == [Frame(root, 0)] && curObj == root
      ensures !env.At(root).Dict? ==> curIsTuple == env.At(root).Tuple?
    {
      frames := [Frame(root, 0)];
      curObj, curPos, depth := root, 0, 1;
      if !env.At(root).Dict? {
        listSize, curIsTuple := env.At(root).Size(), env.At(root).Tuple?;
      }
    }

    method OpenRoot(root: Ref)
      requires Setup() && buf.Valid() && buf.text == [] && buf.info.level == Ascii
      requires locks.Valid() && locks.held == {} && toplevel == None
      modifies this`toplevel, buf, buf.mem, locks.Repr()
      ensures buf.mem == old(buf.mem) || fresh(buf.mem)
      ensures fresh(locks.Repr() - old(locks.Repr()))
      ensures Output() && buf.text == [Opening(env.At(root))]
      ensures locks.Valid() && locks.held == TopLocked() == env.Entered(root, {})
    {
      hide Buffer.Valid, Locks.Valid;
      var o := env.At(root);
      buf.RecordedBound();
      AppendOpening(buf, env, 0, true, o);
      assert buf.text == [Opening(o)];
      if env.locking && o.Lockable() {
        toplevel := Some(root);
        var ok := locks.Acquire(root);
      }
    }
  }

  lemma RootPath(env: Env, root: Ref)
    ensures PathOf(env, [Frame(root, 0)]) == env.Entered(root, {}) && NoRepeat(env, [Frame(root, 0)])
  {
  }

  /** dumps: for every object graph, cyclic ones included, every indentation and build, the run ends; it
      ends with the printer's text as one array of cells of its final width, or with the printer's
      error, and in either case no mutex stays locked. */
  method Dumps(env: Env, root: Ref, batch: nat, layout: Layout, vector: VectorBytes, hash: Ref -> nat)
    returns (r: Result<Level>, buf: Buffer, locks: Locks)
    requires env.WellFormed() && batch > 0 && layout.asciiStart <= layout.compactStart
    ensures locks.held == {}
    ensures match Printer.Dumps(env, root)
      case Err(e) => r == Err(e)
      case Ok(t) =>
        && r == Ok(buf.info.level) && Fits(buf.info.level, t) && Needed(buf.info.level, t) && buf.layout == layout
        && layout.After(buf.info.level, |t|) + buf.info.level.Width() <= buf.mem.Length
        && |t| == FinalLen(layout, buf.info.level, buf.writer)
        && forall i: nat :: i < |t| ==>
          && layout.After(buf.info.level, i) + buf.info.level.Width() <= buf.mem.Length
          && Load(buf.mem[..], layout.After(buf.info.level, i), buf.info.level.Width()) == t[i]
    // what the string holds is JSON, and reads back as the tree of the root
    ensures r.Ok? && FloatsReadable(env) ==>
      exists t ::
        && |t| == FinalLen(layout, r.value, buf.writer) && StringAt(buf.mem[..], layout, r.value, t)
        && ReadsBack(env, root, t)
    // an error has its reason in the graph
    ensures r.Err? ==>
      if env.At(root).IsContainer() then Nesting.Blames(env, root, r.error, 1025) else r.error == UnsupportedType
  {
    hide Buffer.Valid, Locks.Valid, Load, Layout.After, ReadsBack, FloatsReadable, StringAt, Printer.Dumps, FinalLen,
      Nesting.Blames;
    buf := new Buffer(layout, vector, 1024);
    locks := new Locks(hash);
    var run := new Run(env, batch, buf, locks);
    r := run.DumpsObj(root);
    if r.Err? {
      Nesting.DumpsBlames(env, root);
    } else {
      FinalLenIs(layout, r.value, |Printer.Dumps(env, root).value|);
    }
    if r.Ok? && FloatsReadable(env) {
      DumpsReads(env, root);
      CellsAre(buf.mem[..], layout, r.value, Printer.Dumps(env, root).value);
    }
  }

  /** get_u_buf_final_len: the length of the string, from where the writer stands. */
  function FinalLen(layout: Layout, level: Level, writer: nat): int {
    match level
    case Ascii => writer - layout.asciiStart
    case Ucs1 => writer - layout.compactStart
    case Ucs2 => (writer - layout.compactStart) / 2
    case Ucs4 => (writer - layout.compactStart) / 4
  }

  lemma FinalLenIs(layout: Layout, level: Level, n: nat)
    ensures FinalLen(layout, level, layout.After(level, n)) == n
  {
  }

  /** The characters stand behind the header of an ASCII object or of a wider one, in cells of one, two or four bytes,
      the least significant first; the level tells the smallest kind that holds them. */
  ghost predicate StringAt(m: seq<Byte>, layout: Layout, level: Level, t: Text) {
    && (level == Ascii <==> forall i :: 0 <= i < |t| ==> t[i] < 0x80)
    && (level in {Ascii, Ucs1} <==> forall i :: 0 <= i < |t| ==> t[i] < 0x100)
    && (level in {Ascii, Ucs1, Ucs2} <==> forall i :: 0 <= i < |t| ==> t[i] < 0x1_0000)
    && forall i :: 0 <= i < |t| ==> CellAt(m, layout, level, i, t[i])
  }

  ghost predicate CellAt(m: seq<Byte>, layout: Layout, level: Level, i: nat, c: nat) {
    var at := match level
      case Ascii => layout.asciiStart + i
      case Ucs1 => layout.compactStart + i
      case Ucs2 => layout.compactStart + 2 * i
      case Ucs4 => layout.compactStart + 4 * i;
    match level
    case Ucs2 => at + 2 <= |m| && c == m[at] as nat + 0x100 * m[at + 1] as nat
    case Ucs4 =>
      at + 4 <= |m|
      && c == m[at] as nat + 0x100 * m[at + 1] as nat + 0x1_0000 * m[at + 2] as nat + 0x100_0000 * m[at + 3] as nat
    case _ => at < |m| && c == m[at]
  }

  lemma CellsAre(m: seq<Byte>, layout: Layout, level: Level, t: Text)
    requires Fits(level, t) && Needed(level, t)
    requires forall i: nat :: i < |t| ==>
      layout.After(level, i) + level.Width() <= |m| && Load(m, layout.After(level, i), level.Width()) == t[i]
    ensures StringAt(m, layout, level, t)
  {
  }

  lemma AdvancedNoRepeat(env: Env, frames: seq<Frame>)
    requires Ready(env, frames) && NoRepeat(env, frames)
    ensures NoRepeat(env, Advanced(frames))
  {
  }

  lemma PathLeaves(env: Env, frames: seq<Frame>)
    requires frames != [] && NoRepeat(env, frames)
    ensures NoRepeat(env, Rest(frames))
    ensures PathOf(env, Rest(frames)) == if env.locking && env.At(Top(frames).ctn).Lockable()
      then PathOf(env, frames) - {Top(frames).ctn} else PathOf(env, frames)
    ensures env.locking && env.At(Top(frames).ctn).Lockable() ==> Top(frames).ctn in PathOf(env, frames)
    ensures |frames| == 1 ==> PathOf(env, frames) == env.Entered(frames[0].ctn, {})
  {
  }

  lemma PrintFails(env: Env, r: Ref, depth: nat, path: set<Ref>, e: Error)
    requires depth <= MAX_RECURSION && Print(env, r, depth, path).Err?
    requires env.At(r).IsContainer() ==> env.At(r).Size() == 0
    requires e == if env.At(r).OutOfRange() then NumberOutOfRange else UnsupportedType
    ensures Print(env, r, depth, path) == Err(e)
  {
  }

  lemma PrintRepeats(env: Env, r: Ref, depth: nat, path: set<Ref>)
    requires depth <= MAX_RECURSION && FrameOk(env, Frame(r, 0))
    requires env.locking && env.At(r).Lockable() && r in path
    ensures Print(env, r, depth, path) == Err(CircularReference)
  {
  }

  lemma PrintTooDeep(env: Env, r: Ref, path: set<Ref>)
    requires FrameOk(env, Frame(r, 0))
    requires !(env.locking && env.At(r).Lockable() && r in path)
    ensures Print(env, r, MAX_RECURSION, path) == Err(TooManyNested)
  {
  }

  lemma PathEnters(env: Env, frames: seq<Frame>, c: Ref)
    requires NoRepeat(env, frames)
    requires !(env.locking && env.At(c).Lockable() && c in PathOf(env, frames))
    ensures PathOf(env, frames + [Frame(c, 0)]) == env.Entered(c, PathOf(env, frames))
    ensures NoRepeat(env, frames + [Frame(c, 0)])
  {
  }

  lemma {:induction false} PathSize(env: Env, frames: seq<Frame>)
    ensures |PathOf(env, frames)| <= |frames|
  {
    if frames != [] {
      PathSize(env, Rest(frames));
    }
  }
}
