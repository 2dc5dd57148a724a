/** What is left to do in the middle of a run, and how each step of the machine keeps it. */
module EncoderSteps {
  import opened PyObjects
  import opened JsonText
  import opened Printer

  /** An open container and the index of its next member. */
  datatype Frame = Frame(ctn: Ref, pos: nat)

  predicate FrameOk(env: Env, f: Frame) {
    env.At(f.ctn).IsContainer() && 0 < env.At(f.ctn).Size() && f.pos <= env.At(f.ctn).Size()
  }

  predicate FramesOk(env: Env, frames: seq<Frame>) {
    |frames| <= MAX_RECURSION && forall k :: 0 <= k < |frames| ==> FrameOk(env, frames[k])
  }

  function Top(frames: seq<Frame>): Frame
    requires frames != []
  {
    frames[|frames| - 1]
  }

  function Rest(frames: seq<Frame>): seq<Frame>
    requires frames != []
  {
    frames[..|frames| - 1]
  }

  /** The lockable containers on the current path, in a build that locks. */
  function PathOf(env: Env, frames: seq<Frame>): set<Ref> {
    if frames == [] then {} else env.Entered(Top(frames).ctn, PathOf(env, Rest(frames)))
  }

  function DropLast(t: Text): Text {
    if t == [] then [] else t[..|t| - 1]
  }

  /** Closing a container: the comma behind its last member goes, bracket and comma come. */
  function Closed(env: Env, o: Obj, out: Text, depth: nat): Text {
    DropLast(out) + Indentation(env.indent, depth) + [Closing(o), COMMA]
  }

  /** The members from `pos` on as the machine writes them, each with a comma behind it. */
  function Members(env: Env, r: Ref, pos: nat, depth: nat, path: set<Ref>): Result<Text>
    requires depth <= MAX_RECURSION && env.At(r).IsContainer() && pos <= env.At(r).Size()
    decreases env.At(r).Size() - pos
  {
    var o := env.At(r);
    if pos == o.Size() then Ok([])
    else
      var lead :- Lead(env, o, pos, depth);
      var value :- Print(env, o.Child(pos), depth, path);
      var rest :- Members(env, r, pos + 1, depth, path);
      Ok(lead + value + [COMMA] + rest)
  }

  /** The text a run ends with that has `frames` open and has written `out`. */
  function Pending(env: Env, frames: seq<Frame>, out: Text): Result<Text>
    requires FramesOk(env, frames)
    decreases |frames|
  {
    if frames == [] then Ok(out)
    else
      var f := Top(frames);
      var t :- Members(env, f.ctn, f.pos, |frames|, PathOf(env, frames));
      Pending(env, Rest(frames), Closed(env, env.At(f.ctn), out + t, |frames| - 1))
  }

  function WithCommas(parts: seq<Text>): Text {
    if parts == [] then [] else parts[0] + [COMMA] + WithCommas(parts[1..])
  }

  /** Commas taken back at the close are commas between members. */
  lemma {:induction false} TakenBack(parts: seq<Text>)
    requires parts != []
    ensures WithCommas(parts) != [] && DropLast(WithCommas(parts)) == Join(parts)
  {
    var rest := WithCommas(parts[1..]);
    if |parts| == 1 {
      assert rest == [];
      assert parts[0] + [COMMA] + [] == parts[0] + [COMMA];
    } else {
      TakenBack(parts[1..]);
      assert (parts[0] + [COMMA] + rest)[..|parts[0]| + 1 + |rest| - 1] == parts[0] + [COMMA] + rest[..|rest| - 1];
    }
  }

  /** Members with trailing commas are the printer's members, in order, none skipped or repeated. */
  lemma {:induction false} MembersPrinted(env: Env, r: Ref, pos: nat, depth: nat, path: set<Ref>)
    requires depth <= MAX_RECURSION && env.At(r).IsContainer() && pos <= env.At(r).Size()
    ensures match PrintMembers(env, r, pos, depth, path)
      case Ok(parts) => |parts| == env.At(r).Size() - pos && Members(env, r, pos, depth, path) == Ok(WithCommas(parts))
      case Err(e) => Members(env, r, pos, depth, path) == Err(e)
    decreases env.At(r).Size() - pos
  {
    if pos < env.At(r).Size() {
      MembersPrinted(env, r, pos + 1, depth, path);
    }
  }

  function Advanced(frames: seq<Frame>): seq<Frame>
    requires frames != []
  {
    Rest(frames) + [Frame(Top(frames).ctn, Top(frames).pos + 1)]
  }

  predicate Ready(env: Env, frames: seq<Frame>) {
    FramesOk(env, frames) && frames != [] && Top(frames).pos < env.At(Top(frames).ctn).Size()
  }

  function NextLead(env: Env, frames: seq<Frame>): Result<Text>
    requires Ready(env, frames)
  {
    Lead(env, env.At(Top(frames).ctn), Top(frames).pos, |frames|)
  }

  function NextChild(env: Env, frames: seq<Frame>): Ref
    requires Ready(env, frames)
  {
    env.At(Top(frames).ctn).Child(Top(frames).pos)
  }

  function NextValue(env: Env, frames: seq<Frame>): Result<Text>
    requires Ready(env, frames)
  {
    Print(env, NextChild(env, frames), |frames|, PathOf(env, frames))
  }

  lemma AdvancedOk(env: Env, frames: seq<Frame>)
    requires Ready(env, frames)
    ensures FramesOk(env, Advanced(frames)) && |Advanced(frames)| == |frames|
    ensures Rest(Advanced(frames)) == Rest(frames)
      && Top(Advanced(frames)) == Frame(Top(frames).ctn, Top(frames).pos + 1)
    ensures PathOf(env, Advanced(frames)) == PathOf(env, frames)
  {
  }

  /** One more container is open. */
  lemma OpenedBelow(env: Env, frames: seq<Frame>, f: Frame)
    requires FramesOk(env, frames) && |frames| < MAX_RECURSION && FrameOk(env, f) && frames != []
    ensures FramesOk(env, frames + [f]) && Top(frames + [f]) == f && (frames + [f])[|frames| - 1] == Top(frames)
    ensures (frames + [f])[0] == frames[0] && FrameOk(env, Top(frames))
    ensures forall k :: 0 <= k < |frames| ==> (frames + [f])[k] == frames[k]
  {
  }

  /** Only the innermost container moves on. */
  lemma AdvancedBelow(frames: seq<Frame>)
    requires frames != []
    ensures |Advanced(frames)| == |frames| && Advanced(frames)[0].ctn == frames[0].ctn
    ensures forall k :: 0 <= k < |frames| - 1 ==> Advanced(frames)[k] == frames[k]
  {
  }

  /** The innermost container is finished first. */
  lemma Unfold(env: Env, frames: seq<Frame>, out: Text)
    requires FramesOk(env, frames) && frames != []
    ensures FrameOk(env, Top(frames)) && FramesOk(env, Rest(frames)) && |Rest(frames)| == |frames| - 1
    ensures var f := Top(frames); var rest := Members(env, f.ctn, f.pos, |frames|, PathOf(env, frames));
      Pending(env, frames, out) == if rest.Err? then Err(rest.error)
        else Pending(env, Rest(frames), Closed(env, env.At(f.ctn), out + rest.value, |frames| - 1))
  {
    hide Members, Closed, PathOf;
  }

  /** The members left begin with the next one. */
  lemma MembersNext(env: Env, frames: seq<Frame>)
    requires Ready(env, frames)
    ensures FrameOk(env, Top(frames))
    ensures var f := Top(frames); var path := PathOf(env, frames);
      var lead, value := NextLead(env, frames), NextValue(env, frames);
      var rest := Members(env, f.ctn, f.pos + 1, |frames|, path);
      Members(env, f.ctn, f.pos, |frames|, path) == if lead.Err? then Err(lead.error)
        else if value.Err? then Err(value.error)
        else if rest.Err? then rest else Ok(lead.value + value.value + [COMMA] + rest.value)
  {
    hide Print, Lead, PathOf;
  }

  /** The next member is written in full. */
  lemma StepValue(env: Env, frames: seq<Frame>, out: Text)
    requires Ready(env, frames) && NextLead(env, frames).Ok? && NextValue(env, frames).Ok?
    ensures FramesOk(env, Advanced(frames))
    ensures Pending(env, frames, out)
      == Pending(env, Advanced(frames), out + NextLead(env, frames).value + NextValue(env, frames).value + [COMMA])
  {
    hide Pending, Members, NextLead, NextValue, PathOf, Closed, FramesOk, Advanced;
    AdvancedOk(env, frames);
    var lead, value := NextLead(env, frames).value, NextValue(env, frames).value;
    Unfold(env, frames, out);
    MembersNext(env, frames);
    Unfold(env, Advanced(frames), out + lead + value + [COMMA]);
    var rest := Members(env, Top(frames).ctn, Top(frames).pos + 1, |frames|, PathOf(env, frames));
    if rest.Ok? {
      assert out + (lead + value + [COMMA] + rest.value) == out + lead + value + [COMMA] + rest.value;
    }
  }

  /** The next member cannot be written. */
  lemma StepFail(env: Env, frames: seq<Frame>, out: Text, e: Error)
    requires Ready(env, frames)
    requires NextLead(env, frames) == Err(e) || (NextLead(env, frames).Ok? && NextValue(env, frames) == Err(e))
    ensures Pending(env, frames, out) == Err(e)
  {
    hide Pending, Members, NextLead, NextValue;
    Unfold(env, frames, out);
    MembersNext(env, frames);
  }

  /** A container is its brackets around its members. */
  lemma PrintContainer(env: Env, c: Ref, depth: nat, path: set<Ref>)
    requires FrameOk(env, Frame(c, 0)) && depth < MAX_RECURSION
    requires !(env.locking && env.At(c).Lockable() && c in path)
    ensures var o := env.At(c); var parts := PrintMembers(env, c, 0, depth + 1, env.Entered(c, path));
      Print(env, c, depth, path) == if parts.Err? then Err(parts.error)
        else Ok([Opening(o)] + Join(parts.value) + Indentation(env.indent, depth) + [Closing(o)])
  {
    hide PrintMembers, Join, Indentation;
  }

  lemma PathInside(env: Env, frames: seq<Frame>, c: Ref)
    requires Ready(env, frames) && |frames| < MAX_RECURSION && FrameOk(env, Frame(c, 0))
    ensures var fs := Advanced(frames) + [Frame(c, 0)];
      FramesOk(env, fs) && Rest(fs) == Advanced(frames) && PathOf(env, fs) == env.Entered(c, PathOf(env, frames))
  {
    AdvancedOk(env, frames);
    assert Rest(Advanced(frames) + [Frame(c, 0)]) == Advanced(frames);
  }

  /** The next member is a container that is opened. */
  lemma StepEnter(env: Env, frames: seq<Frame>, out: Text)
    requires Ready(env, frames) && NextLead(env, frames).Ok? && |frames| < MAX_RECURSION
    requires FrameOk(env, Frame(NextChild(env, frames), 0))
    requires !(env.locking && env.At(NextChild(env, frames)).Lockable()
      && NextChild(env, frames) in PathOf(env, frames))
    ensures FramesOk(env, Advanced(frames) + [Frame(NextChild(env, frames), 0)])
    ensures Pending(env, frames, out) == Pending(env, Advanced(frames) + [Frame(NextChild(env, frames), 0)],
      out + NextLead(env, frames).value + [Opening(env.At(NextChild(env, frames)))])
  {
    hide Pending, Members, NextLead, PathOf, Closed, FramesOk, Advanced, PrintMembers, WithCommas, Join, Indentation,
      Print;
    AdvancedOk(env, frames);
    var c, d, lead := NextChild(env, frames), |frames|, NextLead(env, frames).value;
    var o, path := env.At(c), env.Entered(c, PathOf(env, frames));
    PathInside(env, frames, c);
    Unfold(env, Advanced(frames) + [Frame(c, 0)], out + lead + [Opening(o)]);
    PrintContainer(env, c, d, PathOf(env, frames));
    MembersPrinted(env, c, 0, d + 1, path);
    match PrintMembers(env, c, 0, d + 1, path) {
      case Err(e) =>
        StepFail(env, frames, out, e);
      case Ok(parts) =>
        StepValue(env, frames, out);
        TakenBack(parts);
        ClosedWhole(env, o, out, lead, parts, d);
    }
  }

  lemma ClosedWhole(env: Env, o: Obj, out: Text, lead: Text, parts: seq<Text>, depth: nat)
    requires parts != [] && WithCommas(parts) != [] && DropLast(WithCommas(parts)) == Join(parts)
    ensures Closed(env, o, out + lead + [Opening(o)] + WithCommas(parts), depth)
      == out + lead + ([Opening(o)] + Join(parts) + Indentation(env.indent, depth) + [Closing(o)]) + [COMMA]
  {
  }

  /** The top container has no member left. */
  lemma StepLeave(env: Env, frames: seq<Frame>, out: Text)
    requires FramesOk(env, frames) && frames != [] && Top(frames).pos == env.At(Top(frames).ctn).Size()
    ensures FramesOk(env, Rest(frames))
    ensures Pending(env, frames, out)
      == Pending(env, Rest(frames), Closed(env, env.At(Top(frames).ctn), out, |frames| - 1))
  {
    hide Pending, PathOf, Closed;
    Unfold(env, frames, out);
    assert out + [] == out;
  }

  /** What a run has to end with: the printed text and one comma, which is dropped at the end. */
  function Goal(env: Env, root: Ref): Result<Text> {
    var t :- Dumps(env, root);
    Ok(t + [COMMA])
  }

  lemma RootGoal(env: Env, root: Ref)
    requires FrameOk(env, Frame(root, 0))
    ensures var parts := PrintMembers(env, root, 0, 1, env.Entered(root, {}));
      Goal(env, root) == if parts.Err? then Err(parts.error)
        else Ok([Opening(env.At(root))] + Join(parts.value) + Indentation(env.indent, 0) + [Closing(env.At(root))]
          + [COMMA])
  {
    PrintContainer(env, root, 0, {});
    hide PrintMembers, Join, Indentation, Print;
  }

  lemma RootPending(env: Env, root: Ref, out: Text)
    requires FrameOk(env, Frame(root, 0))
    ensures FramesOk(env, [Frame(root, 0)])
    ensures var rest := Members(env, root, 0, 1, env.Entered(root, {}));
      Pending(env, [Frame(root, 0)], out) == if rest.Err? then Err(rest.error)
        else Ok(Closed(env, env.At(root), out + rest.value, 0))
  {
    hide Members, Closed;
    var frames := [Frame(root, 0)];
    assert Rest(frames) == [];
    assert PathOf(env, []) == {};
    assert PathOf(env, frames) == env.Entered(root, {});
  }

  lemma StepRoot(env: Env, root: Ref)
    requires FrameOk(env, Frame(root, 0))
    ensures FramesOk(env, [Frame(root, 0)])
    ensures Pending(env, [Frame(root, 0)], [Opening(env.At(root))]) == Goal(env, root)
  {
    hide Pending, Goal, Closed, PrintMembers, WithCommas, Join, Indentation, Members;
    var o, path := env.At(root), env.Entered(root, {});
    RootGoal(env, root);
    RootPending(env, root, [Opening(o)]);
    MembersPrinted(env, root, 0, 1, path);
    match PrintMembers(env, root, 0, 1, path) {
      case Err(e) =>
      case Ok(parts) =>
        TakenBack(parts);
        ClosedWhole(env, o, [], [], parts, 0);
        assert [] + [] + [Opening(o)] + WithCommas(parts) == [Opening(o)] + WithCommas(parts);
        var whole := [Opening(o)] + Join(parts) + Indentation(env.indent, 0) + [Closing(o)];
        assert [] + [] + whole == whole;
    }
  }

  // ----- Every run ends -----

  /** The number of steps a value takes: also on a cyclic graph it is finite, by the nesting limit. */
  function Work(env: Env, r: Ref, depth: nat): (n: nat)
    requires depth <= MAX_RECURSION
    ensures n > 0
    decreases MAX_RECURSION - depth, 0, 0
  {
    var o := env.At(r);
    if o.IsContainer() && o.Size() > 0 && depth < MAX_RECURSION then 2 + WorkFrom(env, r, 0, depth + 1) else 1
  }

  function WorkFrom(env: Env, r: Ref, pos: nat, depth: nat): nat
    requires depth <= MAX_RECURSION && env.At(r).IsContainer() && pos <= env.At(r).Size()
    decreases MAX_RECURSION - depth, 1, env.At(r).Size() - pos
  {
    var o := env.At(r);
    if pos == o.Size() then 0 else Work(env, o.Child(pos), depth) + WorkFrom(env, r, pos + 1, depth)
  }

  function WorkLeft(env: Env, frames: seq<Frame>): nat
    requires FramesOk(env, frames)
    decreases |frames|
  {
    if frames == [] then 0
    else 1 + WorkFrom(env, Top(frames).ctn, Top(frames).pos, |frames|) + WorkLeft(env, Rest(frames))
  }

  lemma WorkAdvances(env: Env, frames: seq<Frame>)
    requires Ready(env, frames)
    ensures FramesOk(env, Advanced(frames))
    ensures WorkLeft(env, frames) == WorkLeft(env, Advanced(frames)) + Work(env, NextChild(env, frames), |frames|)
  {
  }

  lemma WorkEnters(env: Env, frames: seq<Frame>, c: Ref)
    requires FramesOk(env, frames) && frames != [] && |frames| < MAX_RECURSION && FrameOk(env, Frame(c, 0))
    ensures FramesOk(env, frames + [Frame(c, 0)])
    ensures WorkLeft(env, frames + [Frame(c, 0)]) + 1 == WorkLeft(env, frames) + Work(env, c, |frames|)
  {
  }
}
