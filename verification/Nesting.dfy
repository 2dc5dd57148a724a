/** When the printer, and so the encoder, succeeds. */
module Nesting {
  import opened Integers
  import opened PyObjects
  import opened JsonText
  import opened Printer

  /** Every object in the graph can be encoded and refers to objects in the graph; keys are strings. */
  ghost predicate Encodable(env: Env) {
    forall r :: r in env.heap ==> ObjectEncodable(env, env.heap[r])
  }

  ghost predicate ObjectEncodable(env: Env, o: Obj) {
    && !o.Unsupported? && !o.OutOfRange()
    && (o.IsContainer() ==> forall pos: nat :: pos < o.Size() ==> o.Child(pos) in env.heap)
    && (o.Dict? ==> forall pos: nat :: pos < |o.entries| ==> env.At(o.entries[pos].0).Str?)
  }

  predicate NonEmpty(env: Env, r: Ref) {
    env.At(r).IsContainer() && env.At(r).Size() > 0
  }

  /** There is a chain of n non-empty containers that begins at r, each a member of the one before. */
  ghost predicate Deep(env: Env, r: Ref, n: nat)
    decreases n
  {
    n == 0 || (NonEmpty(env, r) && exists pos: nat :: pos < env.At(r).Size() && Deep(env, env.At(r).Child(pos), n - 1))
  }

  /** k steps from container to member lead from a to b. */
  ghost predicate Leads(env: Env, a: Ref, b: Ref, k: nat)
    decreases k
  {
    if k == 0 then a == b
    else exists mid, pos: nat ::
      Leads(env, a, mid, k - 1) && NonEmpty(env, mid) && pos < env.At(mid).Size()
      && env.At(mid).Child(pos) == b
  }

  lemma {:induction false} DeepAbove(env: Env, a: Ref, b: Ref, k: nat, n: nat)
    requires Leads(env, a, b, k) && Deep(env, b, n)
    ensures Deep(env, a, n + k)
    decreases k
  {
    if k > 0 {
      var mid, pos: nat :| Leads(env, a, mid, k - 1) && NonEmpty(env, mid) && pos < env.At(mid).Size()
        && env.At(mid).Child(pos) == b;
      assert Deep(env, mid, n + 1);
      DeepAbove(env, a, mid, k - 1, n + 1);
    }
  }

  lemma {:induction false} Shallower(env: Env, r: Ref, n: nat, m: nat)
    requires Deep(env, r, n) && m <= n
    ensures Deep(env, r, m)
    decreases m
  {
    if m > 0 {
      var pos: nat :| pos < env.At(r).Size() && Deep(env, env.At(r).Child(pos), n - 1);
      Shallower(env, env.At(r).Child(pos), n - 1, m - 1);
    }
  }

  /** A cycle has chains of any length. */
  lemma {:induction false} CycleDeep(env: Env, r: Ref, k: nat, n: nat)
    requires Leads(env, r, r, k) && k > 0
    ensures Deep(env, r, n)
    decreases n
  {
    if n > 0 {
      CycleDeep(env, r, k, n - 1);
      DeepAbove(env, r, r, k, n - 1);
      Shallower(env, r, n - 1 + k, n);
    }
  }

  /** The containers of the path lead to r. */
  ghost predicate Ancestors(env: Env, path: set<Ref>, r: Ref) {
    forall p :: p in path ==> exists k: nat :: k > 0 && Leads(env, p, r, k)
  }

  lemma AncestorsOfMember(env: Env, path: set<Ref>, r: Ref, pos: nat)
    requires Ancestors(env, path, r) && NonEmpty(env, r) && pos < env.At(r).Size()
    ensures Ancestors(env, env.Entered(r, path), env.At(r).Child(pos))
  {
    var c := env.At(r).Child(pos);
    assert Leads(env, r, r, 0);
    assert Leads(env, r, c, 1);
    forall p | p in env.Entered(r, path) ensures exists k: nat :: k > 0 && Leads(env, p, c, k) {
      if p in path {
        var k: nat :| k > 0 && Leads(env, p, r, k);
        assert Leads(env, p, c, k + 1);
      }
    }
  }

  lemma OwnAncestor(env: Env, path: set<Ref>, r: Ref, n: nat)
    requires Ancestors(env, path, r) && r in path
    ensures Deep(env, r, n)
  {
    var k: nat :| k > 0 && Leads(env, r, r, k);
    CycleDeep(env, r, k, n);
  }

  lemma DeepOne(env: Env, r: Ref)
    requires NonEmpty(env, r)
    ensures Deep(env, r, 1)
  {
    assert Deep(env, env.At(r).Child(0), 0);
  }

  lemma AncestorsOfMembers(env: Env, path: set<Ref>, r: Ref)
    requires Ancestors(env, path, r) && NonEmpty(env, r)
    ensures forall p: nat :: 0 <= p < env.At(r).Size() ==> Ancestors(env, env.Entered(r, path), env.At(r).Child(p))
  {
    hide Ancestors;
    forall p: nat | p < env.At(r).Size() ensures Ancestors(env, env.Entered(r, path), env.At(r).Child(p)) {
      AncestorsOfMember(env, path, r, p);
    }
  }

  /** A value is printed exactly if no chain of containers in it exceeds what the nesting limit leaves. */
  lemma {:induction false} PrintSucceeds(env: Env, r: Ref, depth: nat, path: set<Ref>)
    requires Encodable(env) && r in env.heap && depth <= MAX_RECURSION && Ancestors(env, path, r)
    ensures Print(env, r, depth, path).Ok? <==> !Deep(env, r, MAX_RECURSION - depth + 1)
    decreases MAX_RECURSION - depth, 0, 0
  {
    hide IntText, Quoted, Join, Indentation, PrintMembers, Ancestors;
    var o := env.At(r);
    assert ObjectEncodable(env, o);
    if NonEmpty(env, r) {
      if env.locking && o.Lockable() && r in path {
        OwnAncestor(env, path, r, MAX_RECURSION - depth + 1);
      } else if depth == MAX_RECURSION {
        DeepOne(env, r);
      } else {
        AncestorsOfMembers(env, path, r);
        MembersSucceed(env, r, 0, depth + 1, env.Entered(r, path));
      }
    }
  }

  lemma {:induction false} MembersSucceed(env: Env, r: Ref, pos: nat, depth: nat, path: set<Ref>)
    requires Encodable(env) && r in env.heap && depth <= MAX_RECURSION && env.At(r).IsContainer()
      && pos <= env.At(r).Size()
    requires forall p: nat :: pos <= p < env.At(r).Size() ==> Ancestors(env, path, env.At(r).Child(p))
    ensures PrintMembers(env, r, pos, depth, path).Ok?
      <==> forall p: nat :: pos <= p < env.At(r).Size() ==> !Deep(env, env.At(r).Child(p), MAX_RECURSION - depth + 1)
    decreases MAX_RECURSION - depth, 1, env.At(r).Size() - pos
  {
    var o := env.At(r);
    assert ObjectEncodable(env, o);
    if pos < o.Size() {
      assert Lead(env, o, pos, depth).Ok?;
      PrintSucceeds(env, o.Child(pos), depth, path);
      MembersSucceed(env, r, pos + 1, depth, path);
    }
  }

  /** Both builds encode the same graphs: those without a chain of more than 1024 non-empty containers.
      A cyclic graph has such chains; the builds only report it differently. */
  lemma DumpsSucceeds(env: Env, root: Ref)
    requires Encodable(env) && root in env.heap
    ensures Printer.Dumps(env, root).Ok? <==> env.At(root).IsContainer() && !Deep(env, root, 1025)
  {
    PrintSucceeds(env, root, 0, {});
  }

  // ----- What an error says -----

  /** The object at c is reached from r. */
  ghost predicate Reaches(env: Env, r: Ref, c: Ref) {
    exists k: nat :: Leads(env, r, c, k)
  }

  /** What an error says of the graph below r; n is the length of the chains that are too long. */
  ghost predicate Blames(env: Env, r: Ref, e: Error, n: nat) {
    match e
    case CircularReference => env.locking && exists c :: Reaches(env, r, c) && InCycle(env, c)
    case TooManyNested => Deep(env, r, n)
    case UnsupportedType => exists c :: Reaches(env, r, c) && env.At(c).Unsupported?
    case KeyNotStr => exists c :: Reaches(env, r, c) && HasBadKey(env, env.At(c))
    case NumberOutOfRange => exists c :: Reaches(env, r, c) && TooBig(env.At(c))
  }

  ghost predicate InCycle(env: Env, c: Ref) {
    exists k: nat :: k > 0 && Leads(env, c, c, k)
  }

  ghost predicate HasBadKey(env: Env, o: Obj) {
    o.Dict? && exists pos :: 0 <= pos < |o.entries| && !env.At(o.entries[pos].0).Str?
  }

  predicate TooBig(o: Obj) {
    o.Long? && !(-0x8000_0000_0000_0000 <= o.number < 0x1_0000_0000_0000_0000)
  }

  lemma {:induction false} LeadsBelow(env: Env, r: Ref, pos: nat, c: Ref, k: nat)
    requires NonEmpty(env, r) && pos < env.At(r).Size() && Leads(env, env.At(r).Child(pos), c, k)
    ensures Leads(env, r, c, k + 1)
    decreases k
  {
    if k == 0 {
      assert Leads(env, r, r, 0);
    } else {
      var mid, p: nat :| Leads(env, env.At(r).Child(pos), mid, k - 1) && NonEmpty(env, mid) && p < env.At(mid).Size()
        && env.At(mid).Child(p) == c;
      LeadsBelow(env, r, pos, mid, k - 1);
    }
  }

  lemma ReachesBelow(env: Env, r: Ref, pos: nat)
    requires NonEmpty(env, r) && pos < env.At(r).Size()
    ensures forall c :: Reaches(env, env.At(r).Child(pos), c) ==> Reaches(env, r, c)
  {
    forall c | Reaches(env, env.At(r).Child(pos), c) ensures Reaches(env, r, c) {
      var k: nat :| Leads(env, env.At(r).Child(pos), c, k);
      LeadsBelow(env, r, pos, c, k);
    }
  }

  /** What a member is blamed for, its container is. */
  lemma BlamesBelow(env: Env, r: Ref, pos: nat, e: Error, n: nat)
    requires NonEmpty(env, r) && pos < env.At(r).Size() && Blames(env, env.At(r).Child(pos), e, n)
    ensures Blames(env, r, e, n + 1)
  {
    hide Reaches, InCycle, HasBadKey;
    ReachesBelow(env, r, pos);
  }

  lemma ReachesSelf(env: Env, r: Ref)
    ensures Reaches(env, r, r)
  {
    assert Leads(env, r, r, 0);
  }

  /** An error is never reported without its reason. */
  lemma {:induction false} PrintBlames(env: Env, r: Ref, depth: nat, path: set<Ref>)
    requires depth <= MAX_RECURSION && Ancestors(env, path, r) && Print(env, r, depth, path).Err?
    ensures Blames(env, r, Print(env, r, depth, path).error, 1025 - depth)
    decreases MAX_RECURSION - depth, 0, 0
  {
    hide IntText, Quoted, Join, Indentation, PrintMembers, Reaches;
    ReachesSelf(env, r);
    if NonEmpty(env, r) {
      if env.locking && env.At(r).Lockable() && r in path {
        assert InCycle(env, r);
      } else if depth == MAX_RECURSION {
        DeepOne(env, r);
      } else {
        AncestorsOfMembers(env, path, r);
        MembersBlame(env, r, 0, depth + 1, env.Entered(r, path));
      }
    }
  }

  lemma {:induction false} MembersBlame(env: Env, r: Ref, pos: nat, depth: nat, path: set<Ref>)
    requires 0 < depth <= MAX_RECURSION && NonEmpty(env, r) && pos <= env.At(r).Size()
    requires forall p: nat :: pos <= p < env.At(r).Size() ==> Ancestors(env, path, env.At(r).Child(p))
    requires PrintMembers(env, r, pos, depth, path).Err?
    ensures Blames(env, r, PrintMembers(env, r, pos, depth, path).error, 1025 - depth + 1)
    decreases MAX_RECURSION - depth, 1, env.At(r).Size() - pos
  {
    hide Print, Blames, Ancestors;
    var o := env.At(r);
    if Lead(env, o, pos, depth).Err? {
      LeadBlames(env, r, pos, depth);
    } else if Print(env, o.Child(pos), depth, path).Err? {
      PrintBlames(env, o.Child(pos), depth, path);
      BlamesBelow(env, r, pos, Print(env, o.Child(pos), depth, path).error, 1025 - depth);
    } else {
      MembersBlame(env, r, pos + 1, depth, path);
    }
  }

  lemma LeadBlames(env: Env, r: Ref, pos: nat, depth: nat)
    requires depth <= MAX_RECURSION && NonEmpty(env, r) && pos < env.At(r).Size()
    requires Lead(env, env.At(r), pos, depth).Err?
    ensures Blames(env, r, Lead(env, env.At(r), pos, depth).error, 1025 - depth + 1)
  {
    ReachesSelf(env, r);
    assert HasBadKey(env, env.At(r));
  }

  /** The error of a run: a root that is no container, or the reason is in the graph. */
  lemma DumpsBlames(env: Env, root: Ref)
    requires Printer.Dumps(env, root).Err?
    ensures var e := Printer.Dumps(env, root).error;
      if env.At(root).IsContainer() then Blames(env, root, e, 1025) else e == UnsupportedType
  {
    if env.At(root).IsContainer() {
      PrintBlames(env, root, 0, {});
    }
  }
}
