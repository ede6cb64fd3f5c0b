// The scan's docstring asks for a witness on every path to the return.  The scan credits a
// statement it finds a witness in, whether or not every path through it emits, and overlooks
// some that every path emits in.  Here both are told apart statement by statement, over the
// whole statement language.

module DeclineDominance {
  import opened ApplyDeclines
  import opened DeclineExecutions
  import opened DeclinePaths
  import opened DeclineVerdicts
  import opened DeclineWalks

  // ---------------------------------------------------------------- the way to a return

  // Child block a of s is entered, having been in s in manner m.
  predicate Entered(s: Stmt, a: Arm, m: Manner) {
    match s
    case Loop(_, _) => m != Emitting || EmittingRound(s)
    case Try(body, handlers, orelse, finalbody) =>
      || (a.body == body && m != Emitting)
      || (a.body == orelse && Possible(body, Leave(Fall), m))
      || (a in handlers && Possible(body, Leave(Raised), m))
      || (a.body == finalbody && exists q :: PossibleTried(s, Leave(q), m))
    case Def(_) => false
    case _ => m != Emitting
  }

  // Block by block down to r: the statements before its ancestor are passed and the blocks
  // around it entered, together in manner m.
  predicate Way(b: Block, r: nat, m: Manner)
    decreases b, 1
  {
    b != [] &&
    if Contains(b[0], r) then WayIn(b[0], r, m)
    else exists x, y :: Joins(m, x, y) && PossibleStmt(b[0], Leave(Fall), x) && Way(b[1..], r, y)
  }

  predicate WayIn(s: Stmt, r: nat, m: Manner)
    decreases s, 0
  {
    ChildIsSmaller(s);
    if s.Return? then m != Emitting
    else exists a, x, y ::
      a in ChildBlocks(s) && Count(a.body, r) > 0 && Joins(m, x, y) && Entered(s, a, x) && Way(a.body, r, y)
  }

  // No statement on the way lasts longer than its own stretch.
  function FirstPart(m: Manner): Manner {
    if m == Emitting then Anyhow else m
  }

  lemma PlainEntry(m: Manner)
    ensures Joins(m, FirstPart(m), m) && FirstPart(m) != Emitting
    ensures forall x, y :: Joins(m, x, y) && x != Emitting ==> y == m
  {
  }

  // Each child block is reached in exactly the manners in which there is a way in it.
  ghost predicate ArmsReached(s: Stmt, r: nat) {
    forall a, y :: a in ChildBlocks(s) ==>
      (Possible(a.body, Arrive(r), y) <==> Count(a.body, r) > 0 && Way(a.body, r, y))
  }

  lemma {:induction false} WayIsPossible(b: Block, r: nat, m: Manner)
    requires Count(b, r) == 1
    ensures Possible(b, Arrive(r), m) <==> Way(b, r, m)
    decreases b, 1
  {
    var s := b[0];
    if Contains(s, r) {
      forall y ensures !Possible(b[1..], Arrive(r), y) { NotReached(b[1..], r, y); }
      WayInIsPossible(s, r, m);
    } else {
      StmtNotReached(s, r, m);
      forall y ensures Possible(b[1..], Arrive(r), y) <==> Way(b[1..], r, y) { WayIsPossible(b[1..], r, y); }
    }
  }

  lemma {:induction false} WayInIsPossible(s: Stmt, r: nat, m: Manner)
    requires CountIn(s, r) == 1
    ensures PossibleStmt(s, Arrive(r), m) <==> WayIn(s, r, m)
    decreases s, 0
  {
    ChildIsSmaller(s);
    forall a, y | a in ChildBlocks(s)
      ensures Possible(a.body, Arrive(r), y) <==> Count(a.body, r) > 0 && Way(a.body, r, y)
    {
      CountArmsOne(s, ChildBlocks(s), r, a);
      if Count(a.body, r) == 0 { NotReached(a.body, r, y); } else { WayIsPossible(a.body, r, y); }
    }
    PlainEntry(m);
    match s
    case Loop(_, _) => LoopWay(s, r, m);
    case Try(_, _, _, _) => TryWay(s, r, m);
    case _ => PlainWay(s, r, m);
  }

  lemma PlainWay(s: Stmt, r: nat, m: Manner)
    requires CountIn(s, r) == 1 && ArmsReached(s, r) && !s.Loop? && !s.Try?
    ensures PossibleStmt(s, Arrive(r), m) <==> WayIn(s, r, m)
  {
    PlainEntry(m);
    if PossibleStmt(s, Arrive(r), m) && !s.Return? {
      var a :| a in ChildBlocks(s) && Possible(a.body, Arrive(r), m);
      assert Entered(s, a, FirstPart(m)) && Way(a.body, r, m);
    }
    if WayIn(s, r, m) && !s.Return? {
      var a, x, y :| a in ChildBlocks(s) && Count(a.body, r) > 0 && Joins(m, x, y) && Entered(s, a, x) && Way(a.body, r, y);
      assert y == m && Possible(a.body, Arrive(r), m);
    }
  }

  lemma LoopWay(s: Stmt, r: nat, m: Manner)
    requires s.Loop? && ArmsReached(s, r)
    ensures PossibleStmt(s, Arrive(r), m) <==> WayIn(s, r, m)
  {
    PlainEntry(m);
    var body, orelse := Arm(s.body), Arm(s.orelse);
    assert body in ChildBlocks(s) && orelse in ChildBlocks(s);
    forall y ensures PossibleLast(s, Arrive(r), y) <==>
      exists a :: a in ChildBlocks(s) && Count(a.body, r) > 0 && Way(a.body, r, y)
    {
      assert PossibleLast(s, Arrive(r), y) <==> Possible(orelse.body, Arrive(r), y) || Possible(body.body, Arrive(r), y);
      assert forall a :: a in ChildBlocks(s) ==> a == body || a == orelse;
    }
    if PossibleLast(s, Arrive(r), m) {
      var a :| a in ChildBlocks(s) && Count(a.body, r) > 0 && Way(a.body, r, m);
      assert Entered(s, a, FirstPart(m));
    } else if PossibleLoop(s, Arrive(r), m) {
      assert m == Emitting && EmittingRound(s) && PossibleLast(s, Arrive(r), Anyhow);
      var a :| a in ChildBlocks(s) && Count(a.body, r) > 0 && Way(a.body, r, Anyhow);
      assert Entered(s, a, Emitting) && Joins(m, Emitting, Anyhow);
    }
    if WayIn(s, r, m) {
      var a, x, y :| a in ChildBlocks(s) && Count(a.body, r) > 0 && Joins(m, x, y) && Entered(s, a, x) && Way(a.body, r, y);
      assert PossibleLast(s, Arrive(r), y);
      assert PossibleLoop(s, Arrive(r), m);
    }
  }

  lemma TryWay(s: Stmt, r: nat, m: Manner)
    requires s.Try? && ArmsReached(s, r)
    ensures PossibleStmt(s, Arrive(r), m) <==> WayIn(s, r, m)
  {
    if PossibleStmt(s, Arrive(r), m) { TryWayIn(s, r, m); }
    if WayIn(s, r, m) {
      var a, x, y :| a in ChildBlocks(s) && Count(a.body, r) > 0 && Joins(m, x, y) && Entered(s, a, x) && Way(a.body, r, y);
      TryWayOut(s, r, m, a, x, y);
    }
  }

  lemma TryWayIn(s: Stmt, r: nat, m: Manner)
    requires s.Try? && ArmsReached(s, r) && PossibleStmt(s, Arrive(r), m)
    ensures WayIn(s, r, m)
  {
    PlainEntry(m);
    var g := Arrive(r);
    var arms := ChildBlocks(s);
    assert Arm(s.body) in arms && Arm(s.orelse) in arms && Arm(s.finalbody) in arms;
    if Possible(s.body, g, m) {
      assert Entered(s, Arm(s.body), FirstPart(m)) && Way(Arm(s.body).body, r, m);
    } else if x, y :| Joins(m, x, y) && Possible(s.body, Leave(Fall), x) && Possible(s.orelse, g, y) {
      assert Entered(s, Arm(s.orelse), x) && Way(Arm(s.orelse).body, r, y);
    } else if x, y, h :| h in s.handlers && Joins(m, x, y) && Possible(s.body, Leave(Raised), x) && Possible(h.body, g, y) {
      assert h in arms && Entered(s, h, x) && Way(h.body, r, y);
    } else {
      assert !PossibleTried(s, g, m);
      var x, y, q, f :| Joins(m, x, y) && PossibleTried(s, Leave(q), x) && FinallyTo(s.finalbody, g, q, f, y);
      assert Entered(s, Arm(s.finalbody), x) && Way(Arm(s.finalbody).body, r, y);
    }
  }

  lemma TryWayOut(s: Stmt, r: nat, m: Manner, a: Arm, x: Manner, y: Manner)
    requires s.Try? && a in ChildBlocks(s) && Joins(m, x, y) && Entered(s, a, x) && Possible(a.body, Arrive(r), y)
    ensures PossibleStmt(s, Arrive(r), m)
  {
    PlainEntry(m);
    var g := Arrive(r);
    if a.body == s.body && x != Emitting {
      assert PossibleTried(s, g, m);
    } else if a.body == s.orelse && Possible(s.body, Leave(Fall), x) {
      assert PossibleTried(s, g, m);
    } else if a in s.handlers && Possible(s.body, Leave(Raised), x) {
      assert PossibleTried(s, g, m);
    } else {
      var q :| PossibleTried(s, Leave(q), x);
      assert FinallyTo(s.finalbody, g, q, Fall, y);
    }
  }

  // ---------------------------------------------------------------- what stands in a silent way

  predicate Passed(s: Stmt) {
    PossibleStmt(s, Leave(Fall), Silently)
  }

  // A credited statement on the way cannot be passed silently.
  predicate Solid(b: Block, r: nat)
    decreases b, 1
  {
    b != [] &&
    if Contains(b[0], r) then SolidIn(b[0], r)
    else (Credits(b[0]) && !Passed(b[0])) || Solid(b[1..], r)
  }

  predicate SolidIn(s: Stmt, r: nat)
    decreases s, 0
  {
    ChildIsSmaller(s);
    exists a :: a in ChildBlocks(s) && Count(a.body, r) > 0 && Solid(a.body, r)
  }

  // A statement without credit on the way cannot be passed silently, or a block around r
  // cannot be entered silently.
  predicate Overlooked(b: Block, r: nat)
    decreases b, 1
  {
    b != [] &&
    if Contains(b[0], r) then OverlookedIn(b[0], r)
    else (!Credits(b[0]) && !Passed(b[0])) || Overlooked(b[1..], r)
  }

  predicate OverlookedIn(s: Stmt, r: nat)
    decreases s, 0
  {
    ChildIsSmaller(s);
    exists a :: a in ChildBlocks(s) && Count(a.body, r) > 0 && (!Entered(s, a, Silently) || Overlooked(a.body, r))
  }

  lemma HoldingArm(s: Stmt, r: nat) returns (a: Arm)
    requires CountIn(s, r) == 1 && !s.Return?
    ensures a in ChildBlocks(s) && Count(a.body, r) == 1
    ensures forall c :: c in ChildBlocks(s) && Count(c.body, r) > 0 ==> c == a
  {
    ChildIsSmaller(s);
    if forall c :: c in ChildBlocks(s) ==> Count(c.body, r) == 0 { ArmsHold(s, ChildBlocks(s), r); }
    a :| a in ChildBlocks(s) && Count(a.body, r) > 0;
    CountArmsOne(s, ChildBlocks(s), r, a);
  }

  // A statement holds what its child blocks hold.
  lemma {:induction false} ArmsHold(s: Stmt, arms: seq<Arm>, r: nat)
    requires forall a :: a in arms ==> (s decreases to a.body)
    requires forall a :: a in arms ==> Count(a.body, r) == 0
    ensures CountArms(s, arms, r) == 0
    decreases arms
  {
    if arms != [] { ArmsHold(s, arms[1..], r); }
  }

  // Nothing else stands in a silent way.
  lemma {:induction false} SilentWay(b: Block, r: nat)
    requires Count(b, r) == 1
    ensures Way(b, r, Silently) <==> !Solid(b, r) && !Overlooked(b, r)
    decreases b, 1
  {
    if Contains(b[0], r) { SilentWayIn(b[0], r); } else { SilentWay(b[1..], r); }
  }

  lemma {:induction false} SilentWayIn(s: Stmt, r: nat)
    requires CountIn(s, r) == 1
    ensures WayIn(s, r, Silently) <==> !SolidIn(s, r) && !OverlookedIn(s, r)
    decreases s, 0
  {
    if s.Return? {
      assert ChildBlocks(s) == [];
    } else {
      ChildIsSmaller(s);
      var a := HoldingArm(s, r);
      SilentWay(a.body, r);
      assert Joins(Silently, Silently, Silently);
    }
  }

  // A credited statement that stands in the way makes the verdict.
  lemma {:induction false} SolidIsWitnessed(b: Block, r: nat)
    requires Solid(b, r)
    ensures Witnessed(b, r)
    decreases b
  {
    if Contains(b[0], r) {
      ChildIsSmaller(b[0]);
      var a :| a in ChildBlocks(b[0]) && Count(a.body, r) > 0 && Solid(a.body, r);
      SolidIsWitnessed(a.body, r);
    } else if !(Credits(b[0]) && !Passed(b[0])) {
      SolidIsWitnessed(b[1..], r);
    }
  }

  // ---------------------------------------------------------------- verdict and dominance

  // Every path to a recorded return emits exactly when a statement before it, credited or not,
  // cannot be passed silently or a try around it cannot be entered silently.  The former kind
  // makes the verdict; so an unwitnessed return is dominated exactly through what the scan
  // overlooks, and a witnessed one exactly when something stands in the way at all.
  lemma VerdictAgainstPaths(body: Block, rec: Record)
    requires rec in Walked(body, body, []) && Count(body, rec.id) == 1
    ensures EveryPathEmits(body, rec.id) <==> Solid(body, rec.id) || Overlooked(body, rec.id)
    ensures Solid(body, rec.id) ==> rec.witnessed
    ensures !rec.witnessed ==> (SilentPath(body, rec.id) <==> !Overlooked(body, rec.id))
    ensures EmittingPath(body, rec.id) <==> Way(body, rec.id, Emitting)
  {
    ScanVerdict(body, rec);
    PathsAreText(body, rec.id);
    WayIsPossible(body, rec.id, Silently);
    WayIsPossible(body, rec.id, Emitting);
    SilentWay(body, rec.id);
    if Solid(body, rec.id) { SolidIsWitnessed(body, rec.id); }
  }

  // ---------------------------------------------------------------- why the scan overlooks

  // A loop can be passed silently exactly when its else block can, or its body be broken out of.
  lemma LoopPassed(s: Stmt)
    requires s.Loop?
    ensures Passed(s) <==> Possible(s.orelse, Leave(Fall), Silently) || Possible(s.body, Leave(Broke), Silently)
  {
    assert PossibleLoop(s, Leave(Fall), Silently) <==> PossibleLast(s, Leave(Fall), Silently);
  }

  // A with statement, a match and a nested function always can.
  lemma OthersPassed(s: Stmt)
    requires s.With? || s.Match? || s.Def?
    ensures Passed(s)
  {
    if s.With? && s.body != [] { RaisesSilently(s.body); }
  }

  // What keeps a block or statement that does not always exit from being passed, though no
  // witness is credited in it: code after an exit, a try, or a loop as above, where control
  // has to go through.
  predicate Obstructed(b: Block)
    decreases b, 1
  {
    b != [] && (ObstructedStmt(b[0]) || Obstructed(b[1..]) || (|b| > 1 && AlwaysExits([b[0]])))
  }

  predicate ObstructedStmt(s: Stmt)
    decreases s, 0
  {
    match s
    case If(body, orelse) => Obstructed(body) || Obstructed(orelse)
    case Loop(body, orelse) => !Possible(orelse, Leave(Fall), Silently) && !Possible(body, Leave(Broke), Silently)
    case Try(_, _, _, _) => !Passed(s)
    case _ => false
  }

  lemma {:induction false} UncreditedIsPassed(s: Stmt)
    requires !Credits(s) && !Passed(s)
    ensures AlwaysExits([s]) || ObstructedStmt(s)
    decreases s, 0
  {
    match s
    case If(body, orelse) =>
      if !AlwaysExits([s]) {
        var a := if AlwaysExits(body) then Arm(orelse) else Arm(body);
        assert a in ChildBlocks(s);
        if !Obstructed(a.body) { UncreditedBlockPassed(a.body); }
      }
    case Loop(_, _) => LoopPassed(s);
    case With(_) => OthersPassed(s);
    case _ =>
  }

  lemma {:induction false} UncreditedBlockPassed(b: Block)
    requires !ContainsWitness(b) && !AlwaysExits(b) && !Obstructed(b)
    ensures Possible(b, Leave(Fall), Silently)
    decreases b, 1
  {
    if b != [] {
      if |b| == 1 { assert b == [b[0]]; }
      if !Passed(b[0]) { UncreditedIsPassed(b[0]); }
      UncreditedBlockPassed(b[1..]);
      assert Joins(Silently, Silently, Silently);
    }
  }

  // What is overlooked has one of these causes: before r's ancestor, in some block around it,
  // stands an uncredited statement that always exits or is obstructed; or a block around r is
  // an else block, handler or finally block of a try that is not entered silently.
  predicate Caused(b: Block, r: nat)
    decreases b, 1
  {
    b != [] &&
    if Contains(b[0], r) then CausedIn(b[0], r)
    else (!Credits(b[0]) && (AlwaysExits([b[0]]) || ObstructedStmt(b[0]))) || Caused(b[1..], r)
  }

  predicate CausedIn(s: Stmt, r: nat)
    decreases s, 0
  {
    ChildIsSmaller(s);
    exists a :: a in ChildBlocks(s) && Count(a.body, r) > 0 &&
      ((s.Try? && !Entered(s, a, Silently)) || Caused(a.body, r))
  }

  lemma {:induction false} OverlookedIsCaused(b: Block, r: nat)
    requires Overlooked(b, r) && Owns(b, r) && Count(b, r) == 1
    ensures Caused(b, r)
    decreases b
  {
    var s := b[0];
    if Contains(s, r) {
      if !OwnsStmt(s, r) { OwnsCounts(b[1..], r); }
      ChildIsSmaller(s);
      var a :| a in ChildBlocks(s) && Count(a.body, r) > 0 && (!Entered(s, a, Silently) || Overlooked(a.body, r));
      var o :| o in ChildBlocks(s) && (s decreases to o.body) && Owns(o.body, r);
      OwnsCounts(o.body, r);
      CountArmsOne(s, ChildBlocks(s), r, a);
      if Entered(s, a, Silently) { OverlookedIsCaused(a.body, r); }
    } else {
      if OwnsStmt(s, r) { OwnsStmtCounts(s, r); }
      if !Credits(s) && !Passed(s) { UncreditedIsPassed(s); } else { OverlookedIsCaused(b[1..], r); }
    }
  }

  // ---------------------------------------------------------------- ordinary code

  lemma {:induction false} OrdinaryNotOverlooked(b: Block, r: nat)
    requires Ordinary(b) && Owns(b, r) && Count(b, r) == 1
    ensures !Overlooked(b, r)
    decreases b
  {
    var s := b[0];
    ChildIsSmaller(s);
    if Contains(s, r) {
      if !OwnsStmt(s, r) { OwnsCounts(b[1..], r); }
      if !s.Return? {
        var o :| o in ChildBlocks(s) && (s decreases to o.body) && Owns(o.body, r);
        OwnsCounts(o.body, r);
        CountArmsOne(s, ChildBlocks(s), r, o);
        OrdinaryNotOverlooked(o.body, r);
      }
    } else {
      if OwnsStmt(s, r) { OwnsStmtCounts(s, r); }
      if !Credits(s) { StmtFallsThrough(s, Silently); }
      OrdinaryNotOverlooked(b[1..], r);
    }
  }

  // In ordinary code the scan overlooks nothing: every path to a return emits exactly when some
  // credited statement before it cannot be passed silently, and then the return is witnessed.
  lemma DominatedIsWitnessed(body: Block, rec: Record)
    requires Ordinary(body)
    requires rec in Walked(body, body, []) && Count(body, rec.id) == 1
    ensures EveryPathEmits(body, rec.id) <==> Solid(body, rec.id)
    ensures EveryPathEmits(body, rec.id) ==> rec.witnessed
  {
    RecordIsOwned(body, rec);
    OrdinaryNotOverlooked(body, rec.id);
    VerdictAgainstPaths(body, rec);
  }

  // A direct witness is always credited, in the whole language.
  lemma {:induction false} DirectIsCredited(b: Block, r: nat, k: nat)
    requires DirectlyGuards(b, r, k) && Count(b, r) == 1
    ensures Witnessed(b, r)
    decreases b
  {
    var s := b[0];
    if s == Witness(k) && Count(b[1..], r) > 0 {
    } else if DirectlyGuards(b[1..], r, k) {
      GuardHoldsReturn(b[1..], r, k);
      DirectIsCredited(b[1..], r, k);
    } else {
      var a :| a in ChildBlocks(s) && (s decreases to a.body) && DirectlyGuards(a.body, r, k);
      GuardHoldsReturn(a.body, r, k);
      ChildIsSmaller(s);
      CountArmsOne(s, ChildBlocks(s), r, a);
      DirectIsCredited(a.body, r, k);
    }
  }
}
