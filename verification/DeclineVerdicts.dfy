// The verdicts of the apply-decline scan against the executions of the scanned body.

module DeclineVerdicts {
  import opened ApplyDeclines
  import opened DeclineExecutions
  import opened DeclinePaths
  import opened DeclineWalks

  // ---------------------------------------------------------------- paths to a return

  // Some execution reaches r without having emitted.
  ghost predicate SilentPath(body: Block, r: nat) {
    exists t, o :: Execution(body, t, o) && Meets(t, o, Arrive(r), Silently)
  }

  // Some execution emits and then reaches r.
  ghost predicate EmittingPath(body: Block, r: nat) {
    exists t, o :: Execution(body, t, o) && Meets(t, o, Arrive(r), Emitting)
  }

  // Every time any execution reaches r, it has emitted before.
  ghost predicate EveryPathEmits(body: Block, r: nat) {
    forall t, o :: Execution(body, t, o) ==> Preceded(t, r)
  }

  ghost predicate Preceded(t: Trace, r: nat) {
    forall p :: 0 <= p < |t| && t[p] == Reach(r) ==> Emits(t[..p])
  }

  // r can be reached without a witness, as the text of the body shows.
  predicate ReachedSilently(body: Block, r: nat) {
    Possible(body, Arrive(r), Silently)
  }

  predicate ReachedEmitting(body: Block, r: nat) {
    Possible(body, Arrive(r), Emitting)
  }

  lemma PathsAreText(body: Block, r: nat)
    ensures SilentPath(body, r) <==> ReachedSilently(body, r)
    ensures EmittingPath(body, r) <==> ReachedEmitting(body, r)
    ensures EveryPathEmits(body, r) <==> !ReachedSilently(body, r)
  {
    PossibleIsExact(body, Arrive(r), Silently);
    PossibleIsExact(body, Arrive(r), Emitting);
    if t, o :| Execution(body, t, o) && Meets(t, o, Arrive(r), Silently) {
      assert !Preceded(t, r);
    }
    if t, o :| Execution(body, t, o) && !Preceded(t, r) {
      assert Meets(t, o, Arrive(r), Silently);
    }
  }

  // ---------------------------------------------------------------- ordinary code

  // No try; no loop whose else block always exits; and nothing follows, in its block, a
  // statement that always exits.
  predicate Ordinary(b: Block)
    decreases b, 1
  {
    b == [] || (OrdinaryStmt(b[0]) && Ordinary(b[1..]) && (|b| > 1 ==> !AlwaysExits([b[0]])))
  }

  predicate OrdinaryStmt(s: Stmt)
    decreases s, 0
  {
    match s
    case If(body, orelse) => Ordinary(body) && Ordinary(orelse)
    case Loop(body, orelse) => Ordinary(body) && Ordinary(orelse) && !AlwaysExits(orelse)
    case With(body) => Ordinary(body)
    case Try(_, _, _, _) => false
    case Match(cases) => forall a :: a in cases ==> Ordinary(a.body)
    case _ => true
  }

  // The scan credits a witness outside nested functions.
  predicate CreditsOutside(s: Stmt)
    decreases s, 0
  {
    ChildIsSmaller(s);
    s.Witness? ||
    (!s.Match? && !s.Def? && exists a :: a in ChildBlocks(s) && !AlwaysExits(a.body) && ContainsOutside(a.body))
  }

  predicate ContainsOutside(b: Block)
    decreases b, 1
  {
    b != [] && (CreditsOutside(b[0]) || ContainsOutside(b[1..]))
  }

  // The verdict on r, with a credit of that kind.
  ghost predicate WitnessedOutside(b: Block, r: nat)
    decreases b
  {
    b != [] &&
    if Contains(b[0], r)
    then exists a :: a in ChildBlocks(b[0]) && (b[0] decreases to a.body) && Count(a.body, r) > 0 && WitnessedOutside(a.body, r)
    else CreditsOutside(b[0]) || WitnessedOutside(b[1..], r)
  }

  lemma RaisesSilently(b: Block)
    requires b != []
    ensures Possible(b, Leave(Raised), Silently) && Possible(b, Leave(Raised), Anyhow)
  {
  }

  // What the scan has to say about a block or statement for it to be passed in manner m.
  predicate Fits(m: Manner, credited: bool, outside: bool) {
    match m
    case Anyhow => true
    case Silently => !credited
    case Emitting => outside
  }

  // Ordinary code that does not always exit can be fallen through; silently if the scan finds
  // no witness in it, emitting if it finds one outside nested functions.
  lemma {:induction false} FallsThrough(b: Block, m: Manner)
    requires Ordinary(b) && !AlwaysExits(b) && Fits(m, ContainsWitness(b), ContainsOutside(b))
    ensures Possible(b, Leave(Fall), m)
    decreases b, 1
  {
    if b != [] {
      if |b| == 1 { assert b == [b[0]]; }
      var x, y := m, m;
      if m == Emitting { x, y := if CreditsOutside(b[0]) then Emitting else Anyhow, if CreditsOutside(b[0]) then Anyhow else Emitting; }
      StmtFallsThrough(b[0], x);
      FallsThrough(b[1..], y);
      assert Joins(m, x, y);
    }
  }

  lemma {:induction false} StmtFallsThrough(s: Stmt, m: Manner)
    requires OrdinaryStmt(s) && !AlwaysExits([s]) && Fits(m, Credits(s), CreditsOutside(s))
    ensures PossibleStmt(s, Leave(Fall), m)
    decreases s, 0
  {
    match s
    case If(body, orelse) =>
      var a := if AlwaysExits(body) then Arm(orelse) else Arm(body);
      if m == Emitting { a :| a in ChildBlocks(s) && !AlwaysExits(a.body) && ContainsOutside(a.body); }
      assert a in ChildBlocks(s);
      FallsThrough(a.body, m);
    case Loop(body, orelse) => LoopFallsThrough(s, m);
    case With(body) =>
      assert Arm(body) in ChildBlocks(s);
      if m == Emitting {
        var a :| a in ChildBlocks(s) && !AlwaysExits(a.body) && ContainsOutside(a.body);
        FallsThrough(body, m);
      } else if body != [] {
        RaisesSilently(body);
      }
    case _ =>
  }

  lemma {:induction false} LoopFallsThrough(s: Stmt, m: Manner)
    requires s.Loop? && OrdinaryStmt(s) && Fits(m, Credits(s), CreditsOutside(s))
    ensures PossibleStmt(s, Leave(Fall), m)
    decreases s, 0, 0
  {
    var arms := ChildBlocks(s);
    assert Arm(s.body) in arms && Arm(s.orelse) in arms;
    if m == Emitting {
      var a :| a in arms && !AlwaysExits(a.body) && ContainsOutside(a.body);
      FallsThrough(a.body, Emitting);
      FallsThrough(s.orelse, Anyhow);
    } else {
      FallsThrough(s.orelse, m);
    }
  }

  lemma {:induction false} OwnsCounts(b: Block, r: nat)
    requires Owns(b, r)
    ensures Count(b, r) > 0
    decreases b, 1
  {
    if OwnsStmt(b[0], r) { OwnsStmtCounts(b[0], r); } else { OwnsCounts(b[1..], r); }
  }

  lemma {:induction false} OwnsStmtCounts(s: Stmt, r: nat)
    requires OwnsStmt(s, r)
    ensures CountIn(s, r) > 0
    decreases s, 0
  {
    ChildIsSmaller(s);
    if !s.Return? {
      var a :| a in ChildBlocks(s) && (s decreases to a.body) && Owns(a.body, r);
      OwnsCounts(a.body, r);
      CountArmsOne(s, ChildBlocks(s), r, a);
    }
  }

  // Every return of ordinary code can be reached; silently if the verdict is unwitnessed,
  // after emitting if it is witnessed by a credit outside nested functions.
  lemma {:induction false} ReturnIsReached(b: Block, r: nat, m: Manner)
    requires Ordinary(b) && Owns(b, r) && Count(b, r) == 1 && Fits(m, Witnessed(b, r), WitnessedOutside(b, r))
    ensures Possible(b, Arrive(r), m)
    decreases b, 1
  {
    var s := b[0];
    if Contains(s, r) {
      if !OwnsStmt(s, r) { OwnsCounts(b[1..], r); }
      HeadIsReached(b, r, m);
    } else {
      if OwnsStmt(s, r) { OwnsStmtCounts(s, r); }
      var x, y := m, m;
      if m == Emitting { x, y := if CreditsOutside(s) then Emitting else Anyhow, if CreditsOutside(s) then Anyhow else Emitting; }
      StmtFallsThrough(s, x);
      ReturnIsReached(b[1..], r, y);
      assert Joins(m, x, y);
    }
  }

  lemma {:induction false} HeadIsReached(b: Block, r: nat, m: Manner)
    requires b != [] && OrdinaryStmt(b[0]) && OwnsStmt(b[0], r) && Count(b, r) == 1 && Contains(b[0], r)
    requires Fits(m, Witnessed(b, r), WitnessedOutside(b, r))
    ensures Possible(b, Arrive(r), m)
    decreases b, 0
  {
    var s := b[0];
    ChildIsSmaller(s);
    if !s.Return? {
      var a :| a in ChildBlocks(s) && (s decreases to a.body) && Owns(a.body, r);
      OwnsCounts(a.body, r);
      CountArmsOne(s, ChildBlocks(s), r, a);
      ReturnIsReached(a.body, r, m);
      assert PossibleStmt(s, Arrive(r), m);
    }
  }

  // ---------------------------------------------------------------- tame code

  // Around return r: simple statements, witnesses, if/elif/else, return, raise, break and
  // continue; loops that do not hold r and are only left by return, raise or exhaustion; and
  // nested functions the scan does not credit and that do not hold r.
  predicate Tame(b: Block, r: nat)
    decreases b, 1
  {
    b == [] || (TameStmt(b[0], r) && Tame(b[1..], r))
  }

  predicate TameStmt(s: Stmt, r: nat)
    decreases s, 0
  {
    match s
    case If(body, orelse) => Tame(body, r) && Tame(orelse, r)
    case Loop(body, orelse) => !Contains(s, r) && NoJumps(body) && Tame(body, r) && Tame(orelse, r)
    case With(_) => false
    case Try(_, _, _, _) => false
    case Match(_) => false
    case Def(_) => !Credits(s) && !Contains(s, r)
    case _ => true
  }

  // No break or continue of a loop around the block.
  predicate NoJumps(b: Block)
    decreases b, 1
  {
    b == [] || (NoJumpsStmt(b[0]) && NoJumps(b[1..]))
  }

  predicate NoJumpsStmt(s: Stmt)
    decreases s, 0
  {
    ChildIsSmaller(s);
    match s
    case Break => false
    case Continue => false
    case Loop(_, orelse) => NoJumps(orelse)
    case Def(_) => true
    case _ => forall a :: a in ChildBlocks(s) ==> NoJumps(a.body)
  }

  predicate Jump(o: Outcome) {
    o == Broke || o == Continued
  }

  lemma {:induction false} NeverJumps(b: Block, r: nat, o: Outcome, m: Manner)
    requires Tame(b, r) && NoJumps(b) && Jump(o)
    ensures !Possible(b, Leave(o), m)
    decreases b, 1
  {
    if b != [] {
      StmtNeverJumps(b[0], r, o, m);
      forall y ensures !Possible(b[1..], Leave(o), y) { NeverJumps(b[1..], r, o, y); }
    }
  }

  lemma {:induction false} StmtNeverJumps(s: Stmt, r: nat, o: Outcome, m: Manner)
    requires TameStmt(s, r) && NoJumpsStmt(s) && Jump(o)
    ensures !PossibleStmt(s, Leave(o), m)
    decreases s, 0
  {
    if s.If? {
      assert Arm(s.body) in ChildBlocks(s) && Arm(s.orelse) in ChildBlocks(s);
      NeverJumps(s.body, r, o, m);
      NeverJumps(s.orelse, r, o, m);
    } else if s.Loop? {
      NeverJumps(s.orelse, r, o, m);
      NeverJumps(s.orelse, r, o, Anyhow);
      assert !PossibleLast(s, Leave(o), m) && !PossibleLast(s, Leave(o), Anyhow);
      assert !PossibleLoop(s, Leave(o), m);
    }
  }

  lemma ExitNeverFalls(b: Block, m: Manner)
    requires AlwaysExits(b)
    ensures !Possible(b, Leave(Fall), m)
  {
    if Possible(b, Leave(Fall), m) {
      var t, o := PossibleRuns(b, Leave(Fall), m);
      AlwaysExitsNeverFalls(b, t);
    }
  }

  // In ordinary code always-exiting is read exactly: some execution falls out of every other block.
  lemma ExitsIsExact(b: Block)
    requires Ordinary(b)
    ensures AlwaysExits(b) <==> !exists t :: Execution(b, t, Fall)
  {
    if AlwaysExits(b) {
      forall t ensures !Execution(b, t, Fall) { AlwaysExitsNeverFalls(b, t); }
    } else {
      FallsThrough(b, Anyhow);
      var t, o := PossibleRuns(b, Leave(Fall), Anyhow);
      assert Execution(b, t, Fall);
    }
  }

  predicate Jumps(s: Stmt) {
    s.Return? || s.Raise? || s.Break? || s.Continue?
  }

  // From a block to a branch of the if that ends it, down to a block whose end is no jump.
  ghost predicate OpenEnd(p: seq<Block>) {
    && p != []
    && (forall i :: 0 <= i < |p| - 1 ==> Branch(p[i], p[i + 1]))
    && var b := p[|p| - 1]; b == [] || (!Jumps(b[|b| - 1]) && !b[|b| - 1].If?)
  }

  ghost predicate Branch(b: Block, c: Block) {
    b != [] && b[|b| - 1].If? && (c == b[|b| - 1].body || c == b[|b| - 1].orelse)
  }

  lemma {:induction false} OpenEndFalls(p: seq<Block>)
    requires OpenEnd(p)
    ensures !AlwaysExits(p[0])
    decreases |p|
  {
    if |p| > 1 {
      var q := p[1..];
      forall i | 0 <= i < |q| - 1 ensures Branch(q[i], q[i + 1]) { assert Branch(p[i + 1], p[i + 1 + 1]); }
      assert Branch(p[0], p[0 + 1]);
      OpenEndFalls(q);
    }
  }

  lemma {:induction false} HasOpenEnd(b: Block) returns (p: seq<Block>)
    requires !AlwaysExits(b)
    ensures OpenEnd(p) && p[0] == b
    decreases b
  {
    if b == [] || !b[|b| - 1].If? {
      p := [b];
    } else {
      var last := b[|b| - 1];
      var c := if AlwaysExits(last.body) then last.orelse else last.body;
      var q := HasOpenEnd(c);
      p := [b] + q;
      assert Branch(b, q[0]);
      forall i | 0 <= i < |p| - 1 ensures Branch(p[i], p[i + 1]) {
        if i > 0 { assert Branch(q[i - 1], q[i - 1 + 1]); }
      }
    }
  }

  // Over the whole language: a block is called always-exiting exactly when every such way ends
  // in a return, raise, break or continue.
  lemma ExitsIsText(b: Block)
    ensures AlwaysExits(b) <==> !exists p :: OpenEnd(p) && p[0] == b
  {
    if !AlwaysExits(b) { var p := HasOpenEnd(b); }
    if p :| OpenEnd(p) && p[0] == b { OpenEndFalls(p); }
  }

  // A witness emitted on the way through is one the scan finds.
  lemma {:induction false} EmissionIsFound(b: Block, r: nat)
    requires Tame(b, r) && Possible(b, Leave(Fall), Emitting)
    ensures ContainsWitness(b) && !AlwaysExits(b)
    decreases b, 1
  {
    if AlwaysExits(b) { ExitNeverFalls(b, Emitting); }
    var x, y :| Joins(Emitting, x, y) && PossibleStmt(b[0], Leave(Fall), x) && Possible(b[1..], Leave(Fall), y);
    if x == Emitting { StmtEmissionIsFound(b[0], r); } else { EmissionIsFound(b[1..], r); }
  }

  lemma {:induction false} StmtEmissionIsFound(s: Stmt, r: nat)
    requires TameStmt(s, r) && PossibleStmt(s, Leave(Fall), Emitting)
    ensures Credits(s)
    decreases s, 0
  {
    if s.If? {
      var a := if Possible(s.body, Leave(Fall), Emitting) then Arm(s.body) else Arm(s.orelse);
      assert a in ChildBlocks(s);
      EmissionIsFound(a.body, r);
    } else if s.Loop? {
      NeverJumps(s.body, r, Broke, Emitting);
      NeverJumps(s.body, r, Continued, Emitting);
      assert PossibleLoop(s, Leave(Fall), Emitting);
      assert PossibleLast(s, Leave(Fall), Emitting) || EmittingRound(s);
      var a := if Possible(s.orelse, Leave(Fall), Emitting) then Arm(s.orelse) else Arm(s.body);
      assert a in ChildBlocks(s);
      EmissionIsFound(a.body, r);
    }
  }

  lemma NotReached(b: Block, r: nat, m: Manner)
    requires Count(b, r) == 0
    ensures !Possible(b, Arrive(r), m)
  {
    if Possible(b, Arrive(r), m) {
      var t, o := PossibleRuns(b, Arrive(r), m);
      NeverReaches(b, r, t, o);
    }
  }

  lemma StmtNotReached(s: Stmt, r: nat, m: Manner)
    requires CountIn(s, r) == 0
    ensures !PossibleStmt(s, Arrive(r), m)
  {
    if PossibleStmt(s, Arrive(r), m) {
      var t, o := StmtRuns(s, Arrive(r), m);
      StmtNeverReaches(s, r, t, o);
    }
  }

  lemma IfCount(s: Stmt, r: nat)
    requires s.If?
    ensures CountIn(s, r) == Count(s.body, r) + Count(s.orelse, r)
  {
    ChildIsSmaller(s);
    var arms := ChildBlocks(s);
    assert arms == [Arm(s.body), Arm(s.orelse)] && arms[1..] == [Arm(s.orelse)] && arms[1..][1..] == [];
    assert CountArms(s, arms, r) == Count(s.body, r) + CountArms(s, arms[1..], r);
    assert CountArms(s, arms[1..], r) == Count(s.orelse, r) + CountArms(s, arms[1..][1..], r);
  }

  // A return reached after an emission is one the scan calls witnessed.
  lemma {:induction false} EmissionWitnesses(b: Block, r: nat)
    requires Tame(b, r) && Count(b, r) == 1 && Possible(b, Arrive(r), Emitting)
    ensures Witnessed(b, r)
    decreases b, 1
  {
    var s := b[0];
    if PossibleStmt(s, Arrive(r), Emitting) {
      if !Contains(s, r) { StmtNotReached(s, r, Emitting); }
      HeadEmissionWitnesses(s, r);
    } else {
      var x, y :| Joins(Emitting, x, y) && PossibleStmt(s, Leave(Fall), x) && Possible(b[1..], Arrive(r), y);
      if Count(b[1..], r) == 0 { NotReached(b[1..], r, y); }
      if x == Emitting { StmtEmissionIsFound(s, r); } else { EmissionWitnesses(b[1..], r); }
    }
  }

  lemma {:induction false} HeadEmissionWitnesses(s: Stmt, r: nat)
    requires TameStmt(s, r) && CountIn(s, r) == 1 && PossibleStmt(s, Arrive(r), Emitting)
    ensures exists a :: a in ChildBlocks(s) && (s decreases to a.body) && Count(a.body, r) > 0 && Witnessed(a.body, r)
    decreases s, 0
  {
    IfCount(s, r);
    var a := if Possible(s.body, Arrive(r), Emitting) then Arm(s.body) else Arm(s.orelse);
    assert a in ChildBlocks(s);
    if Count(a.body, r) == 0 { NotReached(a.body, r, Emitting); }
    EmissionWitnesses(a.body, r);
  }

  // Tame code has no other credits.
  lemma {:induction false} TameOutside(b: Block, r: nat)
    requires Tame(b, r)
    ensures ContainsOutside(b) == ContainsWitness(b)
    decreases b, 1
  {
    if b != [] {
      TameStmtOutside(b[0], r);
      TameOutside(b[1..], r);
    }
  }

  lemma {:induction false} TameStmtOutside(s: Stmt, r: nat)
    requires TameStmt(s, r)
    ensures CreditsOutside(s) == Credits(s)
    decreases s, 0
  {
    if s.If? || s.Loop? {
      TameOutside(s.body, r);
      TameOutside(s.orelse, r);
      forall a | a in ChildBlocks(s) ensures ContainsOutside(a.body) == ContainsWitness(a.body) { }
    }
  }

  lemma {:induction false} TameWitnessedOutside(b: Block, r: nat)
    requires Tame(b, r)
    ensures WitnessedOutside(b, r) == Witnessed(b, r)
    decreases b
  {
    if b != [] {
      var s := b[0];
      TameStmtOutside(s, r);
      if Contains(s, r) {
        if s.If? {
          TameWitnessedOutside(s.body, r);
          TameWitnessedOutside(s.orelse, r);
        }
        forall a | a in ChildBlocks(s) ensures WitnessedOutside(a.body, r) == Witnessed(a.body, r) { }
      } else {
        TameWitnessedOutside(b[1..], r);
      }
    }
  }

  // ---------------------------------------------------------------- the verdict of a record

  lemma RecordIsOwned(body: Block, rec: Record)
    requires rec in Walked(body, body, [])
    ensures Owns(body, rec.id)
  {
    assert Recorded(Walked(body, body, []), rec.id);
    WalkRecordsReturns(body, body, [], rec.id);
  }

  // An unwitnessed return of ordinary code is reached silently, by some execution; one that is
  // witnessed by a credit outside nested functions is reached after emitting.
  lemma VerdictHasPath(body: Block, rec: Record)
    requires Ordinary(body)
    requires rec in Walked(body, body, []) && Count(body, rec.id) == 1
    ensures !rec.witnessed ==> SilentPath(body, rec.id)
    ensures WitnessedOutside(body, rec.id) ==> EmittingPath(body, rec.id)
  {
    ScanVerdict(body, rec);
    RecordIsOwned(body, rec);
    PathsAreText(body, rec.id);
    if !rec.witnessed { ReturnIsReached(body, rec.id, Silently); }
    if WitnessedOutside(body, rec.id) { ReturnIsReached(body, rec.id, Emitting); }
  }

  // Exactness: on tame ordinary code a recorded return is witnessed exactly when some
  // execution emits a witness and then reaches it; unwitnessed means silent on every path.
  lemma VerdictIsExact(body: Block, rec: Record)
    requires Tame(body, rec.id) && Ordinary(body)
    requires rec in Walked(body, body, []) && Count(body, rec.id) == 1
    ensures rec.witnessed <==> EmittingPath(body, rec.id)
  {
    ScanVerdict(body, rec);
    TameWitnessedOutside(body, rec.id);
    VerdictHasPath(body, rec);
    PathsAreText(body, rec.id);
    if EmittingPath(body, rec.id) { EmissionWitnesses(body, rec.id); }
  }
}
