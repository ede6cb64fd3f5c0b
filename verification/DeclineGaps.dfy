// A return behind any one statement: what the scan says of it and which paths there are; and
// function bodies on which verdict and paths part, in both directions.

module DeclineGaps {
  import opened ApplyDeclines
  import opened DeclineDominance
  import opened DeclineExecutions
  import opened DeclinePaths
  import opened DeclineVerdicts
  import opened DeclineWalks

  // ---------------------------------------------------------------- a return after one statement

  // The record of a return that is counted once carries its verdict.
  lemma RecordOf(body: Block, r: nat)
    requires Owns(body, r) && Count(body, r) == 1
    ensures Record(r, Witnessed(body, r)) in Walked(body, body, [])
  {
    WalkRecordsReturns(body, body, [], r);
    var rec :| rec in Walked(body, body, []) && rec.id == r;
    ScanVerdict(body, rec);
    assert rec == Record(r, Witnessed(body, r));
  }

  lemma SinglePossible(s: Stmt, g: Goal, m: Manner)
    ensures Possible([s], g, m) <==> PossibleStmt(s, g, m)
  {
    var b := [s];
    assert b[1..] == [];
    if PossibleStmt(s, g, m) && g == Leave(Fall) {
      var y := if m == Emitting then Anyhow else m;
      assert Joins(m, m, y) && Possible(b[1..], g, y);
    }
  }

  lemma PairPossible(s: Stmt, r: nat, m: Manner)
    requires !Contains(s, r)
    ensures Possible([s, Return(r, true)], Arrive(r), m) <==> PossibleStmt(s, Leave(Fall), m)
  {
    var body := [s, Return(r, true)];
    assert body[1..] == [Return(r, true)];
    StmtNotReached(s, r, m);
    forall y ensures Possible(body[1..], Arrive(r), y) <==> y != Emitting { SinglePossible(Return(r, true), Arrive(r), y); }
    if PossibleStmt(s, Leave(Fall), m) {
      var y := if m == Emitting then Anyhow else m;
      assert Joins(m, m, y) && Possible(body[1..], Arrive(r), y);
    }
  }

  // A return behind any one statement is witnessed when the statement is credited; every path
  // emits when the statement cannot be fallen through silently; some path emits when it can
  // be fallen through emitting.
  lemma ReturnAfter(s: Stmt, r: nat)
    requires !Contains(s, r)
    ensures
      var body := [s, Return(r, true)];
      && Record(r, Credits(s)) in Walked(body, body, [])
      && (EveryPathEmits(body, r) <==> !PossibleStmt(s, Leave(Fall), Silently))
      && (EmittingPath(body, r) <==> PossibleStmt(s, Leave(Fall), Emitting))
  {
    var body := [s, Return(r, true)];
    assert body[1..] == [Return(r, true)] && body[1..][1..] == [];
    assert OwnsStmt(Return(r, true), r) && Owns(body[1..], r);
    assert Count(body[1..], r) == CountIn(Return(r, true), r) + Count([], r);
    assert Witnessed(body, r) == Credits(s) by {
      assert Contains(body[1..][0], r) && ChildBlocks(body[1..][0]) == [];
    }
    RecordOf(body, r);
    PathsAreText(body, r);
    PairPossible(s, r, Silently);
    PairPossible(s, r, Emitting);
  }

  // ---------------------------------------------------------------- where verdict and paths part

  lemma LeafHoldsNothing(s: Stmt, r: nat)
    requires s.Witness? || s.Continue? || s.Break? || s.Raise? || (s.Return? && s.id != r)
    ensures CountIn(s, r) == 0
  {
    ChildIsSmaller(s);
    if !s.Return? { assert CountArms(s, ChildBlocks(s), r) == 0; }
  }

  lemma OneHolds(s: Stmt, r: nat)
    ensures Count([s], r) == CountIn(s, r)
  {
    assert [s][1..] == [];
  }

  lemma PairHolds(s: Stmt, z: Stmt, r: nat)
    ensures Count([s, z], r) == CountIn(s, r) + CountIn(z, r)
  {
    assert [s, z][1..] == [z];
    OneHolds(z, r);
  }

  lemma HoldsNothing(s: Stmt, r: nat)
    requires !s.Return? && forall a :: a in ChildBlocks(s) ==> Count(a.body, r) == 0
    ensures !Contains(s, r)
  {
    ChildIsSmaller(s);
    ArmsHold(s, ChildBlocks(s), r);
  }

  lemma WitnessBlock(k: nat, r: nat)
    ensures Count([Witness(k)], r) == 0 && Count([], r) == 0
    ensures ContainsWitness([Witness(k)]) && !AlwaysExits([Witness(k)])
    ensures forall m :: Possible([Witness(k)], Leave(Fall), m) <==> m != Silently
    ensures !Possible([Witness(k)], Leave(Raised), Emitting)
  {
    LeafHoldsNothing(Witness(k), r);
    OneHolds(Witness(k), r);
    CreditsOne(Witness(k));
    forall m ensures Possible([Witness(k)], Leave(Fall), m) <==> m != Silently { SinglePossible(Witness(k), Leave(Fall), m); }
    SinglePossible(Witness(k), Leave(Raised), Emitting);
  }

  // A witness in any block of the statement before, other than a match, that does not always
  // exit makes the verdict: in the body of a with, in the body, a handler, the else block and
  // the finally block of a try.
  lemma WitnessInBlock(s: Stmt, b: Block, k: nat, r: nat)
    requires !s.Match? && BlockOf(b, s) && Witness(k) in b && !AlwaysExits(b) && !Contains(s, r)
    ensures Record(r, true) in Walked([s, Return(r, true)], [s, Return(r, true)], [])
  {
    assert CreditPath([s, Witness(k)]) by { assert Holds(s, Witness(k)); }
    assert [s, Witness(k)][0] == s;
    CreditIsPath(s);
    ReturnAfter(s, r);
  }

  lemma WithIsCredited(s: Stmt, k: nat, r: nat)
    requires s == With([Witness(k)])
    ensures Record(r, true) in Walked([s, Return(r, true)], [s, Return(r, true)], [])
  {
    WitnessBlock(k, r);
    HoldsNothing(s, r);
    WitnessInBlock(s, [Witness(k)], k, r);
  }

  lemma TryIsCredited(s: Stmt, k: nat, r: nat)
    requires s.Try? && !Contains(s, r)
    requires s.body == [Witness(k)] || s.orelse == [Witness(k)] || s.finalbody == [Witness(k)] || Arm([Witness(k)]) in s.handlers
    ensures Record(r, true) in Walked([s, Return(r, true)], [s, Return(r, true)], [])
  {
    WitnessBlock(k, r);
    WitnessInBlock(s, [Witness(k)], k, r);
  }

  // `if c: witness` falling through is credited, yet the path around it is silent.
  lemma GuardIsCredited(s: Stmt, k: nat, r: nat)
    requires s == If([Witness(k)], [])
    ensures Record(r, true) in Walked([s, Return(r, true)], [s, Return(r, true)], [])
    ensures !EveryPathEmits([s, Return(r, true)], r)
  {
    WitnessBlock(k, r);
    HoldsNothing(s, r);
    assert Arm([Witness(k)]) in ChildBlocks(s) && ContainsWitness(Arm([Witness(k)]).body) && !AlwaysExits(Arm([Witness(k)]).body);
    assert Credits(s);
    ReturnAfter(s, r);
    assert Possible(s.orelse, Leave(Fall), Silently);
  }

  // A nested function body is searched like a child block, though defining it runs nothing.
  lemma NestedDefIsCredited(s: Stmt, k: nat, r: nat)
    requires s == Def([Witness(k)])
    ensures Record(r, true) in Walked([s, Return(r, true)], [s, Return(r, true)], [])
    ensures !EmittingPath([s, Return(r, true)], r)
  {
    WitnessBlock(k, r);
    HoldsNothing(s, r);
    assert Arm([Witness(k)]) in ChildBlocks(s) && ContainsWitness(Arm([Witness(k)]).body) && !AlwaysExits(Arm([Witness(k)]).body);
    assert Credits(s);
    ReturnAfter(s, r);
  }

  // A loop body ending in `continue` counts as exiting, so its witness is not credited; the
  // loop still can fall through after emitting.
  lemma ContinueHidesWitness(s: Stmt, k: nat, r: nat)
    requires s == Loop([Witness(k), Continue], [])
    ensures Record(r, false) in Walked([s, Return(r, true)], [s, Return(r, true)], [])
    ensures EmittingPath([s, Return(r, true)], r)
  {
    PairHolds(Witness(k), Continue, r);
    LeafHoldsNothing(Witness(k), r);
    LeafHoldsNothing(Continue, r);
    assert ChildBlocks(s) == [Arm(s.body), Arm([])];
    HoldsNothing(s, r);
    assert AlwaysExits(s.body) && !ContainsWitness([]);
    assert !Credits(s);
    ReturnAfter(s, r);
    assert s.body[1..] == [Continue];
    SinglePossible(Continue, Leave(Continued), Anyhow);
    assert Joins(Emitting, Emitting, Anyhow) && PossibleStmt(s.body[0], Leave(Fall), Emitting);
    assert EmittingRound(s) && PossibleLast(s, Leave(Fall), Anyhow);
  }

  // A witness in a preceding `match` is not credited either, though the match can fall
  // through after emitting.
  lemma MatchHidesWitness(s: Stmt, k: nat, r: nat)
    requires s == Match([Arm([Witness(k)])])
    ensures Record(r, false) in Walked([s, Return(r, true)], [s, Return(r, true)], [])
    ensures EmittingPath([s, Return(r, true)], r)
  {
    WitnessBlock(k, r);
    HoldsNothing(s, r);
    assert !Credits(s);
    ReturnAfter(s, r);
    assert Arm([Witness(k)]) in s.cases && Possible(Arm([Witness(k)]).body, Leave(Fall), Emitting);
  }

  // `for ...: witness; break` with an else block that returns: every path to what follows
  // emits, and the witness is dropped.
  lemma LoopElseDropsWitness(s: Stmt, k: nat, q: nat, r: nat)
    requires s == Loop([Witness(k), Break], [Return(q, false)]) && q != r
    ensures Record(r, false) in Walked([s, Return(r, true)], [s, Return(r, true)], [])
    ensures EveryPathEmits([s, Return(r, true)], r) && EmittingPath([s, Return(r, true)], r)
  {
    PairHolds(Witness(k), Break, r);
    LeafHoldsNothing(Witness(k), r);
    LeafHoldsNothing(Break, r);
    LeafHoldsNothing(Return(q, false), r);
    OneHolds(Return(q, false), r);
    assert ChildBlocks(s) == [Arm(s.body), Arm(s.orelse)];
    HoldsNothing(s, r);
    assert AlwaysExits(s.body) && AlwaysExits(s.orelse);
    assert !Credits(s);
    ReturnAfter(s, r);
    BreakAfterWitness(k);
    ExitNeverFalls(s.orelse, Silently);
    assert !PossibleLast(s, Leave(Fall), Silently) && !PossibleLoop(s, Leave(Fall), Silently);
    assert PossibleLast(s, Leave(Fall), Emitting) && PossibleLoop(s, Leave(Fall), Emitting);
  }

  lemma BreakAfterWitness(k: nat)
    ensures !Possible([Witness(k), Break], Leave(Broke), Silently)
    ensures Possible([Witness(k), Break], Leave(Broke), Emitting)
  {
    var b := [Witness(k), Break];
    assert b[1..] == [Break];
    SinglePossible(Break, Leave(Broke), Anyhow);
    assert Joins(Emitting, Emitting, Anyhow) && PossibleStmt(b[0], Leave(Fall), Emitting);
  }

  // `try: witness / except: raise / else: return state`: the witness precedes the else block on
  // every path, but is not looked at for a return in there.
  lemma TryElseDropsWitness(s: Stmt, k: nat, r: nat)
    requires s == Try([Witness(k)], [Arm([Raise])], [Return(r, true)], [])
    ensures Record(r, false) in Walked([s], [s], [])
    ensures EveryPathEmits([s], r) && EmittingPath([s], r)
  {
    TryElseVerdict(s, k, r);
    PathsAreText([s], r);
    WitnessBlock(k, r);
    RaiseBlock(r);
    forall m ensures Possible([s], Arrive(r), m) <==> PossibleTried(s, Arrive(r), m) {
      SinglePossible(s, Arrive(r), m);
    }
    forall m ensures !Possible([Witness(k)], Arrive(r), m) && !Possible([Raise], Arrive(r), m) {
      NotReached([Witness(k)], r, m);
      NotReached([Raise], r, m);
    }
    assert !PossibleTried(s, Arrive(r), Silently);
    SinglePossible(Return(r, true), Arrive(r), Anyhow);
    assert Joins(Emitting, Emitting, Anyhow) && Possible(s.body, Leave(Fall), Emitting) && Possible(s.orelse, Arrive(r), Anyhow);
  }

  lemma RaiseBlock(r: nat)
    ensures Count([Raise], r) == 0
  {
    LeafHoldsNothing(Raise, r);
    OneHolds(Raise, r);
  }

  lemma TryElseVerdict(s: Stmt, k: nat, r: nat)
    requires s == Try([Witness(k)], [Arm([Raise])], [Return(r, true)], [])
    ensures Record(r, false) in Walked([s], [s], [])
  {
    TryElseHolds(s, k, r);
    OneHolds(s, r);
    assert OwnsStmt(Return(r, true), r) && Owns(s.orelse, r);
    assert Arm(s.orelse) in ChildBlocks(s) && Owns(Arm(s.orelse).body, r);
    assert OwnsStmt(s, r) && Owns([s], r);
    RecordOf([s], r);
    assert !Witnessed([Return(r, true)], r) by {
      assert Contains(Return(r, true), r) && ChildBlocks(Return(r, true)) == [];
    }
    RaiseBlock(r);
    WitnessBlock(k, r);
    assert !Witnessed([s], r);
  }

  lemma TryElseHolds(s: Stmt, k: nat, r: nat)
    requires s == Try([Witness(k)], [Arm([Raise])], [Return(r, true)], [])
    ensures CountIn(s, r) == 1
  {
    WitnessBlock(k, r);
    RaiseBlock(r);
    OneHolds(Return(r, true), r);
    ChildIsSmaller(s);
    var arms := ChildBlocks(s);
    assert arms == [Arm(s.body), Arm(s.orelse), Arm([]), Arm([Raise])];
    assert arms[1..] == [Arm(s.orelse), Arm([]), Arm([Raise])] && arms[1..][1..] == [Arm([]), Arm([Raise])];
    ArmsHold(s, arms[1..][1..], r);
    assert CountArms(s, arms[1..], r) == 1;
  }
}
