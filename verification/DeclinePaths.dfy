// Which executions a block has, decided on its text alone: for every way of leaving it and
// every return inside it, whether some execution gets there, gets there silently, or gets
// there after emitting a witness.  The decision is exact for every statement of the language.

module DeclinePaths {
  import opened ApplyDeclines
  import opened DeclineExecutions

  // Where an execution is to get: out of the block, or to a return inside it.
  datatype Goal = Leave(how: Outcome) | Arrive(at: nat)

  // How it is to get there.
  datatype Manner = Anyhow | Silently | Emitting

  // Two stretches, the first in manner x, make one in manner m.
  predicate Joins(m: Manner, x: Manner, y: Manner) {
    match m
    case Anyhow => x.Anyhow? && y.Anyhow?
    case Silently => x.Silently? && y.Silently?
    case Emitting => (x.Emitting? && y.Anyhow?) || (x.Anyhow? && y.Emitting?)
  }

  // ---------------------------------------------------------------- on the text

  predicate Possible(b: Block, g: Goal, m: Manner)
    decreases b, 3
  {
    if b == [] then g == Leave(Fall) && m != Emitting
    else
      || (g != Leave(Fall) && PossibleStmt(b[0], g, m))
      || exists x, y :: Joins(m, x, y) && PossibleStmt(b[0], Leave(Fall), x) && Possible(b[1..], g, y)
  }

  predicate PossibleStmt(s: Stmt, g: Goal, m: Manner)
    decreases s, 2
  {
    || (g == Leave(Raised) && m != Emitting)
    || match s
       case Simple => g == Leave(Fall) && m != Emitting
       case Witness(_) => g == Leave(Fall) && m != Silently
       case Return(r, _) => (g == Leave(Returned) || g == Arrive(r)) && m != Emitting
       case Raise => false
       case Break => g == Leave(Broke) && m != Emitting
       case Continue => g == Leave(Continued) && m != Emitting
       case If(body, orelse) => Possible(body, g, m) || Possible(orelse, g, m)
       case Loop(_, _) => PossibleLoop(s, g, m)
       case With(body) =>
         || Possible(body, g, m)
         || (g == Leave(Fall) && Possible(body, Leave(Raised), m))
         || (g == Leave(Raised) && exists q :: Possible(body, Leave(q), m))
       case Try(_, _, _, finalbody) =>
         || (g.Arrive? && PossibleTried(s, g, m))
         || exists x, y, q, f :: Joins(m, x, y) && PossibleTried(s, Leave(q), x) && FinallyTo(finalbody, g, q, f, y)
       case Match(cases) => (g == Leave(Fall) && m != Emitting) || exists a :: a in cases && Possible(a.body, g, m)
       case Def(_) => g == Leave(Fall) && m != Emitting
  }

  // Earlier rounds matter only for having emitted.
  predicate PossibleLoop(s: Stmt, g: Goal, m: Manner)
    requires s.Loop?
    decreases s, 1
  {
    || PossibleLast(s, g, m)
    || (m == Emitting && EmittingRound(s) && PossibleLast(s, g, Anyhow))
  }

  // A round that emits and lets another one start.
  predicate EmittingRound(s: Stmt)
    requires s.Loop?
    decreases s, 0
  {
    Possible(s.body, Leave(Fall), Emitting) || Possible(s.body, Leave(Continued), Emitting)
  }

  // The last round, or the else block.
  predicate PossibleLast(s: Stmt, g: Goal, m: Manner)
    requires s.Loop?
    decreases s, 0
  {
    || (g == Leave(Raised) && m != Emitting)
    || Possible(s.orelse, g, m)
    || ((g.Arrive? || g == Leave(Returned) || g == Leave(Raised)) && Possible(s.body, g, m))
    || (g == Leave(Fall) && Possible(s.body, Leave(Broke), m))
  }

  // The body of a try with its else block, or with one handler.
  predicate PossibleTried(s: Stmt, g: Goal, m: Manner)
    requires s.Try?
    decreases s, 1
  {
    || (g != Leave(Fall) && Possible(s.body, g, m))
    || (exists x, y :: Joins(m, x, y) && Possible(s.body, Leave(Fall), x) && Possible(s.orelse, g, y))
    || (exists x, y, h :: h in s.handlers && Joins(m, x, y) && Possible(s.body, Leave(Raised), x) && Possible(h.body, g, y))
  }

  // The finally block after the rest has left by q: g inside it, or by leaving it as f.
  predicate FinallyTo(finalbody: Block, g: Goal, q: Outcome, f: Outcome, m: Manner)
    decreases finalbody, 4
  {
    match g
    case Arrive(_) => Possible(finalbody, g, m)
    case Leave(o) => Possible(finalbody, Leave(f), m) && o == if f == Fall then q else f
  }

  // ---------------------------------------------------------------- on executions

  ghost predicate Emits(t: Trace) {
    exists k :: Emit(k) in t
  }

  ghost predicate InManner(t: Trace, m: Manner) {
    match m
    case Anyhow => true
    case Silently => !Emits(t)
    case Emitting => Emits(t)
  }

  // The execution with trace t and outcome o gets to g in manner m.
  ghost predicate Meets(t: Trace, o: Outcome, g: Goal, m: Manner) {
    match g
    case Leave(how) => o == how && InManner(t, m)
    case Arrive(r) => exists p :: 0 <= p < |t| && t[p] == Reach(r) && InManner(t[..p], m)
  }

  lemma EmitsConcat(u: Trace, v: Trace)
    ensures Emits(u + v) <==> Emits(u) || Emits(v)
  {
    if Emits(u) { var k :| Emit(k) in u; assert Emit(k) in u + v; }
    if Emits(v) { var k :| Emit(k) in v; assert Emit(k) in u + v; }
  }

  lemma NothingEmits()
    ensures !Emits([])
  {
  }

  lemma JoinManner(u: Trace, v: Trace, m: Manner, x: Manner, y: Manner)
    requires Joins(m, x, y) && InManner(u, x) && InManner(v, y)
    ensures InManner(u + v, m)
  {
    EmitsConcat(u, v);
  }

  lemma SplitManner(u: Trace, v: Trace, m: Manner) returns (x: Manner, y: Manner)
    requires InManner(u + v, m)
    ensures Joins(m, x, y) && InManner(u, x) && InManner(v, y)
  {
    EmitsConcat(u, v);
    match m
    case Anyhow => x, y := Anyhow, Anyhow;
    case Silently => x, y := Silently, Silently;
    case Emitting => if Emits(u) { x, y := Emitting, Anyhow; } else { x, y := Anyhow, Emitting; }
  }

  // A stretch in manner x, then an execution getting to g in manner y.
  lemma MeetsJoin(u: Trace, v: Trace, o: Outcome, g: Goal, m: Manner, x: Manner, y: Manner)
    requires Joins(m, x, y) && InManner(u, x) && Meets(v, o, g, y)
    ensures Meets(u + v, o, g, m)
  {
    match g
    case Leave(_) => JoinManner(u, v, m, x, y);
    case Arrive(r) =>
      var p :| 0 <= p < |v| && v[p] == Reach(r) && InManner(v[..p], y);
      JoinManner(u, v[..p], m, x, y);
      assert (u + v)[|u| + p] == Reach(r) && (u + v)[..|u| + p] == u + v[..p];
  }

  // Having arrived, an execution may go on and leave in any way.
  lemma MeetsOnward(u: Trace, v: Trace, o: Outcome, q: Outcome, g: Goal, m: Manner)
    requires g.Arrive? && Meets(u, o, g, m)
    ensures Meets(u + v, q, g, m)
  {
    var p :| 0 <= p < |u| && u[p] == Reach(g.at) && InManner(u[..p], m);
    assert (u + v)[p] == Reach(g.at) && (u + v)[..p] == u[..p];
  }

  // An execution in two stretches arrives in the first, or gets to g in the second.
  lemma MeetsSplit(u: Trace, v: Trace, o: Outcome, g: Goal, m: Manner) returns (here: bool, x: Manner, y: Manner)
    requires Meets(u + v, o, g, m)
    ensures here ==> g.Arrive? && forall q :: Meets(u, q, g, m)
    ensures !here ==> Joins(m, x, y) && InManner(u, x) && Meets(v, o, g, y)
  {
    var t := u + v;
    here, x, y := false, Anyhow, Anyhow;
    match g
    case Leave(_) => x, y := SplitManner(u, v, m);
    case Arrive(r) =>
      var p :| 0 <= p < |t| && t[p] == Reach(r) && InManner(t[..p], m);
      if p < |u| {
        assert u[p] == Reach(r) && u[..p] == t[..p];
        here := true;
      } else {
        var p' := p - |u|;
        assert v[p'] == Reach(r) && t[..p] == u + v[..p'];
        x, y := SplitManner(u, v[..p'], m);
      }
  }

  // ---------------------------------------------------------------- what is possible has an execution

  lemma SomeRun(b: Block) returns (t: Trace, o: Outcome)
    ensures Runs(b, t, o)
  {
    t, o := [], if b == [] then Fall else Raised;
    if b != [] { assert RunsStmt(b[0], t, o); }
  }

  // An execution of the first statement, gone on with if it falls through.
  lemma ArrivedRuns(b: Block, t: Trace, o: Outcome, g: Goal, m: Manner) returns (t': Trace, o': Outcome)
    requires b != [] && RunsStmt(b[0], t, o) && Meets(t, o, g, m) && g != Leave(Fall)
    ensures Runs(b, t', o') && Meets(t', o', g, m)
  {
    if o != Fall {
      t', o' := t, o;
    } else {
      var rest;
      rest, o' := SomeRun(b[1..]);
      t' := t + rest;
      RunsThen(b, t, rest, o');
      MeetsOnward(t, rest, o, o', g, m);
    }
  }

  lemma {:induction false} PossibleRuns(b: Block, g: Goal, m: Manner) returns (t: Trace, o: Outcome)
    requires Possible(b, g, m)
    ensures Runs(b, t, o) && Meets(t, o, g, m)
    decreases b, 3
  {
    if b == [] {
      t, o := [], Fall;
      NothingEmits();
    } else if g != Leave(Fall) && PossibleStmt(b[0], g, m) {
      var u, q := StmtRuns(b[0], g, m);
      t, o := ArrivedRuns(b, u, q, g, m);
    } else {
      var x, y :| Joins(m, x, y) && PossibleStmt(b[0], Leave(Fall), x) && Possible(b[1..], g, y);
      var u, q := StmtRuns(b[0], Leave(Fall), x);
      var v;
      v, o := PossibleRuns(b[1..], g, y);
      t := u + v;
      RunsThen(b, u, v, o);
      MeetsJoin(u, v, o, g, m, x, y);
    }
  }

  lemma {:induction false} StmtRuns(s: Stmt, g: Goal, m: Manner) returns (t: Trace, o: Outcome)
    requires PossibleStmt(s, g, m)
    ensures RunsStmt(s, t, o) && Meets(t, o, g, m)
    decreases s, 2
  {
    if g == Leave(Raised) && m != Emitting {
      t, o := [], Raised;
      NothingEmits();
    } else {
      match s
      case Simple => t, o := [], Fall; NothingEmits();
      case Witness(k) => t, o := [Emit(k)], Fall; assert Emit(k) in t;
      case Return(r, _) =>
        t, o := [Reach(r)], Returned;
        assert t[0] == Reach(r) && t[..0] == [];
        NothingEmits();
      case Break => t, o := [], Broke; NothingEmits();
      case Continue => t, o := [], Continued; NothingEmits();
      case If(body, orelse) =>
        if Possible(body, g, m) { t, o := PossibleRuns(body, g, m); } else { t, o := PossibleRuns(orelse, g, m); }
      case Loop(_, _) => t, o := LoopRuns(s, g, m);
      case With(body) => t, o := WithRuns(s, g, m);
      case Try(_, _, _, _) => t, o := TryRuns(s, g, m);
      case Match(cases) =>
        if a :| a in cases && Possible(a.body, g, m) {
          t, o := PossibleRuns(a.body, g, m);
        } else {
          t, o := [], Fall;
          NothingEmits();
        }
      case Def(_) => t, o := [], Fall; NothingEmits();
    }
  }

  lemma {:induction false} WithRuns(s: Stmt, g: Goal, m: Manner) returns (t: Trace, o: Outcome)
    requires s.With? && PossibleStmt(s, g, m) && (g == Leave(Raised) ==> m == Emitting)
    ensures RunsStmt(s, t, o) && Meets(t, o, g, m)
    decreases s, 1
  {
    if Possible(s.body, g, m) {
      t, o := PossibleRuns(s.body, g, m);
    } else if g == Leave(Fall) {
      var q;
      t, q := PossibleRuns(s.body, Leave(Raised), m);
      o := Fall;
    } else {
      var q :| Possible(s.body, Leave(q), m);
      var q';
      t, q' := PossibleRuns(s.body, Leave(q), m);
      o := Raised;
    }
  }

  // One more round in front of what a loop does.
  lemma RoundThen(s: Stmt, n: nat, u: Trace, q: Outcome, v: Trace, o: Outcome)
    requires s.Loop? && Runs(s.body, u, q) && (q == Fall || q == Continued) && RunsLoop(s, n, v, o)
    ensures RunsLoop(s, n + 1, u + v, o)
  {
    var t := u + v;
    assert t[..|u|] == u && t[|u|..] == v;
  }

  lemma {:induction false} LoopRuns(s: Stmt, g: Goal, m: Manner) returns (t: Trace, o: Outcome)
    requires s.Loop? && PossibleLoop(s, g, m)
    ensures RunsStmt(s, t, o) && Meets(t, o, g, m)
    decreases s, 1
  {
    var n;
    if PossibleLast(s, g, m) {
      t, o, n := LastRuns(s, g, m);
    } else {
      var q := if Possible(s.body, Leave(Fall), Emitting) then Fall else Continued;
      var u, q' := PossibleRuns(s.body, Leave(q), Emitting);
      var v;
      v, o, n := LastRuns(s, g, Anyhow);
      RoundThen(s, n, u, q, v, o);
      t, n := u + v, n + 1;
      MeetsJoin(u, v, o, g, m, Emitting, Anyhow);
    }
    assert RunsLoop(s, n, t, o);
  }

  lemma {:induction false} LastRuns(s: Stmt, g: Goal, m: Manner) returns (t: Trace, o: Outcome, n: nat)
    requires s.Loop? && PossibleLast(s, g, m)
    ensures RunsLoop(s, n, t, o) && Meets(t, o, g, m)
    decreases s, 0
  {
    n := 0;
    if g == Leave(Raised) && m != Emitting {
      t, o := [], Raised;
      NothingEmits();
    } else if Possible(s.orelse, g, m) {
      t, o := PossibleRuns(s.orelse, g, m);
    } else if g == Leave(Fall) {
      var q;
      t, q := PossibleRuns(s.body, Leave(Broke), m);
      o := Fall;
    } else {
      t, o := PossibleRuns(s.body, g, m);
      if o == Fall || o == Continued {
        var nothing: Trace := [];
        RoundThen(s, 0, t, o, nothing, Raised);
        MeetsOnward(t, nothing, o, Raised, g, m);
        t, o, n := t + nothing, Raised, 1;
      } else if o == Broke {
        MeetsOnward(t, [], o, Fall, g, m);
        assert t + [] == t;
        o := Fall;
      }
    }
  }

  lemma {:induction false} TryRuns(s: Stmt, g: Goal, m: Manner) returns (t: Trace, o: Outcome)
    requires s.Try? && PossibleStmt(s, g, m) && (g == Leave(Raised) ==> m == Emitting)
    ensures RunsStmt(s, t, o) && Meets(t, o, g, m)
    decreases s, 1
  {
    if g.Arrive? && PossibleTried(s, g, m) {
      var u, q := TriedRuns(s, g, m);
      var v, f := SomeRun(s.finalbody);
      t, o := FinallyThen(s, u, q, v, f);
      MeetsOnward(u, v, q, o, g, m);
    } else {
      var x, y, q, f :| Joins(m, x, y) && PossibleTried(s, Leave(q), x) && FinallyTo(s.finalbody, g, q, f, y);
      var u, q' := TriedRuns(s, Leave(q), x);
      var v, f' := PossibleRuns(s.finalbody, if g.Arrive? then g else Leave(f), y);
      t, o := FinallyThen(s, u, q, v, f');
      if g.Arrive? {
        MeetsOnward(v, [], f', o, g, y);
        assert v + [] == v;
        MeetsJoin(u, v, o, g, m, x, y);
      } else {
        JoinManner(u, v, m, x, y);
      }
    }
  }

  lemma FinallyThen(s: Stmt, u: Trace, q: Outcome, v: Trace, f: Outcome) returns (t: Trace, o: Outcome)
    requires s.Try? && RunsTried(s, u, q) && Runs(s.finalbody, v, f)
    ensures t == u + v && o == (if f == Fall then q else f) && RunsStmt(s, t, o)
  {
    t, o := u + v, if f == Fall then q else f;
    assert t[..|u|] == u && t[|u|..] == v;
  }

  lemma {:induction false} TriedRuns(s: Stmt, g: Goal, m: Manner) returns (t: Trace, o: Outcome)
    requires s.Try? && PossibleTried(s, g, m)
    ensures RunsTried(s, t, o) && Meets(t, o, g, m)
    decreases s, 0
  {
    if g != Leave(Fall) && Possible(s.body, g, m) {
      t, o := PossibleRuns(s.body, g, m);
      if o == Fall {
        var v, q := SomeRun(s.orelse);
        ElseThen(s, t, v, q);
        MeetsOnward(t, v, o, q, g, m);
        t, o := t + v, q;
      }
    } else if x, y :| Joins(m, x, y) && Possible(s.body, Leave(Fall), x) && Possible(s.orelse, g, y) {
      var u, q := PossibleRuns(s.body, Leave(Fall), x);
      var v;
      v, o := PossibleRuns(s.orelse, g, y);
      ElseThen(s, u, v, o);
      t := u + v;
      MeetsJoin(u, v, o, g, m, x, y);
    } else {
      var x, y, h :| h in s.handlers && Joins(m, x, y) && Possible(s.body, Leave(Raised), x) && Possible(h.body, g, y);
      var u, q := PossibleRuns(s.body, Leave(Raised), x);
      var v;
      v, o := PossibleRuns(h.body, g, y);
      HandlerThen(s, h, u, v, o);
      t := u + v;
      MeetsJoin(u, v, o, g, m, x, y);
    }
  }

  lemma ElseThen(s: Stmt, u: Trace, v: Trace, o: Outcome)
    requires s.Try? && Runs(s.body, u, Fall) && Runs(s.orelse, v, o)
    ensures RunsTried(s, u + v, o)
  {
    var t := u + v;
    assert t[..|u|] == u && t[|u|..] == v;
  }

  lemma HandlerThen(s: Stmt, h: Arm, u: Trace, v: Trace, o: Outcome)
    requires s.Try? && h in s.handlers && Runs(s.body, u, Raised) && Runs(h.body, v, o)
    ensures RunsTried(s, u + v, o)
  {
    var t := u + v;
    assert t[..|u|] == u && t[|u|..] == v;
  }

  // ---------------------------------------------------------------- what has an execution is possible

  lemma {:induction false} RunsPossible(b: Block, t: Trace, o: Outcome, g: Goal, m: Manner)
    requires Runs(b, t, o) && Meets(t, o, g, m)
    ensures Possible(b, g, m)
    decreases b, 3
  {
    if b == [] {
      NothingEmits();
    } else if o != Fall && RunsStmt(b[0], t, o) {
      StmtPossible(b[0], t, o, g, m);
    } else {
      var i: nat :| i <= |t| && RunsStmt(b[0], t[..i], Fall) && Runs(b[1..], t[i..], o);
      assert t == t[..i] + t[i..];
      var here, x, y := MeetsSplit(t[..i], t[i..], o, g, m);
      if here {
        StmtPossible(b[0], t[..i], Fall, g, m);
      } else {
        StmtPossible(b[0], t[..i], Fall, Leave(Fall), x);
        RunsPossible(b[1..], t[i..], o, g, y);
      }
    }
  }

  lemma {:induction false} StmtPossible(s: Stmt, t: Trace, o: Outcome, g: Goal, m: Manner)
    requires RunsStmt(s, t, o) && Meets(t, o, g, m)
    ensures PossibleStmt(s, g, m)
    decreases s, 2
  {
    if t == [] && o == Raised {
      NothingEmits();
    } else {
      match s
      case Simple => NothingEmits();
      case Witness(k) => assert Emit(k) in t;
      case Return(r, _) => ReturnPossible(s, t, g, m);
      case Break => NothingEmits();
      case Continue => NothingEmits();
      case If(body, orelse) =>
        RunsPossible(if Runs(body, t, o) then body else orelse, t, o, g, m);
      case Loop(_, _) =>
        var n: nat :| RunsLoop(s, n, t, o);
        LoopPossible(s, n, t, o, g, m);
      case With(body) =>
        var inner :| Runs(body, t, inner) && (o == inner || o == Raised || (inner == Raised && o == Fall));
        if g.Arrive? {
          RunsPossible(body, t, inner, g, m);
        } else {
          RunsPossible(body, t, inner, Leave(inner), m);
        }
      case Try(_, _, _, _) => TryPossible(s, t, o, g, m);
      case Match(cases) =>
        if a :| a in cases && Runs(a.body, t, o) { RunsPossible(a.body, t, o, g, m); } else { NothingEmits(); }
      case Def(_) => NothingEmits();
    }
  }

  lemma ReturnPossible(s: Stmt, t: Trace, g: Goal, m: Manner)
    requires s.Return? && t == [Reach(s.id)] && Meets(t, Returned, g, m)
    ensures PossibleStmt(s, g, m)
  {
    assert t[..0] == [];
    NothingEmits();
  }

  lemma {:induction false} LoopPossible(s: Stmt, n: nat, t: Trace, o: Outcome, g: Goal, m: Manner)
    requires s.Loop? && RunsLoop(s, n, t, o) && Meets(t, o, g, m)
    ensures PossibleLoop(s, g, m)
    decreases s, 1, n
  {
    if t == [] && o == Raised {
      NothingEmits();
    } else if Runs(s.orelse, t, o) {
      RunsPossible(s.orelse, t, o, g, m);
    } else if Runs(s.body, t, Broke) && o == Fall {
      BodyPossible(s, t, Broke, o, g, m);
    } else if (o == Returned || o == Raised) && Runs(s.body, t, o) {
      BodyPossible(s, t, o, o, g, m);
    } else {
      var i: nat :| i <= |t| && (Runs(s.body, t[..i], Fall) || Runs(s.body, t[..i], Continued)) &&
        RunsLoop(s, n - 1, t[i..], o);
      var q := if Runs(s.body, t[..i], Fall) then Fall else Continued;
      assert t == t[..i] + t[i..];
      var here, x, y := MeetsSplit(t[..i], t[i..], o, g, m);
      if here {
        RunsPossible(s.body, t[..i], q, g, m);
      } else {
        LoopPossible(s, n - 1, t[i..], o, g, y);
        if m == Emitting && x == Emitting { RunsPossible(s.body, t[..i], q, Leave(q), Emitting); }
      }
    }
  }

  lemma {:induction false} BodyPossible(s: Stmt, t: Trace, q: Outcome, o: Outcome, g: Goal, m: Manner)
    requires s.Loop? && Runs(s.body, t, q) && Meets(t, o, g, m)
    requires (q == Broke && o == Fall) || (q == o && (o == Returned || o == Raised))
    ensures PossibleLast(s, g, m)
    decreases s, 0
  {
    RunsPossible(s.body, t, q, if g.Arrive? then g else Leave(q), m);
  }

  lemma {:induction false} TryPossible(s: Stmt, t: Trace, o: Outcome, g: Goal, m: Manner)
    requires s.Try? && RunsStmt(s, t, o) && Meets(t, o, g, m) && !(t == [] && o == Raised)
    ensures PossibleStmt(s, g, m)
    decreases s, 1
  {
    var i: nat, q, f :| i <= |t| && RunsTried(s, t[..i], q) && Runs(s.finalbody, t[i..], f) && o == if f == Fall then q else f;
    assert t == t[..i] + t[i..];
    var here, x, y := MeetsSplit(t[..i], t[i..], o, g, m);
    if here {
      TriedPossible(s, t[..i], q, g, m);
    } else {
      TriedPossible(s, t[..i], q, Leave(q), x);
      RunsPossible(s.finalbody, t[i..], f, if g.Arrive? then g else Leave(f), y);
      assert FinallyTo(s.finalbody, g, q, f, y);
    }
  }

  lemma {:induction false} TriedPossible(s: Stmt, t: Trace, o: Outcome, g: Goal, m: Manner)
    requires s.Try? && RunsTried(s, t, o) && Meets(t, o, g, m)
    ensures PossibleTried(s, g, m)
    decreases s, 0
  {
    if o != Fall && Runs(s.body, t, o) {
      RunsPossible(s.body, t, o, g, m);
    } else if i: nat :| i <= |t| && Runs(s.body, t[..i], Fall) && Runs(s.orelse, t[i..], o) {
      assert t == t[..i] + t[i..];
      var here, x, y := MeetsSplit(t[..i], t[i..], o, g, m);
      if here {
        RunsPossible(s.body, t[..i], Fall, g, m);
      } else {
        RunsPossible(s.body, t[..i], Fall, Leave(Fall), x);
        RunsPossible(s.orelse, t[i..], o, g, y);
      }
    } else {
      var i: nat, h :| i <= |t| && h in s.handlers && Runs(s.body, t[..i], Raised) && Runs(h.body, t[i..], o);
      assert t == t[..i] + t[i..];
      var here, x, y := MeetsSplit(t[..i], t[i..], o, g, m);
      if here {
        RunsPossible(s.body, t[..i], Raised, g, m);
      } else {
        RunsPossible(s.body, t[..i], Raised, Leave(Raised), x);
        RunsPossible(h.body, t[i..], o, g, y);
      }
    }
  }

  // ---------------------------------------------------------------- exactness

  // The decision is exact, for every block, goal and manner.
  lemma PossibleIsExact(b: Block, g: Goal, m: Manner)
    ensures Possible(b, g, m) <==> exists t, o :: Execution(b, t, o) && Meets(t, o, g, m)
  {
    if Possible(b, g, m) {
      var t, o := PossibleRuns(b, g, m);
      assert Execution(b, t, o) && Meets(t, o, g, m);
    }
    forall t, o | Execution(b, t, o) && Meets(t, o, g, m) ensures Possible(b, g, m) { RunsPossible(b, t, o, g, m); }
  }
}
