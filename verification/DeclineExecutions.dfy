// What the verdicts of the apply-decline scan say about executions.
//
// An execution of a block is summarised by the trace of witness emissions and return
// statements it passes, and by how it leaves the block.  Conditions are free, and every
// statement or condition may raise instead of completing.

module DeclineExecutions {
  import opened ApplyDeclines

  datatype Event = Emit(id: nat) | Reach(id: nat)
  type Trace = seq<Event>
  datatype Outcome = Fall | Returned | Raised | Broke | Continued

  // ---------------------------------------------------------------- executions

  ghost predicate Runs(b: Block, t: Trace, o: Outcome)
    decreases b, 3
  {
    if b == [] then t == [] && o == Fall
    else
      || (o != Fall && RunsStmt(b[0], t, o))
      || exists i: nat | i <= |t| :: RunsStmt(b[0], t[..i], Fall) && Runs(b[1..], t[i..], o)
  }

  ghost predicate RunsStmt(s: Stmt, t: Trace, o: Outcome)
    decreases s, 2
  {
    || (t == [] && o == Raised)
    || match s
       case Simple => t == [] && o == Fall
       case Witness(k) => t == [Emit(k)] && o == Fall
       case Return(r, _) => t == [Reach(r)] && o == Returned
       case Raise => false
       case Break => t == [] && o == Broke
       case Continue => t == [] && o == Continued
       case If(body, orelse) => Runs(body, t, o) || Runs(orelse, t, o)
       case Loop(_, _) => exists n: nat :: RunsLoop(s, n, t, o)
       // A context manager may swallow an exception of its body, or raise on exit.
       case With(body) =>
         exists inner :: Runs(body, t, inner) && (o == inner || o == Raised || (inner == Raised && o == Fall))
       case Try(_, _, _, finalbody) =>
         exists i: nat, tried, final | i <= |t| ::
           RunsTried(s, t[..i], tried) && Runs(finalbody, t[i..], final) &&
           o == if final == Fall then tried else final
       case Match(cases) =>
         (t == [] && o == Fall) || exists a :: a in cases && Runs(a.body, t, o)
       case Def(_) => t == [] && o == Fall
  }

  // At most n rounds of the body; leaving by exhaustion runs the else block.
  ghost predicate RunsLoop(s: Stmt, n: nat, t: Trace, o: Outcome)
    requires s.Loop?
    decreases s, 1, n
  {
    || (t == [] && o == Raised)
    || Runs(s.orelse, t, o)
    || (Runs(s.body, t, Broke) && o == Fall)
    || ((o == Returned || o == Raised) && Runs(s.body, t, o))
    || (n > 0 && exists i: nat | i <= |t| ::
         (Runs(s.body, t[..i], Fall) || Runs(s.body, t[..i], Continued)) && RunsLoop(s, n - 1, t[i..], o))
  }

  // The body of a try with its else block, or with one handler.
  ghost predicate RunsTried(s: Stmt, t: Trace, o: Outcome)
    requires s.Try?
    decreases s, 1
  {
    || (o != Fall && Runs(s.body, t, o))
    || (exists i: nat | i <= |t| :: Runs(s.body, t[..i], Fall) && Runs(s.orelse, t[i..], o))
    || (exists i: nat, h | i <= |t| && h in s.handlers :: Runs(s.body, t[..i], Raised) && Runs(h.body, t[i..], o))
  }

  // A complete execution of a function body.
  ghost predicate Execution(body: Block, t: Trace, o: Outcome) {
    Runs(body, t, o)
  }

  // ---------------------------------------------------------------- always exits

  lemma JumpNeverFalls(s: Stmt)
    requires s.Return? || s.Raise? || s.Break? || s.Continue?
    ensures forall t :: !RunsStmt(s, t, Fall)
  {
  }

  // Control never falls out of the bottom of a block the scan calls always-exiting.
  lemma {:induction false} AlwaysExitsNeverFalls(b: Block, t: Trace)
    requires AlwaysExits(b)
    ensures !Runs(b, t, Fall)
    decreases b, 1
  {
    if |b| == 1 {
      forall u ensures !RunsStmt(b[0], u, Fall) { LastNeverFalls(b, u); }
    } else {
      assert b[1..][|b| - 2] == b[|b| - 1];
      forall u ensures !Runs(b[1..], u, Fall) { AlwaysExitsNeverFalls(b[1..], u); }
    }
  }

  lemma {:induction false} LastNeverFalls(b: Block, t: Trace)
    requires |b| == 1 && AlwaysExits(b)
    ensures !RunsStmt(b[0], t, Fall)
    decreases b, 0
  {
    if b[0].If? {
      AlwaysExitsNeverFalls(b[0].body, t);
      AlwaysExitsNeverFalls(b[0].orelse, t);
    } else {
      JumpNeverFalls(b[0]);
    }
  }

  // ---------------------------------------------------------------- trace properties

  ghost predicate Composable(p: Trace -> bool) {
    p([]) && forall t, i: nat | i <= |t| && p(t[..i]) && p(t[i..]) :: p(t)
  }

  // A property that concatenation keeps passes from the child blocks to the statement.
  lemma {:induction false} StmtInherits(s: Stmt, t: Trace, o: Outcome, p: Trace -> bool)
    requires RunsStmt(s, t, o)
    requires Composable(p)
    requires s.Witness? ==> p([Emit(s.id)])
    requires s.Return? ==> p([Reach(s.id)])
    requires !s.Def? ==> forall a, u, q :: a in ChildBlocks(s) && Runs(a.body, u, q) ==> p(u)
    ensures p(t)
  {
    if t == [] {
    } else if s.If? {
      assert Arm(s.body) in ChildBlocks(s) && Arm(s.orelse) in ChildBlocks(s);
    } else if s.Loop? {
      var n: nat :| RunsLoop(s, n, t, o);
      LoopInherits(s, n, t, o, p);
    } else if s.With? {
      assert Arm(s.body) in ChildBlocks(s);
    } else if s.Try? {
      var i: nat, tried, final :| i <= |t| && RunsTried(s, t[..i], tried) && Runs(s.finalbody, t[i..], final);
      assert Arm(s.finalbody) in ChildBlocks(s);
      TryInherits(s, t[..i], tried, p);
    }
  }

  lemma {:induction false} LoopInherits(s: Stmt, n: nat, t: Trace, o: Outcome, p: Trace -> bool)
    requires s.Loop? && RunsLoop(s, n, t, o)
    requires Composable(p)
    requires forall a, u, q :: a in ChildBlocks(s) && Runs(a.body, u, q) ==> p(u)
    ensures p(t)
    decreases n
  {
    assert Arm(s.body) in ChildBlocks(s) && Arm(s.orelse) in ChildBlocks(s);
    if n > 0 && exists i: nat | i <= |t| ::
      (Runs(s.body, t[..i], Fall) || Runs(s.body, t[..i], Continued)) && RunsLoop(s, n - 1, t[i..], o)
    {
      var i: nat :| i <= |t| && (Runs(s.body, t[..i], Fall) || Runs(s.body, t[..i], Continued)) &&
        RunsLoop(s, n - 1, t[i..], o);
      LoopInherits(s, n - 1, t[i..], o, p);
    }
  }

  lemma TryInherits(s: Stmt, t: Trace, o: Outcome, p: Trace -> bool)
    requires s.Try? && RunsTried(s, t, o)
    requires Composable(p)
    requires forall a, u, q :: a in ChildBlocks(s) && Runs(a.body, u, q) ==> p(u)
    ensures p(t)
  {
    assert Arm(s.body) in ChildBlocks(s) && Arm(s.orelse) in ChildBlocks(s);
    if o != Fall && Runs(s.body, t, o) {
    } else if exists i: nat | i <= |t| :: Runs(s.body, t[..i], Fall) && Runs(s.orelse, t[i..], o) {
    } else {
      var i: nat, h :| i <= |t| && h in s.handlers && Runs(s.body, t[..i], Raised) && Runs(h.body, t[i..], o);
      assert h in ChildBlocks(s);
    }
  }

  lemma {:induction false} CountArmsZero(s: Stmt, arms: seq<Arm>, r: nat)
    requires forall a :: a in arms ==> (s decreases to a.body)
    requires CountArms(s, arms, r) == 0
    ensures forall a :: a in arms ==> Count(a.body, r) == 0
    decreases arms
  {
    if arms != [] { CountArmsZero(s, arms[1..], r); }
  }

  // A block without the return never reaches it.
  lemma {:induction false} NeverReaches(b: Block, r: nat, t: Trace, o: Outcome)
    requires Runs(b, t, o) && Count(b, r) == 0
    ensures Reach(r) !in t
    decreases b, 1
  {
    if b != [] {
      if o != Fall && RunsStmt(b[0], t, o) {
        StmtNeverReaches(b[0], r, t, o);
      } else {
        var i: nat :| i <= |t| && RunsStmt(b[0], t[..i], Fall) && Runs(b[1..], t[i..], o);
        StmtNeverReaches(b[0], r, t[..i], Fall);
        NeverReaches(b[1..], r, t[i..], o);
        assert t == t[..i] + t[i..];
      }
    }
  }

  lemma {:induction false} StmtNeverReaches(s: Stmt, r: nat, t: Trace, o: Outcome)
    requires RunsStmt(s, t, o) && CountIn(s, r) == 0
    ensures Reach(r) !in t
    decreases s, 0
  {
    ChildIsSmaller(s);
    var p := (u: Trace) => Reach(r) !in u;
    assert Composable(p) by {
      forall u: Trace, i: nat | i <= |u| && p(u[..i]) && p(u[i..]) ensures p(u) { assert u == u[..i] + u[i..]; }
    }
    if !s.Return? {
      CountArmsZero(s, ChildBlocks(s), r);
      forall a, u, q | a in ChildBlocks(s) && Runs(a.body, u, q) ensures p(u) {
        NeverReaches(a.body, r, u, q);
      }
    }
    StmtInherits(s, t, o, p);
  }

  lemma RunsThen(b: Block, t1: Trace, t2: Trace, o: Outcome)
    requires b != [] && RunsStmt(b[0], t1, Fall) && Runs(b[1..], t2, o)
    ensures Runs(b, t1 + t2, o)
  {
    var t := t1 + t2;
    assert t[..|t1|] == t1 && t[|t1|..] == t2;
  }

  // ---------------------------------------------------------------- direct witnesses

  // Every time t reaches return r, it has emitted witness k before.
  ghost predicate Guarded(t: Trace, r: nat, k: nat) {
    forall p :: 0 <= p < |t| && t[p] == Reach(r) ==> Emit(k) in t[..p]
  }

  // k stands directly in some block on the way down to r, before the ancestor of r there.
  ghost predicate DirectlyGuards(b: Block, r: nat, k: nat)
    decreases b
  {
    b != [] && (
      || (b[0] == Witness(k) && Count(b[1..], r) > 0)
      || (exists a :: a in ChildBlocks(b[0]) && (b[0] decreases to a.body) && DirectlyGuards(a.body, r, k))
      || DirectlyGuards(b[1..], r, k))
  }

  lemma GuardedConcat(t: Trace, i: nat, r: nat, k: nat)
    requires i <= |t| && Guarded(t[..i], r, k)
    requires Guarded(t[i..], r, k) || Emit(k) in t[..i]
    ensures Guarded(t, r, k)
  {
    forall p | 0 <= p < |t| && t[p] == Reach(r) ensures Emit(k) in t[..p] {
      if p < i {
        assert t[..i][..p] == t[..p];
      } else {
        assert t[i..][p - i] == Reach(r);
        assert t[..p] == t[..i] + t[i..p] && t[i..][..p - i] == t[i..p];
      }
    }
  }

  lemma {:induction false} CountArmsOne(s: Stmt, arms: seq<Arm>, r: nat, a: Arm)
    requires forall c :: c in arms ==> (s decreases to c.body)
    requires a in arms
    ensures CountArms(s, arms, r) >= Count(a.body, r)
    ensures CountArms(s, arms, r) <= 1 && Count(a.body, r) > 0 ==>
      forall c :: c in arms && c != a ==> Count(c.body, r) == 0
    decreases arms
  {
    if arms[0] == a {
      if CountArms(s, arms, r) <= 1 && Count(a.body, r) > 0 { CountArmsZero(s, arms[1..], r); }
    } else {
      CountArmsOne(s, arms[1..], r, a);
    }
  }

  lemma {:induction false} GuardHoldsReturn(b: Block, r: nat, k: nat)
    requires DirectlyGuards(b, r, k)
    ensures Count(b, r) > 0
    decreases b
  {
    if b[0] == Witness(k) && Count(b[1..], r) > 0 {
    } else if DirectlyGuards(b[1..], r, k) {
      GuardHoldsReturn(b[1..], r, k);
    } else {
      var a :| a in ChildBlocks(b[0]) && (b[0] decreases to a.body) && DirectlyGuards(a.body, r, k);
      GuardHoldsReturn(a.body, r, k);
      ChildIsSmaller(b[0]);
      CountArmsOne(b[0], ChildBlocks(b[0]), r, a);
    }
  }

  lemma GuardedComposes(r: nat, k: nat)
    ensures Composable((u: Trace) => Guarded(u, r, k))
  {
    var p := (u: Trace) => Guarded(u, r, k);
    forall u: Trace, i: nat | i <= |u| && p(u[..i]) && p(u[i..]) ensures p(u) { GuardedConcat(u, i, r, k); }
  }

  // A direct witness before the return's ancestor, in any enclosing block, has been
  // executed on every execution that reaches the return: loops, try and match included.
  lemma {:induction false} DirectWitnessDominates(b: Block, r: nat, k: nat, t: Trace, o: Outcome)
    requires DirectlyGuards(b, r, k) && Count(b, r) <= 1
    requires Runs(b, t, o)
    ensures Guarded(t, r, k)
    decreases b, 1
  {
    if o != Fall && RunsStmt(b[0], t, o) {
      HeadGuarded(b, r, k, t, o);
    } else {
      var i: nat :| i <= |t| && RunsStmt(b[0], t[..i], Fall) && Runs(b[1..], t[i..], o);
      HeadGuarded(b, r, k, t[..i], Fall);
      if b[0] == Witness(k) {
        assert t[..i] == [Emit(k)];
      } else if DirectlyGuards(b[1..], r, k) {
        DirectWitnessDominates(b[1..], r, k, t[i..], o);
      } else {
        TailWithoutReturn(b, r, k);
        NeverReaches(b[1..], r, t[i..], o);
      }
      GuardedConcat(t, i, r, k);
    }
  }

  lemma TailWithoutReturn(b: Block, r: nat, k: nat)
    requires DirectlyGuards(b, r, k) && Count(b, r) <= 1
    requires b[0] != Witness(k) && !DirectlyGuards(b[1..], r, k)
    ensures Count(b[1..], r) == 0
  {
    var a :| a in ChildBlocks(b[0]) && (b[0] decreases to a.body) && DirectlyGuards(a.body, r, k);
    GuardHoldsReturn(a.body, r, k);
    ChildIsSmaller(b[0]);
    CountArmsOne(b[0], ChildBlocks(b[0]), r, a);
  }

  lemma {:induction false} HeadGuarded(b: Block, r: nat, k: nat, t: Trace, o: Outcome)
    requires DirectlyGuards(b, r, k) && Count(b, r) <= 1
    requires RunsStmt(b[0], t, o)
    ensures Guarded(t, r, k)
    decreases b, 0
  {
    var s := b[0];
    if (s == Witness(k) && Count(b[1..], r) > 0) || DirectlyGuards(b[1..], r, k) {
      if s != Witness(k) { GuardHoldsReturn(b[1..], r, k); }
      StmtNeverReaches(s, r, t, o);
    } else {
      var a :| a in ChildBlocks(s) && (s decreases to a.body) && DirectlyGuards(a.body, r, k);
      GuardHoldsReturn(a.body, r, k);
      ChildIsSmaller(s);
      CountArmsOne(s, ChildBlocks(s), r, a);
      forall c, u, q | c in ChildBlocks(s) && Runs(c.body, u, q) ensures Guarded(u, r, k) {
        if c == a { DirectWitnessDominates(c.body, r, k, u, q); } else { NeverReaches(c.body, r, u, q); }
      }
      GuardedComposes(r, k);
      StmtInherits(s, t, o, (u: Trace) => Guarded(u, r, k));
    }
  }
}
