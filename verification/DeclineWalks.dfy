// What the walk over a function body records, and with which verdicts.

module DeclineWalks {
  import opened ApplyDeclines
  import opened DeclineExecutions

  // ---------------------------------------------------------------- the verdict, block by block

  // The verdict on r read from the outermost block down: some statement before r's ancestor
  // is credited, or the verdict holds inside the ancestor.
  ghost predicate Witnessed(b: Block, r: nat)
    decreases b
  {
    b != [] &&
    if Contains(b[0], r)
    then exists a :: a in ChildBlocks(b[0]) && (b[0] decreases to a.body) && Count(a.body, r) > 0 && Witnessed(a.body, r)
    else Credits(b[0]) || Witnessed(b[1..], r)
  }

  lemma CreditsOne(s: Stmt)
    ensures ContainsWitness([s]) == Credits(s)
  {
    assert [s][1..] == [];
    assert !ContainsWitness([]);
  }

  lemma {:induction false} WitnessedInLeaf(b: Block, r: nat, j: nat)
    requires j < |b| && Contains(b[j], r) && ChildBlocks(b[j]) == []
    requires Count(b, r) == 1
    ensures Witnessed(b, r) == CreditedIn(b, r)
    decreases b
  {
    CreditsOne(b[0]);
    if j > 0 {
      CountAt(b[1..], r, j - 1);
      WitnessedInLeaf(b[1..], r, j - 1);
    }
  }

  lemma {:induction false} CountAt(b: Block, r: nat, j: nat)
    requires j < |b|
    ensures Count(b, r) >= CountIn(b[j], r)
    decreases b
  {
    if j > 0 { CountAt(b[1..], r, j - 1); }
  }

  lemma {:induction false} WitnessedBelow(b: Block, r: nat, j: nat, a: Arm)
    requires j < |b| && a in ChildBlocks(b[j]) && Count(a.body, r) > 0
    requires Count(b, r) == 1
    ensures Count(a.body, r) == 1
    ensures Witnessed(b, r) == (CreditedIn(b, r) || Witnessed(a.body, r))
    decreases b
  {
    ChildIsSmaller(b[j]);
    CountArmsOne(b[j], ChildBlocks(b[j]), r, a);
    CreditsOne(b[0]);
    if j > 0 {
      CountAt(b[1..], r, j - 1);
      WitnessedBelow(b[1..], r, j - 1, a);
    }
  }

  lemma {:induction false} StackSnoc(r: nat, stack: seq<Block>, b: Block)
    ensures ReturnIsWitnessed(r, stack + [b]) == (ReturnIsWitnessed(r, stack) || CreditedIn(b, r))
  {
    if stack == [] {
      assert stack + [b] == [b];
    } else {
      assert (stack + [b])[1..] == stack[1..] + [b];
      StackSnoc(r, stack[1..], b);
    }
  }

  // Every record the walk makes for a return carries that return's verdict.
  lemma {:induction false} WalkedVerdict(rest: Block, block: Block, stack: seq<Block>, done: nat, rec: Record)
    requires done <= |block| && rest == block[done..]
    requires rec in Walked(rest, block, stack)
    requires Count(block, rec.id) == 1
    ensures rec.witnessed == (ReturnIsWitnessed(rec.id, stack) || Witnessed(block, rec.id))
    decreases rest, 1
  {
    var s := rest[0];
    StackSnoc(rec.id, stack, block);
    if rec in WalkedStmt(s, stack + [block]) {
      ChildIsSmaller(s);
      if s.Return? {
        WitnessedInLeaf(block, rec.id, done);
      } else {
        var a := ArmOfRecord(s, ChildBlocks(s), stack + [block], rec);
        RecordCounted(a.body, a.body, stack + [block], rec);
        WitnessedBelow(block, rec.id, done, a);
        WalkedVerdict(a.body, a.body, stack + [block], 0, rec);
      }
    } else {
      WalkedVerdict(rest[1..], block, stack, done + 1, rec);
    }
  }

  lemma {:induction false} ArmOfRecord(s: Stmt, arms: seq<Arm>, stack: seq<Block>, rec: Record) returns (a: Arm)
    requires forall c :: c in arms ==> (s decreases to c.body)
    requires rec in WalkedArms(s, arms, stack)
    ensures a in arms && rec in Walked(a.body, a.body, stack)
    decreases arms
  {
    if rec in Walked(arms[0].body, arms[0].body, stack) {
      a := arms[0];
    } else {
      a := ArmOfRecord(s, arms[1..], stack, rec);
    }
  }

  lemma {:induction false} RecordCounted(rest: Block, block: Block, stack: seq<Block>, rec: Record)
    requires rec in Walked(rest, block, stack)
    ensures Count(rest, rec.id) > 0
    decreases rest
  {
    var s := rest[0];
    if rec in WalkedStmt(s, stack + [block]) {
      ChildIsSmaller(s);
      if !s.Return? {
        var a := ArmOfRecord(s, ChildBlocks(s), stack + [block], rec);
        RecordCounted(a.body, a.body, stack + [block], rec);
        CountArmsOne(s, ChildBlocks(s), rec.id, a);
      }
    } else {
      RecordCounted(rest[1..], block, stack, rec);
    }
  }

  // A `return state` somewhere below, not inside a nested function.
  ghost predicate Owns(b: Block, r: nat)
    decreases b, 2
  {
    b != [] && (OwnsStmt(b[0], r) || Owns(b[1..], r))
  }

  ghost predicate OwnsStmt(s: Stmt, r: nat)
    decreases s, 1
  {
    if s.Return? then s.ofState && s.id == r
    else !s.Def? && exists a :: a in ChildBlocks(s) && (s decreases to a.body) && Owns(a.body, r)
  }

  ghost predicate Recorded(records: seq<Record>, r: nat) {
    exists rec :: rec in records && rec.id == r
  }

  // The walk records every such return, whatever statements it is nested in, and no other.
  lemma {:induction false} WalkRecordsReturns(rest: Block, block: Block, stack: seq<Block>, r: nat)
    ensures Recorded(Walked(rest, block, stack), r) <==> Owns(rest, r)
    decreases rest, 2
  {
    if rest != [] {
      var here, later := WalkedStmt(rest[0], stack + [block]), Walked(rest[1..], block, stack);
      StmtRecordsReturns(rest[0], stack + [block], r);
      WalkRecordsReturns(rest[1..], block, stack, r);
      RecordedConcat(here, later, r);
    }
  }

  lemma {:induction false} StmtRecordsReturns(s: Stmt, stack: seq<Block>, r: nat)
    ensures Recorded(WalkedStmt(s, stack), r) <==> OwnsStmt(s, r)
    decreases s, 1
  {
    ChildIsSmaller(s);
    if s.Return? {
      if s.ofState { assert WalkedStmt(s, stack)[0].id == s.id; }
    } else if !s.Def? {
      ArmsRecordReturns(s, ChildBlocks(s), stack, r);
    }
  }

  lemma {:induction false} ArmsRecordReturns(s: Stmt, arms: seq<Arm>, stack: seq<Block>, r: nat)
    requires forall a :: a in arms ==> (s decreases to a.body)
    ensures Recorded(WalkedArms(s, arms, stack), r) <==>
      exists a :: a in arms && (s decreases to a.body) && Owns(a.body, r)
    decreases s, 0, |arms|
  {
    if arms != [] {
      var a := arms[0];
      WalkRecordsReturns(a.body, a.body, stack, r);
      ArmsRecordReturns(s, arms[1..], stack, r);
      RecordedConcat(Walked(a.body, a.body, stack), WalkedArms(s, arms[1..], stack), r);
    }
  }

  lemma RecordedConcat(a: seq<Record>, b: seq<Record>, r: nat)
    ensures Recorded(a + b, r) <==> Recorded(a, r) || Recorded(b, r)
  {
    if Recorded(a, r) { var rec :| rec in a && rec.id == r; assert rec in a + b; }
    if Recorded(b, r) { var rec :| rec in b && rec.id == r; assert rec in a + b; }
  }

  // The scan of a function body as a whole.
  lemma ScanVerdict(body: Block, rec: Record)
    requires rec in Walked(body, body, [])
    requires Count(body, rec.id) == 1
    ensures rec.witnessed == Witnessed(body, rec.id)
  {
    WalkedVerdict(body, body, [], 0, rec);
  }

  // ---------------------------------------------------------------- what is credited

  // b is a statement list of s.
  ghost predicate BlockOf(b: Block, s: Stmt) {
    match s
    case If(body, orelse) => b == body || b == orelse
    case Loop(body, orelse) => b == body || b == orelse
    case With(body) => b == body
    case Try(body, handlers, orelse, finalbody) => b == body || b == orelse || b == finalbody || Arm(b) in handlers
    case Match(cases) => Arm(b) in cases
    case Def(body) => b == body
    case _ => false
  }

  lemma BlocksAre(b: Block, s: Stmt)
    ensures Arm(b) in ChildBlocks(s) <==> BlockOf(b, s)
  {
  }

  // From statement to statement through blocks that do not always exit, never out of a match,
  // down to a witness.
  ghost predicate CreditPath(p: seq<Stmt>) {
    && p != [] && p[|p| - 1].Witness?
    && forall i :: 0 <= i < |p| - 1 ==> Holds(p[i], p[i + 1])
  }

  ghost predicate Holds(s: Stmt, t: Stmt) {
    !s.Match? && exists b :: BlockOf(b, s) && t in b && !AlwaysExits(b)
  }

  lemma {:induction false} PathIsCredited(p: seq<Stmt>)
    requires CreditPath(p)
    ensures Credits(p[0])
    decreases |p|
  {
    if |p| > 1 {
      var q := p[1..];
      forall i | 0 <= i < |q| - 1 ensures Holds(q[i], q[i + 1]) { assert Holds(p[i + 1], p[i + 2]); }
      PathIsCredited(q);
      assert Holds(p[0], p[0 + 1]);
      var b :| BlockOf(b, p[0]) && p[1] in b && !AlwaysExits(b);
      BlocksAre(b, p[0]);
      MemberIsContained(b, p[1]);
      assert ContainsWitness(Arm(b).body) && !AlwaysExits(Arm(b).body);
    }
  }

  lemma {:induction false} MemberIsContained(b: Block, t: Stmt)
    requires t in b && Credits(t)
    ensures ContainsWitness(b)
  {
    if b[0] != t { MemberIsContained(b[1..], t); }
  }

  lemma {:induction false} ContainedMember(b: Block) returns (t: Stmt)
    requires ContainsWitness(b)
    ensures t in b && Credits(t)
  {
    if Credits(b[0]) { t := b[0]; } else { t := ContainedMember(b[1..]); }
  }

  lemma {:induction false} CreditedHasPath(s: Stmt) returns (p: seq<Stmt>)
    requires Credits(s)
    ensures CreditPath(p) && p[0] == s
    decreases s
  {
    if s.Witness? {
      p := [s];
    } else {
      ChildIsSmaller(s);
      var a :| a in ChildBlocks(s) && !AlwaysExits(a.body) && ContainsWitness(a.body);
      var t := ContainedMember(a.body);
      var q := CreditedHasPath(t);
      BlocksAre(a.body, s);
      assert Arm(a.body) == a && Holds(s, t);
      p := [s] + q;
      forall i | 0 <= i < |p| - 1 ensures Holds(p[i], p[i + 1]) {
        if i > 0 { assert Holds(q[i - 1], q[i]); }
      }
    }
  }

  // A statement is credited exactly when such a path leads from it to a witness: every block of
  // every statement but a match is searched, and blocks that always exit are not.
  lemma CreditIsPath(s: Stmt)
    ensures Credits(s) <==> exists p :: CreditPath(p) && p[0] == s
  {
    if Credits(s) { var p := CreditedHasPath(s); }
    if p :| CreditPath(p) && p[0] == s { PathIsCredited(p); }
  }

  // ---------------------------------------------------------------- the way down to a return

  // A statement in its block, by position.
  datatype Place = Place(block: Block, at: nat)

  ghost predicate InBlock(x: Place) {
    x.at < |x.block|
  }

  // From a block down to a return, each block one of the statement before it.
  ghost predicate Trail(t: seq<Place>, body: Block, r: nat) {
    && t != [] && t[0].block == body
    && (forall i :: 0 <= i < |t| ==> InBlock(t[i]))
    && (forall i :: 0 <= i < |t| - 1 ==> BlockOf(t[i + 1].block, t[i].block[t[i].at]))
    && var last := t[|t| - 1].block[t[|t| - 1].at]; last.Return? && last.id == r
  }

  lemma TrailBelow(t: seq<Place>, body: Block, r: nat)
    requires Trail(t, body, r) && |t| > 1
    ensures Trail(t[1..], t[1].block, r) && Arm(t[1].block) in ChildBlocks(body[t[0].at])
  {
    var u := t[1..];
    assert InBlock(t[0]) && BlockOf(t[0 + 1].block, t[0].block[t[0].at]);
    BlocksAre(t[1].block, body[t[0].at]);
    forall i | 0 <= i < |u| ensures InBlock(u[i]) { assert InBlock(t[i + 1]); }
    forall i | 0 <= i < |u| - 1 ensures BlockOf(u[i + 1].block, u[i].block[u[i].at]) {
      assert BlockOf(t[i + 1 + 1].block, t[i + 1].block[t[i + 1].at]);
    }
  }

  lemma {:induction false} TrailIsCounted(t: seq<Place>, body: Block, r: nat)
    requires Trail(t, body, r)
    ensures InBlock(t[0]) && Contains(body[t[0].at], r) && Count(body, r) > 0
    decreases |t|
  {
    assert InBlock(t[0]);
    var s := body[t[0].at];
    if |t| > 1 {
      TrailBelow(t, body, r);
      TrailIsCounted(t[1..], t[1].block, r);
      ChildIsSmaller(s);
      CountArmsOne(s, ChildBlocks(s), r, Arm(t[1].block));
    }
    CountAt(body, r, t[0].at);
  }

  lemma {:induction false} CountedHasTrail(body: Block, r: nat) returns (t: seq<Place>)
    requires Count(body, r) > 0
    ensures Trail(t, body, r)
    decreases body
  {
    var s := body[0];
    if CountIn(s, r) == 0 {
      var u := CountedHasTrail(body[1..], r);
      t := [Place(body, u[0].at + 1)] + u[1..];
      assert InBlock(u[0]) && body[1..][u[0].at] == body[u[0].at + 1];
      TrailMoved(u, t, body[1..], body, r);
    } else if s.Return? {
      t := [Place(body, 0)];
    } else {
      ChildIsSmaller(s);
      var a := ArmCounted(s, ChildBlocks(s), r);
      var u := CountedHasTrail(a.body, r);
      t := [Place(body, 0)] + u;
      BlocksAre(a.body, s);
      assert Arm(a.body) == a;
      forall i | 0 <= i < |t| ensures InBlock(t[i]) { if i > 0 { assert InBlock(u[i - 1]); } }
      forall i | 0 <= i < |t| - 1 ensures BlockOf(t[i + 1].block, t[i].block[t[i].at]) {
        if i > 0 { assert BlockOf(u[i - 1 + 1].block, u[i - 1].block[u[i - 1].at]); }
      }
    }
  }

  // The same way down with its first statement found in a longer block.
  lemma TrailMoved(u: seq<Place>, t: seq<Place>, rest: Block, body: Block, r: nat)
    requires Trail(u, rest, r) && t != [] && |t| == |u| && t[1..] == u[1..]
    requires t[0].block == body && InBlock(t[0]) && InBlock(u[0]) && body[t[0].at] == rest[u[0].at]
    ensures Trail(t, body, r)
  {
    assert forall i :: 0 < i < |t| ==> t[i] == t[1..][i - 1] == u[1..][i - 1] == u[i];
    forall i | 0 <= i < |t| ensures InBlock(t[i]) { assert InBlock(u[i]); }
    forall i | 0 <= i < |t| - 1 ensures BlockOf(t[i + 1].block, t[i].block[t[i].at]) {
      assert BlockOf(u[i + 1].block, u[i].block[u[i].at]);
    }
  }

  lemma {:induction false} ArmCounted(s: Stmt, arms: seq<Arm>, r: nat) returns (a: Arm)
    requires forall c :: c in arms ==> (s decreases to c.body)
    requires CountArms(s, arms, r) > 0
    ensures a in arms && Count(a.body, r) > 0
    decreases |arms|
  {
    if Count(arms[0].body, r) > 0 { a := arms[0]; } else { a := ArmCounted(s, arms[1..], r); }
  }

  // A block holds a return exactly when such a way leads down to it.
  lemma HeldIsTrail(body: Block, r: nat)
    ensures Count(body, r) > 0 <==> exists t :: Trail(t, body, r)
  {
    if Count(body, r) > 0 { var t := CountedHasTrail(body, r); }
    if t :| Trail(t, body, r) { TrailIsCounted(t, body, r); }
  }

  // On the way down some statement before the one taken, in its block, is credited.
  ghost predicate CreditOnTrail(t: seq<Place>) {
    exists i, j :: 0 <= i < |t| && CreditAt(t[i], j)
  }

  ghost predicate CreditAt(x: Place, j: int) {
    0 <= j < x.at < |x.block| && Credits(x.block[j])
  }

  lemma {:induction false} CreditedBefore(b: Block, r: nat, k: nat)
    requires k < |b| && Contains(b[k], r) && Count(b, r) == 1
    ensures CreditedIn(b, r) <==> exists j :: CreditAt(Place(b, k), j)
    decreases b
  {
    CreditsOne(b[0]);
    if k > 0 {
      CountAt(b[1..], r, k - 1);
      CreditedBefore(b[1..], r, k - 1);
      if CreditedIn(b[1..], r) {
        var j :| CreditAt(Place(b[1..], k - 1), j);
        assert CreditAt(Place(b, k), j + 1);
      }
      if j :| CreditAt(Place(b, k), j) {
        if j > 0 { assert CreditAt(Place(b[1..], k - 1), j - 1); }
      }
      if Credits(b[0]) { assert CreditAt(Place(b, k), 0); }
    }
  }

  lemma {:induction false} WitnessedOnTrail(t: seq<Place>, body: Block, r: nat)
    requires Trail(t, body, r) && Count(body, r) == 1
    ensures Witnessed(body, r) <==> CreditOnTrail(t)
    decreases |t|
  {
    TrailIsCounted(t, body, r);
    var k := t[0].at;
    assert t[0] == Place(body, k);
    CreditedBefore(body, r, k);
    if |t| == 1 {
      WitnessedInLeaf(body, r, k);
    } else {
      TrailBelow(t, body, r);
      TrailIsCounted(t[1..], t[1].block, r);
      WitnessedBelow(body, r, k, Arm(t[1].block));
      WitnessedOnTrail(t[1..], t[1].block, r);
      CreditOnTrailCons(t);
    }
  }

  lemma CreditOnTrailCons(t: seq<Place>)
    requires t != []
    ensures CreditOnTrail(t) <==> (exists j :: CreditAt(t[0], j)) || CreditOnTrail(t[1..])
  {
    if i, j :| 0 <= i < |t| && CreditAt(t[i], j) {
      if i > 0 { assert CreditAt(t[1..][i - 1], j); }
    }
    if CreditOnTrail(t[1..]) {
      var i, j :| 0 <= i < |t[1..]| && CreditAt(t[1..][i], j);
      assert CreditAt(t[i + 1], j);
    }
  }

  // The verdict of the scan: on the way down from the function body to the return, some
  // statement is credited that stands before the one taken.
  lemma VerdictIsOnTrail(body: Block, rec: Record, t: seq<Place>)
    requires rec in Walked(body, body, []) && Count(body, rec.id) == 1 && Trail(t, body, rec.id)
    ensures rec.witnessed <==> CreditOnTrail(t)
  {
    ScanVerdict(body, rec);
    WitnessedOnTrail(t, body, rec.id);
  }

  // ---------------------------------------------------------------- the order of records

  // The records of a statement, block by block.
  lemma RecordOrder(s: Stmt, stack: seq<Block>)
    ensures s.If? || s.Loop? ==>
      WalkedStmt(s, stack) == Walked(s.body, s.body, stack) + Walked(s.orelse, s.orelse, stack)
    ensures s.With? ==> WalkedStmt(s, stack) == Walked(s.body, s.body, stack)
    ensures s.Try? ==>
      WalkedStmt(s, stack) == Walked(s.body, s.body, stack) + Walked(s.orelse, s.orelse, stack) +
        Walked(s.finalbody, s.finalbody, stack) + WalkedArms(s, s.handlers, stack)
    ensures s.Match? ==> WalkedStmt(s, stack) == WalkedArms(s, s.cases, stack)
  {
    ChildIsSmaller(s);
    var arms := ChildBlocks(s);
    if s.If? || s.Loop? {
      assert arms[1..] == [Arm(s.orelse)] && arms[1..][1..] == [];
      TwoArms(s, arms, stack);
    } else if s.With? {
      assert arms == [Arm(s.body)] && WalkedArms(s, arms[1..], stack) == [];
      assert WalkedStmt(s, stack) == Walked(s.body, s.body, stack) + [];
    } else if s.Try? {
      assert arms[1..][1..] == [Arm(s.finalbody)] + s.handlers && arms[1..][1..][1..] == s.handlers;
      TwoArms(s, arms, stack);
    }
  }

  lemma TwoArms(s: Stmt, arms: seq<Arm>, stack: seq<Block>)
    requires |arms| >= 2 && forall a :: a in arms ==> (s decreases to a.body)
    ensures WalkedArms(s, arms, stack) ==
      Walked(arms[0].body, arms[0].body, stack) + Walked(arms[1].body, arms[1].body, stack) + WalkedArms(s, arms[1..][1..], stack)
  {
  }
}
