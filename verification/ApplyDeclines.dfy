// The apply-decline scan of scripts/inventory_apply_declines.py: is a `return state`
// preceded by a typed witness?  The scan is stated on statement trees exactly as the
// script runs it; the executions it speaks about are given by a trace semantics.

module ApplyDeclines {
  import opened Sequences

  type Block = seq<Stmt>

  // An exception handler or a match case: a statement list of its own.
  datatype Arm = Arm(body: Block)

  // Return and witness statements carry an identity, as syntax tree nodes do.
  datatype Stmt =
    | Simple
    | Witness(id: nat)
    | Return(id: nat, ofState: bool)
    | Raise
    | Break
    | Continue
    | If(body: Block, orelse: Block)
    | Loop(body: Block, orelse: Block)
    | With(body: Block)
    | Try(body: Block, handlers: seq<Arm>, orelse: Block, finalbody: Block)
    | Match(cases: seq<Arm>)
    | Def(body: Block)

  // ---------------------------------------------------------------- the scan

  // body, orelse, finalbody, then handler bodies, then case bodies.
  function ChildBlocks(s: Stmt): (blocks: seq<Arm>) {
    match s
    case If(b, e) => [Arm(b), Arm(e)]
    case Loop(b, e) => [Arm(b), Arm(e)]
    case With(b) => [Arm(b)]
    case Try(b, hs, e, f) => [Arm(b), Arm(e), Arm(f)] + hs
    case Match(cs) => cs
    case Def(b) => [Arm(b)]
    case _ => []
  }

  lemma ChildIsSmaller(s: Stmt)
    ensures forall a :: a in ChildBlocks(s) ==> (s decreases to a.body)
  {
  }

  predicate AlwaysExits(b: Block)
    decreases b, 0
  {
    b != [] &&
    var last := b[|b| - 1];
    match last
    case Return(_, _) => true
    case Raise => true
    case Break => true
    case Continue => true
    case If(body, orelse) => orelse != [] && AlwaysExits(body) && AlwaysExits(orelse)
    case _ => false
  }

  // _block_contains_dominating_witness: stops at the first statement that credits one.
  predicate ContainsWitness(b: Block)
    decreases b, 1
  {
    b != [] && (Credits(b[0]) || ContainsWitness(b[1..]))
  }

  predicate Credits(s: Stmt)
    decreases s, 0
  {
    ChildIsSmaller(s);
    s.Witness? ||
    (!s.Match? && exists a :: a in ChildBlocks(s) && !AlwaysExits(a.body) && ContainsWitness(a.body))
  }

  // How many nodes at or below a statement are the return with identity r.
  function Count(b: Block, r: nat): nat
    decreases b, 2
  {
    if b == [] then 0 else CountIn(b[0], r) + Count(b[1..], r)
  }

  function CountIn(s: Stmt, r: nat): nat
    decreases s, 1
  {
    ChildIsSmaller(s);
    if s.Return? then (if s.id == r then 1 else 0) else CountArms(s, ChildBlocks(s), r)
  }

  function CountArms(s: Stmt, arms: seq<Arm>, r: nat): nat
    requires forall a :: a in arms ==> (s decreases to a.body)
    decreases s, 0, |arms|
  {
    if arms == [] then 0 else Count(arms[0].body, r) + CountArms(s, arms[1..], r)
  }

  // _stmt_contains_node
  predicate Contains(s: Stmt, r: nat) {
    CountIn(s, r) > 0
  }

  // One block of the stack: the statements strictly before the return's ancestor.
  predicate CreditedIn(b: Block, r: nat) {
    b != [] && !Contains(b[0], r) && (ContainsWitness([b[0]]) || CreditedIn(b[1..], r))
  }

  predicate ReturnIsWitnessed(r: nat, stack: seq<Block>) {
    stack != [] && (CreditedIn(stack[0], r) || ReturnIsWitnessed(r, stack[1..]))
  }

  datatype Record = Record(id: nat, witnessed: bool)

  // The records _walk appends for the statements `rest` of `block`.
  function Walked(rest: Block, block: Block, stack: seq<Block>): seq<Record>
    decreases rest, 2
  {
    if rest == [] then []
    else WalkedStmt(rest[0], stack + [block]) + Walked(rest[1..], block, stack)
  }

  function WalkedStmt(s: Stmt, stack: seq<Block>): seq<Record>
    decreases s, 1
  {
    ChildIsSmaller(s);
    if s.Return? then (if s.ofState then [Record(s.id, ReturnIsWitnessed(s.id, stack))] else [])
    else if s.Def? then []
    else WalkedArms(s, ChildBlocks(s), stack)
  }

  function WalkedArms(s: Stmt, arms: seq<Arm>, stack: seq<Block>): seq<Record>
    requires forall a :: a in arms ==> (s decreases to a.body)
    decreases s, 0, |arms|
  {
    if arms == [] then []
    else Walked(arms[0].body, arms[0].body, stack) + WalkedArms(s, arms[1..], stack)
  }

  // The `_walk` closure with the list it appends to.
  class DeclineScan {
    var records: seq<Record>

    constructor ()
      ensures records == []
    {
      records := [];
    }

    method Walk(block: Block, stack: seq<Block>)
      modifies this
      ensures records == old(records) + Walked(block, block, stack)
      decreases block, 2
    {
      var i := 0;
      while i < |block|
        invariant 0 <= i <= |block|
        invariant records + Walked(block[i..], block, stack) == old(records) + Walked(block, block, stack)
      {
        assert block[i..][1..] == block[i + 1..];
        ghost var before, rest := records, Walked(block[i + 1..], block, stack);
        VisitStmt(block[i], stack + [block]);
        Assoc(before, WalkedStmt(block[i], stack + [block]), rest);
        i := i + 1;
      }
    }

    // The loop body of `_walk` for one statement.
    method VisitStmt(s: Stmt, nextStack: seq<Block>)
      modifies this
      ensures records == old(records) + WalkedStmt(s, nextStack)
      decreases s, 1
    {
      ChildIsSmaller(s);
      if s.Return? {
        NoneAdded(records);
        if s.ofState {
          records := records + [Record(s.id, ReturnIsWitnessed(s.id, nextStack))];
        }
      } else if s.Def? {
        NoneAdded(records);
      } else {
        VisitArms(s, ChildBlocks(s), nextStack);
      }
    }

    // `for inner in _child_stmt_blocks(stmt): _walk(inner, next_stack)`
    method VisitArms(s: Stmt, arms: seq<Arm>, nextStack: seq<Block>)
      requires forall a :: a in arms ==> (s decreases to a.body)
      modifies this
      ensures records == old(records) + WalkedArms(s, arms, nextStack)
      decreases s, 0
    {
      var j := 0;
      ghost var entry := records;
      while j < |arms|
        invariant 0 <= j <= |arms|
        invariant records + WalkedArms(s, arms[j..], nextStack) == entry + WalkedArms(s, arms, nextStack)
      {
        assert arms[j..][1..] == arms[j + 1..];
        ghost var before, rest := records, WalkedArms(s, arms[j + 1..], nextStack);
        Walk(arms[j].body, nextStack);
        Assoc(before, Walked(arms[j].body, arms[j].body, nextStack), rest);
        j := j + 1;
      }
      NoneAdded(records);
    }
  }
}
