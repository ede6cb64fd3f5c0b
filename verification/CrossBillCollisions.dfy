// Cross-bill conflict grouping of scripts/he_draft_materialize_report.py.

module CrossBillCollisions {
  import opened Ordering
  import opened Sequences
  import opened Text

  datatype Op = Op(statute: string, provision: string, action: string, tier: string)
  datatype Branch = Branch(id: string, ops: seq<Op>)
  datatype Bill = Bill(path: string, branches: seq<Branch>)

  datatype Touch = Touch(path: string, branch: string, action: string, tier: string)
  datatype Collision = Collision(statute: string, section: string, touches: seq<Touch>)

  type Key = (string, string)

  // ---------------------------------------------------------------- section labels

  // part.partition(":") naming a section, with its label.
  function SectionPart(part: string): string {
    match CutAt(part, ':')
    case NoCut => ""
    case Cut(kind, name) => if kind == "section" then name else ""
  }

  function FirstLabel(parts: seq<string>): string {
    if parts == [] then ""
    else if SectionPart(parts[0]) != "" then SectionPart(parts[0])
    else FirstLabel(parts[1..])
  }

  // _section_label_of
  function SectionLabelOf(provision: string): string {
    FirstLabel(Split(provision, '/'))
  }

  lemma SectionPartShape(part: string, name: string)
    requires name != ""
    ensures SectionPart(part) == name <==> part == "section:" + name
  {
    assert "section:" + name == "section" + [':'] + name;
    CutAtFirst("section", ':', name);
  }

  // The label is that of the first part of the form section:<label>, and "" when there is none.
  lemma {:induction false} FirstLabelIs(parts: seq<string>)
    ensures FirstLabel(parts) == "" <==> forall i, l :: 0 <= i < |parts| && l != "" ==> parts[i] != "section:" + l
    ensures FirstLabel(parts) != "" ==>
      exists i :: 0 <= i < |parts| && parts[i] == "section:" + FirstLabel(parts) &&
        forall j, l :: 0 <= j < i && l != "" ==> parts[j] != "section:" + l
  {
    if parts != [] {
      var first := SectionPart(parts[0]);
      forall l | l != "" ensures parts[0] == "section:" + l <==> first == l { SectionPartShape(parts[0], l); }
      FirstLabelIs(parts[1..]);
      if first == "" {
        assert forall i, l :: 0 < i < |parts| && l != "" ==> (parts[i] != "section:" + l <==> parts[1..][i - 1] != "section:" + l);
        if FirstLabel(parts[1..]) != "" {
          var i :| 0 <= i < |parts[1..]| && parts[1..][i] == "section:" + FirstLabel(parts[1..]) &&
            forall j, l :: 0 <= j < i && l != "" ==> parts[1..][j] != "section:" + l;
          forall j, l | 0 <= j < i + 1 && l != "" ensures parts[j] != "section:" + l {
            if j > 0 { assert parts[j] == parts[1..][j - 1]; }
          }
          assert parts[i + 1] == "section:" + FirstLabel(parts);
        }
      } else {
        assert parts[0] == "section:" + first;
      }
    }
  }

  // The first part of the form section:<label> with a label has this one; "" when none has.
  ghost predicate FirstSection(parts: seq<string>, name: string) {
    if name == "" then forall i, l :: 0 <= i < |parts| && l != "" ==> parts[i] != "section:" + l
    else exists i :: 0 <= i < |parts| && parts[i] == "section:" + name &&
           forall j, l :: 0 <= j < i && l != "" ==> parts[j] != "section:" + l
  }

  // The section label a provision names, read off the provision cut at every slash.
  ghost predicate NamesSection(provision: string, name: string) {
    exists parts :: CutInto(provision, '/', parts) && FirstSection(parts, name)
  }

  lemma OneFirstSection(parts: seq<string>, l: string, m: string)
    requires FirstSection(parts, l) && FirstSection(parts, m)
    ensures l == m
  {
    if l != "" && m != "" {
      var i :| 0 <= i < |parts| && parts[i] == "section:" + l && forall j, n :: 0 <= j < i && n != "" ==> parts[j] != "section:" + n;
      var k :| 0 <= k < |parts| && parts[k] == "section:" + m && forall j, n :: 0 <= j < k && n != "" ==> parts[j] != "section:" + n;
      assert i == k;
      assert ("section:" + l)[8..] == l && ("section:" + m)[8..] == m;
    }
  }

  lemma SectionLabelIs(provision: string, name: string)
    ensures SectionLabelOf(provision) == name <==> NamesSection(provision, name)
  {
    var parts := Split(provision, '/');
    SplitIsCut(provision, '/', parts);
    FirstLabelIs(parts);
    assert FirstSection(parts, FirstLabel(parts));
    if NamesSection(provision, name) {
      var others :| CutInto(provision, '/', others) && FirstSection(others, name);
      SplitIsCut(provision, '/', others);
      OneFirstSection(parts, name, FirstLabel(parts));
    }
  }

  // ---------------------------------------------------------------- all operations, keyed

  datatype Keyed = Keyed(key: Key, touch: Touch)

  // The key an operation is grouped by; operations without statute or section have none.
  predicate HasKey(op: Op) {
    op.statute != "" && SectionLabelOf(op.provision) != ""
  }

  function KeyedOps(path: string, branch: string, ops: seq<Op>): seq<Keyed> {
    if ops == [] then []
    else
      var op := ops[|ops| - 1];
      KeyedOps(path, branch, ops[..|ops| - 1]) + KeyedOp(path, branch, op)
  }

  function KeyedOp(path: string, branch: string, op: Op): seq<Keyed> {
    if HasKey(op) then [Keyed((op.statute, SectionLabelOf(op.provision)), Touch(path, branch, op.action, op.tier))] else []
  }

  function KeyedBranches(path: string, branches: seq<Branch>): seq<Keyed> {
    if branches == [] then []
    else
      var b := branches[|branches| - 1];
      KeyedBranches(path, branches[..|branches| - 1]) + KeyedOps(path, b.id, b.ops)
  }

  // Every operation of every bill, in order.
  function KeyedBills(bills: seq<Bill>): seq<Keyed> {
    if bills == [] then []
    else
      var b := bills[|bills| - 1];
      KeyedBills(bills[..|bills| - 1]) + KeyedBranches(b.path, b.branches)
  }

  // The touches under one key, in order.
  function Filter(all: seq<Keyed>, k: Key): seq<Touch> {
    if all == [] then []
    else Filter(all[..|all| - 1], k) + (if all[|all| - 1].key == k then [all[|all| - 1].touch] else [])
  }

  lemma {:induction false} FilterHas(all: seq<Keyed>, k: Key, t: Touch)
    ensures t in Filter(all, k) <==> Keyed(k, t) in all
  {
    if all != [] {
      assert all == all[..|all| - 1] + [all[|all| - 1]];
      FilterHas(all[..|all| - 1], k, t);
    }
  }

  // Some operation of a bill at this path is on the key.
  ghost predicate Touched(bills: seq<Bill>, path: string, k: Key) {
    exists b, r, op :: b in bills && b.path == path && r in b.branches && op in r.ops && OnKey(op, k)
  }

  // The operation names a statute and a section, and they make the key.
  ghost predicate OnKey(op: Op, k: Key) {
    op.statute != "" && op.statute == k.0 && k.1 != "" && NamesSection(op.provision, k.1)
  }

  lemma OnKeyIs(op: Op, k: Key)
    ensures OnKey(op, k) <==> HasKey(op) && (op.statute, SectionLabelOf(op.provision)) == k
  {
    SectionLabelIs(op.provision, k.1);
  }

  lemma {:induction false} KeyedOpsAre(path: string, branch: string, ops: seq<Op>, x: Keyed)
    ensures x in KeyedOps(path, branch, ops) <==>
      exists op :: op in ops && OnKey(op, x.key) && x.touch == Touch(path, branch, op.action, op.tier)
  {
    if ops != [] {
      var front, last := ops[..|ops| - 1], ops[|ops| - 1];
      assert ops == front + [last];
      KeyedOpsAre(path, branch, front, x);
      OnKeyIs(last, x.key);
    }
  }

  lemma {:induction false} KeyedBranchesAre(path: string, branches: seq<Branch>, x: Keyed)
    ensures x in KeyedBranches(path, branches) <==> exists r :: r in branches && x in KeyedOps(path, r.id, r.ops)
  {
    if branches != [] {
      assert branches == branches[..|branches| - 1] + [branches[|branches| - 1]];
      KeyedBranchesAre(path, branches[..|branches| - 1], x);
    }
  }

  lemma {:induction false} KeyedBillsAre(bills: seq<Bill>, x: Keyed)
    ensures x in KeyedBills(bills) <==> exists b :: b in bills && x in KeyedBranches(b.path, b.branches)
  {
    if bills != [] {
      assert bills == bills[..|bills| - 1] + [bills[|bills| - 1]];
      KeyedBillsAre(bills[..|bills| - 1], x);
    }
  }

  // A path is among the touches of a key exactly when a bill at that path touches it.
  lemma TouchesArePaths(bills: seq<Bill>, path: string, k: Key)
    ensures (exists t :: t in Filter(KeyedBills(bills), k) && t.path == path) <==> Touched(bills, path, k)
  {
    if t :| t in Filter(KeyedBills(bills), k) && t.path == path {
      FilterHas(KeyedBills(bills), k, t);
      KeyedBillsAre(bills, Keyed(k, t));
      var b :| b in bills && Keyed(k, t) in KeyedBranches(b.path, b.branches);
      KeyedBranchesAre(b.path, b.branches, Keyed(k, t));
      var r :| r in b.branches && Keyed(k, t) in KeyedOps(b.path, r.id, r.ops);
      KeyedOpsAre(b.path, r.id, r.ops, Keyed(k, t));
    }
    if Touched(bills, path, k) {
      var b, r, op :| b in bills && b.path == path && r in b.branches && op in r.ops && OnKey(op, k);
      var x := Keyed(k, Touch(path, r.id, op.action, op.tier));
      KeyedOpsAre(path, r.id, r.ops, x);
      KeyedBranchesAre(path, b.branches, x);
      KeyedBillsAre(bills, x);
      FilterHas(KeyedBills(bills), k, x.touch);
    }
  }

  // ---------------------------------------------------------------- the touches of a key, in order

  // Bill by bill, branch by branch, operation by operation: one touch for each on the key.
  ghost function TouchesOf(bills: seq<Bill>, k: Key): seq<Touch> {
    if bills == [] then []
    else TouchesOf(bills[..|bills| - 1], k) + BranchTouches(bills[|bills| - 1].path, bills[|bills| - 1].branches, k)
  }

  ghost function BranchTouches(path: string, branches: seq<Branch>, k: Key): seq<Touch> {
    if branches == [] then []
    else
      var last := branches[|branches| - 1];
      BranchTouches(path, branches[..|branches| - 1], k) + OpTouches(path, last.id, last.ops, k)
  }

  ghost function OpTouches(path: string, branch: string, ops: seq<Op>, k: Key): seq<Touch> {
    if ops == [] then []
    else
      var op := ops[|ops| - 1];
      OpTouches(path, branch, ops[..|ops| - 1], k) + (if OnKey(op, k) then [Touch(path, branch, op.action, op.tier)] else [])
  }

  lemma {:induction false} FilterConcat(a: seq<Keyed>, b: seq<Keyed>, k: Key)
    ensures Filter(a + b, k) == Filter(a, k) + Filter(b, k)
  {
    if b == [] {
      assert a + b == a;
    } else {
      var front, last := b[..|b| - 1], b[|b| - 1];
      FilterConcat(a, front, k);
      assert (a + b)[..|a + b| - 1] == a + front;
    }
  }

  lemma FilterOne(path: string, branch: string, op: Op, k: Key)
    ensures Filter(KeyedOp(path, branch, op), k) == if OnKey(op, k) then [Touch(path, branch, op.action, op.tier)] else []
  {
    OnKeyIs(op, k);
    var one := KeyedOp(path, branch, op);
    if one != [] { assert one[..|one| - 1] == []; }
  }

  lemma {:induction false} OpsFiltered(path: string, branch: string, ops: seq<Op>, k: Key)
    ensures Filter(KeyedOps(path, branch, ops), k) == OpTouches(path, branch, ops, k)
  {
    if ops != [] {
      var front, last := ops[..|ops| - 1], ops[|ops| - 1];
      OpsFiltered(path, branch, front, k);
      FilterConcat(KeyedOps(path, branch, front), KeyedOp(path, branch, last), k);
      FilterOne(path, branch, last, k);
    }
  }

  lemma {:induction false} BranchesFiltered(path: string, branches: seq<Branch>, k: Key)
    ensures Filter(KeyedBranches(path, branches), k) == BranchTouches(path, branches, k)
  {
    if branches != [] {
      var front, last := branches[..|branches| - 1], branches[|branches| - 1];
      BranchesFiltered(path, front, k);
      FilterConcat(KeyedBranches(path, front), KeyedOps(path, last.id, last.ops), k);
      OpsFiltered(path, last.id, last.ops, k);
    }
  }

  lemma {:induction false} GroupedInOrder(bills: seq<Bill>, k: Key)
    ensures Filter(KeyedBills(bills), k) == TouchesOf(bills, k)
  {
    if bills != [] {
      var front, last := bills[..|bills| - 1], bills[|bills| - 1];
      GroupedInOrder(front, k);
      FilterConcat(KeyedBills(front), KeyedBranches(last.path, last.branches), k);
      BranchesFiltered(last.path, last.branches, k);
    }
  }

  // ---------------------------------------------------------------- the index

  function GetOr(m: map<Key, seq<Touch>>, k: Key): seq<Touch> {
    if k in m then m[k] else []
  }

  // index holds, under every key it has, the non-empty filter of the operations so far.
  ghost predicate Indexes(index: map<Key, seq<Touch>>, all: seq<Keyed>) {
    forall k: Key :: GetOr(index, k) == Filter(all, k) && (k in index <==> Filter(all, k) != [])
  }

  lemma IndexOne(index: map<Key, seq<Touch>>, all: seq<Keyed>, x: Keyed)
    requires Indexes(index, all)
    ensures Indexes(index[x.key := GetOr(index, x.key) + [x.touch]], all + [x])
  {
    assert (all + [x])[..|all|] == all;
  }

  // The innermost loop body.
  method IndexOp(index: map<Key, seq<Touch>>, path: string, branch: string, op: Op, ghost all: seq<Keyed>)
    returns (out: map<Key, seq<Touch>>)
    requires Indexes(index, all)
    ensures Indexes(out, all + KeyedOp(path, branch, op))
  {
    out := index;
    if op.statute != "" {
      var section := SectionLabelOf(op.provision);
      if section != "" {
        var key := (op.statute, section);
        var touch := Touch(path, branch, op.action, op.tier);
        IndexOne(out, all, Keyed(key, touch));
        return out[key := GetOr(out, key) + [touch]];
      }
    }
    assert all + [] == all;
  }

  method IndexOps(index: map<Key, seq<Touch>>, path: string, branch: Branch, ghost all: seq<Keyed>)
    returns (out: map<Key, seq<Touch>>)
    requires Indexes(index, all)
    ensures Indexes(out, all + KeyedOps(path, branch.id, branch.ops))
  {
    out := index;
    NoneAdded(all);
    for i := 0 to |branch.ops|
      invariant Indexes(out, all + KeyedOps(path, branch.id, branch.ops[..i]))
    {
      ghost var before := KeyedOps(path, branch.id, branch.ops[..i]);
      out := IndexOp(out, path, branch.id, branch.ops[i], all + before);
      Longer(branch.ops, i);
      Assoc(all, before, KeyedOp(path, branch.id, branch.ops[i]));
    }
    Whole(branch.ops);
  }

  method IndexBranches(index: map<Key, seq<Touch>>, bill: Bill, ghost all: seq<Keyed>) returns (out: map<Key, seq<Touch>>)
    requires Indexes(index, all)
    ensures Indexes(out, all + KeyedBranches(bill.path, bill.branches))
  {
    out := index;
    NoneAdded(all);
    for j := 0 to |bill.branches|
      invariant Indexes(out, all + KeyedBranches(bill.path, bill.branches[..j]))
    {
      ghost var before := KeyedBranches(bill.path, bill.branches[..j]);
      out := IndexOps(out, bill.path, bill.branches[j], all + before);
      Longer(bill.branches, j);
      Assoc(all, before, KeyedOps(bill.path, bill.branches[j].id, bill.branches[j].ops));
    }
    Whole(bill.branches);
  }

  method IndexBills(bills: seq<Bill>) returns (index: map<Key, seq<Touch>>)
    ensures Indexes(index, KeyedBills(bills))
  {
    index := map[];
    for i := 0 to |bills|
      invariant Indexes(index, KeyedBills(bills[..i]))
    {
      index := IndexBranches(index, bills[i], KeyedBills(bills[..i]));
      Longer(bills, i);
    }
    Whole(bills);
  }

  // ---------------------------------------------------------------- collisions

  ghost predicate TwoBills(bills: seq<Bill>, k: Key) {
    exists p, q :: p != q && Touched(bills, p, k) && Touched(bills, q, k)
  }

  function Paths(touches: seq<Touch>): set<string> {
    set t | t in touches :: t.path
  }

  lemma TwoElements<T>(s: set<T>)
    ensures |s| >= 2 <==> exists p, q :: p in s && q in s && p != q
  {
    if |s| >= 2 {
      var p :| p in s;
      assert |s - {p}| >= 1;
      var q :| q in s - {p};
    }
    if p, q :| p in s && q in s && p != q {
      assert {p, q} <= s && |{p, q}| == 2;
      assert |s| == |{p, q}| + |s - {p, q}|;
    }
  }

  lemma DistinctPathsAreBills(bills: seq<Bill>, k: Key)
    ensures |Paths(Filter(KeyedBills(bills), k))| >= 2 <==> TwoBills(bills, k)
  {
    var paths := Paths(Filter(KeyedBills(bills), k));
    forall p ensures p in paths <==> Touched(bills, p, k) { TouchesArePaths(bills, p, k); }
    TwoElements(paths);
  }

  function KeyOf(c: Collision): Key {
    (c.statute, c.section)
  }

  // The collisions reported once the given keys are processed, when `two` says which keys
  // collide and `touches` what is grouped under a key.
  ghost predicate Report(two: Key -> bool, touches: Key -> seq<Touch>, keys: seq<Key>, collisions: seq<Collision>) {
    && (forall c :: c in collisions ==> c.touches == touches(KeyOf(c)) && KeyOf(c) in keys && two(KeyOf(c)))
    && (forall k: Key :: k in keys && two(k) ==> exists c :: c in collisions && KeyOf(c) == k)
    && (forall i, j :: 0 <= i < j < |collisions| ==> PairLt(KeyOf(collisions[i]), KeyOf(collisions[j])))
  }

  lemma ReportAdds(two: Key -> bool, touches: Key -> seq<Touch>, keys: seq<Key>, collisions: seq<Collision>, k: Key)
    requires Report(two, touches, keys, collisions)
    requires forall m :: m in keys ==> PairLt(m, k)
    requires two(k)
    ensures Report(two, touches, keys + [k], collisions + [Collision(k.0, k.1, touches(k))])
  {
    var c := Collision(k.0, k.1, touches(k));
    var all := collisions + [c];
    assert KeyOf(c) == k;
    forall i | 0 <= i < |collisions| ensures PairLt(KeyOf(collisions[i]), k) { assert collisions[i] in collisions; }
    forall m: Key | m in keys + [k] && two(m) ensures exists d :: d in all && KeyOf(d) == m {
      if m == k {
        assert c in all;
      } else {
        var d :| d in collisions && KeyOf(d) == m;
        assert d in all;
      }
    }
  }

  ghost function Colliding(bills: seq<Bill>): Key -> bool {
    (k: Key) => TwoBills(bills, k)
  }

  ghost function Grouped(bills: seq<Bill>): Key -> seq<Touch> {
    (k: Key) => Filter(KeyedBills(bills), k)
  }

  // cross_bill_collisions: a key is reported exactly when two different bills touch it, once,
  // in increasing order, with its touches in order.
  method Collisions(bills: seq<Bill>) returns (collisions: seq<Collision>)
    ensures forall i, j :: 0 <= i < j < |collisions| ==> PairLt(KeyOf(collisions[i]), KeyOf(collisions[j]))
    ensures forall c :: c in collisions ==> c.touches == TouchesOf(bills, (c.statute, c.section))
    ensures forall k: Key :: TwoBills(bills, k) <==> exists c :: c in collisions && (c.statute, c.section) == k
  {
    var index := IndexBills(bills);
    PairIsOrder();
    var keys := SortKeys(index.Keys, PairLt);
    forall k | k in keys
      ensures k in index && index[k] == Grouped(bills)(k)
      ensures |Paths(index[k])| >= 2 <==> Colliding(bills)(k)
    {
      DistinctPathsAreBills(bills, k);
      assert index[k] == GetOr(index, k);
    }
    collisions := CollectCollisions(index, keys, Colliding(bills), Grouped(bills));
    forall c | c in collisions ensures c.touches == TouchesOf(bills, KeyOf(c)) { GroupedInOrder(bills, KeyOf(c)); }
    forall k: Key ensures TwoBills(bills, k) <==> exists c :: c in collisions && KeyOf(c) == k {
      if TwoBills(bills, k) {
        CollidingKeyIsIndexed(bills, index, k);
        assert k in keys && Colliding(bills)(k);
      }
      if c :| c in collisions && KeyOf(c) == k { assert Colliding(bills)(k); }
    }
  }

  // The loop over the sorted keys.
  method CollectCollisions(index: map<Key, seq<Touch>>, keys: seq<Key>, ghost two: Key -> bool, ghost grouped: Key -> seq<Touch>)
    returns (collisions: seq<Collision>)
    requires StrictTotalOrder(PairLt) && Increasing(PairLt, keys)
    requires forall k :: k in keys ==> k in index && index[k] == grouped(k) && (|Paths(index[k])| >= 2 <==> two(k))
    ensures Report(two, grouped, keys, collisions)
  {
    collisions := [];
    for n := 0 to |keys|
      invariant Report(two, grouped, keys[..n], collisions)
    {
      var k := keys[n];
      assert k in keys;
      Longer(keys, n);
      if |Paths(index[k])| >= 2 {
        forall m | m in keys[..n] ensures PairLt(m, k) {
          var i :| 0 <= i < n && keys[..n][i] == m;
          assert PairLt(keys[i], keys[n]);
        }
        ReportAdds(two, grouped, keys[..n], collisions, k);
        collisions := collisions + [Collision(k.0, k.1, index[k])];
      }
    }
    Whole(keys);
  }

  lemma CollidingKeyIsIndexed(bills: seq<Bill>, index: map<Key, seq<Touch>>, k: Key)
    requires Indexes(index, KeyedBills(bills)) && TwoBills(bills, k)
    ensures k in index
  {
    DistinctPathsAreBills(bills, k);
    assert Filter(KeyedBills(bills), k) == [] ==> Paths(Filter(KeyedBills(bills), k)) == {};
  }

  // bill_paths: the paths of the touches, each once, in the order they first appear.
  method BillPaths(c: Collision) returns (seen: seq<string>)
    ensures forall i, j :: 0 <= i < j < |seen| ==> seen[i] != seen[j]
    ensures forall p :: p in seen <==> p in Paths(c.touches)
    ensures forall i, j :: 0 <= i < j < |seen| ==> FirstAt(c.touches, seen[i]) < FirstAt(c.touches, seen[j])
  {
    seen := [];
    for n := 0 to |c.touches|
      invariant forall i, j :: 0 <= i < j < |seen| ==> seen[i] != seen[j]
      invariant forall p :: p in seen <==> exists m :: 0 <= m < n && c.touches[m].path == p
      invariant forall i :: 0 <= i < |seen| ==> FirstAt(c.touches, seen[i]) < n
      invariant forall i, j :: 0 <= i < j < |seen| ==> FirstAt(c.touches, seen[i]) < FirstAt(c.touches, seen[j])
    {
      var path := c.touches[n].path;
      if path !in seen {
        FirstAtIs(c.touches, path, n);
        seen := seen + [path];
      }
    }
  }

  // Where a path first appears.
  function FirstAt(touches: seq<Touch>, path: string): nat {
    if touches == [] || touches[0].path == path then 0 else 1 + FirstAt(touches[1..], path)
  }

  lemma {:induction false} FirstAtIs(touches: seq<Touch>, path: string, n: nat)
    requires n < |touches| && touches[n].path == path
    requires forall m :: 0 <= m < n ==> touches[m].path != path
    ensures FirstAt(touches, path) == n
  {
    if n > 0 {
      assert touches[0].path != path;
      FirstAtIs(touches[1..], path, n - 1);
    }
  }
}
