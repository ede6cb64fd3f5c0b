// The import graph of scripts/inventory_module_roles.py: edges from modules to the modules
// they import and to their ancestor packages, and breadth-first reachability over them.

module ImportGraph {
  import opened Text

  type Mod = string
  type Edges = map<Mod, set<Mod>>

  // edges.get(node, ())
  function Succ(edges: Edges, node: Mod): set<Mod> {
    if node in edges then edges[node] else {}
  }

  // ---------------------------------------------------------------- dotted names

  // a is an enclosing package of m: m continues after a with a dot.
  predicate IsAncestor(a: Mod, m: Mod) {
    a + "." <= m
  }

  // a is the join of a proper prefix of the parts, shorter than n.
  ghost predicate IsCut(a: Mod, parts: seq<string>, n: nat) {
    exists cut :: 1 <= cut < n && cut <= |parts| && a == Join(parts[..cut], '.')
  }

  // The joined proper prefixes of the split name are exactly the enclosing packages.
  lemma AncestorsAreCuts(a: Mod, m: Mod)
    ensures IsAncestor(a, m) <==> IsCut(a, Split(m, '.'), |Split(m, '.')|)
  {
    if IsAncestor(a, m) {
      var b := m[|a| + 1..];
      assert m == a + "." + b;
      SplitAt(a, b, '.');
      var cut := |Split(a, '.')|;
      assert Split(m, '.')[..cut] == Split(a, '.');
      JoinSplit(a, '.');
      assert 1 <= cut < |Split(m, '.')| && a == Join(Split(m, '.')[..cut], '.');
    }
    if IsCut(a, Split(m, '.'), |Split(m, '.')|) {
      var parts := Split(m, '.');
      var cut :| 1 <= cut < |parts| && a == Join(parts[..cut], '.');
      assert parts == parts[..cut] + parts[cut..];
      JoinConcat(parts[..cut], parts[cut..], '.');
      JoinSplit(m, '.');
    }
  }

  // The ancestor pass of build_import_graph.
  method AddAncestorEdges(imports: Edges) returns (edges: Edges)
    ensures edges.Keys == imports.Keys
    ensures forall m :: m in imports ==>
      edges[m] == imports[m] + set a | a in imports.Keys && IsAncestor(a, m)
  {
    edges := imports;
    var rest := imports.Keys;
    while rest != {}
      invariant rest <= imports.Keys && edges.Keys == imports.Keys
      invariant forall m :: m in rest ==> edges[m] == imports[m]
      invariant forall m :: m in imports && m !in rest ==>
        edges[m] == imports[m] + set a | a in imports.Keys && IsAncestor(a, m)
      decreases rest
    {
      var m :| m in rest;
      var ancestors := AncestorPackages(m, imports.Keys);
      edges := edges[m := edges[m] + ancestors];
      rest := rest - {m};
    }
  }

  method AncestorPackages(m: Mod, mods: set<Mod>) returns (found: set<Mod>)
    ensures found == set a | a in mods && IsAncestor(a, m)
  {
    var parts := Split(m, '.');
    found := {};
    var cut := 1;
    while cut < |parts|
      invariant 1 <= cut <= |parts|
      invariant forall a :: a in found <==> a in mods && IsCut(a, parts, cut)
    {
      var ancestor := Join(parts[..cut], '.');
      forall a ensures IsCut(a, parts, cut + 1) <==> IsCut(a, parts, cut) || a == ancestor { }
      if ancestor in mods {
        found := found + {ancestor};
      }
      cut := cut + 1;
    }
    forall a ensures a in found <==> a in mods && IsAncestor(a, m) { AncestorsAreCuts(a, m); }
  }

  // ---------------------------------------------------------------- reachability

  ghost predicate IsPath(edges: Edges, p: seq<Mod>) {
    p != [] && forall i :: 0 <= i < |p| - 1 ==> p[i + 1] in Succ(edges, p[i])
  }

  // Some import path of any length leads from a root to m.
  ghost predicate Reachable(roots: set<Mod>, edges: Edges, m: Mod) {
    exists p :: IsPath(edges, p) && p[0] in roots && p[|p| - 1] == m
  }

  ghost predicate ClosedUnder(edges: Edges, s: set<Mod>) {
    forall n, t :: n in s && t in Succ(edges, n) ==> t in s
  }

  lemma RootReachable(roots: set<Mod>, edges: Edges, m: Mod)
    requires m in roots
    ensures Reachable(roots, edges, m)
  {
    assert IsPath(edges, [m]) && [m][0] in roots;
  }

  lemma StepReachable(roots: set<Mod>, edges: Edges, n: Mod, t: Mod)
    requires Reachable(roots, edges, n) && t in Succ(edges, n)
    ensures Reachable(roots, edges, t)
  {
    var p :| IsPath(edges, p) && p[0] in roots && p[|p| - 1] == n;
    var q := p + [t];
    assert forall i :: 0 <= i < |q| - 1 ==> q[i + 1] in Succ(edges, q[i]);
    assert IsPath(edges, q) && q[0] in roots && q[|q| - 1] == t;
  }

  lemma LastStep(roots: set<Mod>, edges: Edges, m: Mod) returns (n: Mod)
    requires Reachable(roots, edges, m) && m !in roots
    ensures Reachable(roots, edges, n) && m in Succ(edges, n)
  {
    var p :| IsPath(edges, p) && p[0] in roots && p[|p| - 1] == m;
    var q := p[..|p| - 1];
    n := q[|q| - 1];
    assert p[|p| - 2 + 1] in Succ(edges, p[|p| - 2]);
    assert IsPath(edges, q) && q[0] in roots;
  }

  lemma {:induction false} ClosedHoldsPath(edges: Edges, s: set<Mod>, p: seq<Mod>)
    requires ClosedUnder(edges, s) && IsPath(edges, p) && p[0] in s
    ensures p[|p| - 1] in s
    decreases |p|
  {
    if |p| > 1 {
      assert p[0 + 1] in Succ(edges, p[0]);
      var q := p[1..];
      forall i | 0 <= i < |q| - 1 ensures q[i + 1] in Succ(edges, q[i]) {
        assert p[i + 1 + 1] in Succ(edges, p[i + 1]);
      }
      ClosedHoldsPath(edges, s, q);
    }
  }

  // What is reachable lies in every closed set that holds the roots.
  lemma ReachIsLeast(roots: set<Mod>, edges: Edges, s: set<Mod>)
    requires roots <= s && ClosedUnder(edges, s)
    ensures forall m :: Reachable(roots, edges, m) ==> m in s
  {
    forall m | Reachable(roots, edges, m) ensures m in s {
      var p :| IsPath(edges, p) && p[0] in roots && p[|p| - 1] == m;
      ClosedHoldsPath(edges, s, p);
    }
  }

  ghost predicate SubGraph(edges: Edges, larger: Edges) {
    forall n :: Succ(edges, n) <= Succ(larger, n)
  }

  lemma ReachGrows(roots: set<Mod>, edges: Edges, larger: Edges, m: Mod)
    requires SubGraph(edges, larger) && Reachable(roots, edges, m)
    ensures Reachable(roots, larger, m)
  {
    var p :| IsPath(edges, p) && p[0] in roots && p[|p| - 1] == m;
    forall i | 0 <= i < |p| - 1 ensures p[i + 1] in Succ(larger, p[i]) {
      assert p[i + 1] in Succ(edges, p[i]) && Succ(edges, p[i]) <= Succ(larger, p[i]);
    }
    assert IsPath(larger, p);
  }

  // Every module has its existing enclosing packages among its targets.
  ghost predicate HoldsAncestors(mods: set<Mod>, edges: Edges) {
    forall m, a :: m in mods && a in mods && IsAncestor(a, m) ==> a in Succ(edges, m)
  }

  // Over such a graph a reached module's existing enclosing packages are reached too.
  lemma ReachHoldsAncestors(roots: set<Mod>, mods: set<Mod>, edges: Edges, m: Mod, a: Mod)
    requires HoldsAncestors(mods, edges)
    requires m in mods && a in mods && IsAncestor(a, m)
    requires Reachable(roots, edges, m)
    ensures Reachable(roots, edges, a)
  {
    StepReachable(roots, edges, m, a);
  }

  // deque(roots): the roots in some order.
  method Listed(s: set<Mod>) returns (q: seq<Mod>)
    ensures forall m :: m in q <==> m in s
  {
    q := [];
    var rest := s;
    while rest != {}
      invariant rest <= s
      invariant forall m :: m in q <==> m in s && m !in rest
      decreases rest
    {
      var m :| m in rest;
      q, rest := q + [m], rest - {m};
    }
  }

  // Everything seen is reachable, and what is seen but no longer queued is expanded.
  ghost predicate BfsInvariant(roots: set<Mod>, edges: Edges, seen: set<Mod>, queue: seq<Mod>) {
    && roots <= seen
    && (forall m :: m in queue ==> m in seen)
    && (forall m :: m in seen ==> Reachable(roots, edges, m))
    && (forall n, t :: n in seen && n !in queue && t in Succ(edges, n) ==> t in seen)
  }

  lemma ExpansionKeeps(roots: set<Mod>, edges: Edges, seen: set<Mod>, queue: seq<Mod>, seen': set<Mod>, queue': seq<Mod>)
    requires queue != [] && BfsInvariant(roots, edges, seen, queue)
    requires seen' == seen + Succ(edges, queue[0])
    requires forall m :: m in queue' <==> m in queue[1..] || (m in seen' && m !in seen)
    ensures BfsInvariant(roots, edges, seen', queue')
  {
    var node := queue[0];
    assert queue == [node] + queue[1..];
    assert node in queue;
    forall m | m in seen' ensures Reachable(roots, edges, m) {
      if m !in seen { StepReachable(roots, edges, node, m); }
    }
    forall n, t | n in seen' && n !in queue' && t in Succ(edges, n) ensures t in seen' {
      if n != node { assert n in seen && n !in queue; }
    }
  }

  // The inner loop: queue the targets not seen before.
  method Expand(targets: set<Mod>, seen: set<Mod>, queue: seq<Mod>) returns (seen': set<Mod>, queue': seq<Mod>)
    ensures seen' == seen + targets
    ensures forall m :: m in queue' <==> m in queue || (m in seen' && m !in seen)
    ensures seen' == seen ==> queue' == queue
  {
    seen', queue' := seen, queue;
    var rest := targets;
    while rest != {}
      invariant rest <= targets
      invariant seen' == seen + (targets - rest)
      invariant forall m :: m in queue' <==> m in queue || (m in seen' && m !in seen)
      invariant seen' == seen ==> queue' == queue
      decreases rest
    {
      var target :| target in rest;
      if target !in seen' {
        seen' := seen' + {target};
        queue' := queue' + [target];
        assert target !in seen && target in seen';
      }
      rest := rest - {target};
    }
  }

  // _bfs
  method Bfs(roots: set<Mod>, edges: Edges) returns (seen: set<Mod>)
    ensures forall m :: m in seen <==> Reachable(roots, edges, m)
    ensures roots <= seen && ClosedUnder(edges, seen)
  {
    ghost var universe := roots + set n, t | n in edges.Keys && t in edges[n] :: t;
    seen := roots;
    var queue := Listed(roots);
    forall m | m in roots ensures Reachable(roots, edges, m) { RootReachable(roots, edges, m); }
    while queue != []
      invariant seen <= universe
      invariant BfsInvariant(roots, edges, seen, queue)
      decreases universe - seen, |queue|
    {
      var node := queue[0];
      var seen', queue' := Expand(Succ(edges, node), seen, queue[1..]);
      ExpansionKeeps(roots, edges, seen, queue, seen', queue');
      assert Succ(edges, node) <= universe;
      if seen' != seen {
        var added :| added in seen' && added !in seen;
        assert added in universe - seen && added !in universe - seen';
      }
      seen, queue := seen', queue';
    }
    ReachIsLeast(roots, edges, seen);
  }
}
