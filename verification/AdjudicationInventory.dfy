// Wrapper and direct adjudication inventories of scripts/inventory_replay_adjudications.py.

module AdjudicationInventory {
  import opened Ordering
  import opened Sums

  datatype Callee = NameCallee(id: string) | AttributeCallee(attr: string) | OtherCallee
  datatype Keyword = Keyword(arg: Option<string>, literal: Option<string>)

  datatype Node =
    | FunctionNode(name: string, children: seq<Node>)
    | CallNode(callee: Callee, keywords: seq<Keyword>, line: nat, children: seq<Node>)
    | OtherNode(children: seq<Node>)

  datatype Site = Site(line: nat, function_name: Option<string>)

  // part in s
  predicate Substring(part: string, s: string) {
    part <= s || (s != "" && Substring(part, s[1..]))
  }

  function CalleeName(c: Callee): Option<string> {
    match c
    case NameCallee(id) => Some(id)
    case AttributeCallee(attr) => Some(attr)
    case OtherCallee => None
  }

  // _is_relevant_call_node, for a call
  predicate IsRelevant(c: Callee, includeWrappers: bool) {
    match CalleeName(c)
    case None => false
    case Some(name) => name == "CompileAdjudication" || (includeWrappers && Substring("adjudication", name))
  }

  // _find_kind_keyword: the first keyword named kind, if its value is a string literal.
  function KindKeyword(keywords: seq<Keyword>): Option<string> {
    if keywords == [] then None
    else if keywords[0].arg == Some("kind") then keywords[0].literal
    else KindKeyword(keywords[1..])
  }

  // ---------------------------------------------------------------- the visitor

  // A call with a literal kind, as the traversal meets it.
  datatype Found = Found(callee: Callee, kind: string, site: Site)

  function CallsIn(nodes: seq<Node>, fn: Option<string>): seq<Found>
    decreases nodes, 1
  {
    if nodes == [] then [] else CallsAt(nodes[0], fn) + CallsIn(nodes[1..], fn)
  }

  function CallsAt(n: Node, fn: Option<string>): seq<Found>
    decreases n, 0
  {
    match n
    case FunctionNode(name, children) => CallsIn(children, Some(name))
    case CallNode(_, _, _, children) => FoundAt(n, fn) + CallsIn(children, fn)
    case OtherNode(children) => CallsIn(children, fn)
  }

  // The call itself, if it has a literal kind.
  function FoundAt(n: Node, fn: Option<string>): seq<Found>
    requires n.CallNode?
  {
    match KindKeyword(n.keywords)
    case None => []
    case Some(kind) => [Found(n.callee, kind, Site(n.line, fn))]
  }

  // The sites of a kind among the calls, in order.
  function SitesOf(calls: seq<Found>, wrappers: bool, kind: string): seq<Site> {
    if calls == [] then []
    else
      var c := calls[0];
      (if IsRelevant(c.callee, wrappers) && c.kind == kind then [c.site] else []) + SitesOf(calls[1..], wrappers, kind)
  }

  lemma {:induction false} SitesConcat(a: seq<Found>, b: seq<Found>, wrappers: bool, kind: string)
    ensures SitesOf(a + b, wrappers, kind) == SitesOf(a, wrappers, kind) + SitesOf(b, wrappers, kind)
  {
    if a == [] {
      assert a + b == b;
    } else {
      var all, rest := a + b, a[1..] + b;
      assert all[0] == a[0] && all[1..] == rest;
      SitesConcat(a[1..], b, wrappers, kind);
      var own := if IsRelevant(a[0].callee, wrappers) && a[0].kind == kind then [a[0].site] else [];
      var s, t := SitesOf(a[1..], wrappers, kind), SitesOf(b, wrappers, kind);
      assert SitesOf(a, wrappers, kind) == own + s && SitesOf(all, wrappers, kind) == own + (s + t);
      assert own + (s + t) == own + s + t;
    }
  }

  function GetOr(m: map<string, seq<Site>>, k: string): seq<Site> {
    if k in m then m[k] else []
  }

  // m holds exactly the non-empty site lists of the calls.
  ghost predicate Holds(m: map<string, seq<Site>>, calls: seq<Found>, wrappers: bool) {
    forall k: string :: GetOr(m, k) == SitesOf(calls, wrappers, k) && (k in m <==> SitesOf(calls, wrappers, k) != [])
  }

  function Top(stack: seq<string>): Option<string> {
    if stack == [] then None else Some(stack[|stack| - 1])
  }

  // _AdjudicationVisitor
  class AdjudicationVisitor {
    var functionStack: seq<string>
    const includeWrappers: bool
    var byKind: map<string, seq<Site>>

    constructor (includeWrappers: bool)
      ensures functionStack == [] && byKind == map[] && this.includeWrappers == includeWrappers
    {
      functionStack, byKind := [], map[];
      this.includeWrappers := includeWrappers;
    }

    method Visit(n: Node, ghost before: seq<Found>)
      requires Holds(byKind, before, includeWrappers)
      modifies this
      ensures functionStack == old(functionStack)
      ensures Holds(byKind, before + CallsAt(n, Top(old(functionStack))), includeWrappers)
      decreases n, 0
    {
      match n
      case FunctionNode(name, children) =>
        functionStack := functionStack + [name];
        GenericVisit(children, before);
        functionStack := functionStack[..|functionStack| - 1];
      case CallNode(callee, keywords, line, children) =>
        ghost var fn, here := Top(functionStack), FoundAt(n, Top(functionStack));
        Note(callee, keywords, line, before);
        GenericVisit(children, before + here);
        assert before + here + CallsIn(children, fn) == before + (here + CallsIn(children, fn));
      case OtherNode(children) =>
        GenericVisit(children, before);
    }

    // What visit_Call does before the children.
    method Note(callee: Callee, keywords: seq<Keyword>, line: nat, ghost before: seq<Found>)
      requires Holds(byKind, before, includeWrappers)
      modifies this`byKind
      ensures Holds(byKind, before + FoundAt(CallNode(callee, keywords, line, []), Top(functionStack)), includeWrappers)
    {
      var fn, kind := Top(functionStack), KindKeyword(keywords);
      if kind.Some? {
        FoundSites(byKind, before, includeWrappers, Found(callee, kind.value, Site(line, fn)));
        if IsRelevant(callee, includeWrappers) {
          byKind := byKind[kind.value := GetOr(byKind, kind.value) + [Site(line, fn)]];
        }
      } else {
        assert before + [] == before;
      }
    }

    // generic_visit: the children in order.
    method GenericVisit(children: seq<Node>, ghost before: seq<Found>)
      requires Holds(byKind, before, includeWrappers)
      modifies this
      ensures functionStack == old(functionStack)
      ensures Holds(byKind, before + CallsIn(children, Top(old(functionStack))), includeWrappers)
      decreases children, 1
    {
      ghost var fn, done := Top(functionStack), before;
      var i := 0;
      while i < |children|
        invariant 0 <= i <= |children|
        invariant functionStack == old(functionStack)
        invariant Holds(byKind, done, includeWrappers)
        invariant done + CallsIn(children[i..], fn) == before + CallsIn(children, fn)
      {
        Visit(children[i], done);
        assert children[i..][1..] == children[i + 1..];
        assert done + (CallsAt(children[i], fn) + CallsIn(children[i + 1..], fn)) ==
          done + CallsAt(children[i], fn) + CallsIn(children[i + 1..], fn);
        done := done + CallsAt(children[i], fn);
        i := i + 1;
      }
      assert done + [] == done;
    }
  }

  lemma SitesSnoc(calls: seq<Found>, wrappers: bool, c: Found, kind: string)
    ensures SitesOf(calls + [c], wrappers, kind) ==
      SitesOf(calls, wrappers, kind) + (if IsRelevant(c.callee, wrappers) && c.kind == kind then [c.site] else [])
  {
    SitesConcat(calls, [c], wrappers, kind);
    assert [c][1..] == [];
    assert SitesOf([c][1..], wrappers, kind) == [];
  }

  lemma FoundSites(m: map<string, seq<Site>>, calls: seq<Found>, wrappers: bool, c: Found)
    requires Holds(m, calls, wrappers)
    ensures Holds(if IsRelevant(c.callee, wrappers) then m[c.kind := GetOr(m, c.kind) + [c.site]] else m, calls + [c], wrappers)
  {
    forall k: string ensures SitesOf(calls + [c], wrappers, k) ==
      SitesOf(calls, wrappers, k) + (if IsRelevant(c.callee, wrappers) && c.kind == k then [c.site] else [])
    {
      SitesSnoc(calls, wrappers, c, k);
    }
  }

  // ---------------------------------------------------------------- inventories

  function LineOf(s: Site): (nat, nat) {
    (s.line, 0)
  }

  ghost function Sorted(sites: seq<Site>): seq<Site> {
    SortBy(LineOf, sites)
  }

  // collect_adjudication_kinds over a parsed file.
  method CollectKinds(tree: seq<Node>, includeWrappers: bool) returns (kinds: map<string, seq<Site>>)
    ensures forall k: string :: k in kinds <==> SitesOf(CallsIn(tree, None), includeWrappers, k) != []
    ensures forall k: string :: k in kinds ==> kinds[k] == Sorted(SitesOf(CallsIn(tree, None), includeWrappers, k))
  {
    var visitor := new AdjudicationVisitor(includeWrappers);
    assert Holds(visitor.byKind, [], includeWrappers);
    visitor.GenericVisit(tree, []);
    assert [] + CallsIn(tree, None) == CallsIn(tree, None);
    kinds := map k | k in visitor.byKind :: SortBy(LineOf, visitor.byKind[k]);
    forall k: string | k in kinds ensures kinds[k] == Sorted(SitesOf(CallsIn(tree, None), includeWrappers, k)) {
      assert GetOr(visitor.byKind, k) == visitor.byKind[k];
    }
  }

  predicate IsLower(c: char) {
    'a' <= c <= 'z'
  }

  function LowerPrefix(s: string): (n: nat)
    ensures n <= |s|
  {
    if s == "" || !IsLower(s[0]) then 0 else 1 + LowerPrefix(s[1..])
  }

  // _is_replay_family_kind: replay_..., or [a-z]+_replay_...
  predicate IsReplayFamily(kind: string) {
    "replay_" <= kind || (LowerPrefix(kind) > 0 && "_replay_" <= kind[LowerPrefix(kind)..])
  }

  datatype Filters = Filters(replayOnly: bool, kindFilter: Option<string>, minCount: Option<int>)

  predicate Keeps(f: Filters, kind: string, count: nat) {
    && (f.replayOnly ==> IsReplayFamily(kind))
    && (f.kindFilter.Some? && f.kindFilter.value != "" ==> Substring(f.kindFilter.value, kind))
    && (f.minCount.Some? ==> count >= f.minCount.value)
  }

  type Kinds = map<string, seq<Site>>

  ghost predicate FilteredKinds(tree: seq<Node>, wrappers: bool, f: Filters, kinds: Kinds) {
    var calls := CallsIn(tree, None);
    && (forall k: string :: k in kinds <==>
         SitesOf(calls, wrappers, k) != [] && Keeps(f, k, |SitesOf(calls, wrappers, k)|))
    && (forall k: string :: k in kinds ==> kinds[k] == Sorted(SitesOf(calls, wrappers, k)))
  }

  lemma {:induction false} SortLength(sites: seq<Site>)
    ensures |Sorted(sites)| == |sites|
  {
    SortBySorts(LineOf, sites, (0, 0));
    assert |multiset(Sorted(sites))| == |multiset(sites)|;
  }

  // build_inventory; None is the rejected min_count.
  method BuildInventory(files: map<string, seq<Node>>, jurisdictions: Option<set<string>>, includeWrappers: bool, f: Filters)
    returns (inventory: Option<map<string, Kinds>>)
    ensures inventory.None? <==> f.minCount.Some? && f.minCount.value <= 0
    ensures inventory.Some? ==>
      && (forall j :: j in inventory.value <==> j in files && (jurisdictions.Some? ==> j in jurisdictions.value))
      && (forall j :: j in inventory.value ==> FilteredKinds(files[j], includeWrappers, f, inventory.value[j]))
  {
    if f.minCount.Some? && f.minCount.value <= 0 {
      return None;
    }
    var result: map<string, Kinds> := map[];
    var rest := set j | j in files && (jurisdictions.Some? ==> j in jurisdictions.value);
    ghost var selected := rest;
    while rest != {}
      invariant rest <= selected && result.Keys == selected - rest
      invariant forall j :: j in result ==> FilteredKinds(files[j], includeWrappers, f, result[j])
      decreases rest
    {
      var j :| j in rest;
      var kinds := CollectKinds(files[j], includeWrappers);
      var kept := map k | k in kinds && Keeps(f, k, |kinds[k]|) :: kinds[k];
      forall k | k in kinds ensures |kinds[k]| == |SitesOf(CallsIn(files[j], None), includeWrappers, k)| {
        SortLength(SitesOf(CallsIn(files[j], None), includeWrappers, k));
      }
      assert FilteredKinds(files[j], includeWrappers, f, kept);
      result := result[j := kept];
      rest := rest - {j};
    }
    inventory := Some(result);
  }

  // ---------------------------------------------------------------- the sites, as paths in the tree

  ghost predicate PartOf(part: string, s: string) {
    exists a, b :: s == a + part + b
  }

  lemma {:induction false} PartIsFound(a: string, part: string, b: string)
    ensures Substring(part, a + part + b)
  {
    var s := a + part + b;
    if a == "" {
      assert s == part + b;
    } else {
      assert s[1..] == a[1..] + part + b;
      PartIsFound(a[1..], part, b);
    }
  }

  lemma {:induction false} FoundIsPart(part: string, s: string)
    requires Substring(part, s)
    ensures PartOf(part, s)
  {
    if part <= s {
      assert s == "" + part + s[|part|..];
    } else {
      FoundIsPart(part, s[1..]);
      var a, b :| s[1..] == a + part + b;
      assert s == [s[0]] + a + part + b;
    }
  }

  lemma SubstringIs(part: string, s: string)
    ensures Substring(part, s) <==> PartOf(part, s)
  {
    if Substring(part, s) { FoundIsPart(part, s); }
    if a, b :| s == a + part + b { PartIsFound(a, part, b); }
  }

  // The function called is named CompileAdjudication or, when wrappers count, has adjudication
  // in its name.
  ghost predicate RelevantCall(c: Callee, wrappers: bool) {
    (c.NameCallee? && RelevantName(c.id, wrappers)) || (c.AttributeCallee? && RelevantName(c.attr, wrappers))
  }

  ghost predicate RelevantName(name: string, wrappers: bool) {
    name == "CompileAdjudication" || (wrappers && PartOf("adjudication", name))
  }

  lemma RelevantIs(c: Callee, wrappers: bool)
    ensures IsRelevant(c, wrappers) <==> RelevantCall(c, wrappers)
  {
    match c
    case NameCallee(id) => SubstringIs("adjudication", id);
    case AttributeCallee(attr) => SubstringIs("adjudication", attr);
    case OtherCallee =>
  }

  // The first keyword named kind has this literal.
  ghost predicate LiteralKind(keywords: seq<Keyword>, kind: string) {
    exists i :: 0 <= i < |keywords| && FirstKind(keywords, i) && keywords[i].literal == Some(kind)
  }

  ghost predicate FirstKind(keywords: seq<Keyword>, i: int)
    requires 0 <= i < |keywords|
  {
    keywords[i].arg == Some("kind") && forall j :: 0 <= j < i ==> keywords[j].arg != Some("kind")
  }

  lemma {:induction false} KindIs(keywords: seq<Keyword>, kind: string)
    ensures KindKeyword(keywords) == Some(kind) <==> LiteralKind(keywords, kind)
  {
    if keywords != [] {
      var rest := keywords[1..];
      KindIs(rest, kind);
      if keywords[0].arg == Some("kind") {
        assert FirstKind(keywords, 0);
      } else {
        if LiteralKind(rest, kind) {
          var i :| 0 <= i < |rest| && FirstKind(rest, i) && rest[i].literal == Some(kind);
          assert forall j :: 0 < j < i + 1 ==> keywords[j] == rest[j - 1];
          assert FirstKind(keywords, i + 1);
        }
        if i :| 0 <= i < |keywords| && FirstKind(keywords, i) && keywords[i].literal == Some(kind) {
          assert forall j :: 0 <= j < i - 1 ==> rest[j] == keywords[j + 1];
          assert FirstKind(rest, i - 1);
        }
      }
    }
  }

  // From parent to child down from the top of the file.
  ghost predicate NodePath(p: seq<Node>, nodes: seq<Node>) {
    p != [] && p[0] in nodes && forall i :: 0 <= i < |p| - 1 ==> p[i + 1] in p[i].children
  }

  // The name of the last function of a path; fn when there is none.
  ghost function Innermost(p: seq<Node>, fn: Option<string>): Option<string> {
    if p == [] then fn
    else if p[|p| - 1].FunctionNode? then Some(p[|p| - 1].name)
    else Innermost(p[..|p| - 1], fn)
  }

  lemma {:induction false} InnermostCons(n: Node, q: seq<Node>, fn: Option<string>)
    ensures Innermost([n] + q, fn) == Innermost(q, if n.FunctionNode? then Some(n.name) else fn)
    decreases |q|
  {
    var all := [n] + q;
    if q == [] {
      assert all == [n] && [n][..0] == [];
    } else {
      InnermostCons(n, q[..|q| - 1], fn);
      assert all[..|all| - 1] == [n] + q[..|q| - 1];
    }
  }

  // The path leads to a call found with this callee and literal kind, in its innermost function.
  ghost predicate CallPath(p: seq<Node>, nodes: seq<Node>, fn: Option<string>, f: Found) {
    && NodePath(p, nodes)
    && var last := p[|p| - 1];
       && last.CallNode? && last.callee == f.callee && LiteralKind(last.keywords, f.kind)
       && f.site == Site(last.line, Innermost(p[..|p| - 1], fn))
  }

  lemma FoundAtIs(n: Node, fn: Option<string>, f: Found)
    requires n.CallNode?
    ensures f in FoundAt(n, fn) <==> f.callee == n.callee && LiteralKind(n.keywords, f.kind) && f.site == Site(n.line, fn)
  {
    KindIs(n.keywords, f.kind);
  }

  function NameBelow(n: Node, fn: Option<string>): Option<string> {
    if n.FunctionNode? then Some(n.name) else fn
  }

  lemma {:induction false} FoundHasPath(nodes: seq<Node>, fn: Option<string>, f: Found) returns (p: seq<Node>)
    requires f in CallsIn(nodes, fn)
    ensures CallPath(p, nodes, fn, f)
    decreases nodes
  {
    var n := nodes[0];
    if f !in CallsAt(n, fn) {
      p := FoundHasPath(nodes[1..], fn, f);
    } else if n.CallNode? && f in FoundAt(n, fn) {
      FoundAtIs(n, fn, f);
      p := [n];
      assert p[..0] == [];
    } else {
      var q := FoundHasPath(n.children, NameBelow(n, fn), f);
      p := [n] + q;
      PathCons(n, q, nodes, fn, f);
    }
  }

  lemma PathCons(n: Node, q: seq<Node>, nodes: seq<Node>, fn: Option<string>, f: Found)
    requires n in nodes && q != []
    ensures CallPath(q, n.children, NameBelow(n, fn), f) <==> CallPath([n] + q, nodes, fn, f)
  {
    var p := [n] + q;
    assert p[1..] == q && p[..|p| - 1] == [n] + q[..|q| - 1];
    InnermostCons(n, q[..|q| - 1], fn);
    if NodePath(p, nodes) {
      assert p[0 + 1] in p[0].children;
      forall i | 0 <= i < |q| - 1 ensures q[i + 1] in q[i].children { assert p[i + 1 + 1] in p[i + 1].children; }
    }
    if NodePath(q, n.children) {
      forall i | 0 <= i < |p| - 1 ensures p[i + 1] in p[i].children {
        if i > 0 { assert q[i - 1 + 1] in q[i - 1].children; }
      }
    }
  }

  lemma {:induction false} MemberFound(nodes: seq<Node>, fn: Option<string>, n: Node, f: Found)
    requires n in nodes && f in CallsAt(n, fn)
    ensures f in CallsIn(nodes, fn)
  {
    if f !in CallsAt(nodes[0], fn) { MemberFound(nodes[1..], fn, n, f); }
  }

  lemma {:induction false} PathIsFound(p: seq<Node>, nodes: seq<Node>, fn: Option<string>, f: Found)
    requires CallPath(p, nodes, fn, f)
    ensures f in CallsIn(nodes, fn)
    decreases |p|
  {
    var n := p[0];
    if |p| == 1 {
      assert p[..0] == [];
      FoundAtIs(n, fn, f);
    } else {
      assert p == [n] + p[1..];
      PathCons(n, p[1..], nodes, fn, f);
      PathIsFound(p[1..], n.children, NameBelow(n, fn), f);
    }
    MemberFound(nodes, fn, n, f);
  }

  // A site of a kind: a relevant call below, with that literal kind, at its line and in its
  // innermost function.
  ghost predicate IsSite(tree: seq<Node>, wrappers: bool, kind: string, s: Site) {
    exists p, callee :: CallPath(p, tree, None, Found(callee, kind, s)) && RelevantCall(callee, wrappers)
  }

  lemma {:induction false} SiteFound(calls: seq<Found>, wrappers: bool, kind: string, s: Site)
    ensures s in SitesOf(calls, wrappers, kind) <==>
      exists callee :: Found(callee, kind, s) in calls && RelevantCall(callee, wrappers)
  {
    if calls != [] {
      var c := calls[0];
      SiteFound(calls[1..], wrappers, kind, s);
      RelevantIs(c.callee, wrappers);
      if c == Found(c.callee, kind, s) && RelevantCall(c.callee, wrappers) { assert c in calls; }
    }
  }

  lemma SitesArePaths(tree: seq<Node>, wrappers: bool, kind: string, s: Site)
    ensures s in SitesOf(CallsIn(tree, None), wrappers, kind) <==> IsSite(tree, wrappers, kind, s)
  {
    SiteFound(CallsIn(tree, None), wrappers, kind, s);
    if callee :| Found(callee, kind, s) in CallsIn(tree, None) && RelevantCall(callee, wrappers) {
      var p := FoundHasPath(tree, None, Found(callee, kind, s));
    }
    if p, callee :| CallPath(p, tree, None, Found(callee, kind, s)) && RelevantCall(callee, wrappers) {
      PathIsFound(p, tree, None, Found(callee, kind, s));
    }
  }

  // What an inventory lists under a kind are exactly these sites, by line.
  lemma InventorySites(tree: seq<Node>, wrappers: bool, f: Filters, kinds: Kinds, k: string)
    requires FilteredKinds(tree, wrappers, f, kinds) && k in kinds
    ensures forall s :: s in kinds[k] <==> IsSite(tree, wrappers, k, s)
    ensures forall i, j :: 0 <= i < j < |kinds[k]| ==> kinds[k][i].line <= kinds[k][j].line
  {
    var sites := SitesOf(CallsIn(tree, None), wrappers, k);
    SortBySorts(LineOf, sites, (0, 0));
    forall s ensures s in kinds[k] <==> IsSite(tree, wrappers, k, s) {
      SitesArePaths(tree, wrappers, k, s);
      assert s in kinds[k] <==> s in multiset(kinds[k]);
      assert s in sites <==> s in multiset(sites);
    }
    forall i, j | 0 <= i < j < |kinds[k]| ensures kinds[k][i].line <= kinds[k][j].line {
      assert !RankLt(LineOf(kinds[k][j]), LineOf(kinds[k][i]));
    }
  }

  // replay_..., or lower-case letters and then _replay_...
  ghost predicate ReplayName(kind: string) {
    "replay_" <= kind || exists n :: 0 < n <= |kind| && "_replay_" <= kind[n..] && forall c :: c in kind[..n] ==> 'a' <= c <= 'z'
  }

  lemma {:induction false} LowerPrefixIs(s: string)
    ensures forall c :: c in s[..LowerPrefix(s)] ==> 'a' <= c <= 'z'
  {
    if s != "" && IsLower(s[0]) {
      LowerPrefixIs(s[1..]);
      assert s[..LowerPrefix(s)] == [s[0]] + s[1..][..LowerPrefix(s[1..])];
    }
  }

  lemma {:induction false} LowerUpTo(s: string, n: nat)
    requires n < |s| && !IsLower(s[n]) && forall i :: 0 <= i < n ==> IsLower(s[i])
    ensures LowerPrefix(s) == n
  {
    if n > 0 {
      assert IsLower(s[0]);
      LowerUpTo(s[1..], n - 1);
    }
  }

  lemma ReplayFamilyIs(kind: string)
    ensures IsReplayFamily(kind) <==> ReplayName(kind)
  {
    LowerPrefixIs(kind);
    if n :| 0 < n <= |kind| && "_replay_" <= kind[n..] && forall c :: c in kind[..n] ==> 'a' <= c <= 'z' {
      assert kind[n] == kind[n..][0] == '_';
      forall i | 0 <= i < n ensures IsLower(kind[i]) { assert kind[..n][i] in kind[..n]; }
      LowerUpTo(kind, n);
    }
  }

  // What the filters let through.
  lemma KeepsMeans(f: Filters, kind: string, count: nat)
    ensures Keeps(f, kind, count) <==>
      && (f.replayOnly ==> ReplayName(kind))
      && (f.kindFilter.Some? && f.kindFilter.value != "" ==> PartOf(f.kindFilter.value, kind))
      && (f.minCount.Some? ==> count >= f.minCount.value)
  {
    ReplayFamilyIs(kind);
    if f.kindFilter.Some? { SubstringIs(f.kindFilter.value, kind); }
  }

  // ---------------------------------------------------------------- direct against wrapper

  // Every direct site is a wrapper site.
  lemma {:induction false} DirectIsWrapper(calls: seq<Found>, kind: string)
    ensures |SitesOf(calls, false, kind)| <= |SitesOf(calls, true, kind)|
    ensures multiset(SitesOf(calls, false, kind)) <= multiset(SitesOf(calls, true, kind))
  {
    if calls != [] { DirectIsWrapper(calls[1..], kind); }
  }

  // Under any filters the direct kinds are wrapper kinds, with no more sites.
  lemma DirectKindsAreWrapperKinds(tree: seq<Node>, f: Filters, direct: Kinds, wrapper: Kinds)
    requires FilteredKinds(tree, false, f, direct) && FilteredKinds(tree, true, f, wrapper)
    ensures direct.Keys <= wrapper.Keys
    ensures forall k :: k in direct ==> |direct[k]| <= |wrapper[k]|
  {
    var calls := CallsIn(tree, None);
    forall k | k in direct ensures k in wrapper && |direct[k]| <= |wrapper[k]| {
      DirectIsWrapper(calls, k);
      SortLength(SitesOf(calls, false, k));
      SortLength(SitesOf(calls, true, k));
    }
  }

  ghost function SiteCount(m: Kinds): int {
    Total(m.Keys, SitesIn(m))
  }

  // sum(len(sites) for sites in kinds.values())
  method CountSites(m: Kinds) returns (n: int)
    ensures n == SiteCount(m)
  {
    n := 0;
    ghost var f := SitesIn(m);
    var rest := m.Keys;
    while rest != {}
      invariant rest <= m.Keys
      invariant n + Total(rest, f) == Total(m.Keys, f)
      decreases rest
    {
      var k :| k in rest;
      TotalWithout(rest, f, k);
      n := n + |m[k]|;
      rest := rest - {k};
    }
  }

  ghost function SitesIn(m: Kinds): string -> int {
    (k: string) => if k in m then |m[k]| else 0
  }

  // A split of the wrapper map: sizes and sites add up, sites to at most the wrapper sites.
  lemma SplitAddsUp(direct: Kinds, wrapper: Kinds, only: Kinds)
    requires direct.Keys <= wrapper.Keys && forall k :: k in direct ==> |direct[k]| <= |wrapper[k]|
    requires only == map k | k in wrapper && k !in direct :: wrapper[k]
    ensures |wrapper| == |direct| + |only|
    ensures SiteCount(wrapper) >= SiteCount(direct) + SiteCount(only)
    ensures SiteCount(wrapper) == SiteCount(direct) + SiteCount(only) <==>
      forall k :: k in direct ==> k in wrapper && |wrapper[k]| == |direct[k]|
  {
    assert wrapper.Keys == direct.Keys + only.Keys && direct.Keys !! only.Keys;
    assert |wrapper.Keys| == |direct.Keys| + |only.Keys|;
    TotalUnion(direct.Keys, only.Keys, SitesIn(wrapper));
    TotalSame(only.Keys, SitesIn(wrapper), SitesIn(only));
    TotalAtMost(direct.Keys, SitesIn(direct), SitesIn(wrapper));
  }

  // build_surface_comparison's row: kinds add up; sites add up to at most the wrapper sites,
  // exactly when no directly found kind has a further wrapper site.
  lemma SurfaceAddsUp(tree: seq<Node>, f: Filters, direct: Kinds, wrapper: Kinds, only: Kinds)
    requires FilteredKinds(tree, false, f, direct) && FilteredKinds(tree, true, f, wrapper)
    requires only == map k | k in wrapper && k !in direct :: wrapper[k]
    ensures |wrapper| == |direct| + |only|
    ensures SiteCount(wrapper) >= SiteCount(direct) + SiteCount(only)
    ensures SiteCount(wrapper) == SiteCount(direct) + SiteCount(only) <==>
      forall k :: k in direct ==> k in wrapper && |wrapper[k]| == |direct[k]|
  {
    DirectKindsAreWrapperKinds(tree, f, direct, wrapper);
    SplitAddsUp(direct, wrapper, only);
  }

  datatype Surface = Surface(wrapperKinds: nat, wrapperSites: int, directKinds: nat, directSites: int,
                             onlyKinds: nat, onlySites: int, onlyNames: seq<string>)

  // Found under the filters with wrappers counted, and not found without.
  ghost predicate WrapperOnly(tree: seq<Node>, f: Filters, k: string) {
    var calls := CallsIn(tree, None);
    && SitesOf(calls, true, k) != [] && Keeps(f, k, |SitesOf(calls, true, k)|)
    && !(SitesOf(calls, false, k) != [] && Keeps(f, k, |SitesOf(calls, false, k)|))
  }

  ghost predicate Comparable(tree: seq<Node>, f: Filters, direct: Kinds, wrapper: Kinds) {
    FilteredKinds(tree, false, f, direct) && FilteredKinds(tree, true, f, wrapper)
  }

  // What the row of a file is made of: the two inventories, and the kinds only the first has.
  ghost predicate Sized(direct: Kinds, wrapper: Kinds, s: Surface) {
    var only := Without(wrapper, direct);
    && s.wrapperKinds == |wrapper| && s.wrapperSites == SiteCount(wrapper)
    && s.directKinds == |direct| && s.directSites == SiteCount(direct)
    && s.onlyKinds == |only| && s.onlySites == SiteCount(only)
    && Increasing(LexLt, s.onlyNames) && |s.onlyNames| == |only|
    && forall k: string :: k in s.onlyNames <==> k in only
  }

  function Without(wrapper: Kinds, direct: Kinds): Kinds {
    map k | k in wrapper && k !in direct :: wrapper[k]
  }

  // They are the inventories of the file under the filters, with wrappers and without.
  ghost predicate Measures(tree: seq<Node>, f: Filters, s: Surface) {
    exists direct, wrapper :: Comparable(tree, f, direct, wrapper) && Sized(direct, wrapper, s)
  }

  // Kinds add up, sites add up to at most the wrapper sites, and the names are exactly the
  // wrapper-only kinds in order.
  ghost predicate Adds(tree: seq<Node>, f: Filters, s: Surface) {
    && s.wrapperKinds == s.directKinds + s.onlyKinds && s.onlyKinds == |s.onlyNames|
    && s.wrapperSites >= s.directSites + s.onlySites
    && Increasing(LexLt, s.onlyNames)
    && forall k: string :: k in s.onlyNames <==> WrapperOnly(tree, f, k)
  }

  // build_surface_comparison
  method SurfaceComparison(files: map<string, seq<Node>>, jurisdictions: Option<set<string>>, f: Filters)
    returns (comparison: Option<map<string, Surface>>)
    ensures comparison.None? <==> f.minCount.Some? && f.minCount.value <= 0
    ensures comparison.Some? ==>
      forall j :: j in comparison.value <==> j in files && (jurisdictions.Some? ==> j in jurisdictions.value)
    ensures comparison.Some? ==>
      forall j :: j in comparison.value ==> Adds(files[j], f, comparison.value[j]) && Measures(files[j], f, comparison.value[j])
  {
    var wrapper := BuildInventory(files, jurisdictions, true, f);
    var direct := BuildInventory(files, jurisdictions, false, f);
    if wrapper.None? {
      return None;
    }
    ghost var good := SizedIn(direct.value, wrapper.value);
    var result := CompareAll(direct.value, wrapper.value, good);
    forall j | j in result ensures Adds(files[j], f, result[j]) && Measures(files[j], f, result[j]) {
      assert good(j, result[j]);
      SizedAdds(files[j], f, direct.value[j], wrapper.value[j], result[j]);
    }
    comparison := Some(result);
  }

  lemma SizedAdds(tree: seq<Node>, f: Filters, direct: Kinds, wrapper: Kinds, s: Surface)
    requires Comparable(tree, f, direct, wrapper) && Sized(direct, wrapper, s)
    ensures Adds(tree, f, s) && Measures(tree, f, s)
  {
    SurfaceAddsUp(tree, f, direct, wrapper, Without(wrapper, direct));
  }

  ghost function SizedIn(direct: map<string, Kinds>, wrapper: map<string, Kinds>): (string, Surface) -> bool {
    (j: string, s: Surface) => j in direct && j in wrapper && Sized(direct[j], wrapper[j], s)
  }

  // Every row so far is good: made of its two inventories.
  method CompareAll(direct: map<string, Kinds>, wrapper: map<string, Kinds>, ghost good: (string, Surface) -> bool)
    returns (result: map<string, Surface>)
    requires wrapper.Keys <= direct.Keys
    requires forall j, s :: j in wrapper && Sized(direct[j], wrapper[j], s) ==> good(j, s)
    ensures result.Keys == wrapper.Keys && forall j :: j in result ==> good(j, result[j])
  {
    result := map[];
    var rest := wrapper.Keys;
    while rest != {}
      invariant rest <= wrapper.Keys && result.Keys == wrapper.Keys - rest
      invariant forall j :: j in result ==> good(j, result[j])
      decreases rest
    {
      var j :| j in rest;
      var row := SurfaceRow(direct[j], wrapper[j]);
      result := result[j := row];
      rest := rest - {j};
    }
  }

  // The loop body.
  method SurfaceRow(direct: Kinds, wrapper: Kinds) returns (s: Surface)
    ensures Sized(direct, wrapper, s)
  {
    var only := Without(wrapper, direct);
    var w := CountSites(wrapper);
    var d := CountSites(direct);
    var o := CountSites(only);
    LexIsOrder();
    var names := SortKeys(only.Keys, LexLt);
    ListingSize(LexLt, names, only.Keys);
    s := Surface(|wrapper|, w, |direct|, d, |only|, o, names);
  }
}
