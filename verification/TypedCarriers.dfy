// Which names of a scope hold the typed carrier `CompileRecord`: the scope walk and the
// assignment fixpoint of scripts/inventory_architecture_smells.py.

module TypedCarriers {

  const TYPED_CARRIER := "CompileRecord"

  datatype Expr =
    | Name(id: string)
    | Attribute(value: Expr, attr: string)
    | Call(func: Expr)
    | Other

  // A syntax tree node.  An assignment keeps its plain-name targets, an annotated one the
  // verdict on its annotation; a function or lambda opens a scope of its own.
  datatype Node = Node(shape: Shape, children: seq<Node>)
  datatype Shape =
    | Assign(targets: seq<string>, value: Expr)
    | AnnAssign(target: string, typedAnnotation: bool, hasValue: bool, annValue: Expr)
    | FunctionDef
    | Lambda
    | Plain

  // ---------------------------------------------------------------- what a scope owns

  predicate OpensScope(n: Node) {
    n.shape.FunctionDef? || n.shape.Lambda?
  }

  // The nodes below a list of nodes, each before its descendants and in source order,
  // without those below a nested scope.
  function Owned(nodes: seq<Node>): seq<Node> {
    if nodes == [] then []
    else (if OpensScope(nodes[0]) then [] else [nodes[0]] + Owned(nodes[0].children)) + Owned(nodes[1..])
  }

  // From the scope's own statements down to a node, from parent to child, through no function
  // and no lambda.
  ghost predicate ScopePath(p: seq<Node>, body: seq<Node>) {
    && p != [] && p[0] in body
    && (forall i :: 0 <= i < |p| ==> !p[i].shape.FunctionDef? && !p[i].shape.Lambda?)
    && forall i :: 0 <= i < |p| - 1 ==> p[i + 1] in p[i].children
  }

  ghost predicate InScope(n: Node, body: seq<Node>) {
    exists p :: ScopePath(p, body) && p[|p| - 1] == n
  }

  lemma {:induction false} OwnedHasPath(nodes: seq<Node>, n: Node) returns (p: seq<Node>)
    requires n in Owned(nodes)
    ensures ScopePath(p, nodes) && p[|p| - 1] == n
  {
    var first := nodes[0];
    if !OpensScope(first) && n == first {
      p := [n];
    } else if !OpensScope(first) && n in Owned(first.children) {
      var q := OwnedHasPath(first.children, n);
      p := [first] + q;
    } else {
      p := OwnedHasPath(nodes[1..], n);
    }
  }

  lemma {:induction false} ChildOwned(nodes: seq<Node>, m: Node, n: Node)
    requires m in nodes && !OpensScope(m) && (n == m || n in Owned(m.children))
    ensures n in Owned(nodes)
  {
    if nodes[0] != m { ChildOwned(nodes[1..], m, n); }
  }

  lemma {:induction false} PathIsOwned(p: seq<Node>, nodes: seq<Node>)
    requires ScopePath(p, nodes)
    ensures p[|p| - 1] in Owned(nodes)
    decreases |p|
  {
    if |p| > 1 {
      var q := p[1..];
      assert p[0 + 1] in p[0].children;
      forall i | 0 <= i < |q| - 1 ensures q[i + 1] in q[i].children { assert p[i + 1 + 1] in p[i + 1].children; }
      PathIsOwned(q, p[0].children);
    }
    ChildOwned(nodes, p[0], p[|p| - 1]);
  }

  lemma OwnedIsInScope(n: Node, body: seq<Node>)
    ensures n in Owned(body) <==> InScope(n, body)
  {
    if n in Owned(body) { var p := OwnedHasPath(body, n); }
    if InScope(n, body) {
      var p :| ScopePath(p, body) && p[|p| - 1] == n;
      PathIsOwned(p, body);
    }
  }

  function Size(nodes: seq<Node>): nat {
    if nodes == [] then 0 else 1 + Size(nodes[0].children) + Size(nodes[1..])
  }

  lemma {:induction false} SizeConcat(a: seq<Node>, b: seq<Node>)
    ensures Size(a + b) == Size(a) + Size(b)
  {
    if a == [] {
      assert a + b == b;
    } else {
      assert (a + b)[1..] == a[1..] + b;
      SizeConcat(a[1..], b);
    }
  }

  lemma {:induction false} OwnedConcat(a: seq<Node>, b: seq<Node>)
    ensures Owned(a + b) == Owned(a) + Owned(b)
  {
    if a == [] {
      assert a + b == b;
    } else {
      assert (a + b)[1..] == a[1..] + b;
      OwnedConcat(a[1..], b);
    }
  }

  // _push: the children that do not open a scope, onto the stack.
  function Pushed(stack: seq<Node>, children: seq<Node>): seq<Node>
    decreases children
  {
    if children == [] then stack
    else Pushed(if OpensScope(children[0]) then stack else stack + [children[0]], children[1..])
  }

  ghost predicate AllPlain(stack: seq<Node>) {
    forall n :: n in stack ==> !OpensScope(n)
  }

  lemma {:induction false} PushedOwns(stack: seq<Node>, children: seq<Node>)
    ensures Owned(Pushed(stack, children)) == Owned(stack) + Owned(children)
    ensures Size(Pushed(stack, children)) <= Size(stack) + Size(children)
    decreases children
  {
    if children != [] {
      var c := children[0];
      assert [c][1..] == [];
      if OpensScope(c) {
        PushedOwns(stack, children[1..]);
        assert Owned(children) == Owned(children[1..]);
      } else {
        PushedOwns(stack + [c], children[1..]);
        OwnedConcat(stack, [c]);
        SizeConcat(stack, [c]);
        assert Owned([c]) == [c] + Owned(c.children);
      }
    }
  }

  lemma {:induction false} PushedPlain(stack: seq<Node>, children: seq<Node>)
    requires AllPlain(stack)
    ensures AllPlain(Pushed(stack, children))
    decreases children
  {
    if children != [] {
      PushedPlain(if OpensScope(children[0]) then stack else stack + [children[0]], children[1..]);
    }
  }

  function Reversed(nodes: seq<Node>): seq<Node> {
    if nodes == [] then [] else Reversed(nodes[1..]) + [nodes[0]]
  }

  lemma {:induction false} ReversedOwns(nodes: seq<Node>)
    ensures multiset(Owned(Reversed(nodes))) == multiset(Owned(nodes))
  {
    if nodes != [] {
      ReversedOwns(nodes[1..]);
      OwnedConcat(Reversed(nodes[1..]), [nodes[0]]);
      assert nodes == [nodes[0]] + nodes[1..];
      OwnedConcat([nodes[0]], nodes[1..]);
    }
  }

  lemma SingleOwns(node: Node)
    requires !OpensScope(node)
    ensures Owned([node]) == [node] + Owned(node.children)
    ensures Size([node]) == 1 + Size(node.children)
  {
    assert [node][1..] == [];
    assert Owned([]) == [] && Size([]) == 0;
  }

  lemma PopOwns(rest: seq<Node>, node: Node)
    requires !OpensScope(node)
    ensures multiset(Owned(rest + [node])) == multiset{node} + multiset(Owned(Pushed(rest, node.children)))
    ensures Size(Pushed(rest, node.children)) < Size(rest + [node])
  {
    OwnedConcat(rest, [node]);
    SizeConcat(rest, [node]);
    PushedOwns(rest, node.children);
    SingleOwns(node);
  }

  // Popped and still reachable from the stack is what the scope owns.
  ghost predicate Accounted(body: seq<Node>, owned: seq<Node>, stack: seq<Node>) {
    AllPlain(stack) && multiset(owned) + multiset(Owned(stack)) == multiset(Owned(body))
  }

  lemma StackStep(body: seq<Node>, owned: seq<Node>, stack: seq<Node>)
    requires stack != [] && Accounted(body, owned, stack)
    ensures
      var node, rest := stack[|stack| - 1], stack[..|stack| - 1];
      Accounted(body, owned + [node], Pushed(rest, node.children)) && Size(Pushed(rest, node.children)) < Size(stack)
  {
    var node, rest := stack[|stack| - 1], stack[..|stack| - 1];
    assert stack == rest + [node];
    assert node in stack;
    assert AllPlain(rest) by { forall n | n in rest ensures !OpensScope(n) { assert n in stack; } }
    PopOwns(rest, node);
    PushedPlain(rest, node.children);
    MovedOver(multiset(owned), node, multiset(Owned(stack)), multiset(Owned(Pushed(rest, node.children))));
    assert multiset(owned + [node]) == multiset(owned) + multiset{node};
  }

  lemma MovedOver(owned: multiset<Node>, node: Node, before: multiset<Node>, after: multiset<Node>)
    requires before == multiset{node} + after
    ensures owned + before == owned + multiset{node} + after
  {
  }

  // _nodes_owned_by_scope: pops the stack, in an order of its own.
  method NodesOwnedByScope(body: seq<Node>) returns (owned: seq<Node>)
    ensures multiset(owned) == multiset(Owned(body))
  {
    owned := [];
    var stack := Pushed([], Reversed(body));
    StackStart(body);
    while stack != []
      invariant Accounted(body, owned, stack)
      decreases Size(stack)
    {
      var node := stack[|stack| - 1];
      StackStep(body, owned, stack);
      owned := owned + [node];
      stack := Pushed(stack[..|stack| - 1], node.children);
    }
    assert Owned(stack) == [];
  }

  lemma StackStart(body: seq<Node>)
    ensures Accounted(body, [], Pushed([], Reversed(body)))
  {
    PushedOwns([], Reversed(body));
    PushedPlain([], Reversed(body));
    ReversedOwns(body);
    assert Owned([]) + Owned(Reversed(body)) == Owned(Reversed(body));
  }

  // ---------------------------------------------------------------- typed expressions

  // CompileRecord(...), CompileRecord.<classmethod>(...), or a name known to be typed.
  predicate IsTyped(e: Expr, typed: set<string>) {
    match e
    case Name(id) => id in typed
    case Call(func) =>
      (func.Name? && func.id == TYPED_CARRIER) ||
      (func.Attribute? && func.value.Name? && func.value.id == TYPED_CARRIER)
    case _ => false
  }

  datatype Binding = Binding(names: seq<string>, value: Expr)

  // Every name bound to a typed expression is in the set.
  ghost predicate Closed(binds: seq<Binding>, s: set<string>) {
    forall b, n :: b in binds && n in b.names && IsTyped(b.value, s) ==> n in s
  }

  ghost predicate LeastTyped(seeds: set<string>, binds: seq<Binding>, s: set<string>) {
    && seeds <= s && Closed(binds, s)
    && forall t :: seeds <= t && Closed(binds, t) ==> s <= t
  }

  // A typed expression stays typed when more names are known.
  lemma TypedGrows(e: Expr, s: set<string>, t: set<string>)
    requires s <= t && IsTyped(e, s)
    ensures IsTyped(e, t)
  {
  }

  // The least closed set depends on which bindings there are, not on their order or number.
  lemma OrderDoesNotMatter(seeds: set<string>, binds: seq<Binding>, others: seq<Binding>, s: set<string>, t: set<string>)
    requires forall b :: b in binds <==> b in others
    requires LeastTyped(seeds, binds, s) && LeastTyped(seeds, others, t)
    ensures s == t
  {
    assert Closed(others, s) && Closed(binds, t);
  }

  // ---------------------------------------------------------------- copy chains

  // to is assigned from the plain name from.
  ghost predicate Copies(binds: seq<Binding>, from: string, to: string) {
    exists b :: b in binds && to in b.names && b.value == Name(from)
  }

  // CompileRecord(...), or CompileRecord.<anything>(...).
  ghost predicate CallsCarrier(e: Expr) {
    e == Call(Name("CompileRecord")) || exists m :: e == Call(Attribute(Name("CompileRecord"), m))
  }

  // c[0] is a seed or built by a carrier call; each later name is assigned from the one before.
  ghost predicate CopyChain(seeds: set<string>, binds: seq<Binding>, c: seq<string>) {
    && c != []
    && (c[0] in seeds || exists b :: b in binds && c[0] in b.names && CallsCarrier(b.value))
    && forall i :: 0 < i < |c| ==> Copies(binds, c[i - 1], c[i])
  }

  ghost predicate Derivable(seeds: set<string>, binds: seq<Binding>, n: string) {
    exists c :: CopyChain(seeds, binds, c) && c[|c| - 1] == n
  }

  // What is not a name is typed exactly when it calls the carrier, whatever names are known.
  lemma CarrierCalls(e: Expr, typed: set<string>)
    requires !e.Name?
    ensures IsTyped(e, typed) <==> CallsCarrier(e)
  {
    if IsTyped(e, typed) && e.func.Attribute? {
      assert e == Call(Attribute(Name("CompileRecord"), e.func.attr));
    }
  }

  lemma {:induction false} ChainInside(seeds: set<string>, binds: seq<Binding>, s: set<string>, c: seq<string>)
    requires seeds <= s && Closed(binds, s) && CopyChain(seeds, binds, c)
    ensures c[|c| - 1] in s
    decreases |c|
  {
    if |c| == 1 {
      if c[0] !in seeds {
        var b :| b in binds && c[0] in b.names && CallsCarrier(b.value);
        CarrierCalls(b.value, s);
        assert IsTyped(b.value, s);
      }
    } else {
      var front, i := c[..|c| - 1], |c| - 1;
      forall j | 0 < j < |front| ensures Copies(binds, front[j - 1], front[j]) {
        assert front[j - 1] == c[j - 1] && front[j] == c[j];
      }
      ChainInside(seeds, binds, s, front);
      assert Copies(binds, c[i - 1], c[i]);
      var b :| b in binds && c[i] in b.names && b.value == Name(c[i - 1]);
      assert IsTyped(b.value, s);
    }
  }

  lemma ChainExtends(seeds: set<string>, binds: seq<Binding>, b: Binding, n: string, m: string)
    requires Derivable(seeds, binds, m) && b in binds && n in b.names && b.value == Name(m)
    ensures Derivable(seeds, binds, n)
  {
    var c :| CopyChain(seeds, binds, c) && c[|c| - 1] == m;
    var d := c + [n];
    forall i | 0 < i < |d| ensures Copies(binds, d[i - 1], d[i]) {
      if i < |c| { assert c[i] == d[i] && c[i - 1] == d[i - 1]; }
    }
    assert CopyChain(seeds, binds, d);
  }

  // Membership in the least set is the existence of a copy chain.
  lemma TypedIffDerivable(seeds: set<string>, binds: seq<Binding>, s: set<string>, n: string)
    requires LeastTyped(seeds, binds, s)
    ensures n in s <==> Derivable(seeds, binds, n)
  {
    if Derivable(seeds, binds, n) {
      var c :| CopyChain(seeds, binds, c) && c[|c| - 1] == n;
      ChainInside(seeds, binds, s, c);
    }
    var t := set m | m in s && Derivable(seeds, binds, m);
    forall m | m in seeds ensures m in t {
      assert CopyChain(seeds, binds, [m]);
      assert [m][0] == m;
    }
    forall b, m | b in binds && m in b.names && IsTyped(b.value, t) ensures m in t {
      TypedGrows(b.value, t, s);
      if b.value.Name? {
        ChainExtends(seeds, binds, b, m, b.value.id);
      } else {
        CarrierCalls(b.value, t);
        assert CopyChain(seeds, binds, [m]);
        assert [m][0] == m;
      }
    }
    assert Closed(binds, t) && s <= t;
  }

  // ---------------------------------------------------------------- the fixpoint

  ghost predicate Below(seeds: set<string>, binds: seq<Binding>, typed: set<string>) {
    forall t :: seeds <= t && Closed(binds, t) ==> typed <= t
  }

  function AllNames(binds: seq<Binding>): set<string> {
    set b, n | b in binds && n in b.names :: n
  }

  // One `for names, value in assigns` pass over the bindings.
  method Pass(seeds: set<string>, binds: seq<Binding>, typed: set<string>) returns (typed': set<string>, changed: bool)
    requires seeds <= typed <= seeds + AllNames(binds) && Below(seeds, binds, typed)
    ensures typed <= typed' <= seeds + AllNames(binds) && Below(seeds, binds, typed')
    ensures changed <==> typed' != typed
    ensures !changed ==> Closed(binds, typed')
  {
    typed', changed := typed, false;
    var i := 0;
    while i < |binds|
      invariant 0 <= i <= |binds|
      invariant typed <= typed' <= seeds + AllNames(binds) && Below(seeds, binds, typed')
      invariant changed <==> typed' != typed
      invariant !changed ==> Closed(binds[..i], typed')
    {
      var b := binds[i];
      assert binds[..i + 1] == binds[..i] + [b];
      if exists n :: n in b.names && n !in typed' {
        if IsTyped(b.value, typed') {
          var named := set n | n in b.names;
          ghost var before := typed';
          typed', changed := typed' + named, true;
          ghost var added :| added in b.names && added !in before;
          forall t | seeds <= t && Closed(binds, t) ensures typed' <= t { TypedGrows(b.value, before, t); }
        }
      }
      i := i + 1;
    }
    assert binds[..|binds|] == binds;
  }

  // The `while changed` loop.
  method Fixpoint(seeds: set<string>, binds: seq<Binding>) returns (typed: set<string>)
    ensures LeastTyped(seeds, binds, typed)
  {
    typed := seeds;
    var changed := true;
    while changed
      invariant seeds <= typed <= seeds + AllNames(binds) && Below(seeds, binds, typed)
      invariant !changed ==> Closed(binds, typed)
      decreases seeds + AllNames(binds) - typed, changed
    {
      var before := typed;
      typed, changed := Pass(seeds, binds, typed);
      if changed {
        var n :| n in typed && n !in before;
        assert n in seeds + AllNames(binds) - before;
      }
    }
  }

  // ---------------------------------------------------------------- a scope

  // The binding and the annotated name a node contributes.
  function BindingOf(n: Node): seq<Binding> {
    match n.shape
    case Assign(targets, value) => if targets == [] then [] else [Binding(targets, value)]
    case AnnAssign(target, _, hasValue, value) => if hasValue then [Binding([target], value)] else []
    case _ => []
  }

  function AnnotatedName(n: Node): set<string> {
    if n.shape.AnnAssign? && n.shape.typedAnnotation then {n.shape.target} else {}
  }

  function Bindings(nodes: seq<Node>): seq<Binding> {
    if nodes == [] then [] else Bindings(nodes[..|nodes| - 1]) + BindingOf(nodes[|nodes| - 1])
  }

  lemma {:induction false} BindingsFrom(nodes: seq<Node>, b: Binding)
    ensures b in Bindings(nodes) <==> exists n :: n in nodes && b in BindingOf(n)
  {
    if nodes != [] {
      var front, last := nodes[..|nodes| - 1], nodes[|nodes| - 1];
      assert nodes == front + [last];
      BindingsFrom(front, b);
    }
  }

  // A value that is the carrier, when the names in s hold it.
  ghost predicate Carries(e: Expr, s: set<string>) {
    CallsCarrier(e) || exists m :: e == Name(m) && m in s
  }

  // What a node of the scope does to the names that hold the carrier.
  ghost predicate Respects(n: Node, s: set<string>) {
    match n.shape
    case Assign(targets, value) => Carries(value, s) ==> forall t :: t in targets ==> t in s
    case AnnAssign(target, typedAnnotation, hasValue, value) =>
      typedAnnotation || (hasValue && Carries(value, s)) ==> target in s
    case _ => true
  }

  ghost predicate Typing(typedParams: set<string>, body: seq<Node>, s: set<string>) {
    typedParams <= s && forall n :: InScope(n, body) ==> Respects(n, s)
  }

  ghost predicate LeastTyping(typedParams: set<string>, body: seq<Node>, s: set<string>) {
    Typing(typedParams, body, s) && forall t :: Typing(typedParams, body, t) ==> s <= t
  }

  lemma CarriesIsTyped(e: Expr, s: set<string>)
    ensures Carries(e, s) <==> IsTyped(e, s)
  {
    if !e.Name? { CarrierCalls(e, s); }
  }

  lemma RespectsIsClosed(n: Node, s: set<string>)
    ensures Respects(n, s) <==> AnnotatedName(n) <= s && Closed(BindingOf(n), s)
  {
    match n.shape
    case Assign(targets, value) =>
      CarriesIsTyped(value, s);
      if Closed(BindingOf(n), s) && Carries(value, s) {
        forall t | t in targets ensures t in s { assert Binding(targets, value) in BindingOf(n); }
      }
    case AnnAssign(target, _, hasValue, value) =>
      CarriesIsTyped(value, s);
      if Closed(BindingOf(n), s) && hasValue && Carries(value, s) {
        assert Binding([target], value) in BindingOf(n) && target in [target];
      }
    case _ =>
  }

  // On the tree: the seeds and bindings gathered from the scope ask for nothing else.
  lemma TypingIsClosed(typedParams: set<string>, body: seq<Node>, s: set<string>)
    ensures Typing(typedParams, body, s) <==>
      typedParams + AnnotatedNames(Owned(body)) <= s && Closed(Bindings(Owned(body)), s)
  {
    forall n
      ensures n in Owned(body) <==> InScope(n, body)
      ensures Respects(n, s) <==> AnnotatedName(n) <= s && Closed(BindingOf(n), s)
    {
      OwnedIsInScope(n, body);
      RespectsIsClosed(n, s);
    }
    ClosedByNode(Owned(body), s);
  }

  lemma ClosedByNode(nodes: seq<Node>, s: set<string>)
    ensures Closed(Bindings(nodes), s) <==> forall n :: n in nodes ==> Closed(BindingOf(n), s)
    ensures AnnotatedNames(nodes) <= s <==> forall n :: n in nodes ==> AnnotatedName(n) <= s
  {
    forall b ensures b in Bindings(nodes) <==> exists n :: n in nodes && b in BindingOf(n) { BindingsFrom(nodes, b); }
    if forall n :: n in nodes ==> Closed(BindingOf(n), s) {
      forall b, x | b in Bindings(nodes) && x in b.names && IsTyped(b.value, s) ensures x in s {
        var n :| n in nodes && b in BindingOf(n);
      }
    }
  }

  // _typed_carrier_names_for_scope: whatever order the stack hands the nodes over in, the
  // result is the least set that the scope's nodes respect.
  method TypedCarrierNames(typedParams: set<string>, body: seq<Node>) returns (typed: set<string>)
    ensures LeastTyping(typedParams, body, typed)
    ensures LeastTyped(typedParams + AnnotatedNames(Owned(body)), Bindings(Owned(body)), typed)
  {
    var owned := NodesOwnedByScope(body);
    var seeds, binds := typedParams, [];
    for i := 0 to |owned|
      invariant Gathered(typedParams, owned[..i], seeds, binds)
    {
      GatherOne(typedParams, owned, i, seeds, binds);
      seeds := seeds + AnnotatedName(owned[i]);
      binds := binds + BindingOf(owned[i]);
    }
    assert owned[..|owned|] == owned;
    typed := Fixpoint(seeds, binds);
    ScopeBindings(typedParams, owned, body, seeds, binds, typed);
    LeastOnTree(typedParams, body, typed);
  }

  lemma LeastOnTree(typedParams: set<string>, body: seq<Node>, typed: set<string>)
    requires LeastTyped(typedParams + AnnotatedNames(Owned(body)), Bindings(Owned(body)), typed)
    ensures LeastTyping(typedParams, body, typed)
  {
    forall t
      ensures Typing(typedParams, body, t) <==>
        typedParams + AnnotatedNames(Owned(body)) <= t && Closed(Bindings(Owned(body)), t)
    {
      TypingIsClosed(typedParams, body, t);
    }
  }

  ghost function AnnotatedNames(nodes: seq<Node>): set<string> {
    set n, x | n in nodes && x in AnnotatedName(n) :: x
  }

  // The seeds and bindings of the nodes so far.
  ghost predicate Gathered(typedParams: set<string>, nodes: seq<Node>, seeds: set<string>, binds: seq<Binding>) {
    seeds == typedParams + AnnotatedNames(nodes) && binds == Bindings(nodes)
  }

  lemma GatherOne(typedParams: set<string>, owned: seq<Node>, i: nat, seeds: set<string>, binds: seq<Binding>)
    requires i < |owned| && Gathered(typedParams, owned[..i], seeds, binds)
    ensures Gathered(typedParams, owned[..i + 1], seeds + AnnotatedName(owned[i]), binds + BindingOf(owned[i]))
  {
    var front, all := owned[..i], owned[..i + 1];
    assert all == front + [owned[i]];
    assert all[..|all| - 1] == front;
    forall x ensures x in AnnotatedNames(all) <==> x in AnnotatedNames(front) || x in AnnotatedName(owned[i]) { }
  }

  // Which nodes there are decides, not their order.
  lemma ScopeBindings(typedParams: set<string>, owned: seq<Node>, body: seq<Node>, seeds: set<string>, binds: seq<Binding>,
                      typed: set<string>)
    requires multiset(owned) == multiset(Owned(body))
    requires Gathered(typedParams, owned, seeds, binds) && LeastTyped(seeds, binds, typed)
    ensures LeastTyped(typedParams + AnnotatedNames(Owned(body)), Bindings(Owned(body)), typed)
  {
    forall n ensures n in owned <==> n in Owned(body) {
      assert n in owned <==> n in multiset(owned);
      assert n in Owned(body) <==> n in multiset(Owned(body));
    }
    assert AnnotatedNames(owned) == AnnotatedNames(Owned(body));
    forall b ensures b in binds <==> b in Bindings(Owned(body)) {
      BindingsFrom(owned, b);
      BindingsFrom(Owned(body), b);
    }
    SameBindings(seeds, binds, Bindings(Owned(body)), typed);
  }

  lemma SameBindings(seeds: set<string>, binds: seq<Binding>, others: seq<Binding>, s: set<string>)
    requires forall b :: b in binds <==> b in others
    requires LeastTyped(seeds, binds, s)
    ensures LeastTyped(seeds, others, s)
  {
    forall t ensures Closed(binds, t) == Closed(others, t) { }
  }
}
