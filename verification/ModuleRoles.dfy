// Module classification and the determinism firewall of scripts/inventory_module_roles.py,
// over the graph and the breadth-first search of ImportGraph.

module ModuleRoles {
  import opened ImportGraph
  import opened Ordering

  // The allowlist and the two registry modules a scan goes by.
  datatype Settings = Settings(optional: set<Mod>, registry: Mod, drillRegistry: Mod)

  // One scan's input: the modules, the built import edges, the modules the two registries
  // name as owners (resolved), and the entrypoint modules.
  datatype Tree = Tree(mods: set<Mod>, imports: Edges, owners: set<Mod>, drills: set<Mod>, roots: set<Mod>,
                       settings: Settings) {

    // What build_import_graph, _resolve_owner and entrypoint_roots hand over.
    ghost predicate Valid() {
      && imports.Keys == mods
      && (forall m :: m in mods ==> imports[m] <= mods)
      && owners <= mods && drills <= mods && roots <= mods
    }

    function RegistryTargets(): set<Mod> {
      if settings.registry in mods then owners else {}
    }

    function DrillTargets(): set<Mod> {
      if settings.drillRegistry in mods then drills else {}
    }

    // Import edges and FindingSpec.owner edges.
    function ProdEdges(): Edges {
      Joined(imports, settings.registry, RegistryTargets())
    }

    // ... and RECORDED_DEAD owner edges.
    function FullEdges(): Edges {
      Joined(ProdEdges(), settings.drillRegistry, DrillTargets())
    }

    ghost predicate InProduction(m: Mod) {
      Reachable(roots, ProdEdges(), m)
    }

    ghost predicate InFull(m: Mod) {
      Reachable(roots, FullEdges(), m)
    }

    ghost predicate HasImporter(m: Mod) {
      exists i :: i in mods && m in Succ(imports, i)
    }

    ghost predicate HasLiveImporter(m: Mod) {
      exists i :: i in mods && m in Succ(imports, i) && InProduction(i)
    }
  }

  // edges.setdefault(source, set()).update(targets), for a non-empty target list
  function Joined(edges: Edges, source: Mod, targets: set<Mod>): Edges {
    if targets == {} then edges else edges[source := Succ(edges, source) + targets]
  }

  datatype Kind = Production | Registry | OptionalBackend | DrillOnly | TestOnly | NoImporter
  datatype Classification = Live | TestOnlyLive | Dead
  datatype Role = Role(reachable: bool, kind: Kind, classification: Classification)

  // The importer_kind cascade over the facts the loop looks up.
  function Cascade(root: bool, production: bool, full: bool, optional: bool, registry: bool, drill: bool,
                   imported: bool, importedLive: bool): Kind {
    if root || (production && importedLive) then Production
    else if production && registry then Registry
    else if optional then OptionalBackend
    else if full && drill && !production then DrillOnly
    else if imported then TestOnly
    else NoImporter
  }

  function Classify(optional: bool, kind: Kind): Classification {
    if optional then Live
    else match kind
      case Production => Live
      case Registry => Live
      case DrillOnly => Live
      case TestOnly => TestOnlyLive
      case _ => Dead
  }

  ghost function RoleOf(g: Tree, m: Mod): Role {
    var optional := m in g.settings.optional;
    var kind := Cascade(m in g.roots, g.InProduction(m), g.InFull(m), optional,
                        m in g.RegistryTargets(), m in g.DrillTargets(), g.HasImporter(m), g.HasLiveImporter(m));
    Role(g.InProduction(m), kind, Classify(optional, kind))
  }

  // ---------------------------------------------------------------- the scan

  // rev[t]: the modules importing t.
  method ReverseEdges(edges: Edges) returns (rev: Edges)
    ensures forall t, i :: i in Succ(rev, t) <==> t in Succ(edges, i)
  {
    rev := map[];
    var sources := edges.Keys;
    while sources != {}
      invariant sources <= edges.Keys
      invariant forall t, i :: i in Succ(rev, t) <==> t in Succ(edges, i) && i !in sources
      decreases sources
    {
      var i :| i in sources;
      rev := AddReverse(rev, edges[i], i);
      sources := sources - {i};
    }
  }

  method AddReverse(rev: Edges, targets: set<Mod>, source: Mod) returns (out: Edges)
    ensures forall t, i :: i in Succ(out, t) <==> i in Succ(rev, t) || (i == source && t in targets)
  {
    out := rev;
    var rest := targets;
    while rest != {}
      invariant rest <= targets
      invariant forall t, i :: i in Succ(out, t) <==> i in Succ(rev, t) || (i == source && t in targets && t !in rest)
      decreases rest
    {
      var t :| t in rest;
      ghost var before := out;
      out := out[t := Succ(out, t) + {source}];
      assert forall u :: Succ(out, u) == if u == t then Succ(before, u) + {source} else Succ(before, u);
      rest := rest - {t};
    }
  }

  // scan_module_roles over the built graph.
  method Scan(g: Tree) returns (roles: map<Mod, Role>)
    requires g.Valid()
    ensures roles.Keys == g.mods
    ensures forall m :: m in g.mods ==> roles[m] == RoleOf(g, m)
  {
    var production := Bfs(g.roots, g.ProdEdges());
    var full := Bfs(g.roots, g.FullEdges());
    var rev := ReverseEdges(g.imports);
    roles := map[];
    var rest := g.mods;
    while rest != {}
      invariant rest <= g.mods
      invariant roles.Keys == g.mods - rest
      invariant forall m :: m in roles ==> roles[m] == RoleOf(g, m)
      decreases rest
    {
      var m :| m in rest;
      var role := OneRole(g, m, production, full, rev);
      roles := roles[m := role];
      rest := rest - {m};
    }
  }

  // The loop body for one module.
  method OneRole(g: Tree, m: Mod, production: set<Mod>, full: set<Mod>, rev: Edges) returns (role: Role)
    requires g.Valid()
    requires forall i :: i in production <==> g.InProduction(i)
    requires forall i :: i in full <==> g.InFull(i)
    requires forall t, i :: i in Succ(rev, t) <==> t in Succ(g.imports, i)
    ensures role == RoleOf(g, m)
  {
    var importers := Succ(rev, m);
    var liveImporters := set i | i in importers && i in production;
    ImportersFound(g, m, importers, liveImporters, production);
    var optional := m in g.settings.optional;
    var kind := Cascade(m in g.roots, m in production, m in full, optional,
                        m in g.RegistryTargets(), m in g.DrillTargets(), importers != {}, liveImporters != {});
    role := Role(m in production, kind, Classify(optional, kind));
  }

  lemma ImportersFound(g: Tree, m: Mod, importers: set<Mod>, liveImporters: set<Mod>, production: set<Mod>)
    requires g.Valid()
    requires forall i :: i in importers <==> m in Succ(g.imports, i)
    requires forall i :: i in production <==> g.InProduction(i)
    requires liveImporters == set i | i in importers && i in production
    ensures (importers != {}) == g.HasImporter(m)
    ensures (liveImporters != {}) == g.HasLiveImporter(m)
  {
    if importers != {} { var i :| i in importers; assert i in g.mods; }
    if liveImporters != {} { var i :| i in liveImporters; assert i in g.mods; }
  }

  // ---------------------------------------------------------------- the declared settings

  const OBSERVATION_REGISTRY: Mod := "lawvm.core.observation_registry"
  const FIRE_DRILL_REGISTRY: Mod := "lawvm.core.fire_drill_registry"

  const OPTIONAL_BACKEND_MODULES: set<Mod> := {
    "lawvm.finland.llm_backends.qwen_local",
    "lawvm.ingest.llm_backends.llm_adjudicator",
    "lawvm.ingest.llm_backends.vision_producer",
    "lawvm.ingest.llm_backends.nemotron_client",
    "lawvm.ingest.llm_backends.docling_producer",
    "lawvm.ingest.llm_backends.mineru_producer"
  }

  const DECLARED := Settings(OPTIONAL_BACKEND_MODULES, OBSERVATION_REGISTRY, FIRE_DRILL_REGISTRY)

  // ---------------------------------------------------------------- the edges followed

  // One step: an import, an owner entry of the registry, or (over the full graph) an owner
  // entry of the drill registry.
  ghost predicate Follows(g: Tree, i: Mod, m: Mod, full: bool) {
    || m in Succ(g.imports, i)
    || (i == g.settings.registry && i in g.mods && m in g.owners)
    || (full && i == g.settings.drillRegistry && i in g.mods && m in g.drills)
  }

  ghost predicate Chain(g: Tree, p: seq<Mod>, full: bool) {
    p != [] && p[0] in g.roots && forall k :: 0 <= k < |p| - 1 ==> Follows(g, p[k], p[k + 1], full)
  }

  ghost predicate ChainTo(g: Tree, m: Mod, full: bool) {
    exists p :: Chain(g, p, full) && p[|p| - 1] == m
  }

  lemma EdgesAre(g: Tree, i: Mod, m: Mod)
    ensures m in Succ(g.ProdEdges(), i) <==> Follows(g, i, m, false)
    ensures m in Succ(g.FullEdges(), i) <==> Follows(g, i, m, true)
  {
  }

  lemma PathsAreChains(g: Tree, p: seq<Mod>)
    ensures IsPath(g.ProdEdges(), p) && p[0] in g.roots <==> Chain(g, p, false)
    ensures IsPath(g.FullEdges(), p) && p[0] in g.roots <==> Chain(g, p, true)
  {
    forall k | 0 <= k < |p| - 1
      ensures p[k + 1] in Succ(g.ProdEdges(), p[k]) <==> Follows(g, p[k], p[k + 1], false)
      ensures p[k + 1] in Succ(g.FullEdges(), p[k]) <==> Follows(g, p[k], p[k + 1], true)
    {
      EdgesAre(g, p[k], p[k + 1]);
    }
  }

  // A module is marked reachable exactly when such a chain leads to it from an entrypoint;
  // full reach allows the drill registry's entries too.
  lemma ReachMeans(g: Tree, m: Mod)
    ensures RoleOf(g, m).reachable <==> ChainTo(g, m, false)
    ensures g.InProduction(m) <==> ChainTo(g, m, false)
    ensures g.InFull(m) <==> ChainTo(g, m, true)
  {
    forall p
      ensures IsPath(g.ProdEdges(), p) && p[0] in g.roots <==> Chain(g, p, false)
      ensures IsPath(g.FullEdges(), p) && p[0] in g.roots <==> Chain(g, p, true)
    {
      PathsAreChains(g, p);
    }
  }

  // ---------------------------------------------------------------- classification

  lemma ImporterListed(g: Tree, i: Mod, m: Mod)
    requires g.Valid() && m in Succ(g.imports, i)
    ensures i in g.mods && g.HasImporter(m)
  {
  }

  lemma RootsInProduction(g: Tree, m: Mod)
    requires m in g.roots
    ensures g.InProduction(m) && g.InFull(m)
  {
    RootReachable(g.roots, g.ProdEdges(), m);
    RootReachable(g.roots, g.FullEdges(), m);
  }

  // A production-reached module is a root, or has a live importer, or is a registry owner.
  lemma ProductionReason(g: Tree, m: Mod)
    requires g.Valid() && g.InProduction(m)
    ensures m in g.roots || g.HasLiveImporter(m) || m in g.RegistryTargets()
  {
    if m !in g.roots {
      var i := LastStep(g.roots, g.ProdEdges(), m);
      if m in Succ(g.imports, i) { assert i in g.mods; }
    }
  }

  // A live importer puts a module into production reach.
  lemma LiveImporterReaches(g: Tree, m: Mod)
    requires g.HasLiveImporter(m)
    ensures g.InProduction(m)
  {
    var i :| i in g.mods && m in Succ(g.imports, i) && g.InProduction(i);
    StepReachable(g.roots, g.ProdEdges(), i, m);
  }

  // What each importer kind says in terms of the graph: production reach is split between
  // Production and Registry, and the remaining modules are told apart by the registries and
  // by whether anybody imports them.
  lemma KindsMean(g: Tree, m: Mod)
    requires g.Valid() && m in g.mods
    ensures
      var kind := RoleOf(g, m).kind;
      && (kind == Production <==> m in g.roots || g.HasLiveImporter(m))
      && (kind == Registry <==> g.InProduction(m) && m !in g.roots && !g.HasLiveImporter(m))
      && (kind == OptionalBackend <==> !g.InProduction(m) && m in g.settings.optional)
      && (!g.InProduction(m) && m !in g.settings.optional ==>
           && (kind == DrillOnly <==> g.settings.drillRegistry in g.mods && m in g.drills && g.InFull(m))
           && (kind == TestOnly <==> kind != DrillOnly && g.HasImporter(m)))
  {
    if m in g.roots { RootsInProduction(g, m); }
    if g.HasLiveImporter(m) { LiveImporterReaches(g, m); }
    if g.InProduction(m) { ProductionReason(g, m); }
  }

  // live = production-reachable, or optional, or a drill target in full reach.
  lemma LiveIsReachability(g: Tree, m: Mod)
    requires g.Valid() && m in g.mods
    ensures RoleOf(g, m).classification == Live <==>
      || g.InProduction(m) || m in g.settings.optional
      || (g.settings.drillRegistry in g.mods && m in g.drills && g.InFull(m))
  {
    if m in g.roots { RootsInProduction(g, m); }
    if g.InProduction(m) { ProductionReason(g, m); }
  }

  // A registry target is reached wherever the registry is.
  lemma OwnersReached(g: Tree, m: Mod)
    requires m in g.RegistryTargets()
    ensures g.InProduction(g.settings.registry) ==> g.InProduction(m)
    ensures g.InFull(g.settings.registry) ==> g.InFull(m)
  {
    if g.InProduction(g.settings.registry) { StepReachable(g.roots, g.ProdEdges(), g.settings.registry, m); }
    if g.InFull(g.settings.registry) { StepReachable(g.roots, g.FullEdges(), g.settings.registry, m); }
  }

  // A drill target is in full reach wherever the drill registry is.
  lemma DrillsReached(g: Tree, m: Mod)
    requires g.settings.drillRegistry in g.mods && m in g.drills
    ensures g.InFull(g.settings.drillRegistry) ==> g.InFull(m)
  {
    if g.InFull(g.settings.drillRegistry) { StepReachable(g.roots, g.FullEdges(), g.settings.drillRegistry, m); }
  }

  // Why full reach holds a module that is no root.
  lemma FullReason(g: Tree, m: Mod)
    requires g.Valid() && g.InFull(m) && m !in g.roots
    ensures g.HasImporter(m) || m in g.DrillTargets() || (m in g.RegistryTargets() && g.InFull(g.settings.registry))
  {
    var i := LastStep(g.roots, g.FullEdges(), m);
    if m in Succ(g.imports, i) { ImporterListed(g, i, m); }
  }

  // Dead: nobody imports it, and neither production nor an owned drill nor the allowlist holds it.
  lemma DeadMeans(g: Tree, m: Mod)
    requires g.Valid() && m in g.mods
    ensures RoleOf(g, m).classification == Dead <==>
      && !g.HasImporter(m) && !g.InProduction(m) && m !in g.settings.optional
      && !(g.settings.drillRegistry in g.mods && m in g.drills && g.InFull(m))
  {
    LiveIsReachability(g, m);
  }

  // The only modules that are dead though full reach holds them: registry owners nobody
  // imports, below a registry that production does not reach.
  lemma DeadInFullReach(g: Tree, m: Mod)
    requires g.Valid() && m in g.mods
    ensures RoleOf(g, m).classification == Dead && g.InFull(m) <==>
      && g.InFull(g.settings.registry) && !g.InProduction(g.settings.registry)
      && m in g.owners && g.settings.registry in g.mods && !g.InProduction(m)
      && !(g.settings.drillRegistry in g.mods && m in g.drills)
      && !g.HasImporter(m) && m !in g.settings.optional
  {
    DeadMeans(g, m);
    if m in g.RegistryTargets() { OwnersReached(g, m); }
    if g.InFull(m) {
      if m in g.roots { RootsInProduction(g, m); } else { FullReason(g, m); }
    }
  }

  lemma NoDeadInFullReach(g: Tree, m: Mod)
    requires g.Valid() && m in g.mods
    requires g.InProduction(g.settings.registry)
    ensures g.InFull(m) ==> RoleOf(g, m).classification != Dead
  {
    DeadInFullReach(g, m);
  }

  // The same tree with more import edges.
  ghost predicate MoreImports(g: Tree, h: Tree) {
    && h.settings == g.settings && h.mods == g.mods && h.owners == g.owners && h.drills == g.drills && h.roots == g.roots
    && SubGraph(g.imports, h.imports)
  }

  // Adding import edges takes no module out of live, and puts none into dead.
  lemma MoreImportsMonotone(g: Tree, h: Tree, m: Mod)
    requires g.Valid() && h.Valid() && MoreImports(g, h) && m in g.mods
    ensures RoleOf(g, m).classification == Live ==> RoleOf(h, m).classification == Live
    ensures RoleOf(g, m).classification != Dead ==> RoleOf(h, m).classification != Dead
  {
    DeadMeans(g, m);
    DeadMeans(h, m);
    LiveIsReachability(g, m);
    LiveIsReachability(h, m);
    MoreReached(g, h, m);
  }

  lemma JoinedGrows(edges: Edges, larger: Edges, source: Mod, targets: set<Mod>)
    requires SubGraph(edges, larger)
    ensures SubGraph(Joined(edges, source, targets), Joined(larger, source, targets))
  {
    forall n ensures Succ(Joined(edges, source, targets), n) <= Succ(Joined(larger, source, targets), n) {
      assert Succ(edges, n) <= Succ(larger, n);
    }
  }

  lemma MoreReached(g: Tree, h: Tree, m: Mod)
    requires MoreImports(g, h)
    ensures g.InProduction(m) ==> h.InProduction(m)
    ensures g.InFull(m) ==> h.InFull(m)
    ensures g.HasImporter(m) ==> h.HasImporter(m)
  {
    JoinedGrows(g.imports, h.imports, g.settings.registry, g.RegistryTargets());
    JoinedGrows(g.ProdEdges(), h.ProdEdges(), g.settings.drillRegistry, g.DrillTargets());
    if g.InProduction(m) { ReachGrows(g.roots, g.ProdEdges(), h.ProdEdges(), m); }
    if g.InFull(m) { ReachGrows(g.roots, g.FullEdges(), h.FullEdges(), m); }
    if g.HasImporter(m) {
      var i :| i in g.mods && m in Succ(g.imports, i);
      assert m in Succ(h.imports, i);
    }
  }

  // ---------------------------------------------------------------- enclosing packages

  // Production and full reach hold the existing enclosing packages of everything they hold.
  lemma PackagesReached(g: Tree, m: Mod, a: Mod)
    requires g.Valid() && HoldsAncestors(g.mods, g.imports)
    requires m in g.mods && a in g.mods && IsAncestor(a, m)
    ensures g.InProduction(m) ==> g.InProduction(a)
    ensures g.InFull(m) ==> g.InFull(a)
    ensures g.HasImporter(a)
  {
    assert a in Succ(g.imports, m);
    JoinedHolds(g.imports, g.settings.registry, g.RegistryTargets());
    JoinedHolds(g.ProdEdges(), g.settings.drillRegistry, g.DrillTargets());
    assert HoldsAncestors(g.mods, g.ProdEdges()) && HoldsAncestors(g.mods, g.FullEdges());
    if g.InProduction(m) { ReachHoldsAncestors(g.roots, g.mods, g.ProdEdges(), m, a); }
    if g.InFull(m) { ReachHoldsAncestors(g.roots, g.mods, g.FullEdges(), m, a); }
  }

  lemma JoinedHolds(edges: Edges, source: Mod, targets: set<Mod>)
    ensures SubGraph(edges, Joined(edges, source, targets))
    ensures forall mods :: HoldsAncestors(mods, edges) ==> HoldsAncestors(mods, Joined(edges, source, targets))
  {
    forall mods | HoldsAncestors(mods, edges) ensures HoldsAncestors(mods, Joined(edges, source, targets)) {
      forall m, a | m in mods && a in mods && IsAncestor(a, m) ensures a in Succ(Joined(edges, source, targets), m) {
        assert a in Succ(edges, m);
      }
    }
  }

  // A package is never worse off than a module inside it: live with a live production module,
  // and never dead.
  lemma PackageRole(g: Tree, m: Mod, a: Mod)
    requires g.Valid() && HoldsAncestors(g.mods, g.imports)
    requires m in g.mods && a in g.mods && IsAncestor(a, m)
    ensures RoleOf(g, m).reachable ==> RoleOf(g, a).reachable && RoleOf(g, a).classification == Live
    ensures RoleOf(g, a).classification != Dead
  {
    PackagesReached(g, m, a);
    LiveIsReachability(g, a);
    DeadMeans(g, a);
  }

  // scan_module_roles as the script declares it, from the imports found in the sources on.
  method ScanModuleRoles(imports: Edges, owners: set<Mod>, drills: set<Mod>, roots: set<Mod>)
    returns (roles: map<Mod, Role>, edges: Edges)
    requires forall m :: m in imports ==> imports[m] <= imports.Keys
    requires owners <= imports.Keys && drills <= imports.Keys && roots <= imports.Keys
    ensures edges.Keys == imports.Keys
    ensures forall m :: m in imports ==> edges[m] == imports[m] + set a | a in imports.Keys && IsAncestor(a, m)
    ensures roles.Keys == imports.Keys
    ensures forall m :: m in imports ==>
      roles[m] == RoleOf(Tree(imports.Keys, edges, owners, drills, roots, DECLARED), m)
    ensures forall m, a :: m in imports && a in imports && IsAncestor(a, m) ==>
      (roles[m].reachable ==> roles[a].reachable && roles[a].classification == Live) && roles[a].classification != Dead
  {
    edges := AddAncestorEdges(imports);
    ghost var g := Tree(imports.Keys, edges, owners, drills, roots, DECLARED);
    BuiltIsValid(g, imports);
    roles := Scan(Tree(imports.Keys, edges, owners, drills, roots, DECLARED));
    forall m, a | m in imports && a in imports && IsAncestor(a, m)
      ensures roles[m].reachable ==> roles[a].reachable && roles[a].classification == Live
      ensures roles[a].classification != Dead
    {
      PackageRole(g, m, a);
    }
  }

  lemma BuiltIsValid(g: Tree, imports: Edges)
    requires g.mods == imports.Keys && g.imports.Keys == imports.Keys
    requires forall m :: m in imports ==>
      imports[m] <= imports.Keys && g.imports[m] == imports[m] + set a | a in imports.Keys && IsAncestor(a, m)
    requires g.owners <= imports.Keys && g.drills <= imports.Keys && g.roots <= imports.Keys
    ensures g.Valid() && HoldsAncestors(g.mods, g.imports)
  {
  }

  // ---------------------------------------------------------------- the firewall

  const LLM_CLIENT_PREFIXES: seq<string> := ["lawvm.ingest.llm_backends.", "lawvm.finland.llm_backends."]

  const LLM_CLIENT_MODULES: set<Mod> := {
    "lawvm.ingest.llm_backends.llm_adjudicator",
    "lawvm.ingest.llm_backends.vision_producer",
    "lawvm.finland.llm_backends.qwen_local"
  }

  const REPLAY_PROJECTION_CONE_ROOTS: seq<Mod> := [
    "lawvm.finland.replay_entrypoint",
    "lawvm.finland.replay_pipeline",
    "lawvm.finland.graph",
    "lawvm.core.branch_projection",
    "lawvm.core.ctsf_gate",
    "lawvm.core.replay_conservation",
    "lawvm.semantic.projection",
    "lawvm.uk_legislation.uk_amendment_replay",
    "lawvm.eu.pipeline",
    "lawvm.new_zealand.actual_replay",
    "lawvm.norway.replay",
    "lawvm.us_federal.bench",
    "lawvm.replay_adjudication"
  ]

  // prefix.rstrip(".")
  function WithoutDots(s: string): string {
    if s != "" && s[|s| - 1] == '.' then WithoutDots(s[..|s| - 1]) else s
  }

  predicate IsLlmClient(m: Mod) {
    m in LLM_CLIENT_MODULES || exists p :: p in LLM_CLIENT_PREFIXES && p <= m && m != WithoutDots(p)
  }

  lemma {:induction false} WithoutDotsShorter(s: string)
    ensures |WithoutDots(s)| <= |s|
    ensures s != "" && s[|s| - 1] == '.' ==> |WithoutDots(s)| < |s|
  {
    if s != "" && s[|s| - 1] == '.' { WithoutDotsShorter(s[..|s| - 1]); }
  }

  // A client is a name under one of the two fenced packages.
  lemma ClientIsFenced(m: Mod)
    ensures IsLlmClient(m) <==> "lawvm.ingest.llm_backends." <= m || "lawvm.finland.llm_backends." <= m
  {
    WithoutDotsShorter(LLM_CLIENT_PREFIXES[0]);
    WithoutDotsShorter(LLM_CLIENT_PREFIXES[1]);
    if LLM_CLIENT_PREFIXES[0] <= m { assert LLM_CLIENT_PREFIXES[0] in LLM_CLIENT_PREFIXES; }
    if LLM_CLIENT_PREFIXES[1] <= m { assert LLM_CLIENT_PREFIXES[1] in LLM_CLIENT_PREFIXES; }
  }

  // None of the declared cone roots is a client.
  lemma ConeRootsAreNotClients(m: Mod)
    requires m in REPLAY_PROJECTION_CONE_ROOTS
    ensures !IsLlmClient(m)
  {
    ClientIsFenced(m);
  }

  // compute_firewall_edges: sources in order, and their client targets in order.
  method FirewallEdges(edges: Edges, cone: set<Mod>) returns (offending: seq<(Mod, Mod)>)
    ensures forall e :: e in offending <==> e.0 in cone && e.1 in Succ(edges, e.0) && IsLlmClient(e.1)
    ensures Increasing(PairLt, offending)
  {
    LexIsOrder();
    PairIsOrder();
    var sources := SortKeys(cone, LexLt);
    offending := [];
    var i := 0;
    while i < |sources|
      invariant 0 <= i <= |sources|
      invariant forall e :: e in offending <==>
        e.0 in sources[..i] && e.1 in Succ(edges, e.0) && IsLlmClient(e.1)
      invariant Increasing(PairLt, offending)
    {
      var found := ClientTargets(sources[i], Succ(edges, sources[i]));
      forall k, l | 0 <= k < |offending| && 0 <= l < |found| ensures PairLt(offending[k], found[l]) {
        assert offending[k] in offending && found[l] in found;
        var j :| 0 <= j < i && sources[..i][j] == offending[k].0;
        assert LexLt(sources[j], sources[i]);
      }
      offending := offending + found;
      assert sources[..i + 1] == sources[..i] + [sources[i]];
      i := i + 1;
    }
    assert sources[..|sources|] == sources;
  }

  method ClientTargets(source: Mod, targets: set<Mod>) returns (found: seq<(Mod, Mod)>)
    ensures forall e :: e in found <==> e.0 == source && e.1 in targets && IsLlmClient(e.1)
    ensures Increasing(PairLt, found)
  {
    LexIsOrder();
    var sorted := SortKeys(targets, LexLt);
    found := [];
    var i := 0;
    while i < |sorted|
      invariant 0 <= i <= |sorted|
      invariant forall e :: e in found <==> e.0 == source && e.1 in sorted[..i] && IsLlmClient(e.1)
      invariant Increasing(PairLt, found)
    {
      assert sorted[..i + 1] == sorted[..i] + [sorted[i]];
      if IsLlmClient(sorted[i]) {
        forall k | 0 <= k < |found| ensures PairLt(found[k], (source, sorted[i])) {
          assert found[k] in found;
          var j :| 0 <= j < i && sorted[..i][j] == found[k].1;
          assert LexLt(sorted[j], sorted[i]);
        }
        found := found + [(source, sorted[i])];
      }
      i := i + 1;
    }
    assert sorted[..|sorted|] == sorted;
  }

  // Some import path from a root, of at least one edge, ends in a client.
  ghost predicate ClientImported(roots: set<Mod>, edges: Edges) {
    exists n, t :: Reachable(roots, edges, n) && t in Succ(edges, n) && IsLlmClient(t)
  }

  // firewall_report: the local check on the edges of the cone against whole paths.
  method Firewall(mods: set<Mod>, edges: Edges, roots: set<Mod>)
    returns (cone: set<Mod>, offending: seq<(Mod, Mod)>, missing: set<Mod>)
    ensures missing == roots - mods
    ensures forall m :: m in cone <==> Reachable(roots * mods, edges, m)
    ensures forall e :: e in offending <==> e.0 in cone && e.1 in Succ(edges, e.0) && IsLlmClient(e.1)
    ensures offending == [] <==> !ClientImported(roots * mods, edges)
    ensures (forall r :: r in roots * mods ==> !IsLlmClient(r)) ==>
      (offending == [] <==> forall m :: Reachable(roots * mods, edges, m) ==> !IsLlmClient(m))
  {
    missing := roots - mods;
    cone := Bfs(roots * mods, edges);
    offending := FirewallEdges(edges, cone);
    if offending != [] {
      assert offending[0] in offending;
      assert ClientImported(roots * mods, edges);
    }
    if ClientImported(roots * mods, edges) {
      var n, t :| Reachable(roots * mods, edges, n) && t in Succ(edges, n) && IsLlmClient(t);
      assert (n, t) in offending;
    }
    FirewallIsExact(roots * mods, edges);
  }

  // Whole-path form: no client is reachable exactly when no root is one and none is imported.
  lemma FirewallIsExact(roots: set<Mod>, edges: Edges)
    ensures (forall m :: Reachable(roots, edges, m) ==> !IsLlmClient(m)) <==>
      (forall r :: r in roots ==> !IsLlmClient(r)) && !ClientImported(roots, edges)
  {
    if forall m :: Reachable(roots, edges, m) ==> !IsLlmClient(m) {
      forall r | r in roots ensures !IsLlmClient(r) { RootReachable(roots, edges, r); }
      if ClientImported(roots, edges) {
        var n, t :| Reachable(roots, edges, n) && t in Succ(edges, n) && IsLlmClient(t);
        StepReachable(roots, edges, n, t);
        assert false;
      }
    } else {
      var m :| Reachable(roots, edges, m) && IsLlmClient(m);
      if m !in roots { var n := LastStep(roots, edges, m); }
    }
  }

  // For the declared roots the offending list alone decides it.
  lemma FirewallForDeclaredRoots(roots: set<Mod>, edges: Edges)
    requires forall r :: r in roots ==> r in REPLAY_PROJECTION_CONE_ROOTS
    ensures !ClientImported(roots, edges) <==> forall m :: Reachable(roots, edges, m) ==> !IsLlmClient(m)
  {
    FirewallIsExact(roots, edges);
    forall r | r in roots ensures !IsLlmClient(r) { ConeRootsAreNotClients(r); }
  }
}
