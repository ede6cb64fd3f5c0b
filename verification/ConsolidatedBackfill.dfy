// The migration of scripts/backfill_finlex_consolidated_versions.py: every artifact of a
// legacy family is stored again under its canonical versioned locator.

module ConsolidatedBackfill {
  import opened Ordering
  import opened ConsolidatedLocators
  import opened Sequences

  type Payload = seq<bv8>

  // Locators the archive lists; one may be listed without a readable payload.
  type Entries = map<Locator, Option<Payload>>

  // The version tag embedded in a main.xml, for a preferred language; "" when there is none.
  type Extractor = (Payload, string) -> string

  class Archive {
    var entries: Entries

    method Locators(pattern: string) returns (found: seq<Locator>)
      ensures forall l :: l in found <==> l in entries && Like(pattern, l)
      ensures Distinct(found)
    {
      found := [];
      var rest := set l | l in entries && Like(pattern, l);
      while rest != {}
        invariant forall l :: l in rest ==> l in entries && Like(pattern, l)
        invariant forall l :: l in entries && Like(pattern, l) <==> l in rest || l in found
        invariant forall l :: l in rest ==> l !in found
        invariant Distinct(found)
        decreases rest
      {
        var l :| l in rest;
        found, rest := found + [l], rest - {l};
      }
    }

    function Get(l: Locator): Option<Payload>
      reads this
    {
      Lookup(entries, l)
    }

    predicate Has(l: Locator)
      reads this
    {
      l in entries
    }

    method Store(l: Locator, p: Payload)
      modifies this
      ensures entries == old(entries)[l := Some(p)]
    {
      entries := entries[l := Some(p)];
    }
  }

  class BackfillStats {
    var familiesSeen: nat
    var familiesVersioned: nat
    var locatorsExamined: nat
    var locatorsBackfilled: nat
    var locatorsSkippedExisting: nat
    var locatorsUnversionable: nat
    var errors: nat

    constructor ()
      ensures familiesSeen == familiesVersioned == locatorsExamined == locatorsBackfilled == 0
      ensures locatorsSkippedExisting == locatorsUnversionable == errors == 0
    {
      familiesSeen, familiesVersioned, locatorsExamined, locatorsBackfilled := 0, 0, 0, 0;
      locatorsSkippedExisting, locatorsUnversionable, errors := 0, 0, 0;
    }
  }

  ghost predicate Distinct<T>(s: seq<T>) {
    forall i, j :: 0 <= i < j < |s| ==> s[i] != s[j]
  }

  function Lookup(e: Entries, l: Locator): Option<Payload> {
    if l in e then e[l] else None
  }

  // ---------------------------------------------------------------- family versions

  // The tag a legacy main locator contributes; "" when it contributes none.
  function TagOf(e: Entries, x: Extractor, l: Locator): string {
    if !IsLegacyMain(l) || Lookup(e, l).None? then "" else x(Lookup(e, l).value, FamilyLang(l))
  }

  ghost predicate Mains(e: Entries, mains: seq<Locator>) {
    Distinct(mains) && forall l :: l in mains <==> l in e && IsLegacyMain(l)
  }

  // versions_by_family: exactly the families whose main file yields a tag, with that tag.
  ghost predicate Versioned(e: Entries, x: Extractor, root: string) {
    var main := MainOf(root);
    main in e && FamilyRoot(main) == Some(root) && TagOf(e, x, main) != ""
  }

  ghost predicate Versions(e: Entries, x: Extractor, versions: map<string, string>) {
    && (forall root :: root in versions <==> Versioned(e, x, root))
    && (forall root :: root in versions ==> versions[root] == TagOf(e, x, MainOf(root)))
  }

  // The main file of a family: its locator as spelled, with its language.
  ghost predicate SpelledMain(root: string, p: Parts) {
    Spells(root + "/" + "main.xml", p) && p.namespace == "sd-cons-old" && p.rest == "main.xml"
  }

  // A family is versioned exactly when its main file is stored with a payload in which the tag
  // for the language of the locator is found; that is its version.
  lemma VersionsMean(e: Entries, x: Extractor, versions: map<string, string>, root: string)
    requires Versions(e, x, versions)
    ensures
      var main := root + "/" + "main.xml";
      && (root in versions <==> exists p :: SpelledMain(root, p) && main in e && e[main].Some? && x(e[main].value, p.lang) != "")
      && (forall p :: root in versions && SpelledMain(root, p) ==> e[main].Some? && versions[root] == x(e[main].value, p.lang))
  {
    var main := MainOf(root);
    assert main == root + "/" + "main.xml";
    LegacyMainIs(main);
    assert root in versions <==> Versioned(e, x, root);
    if IsLegacyMain(main) {
      RootNamesMain(main);
      MainNamesRoot(FamilyRoot(main).value, root);
    }
  }

  // ---------------------------------------------------------------- examined locators

  // A locator examined as a member of a family.
  datatype Item = Item(root: string, locator: Locator)

  // The examined locators of one run: every listed locator of every versioned family, once
  // for the family, families in root order.
  ghost predicate Plan(e: Entries, versions: map<string, string>, plan: seq<Item>) {
    && Distinct(plan)
    && (forall it :: it in plan <==> it.root in versions && it.locator in e && Under(it.root, it.locator))
    && forall i, j :: 0 <= i < j < |plan| ==> plan[i].root == plan[j].root || LexLt(plan[i].root, plan[j].root)
  }

  function Target(versions: map<string, string>, it: Item): Option<Locator> {
    if it.root in versions && versions[it.root] != "" then CanonicalLocator(it.locator, versions[it.root]) else None
  }

  // Has a canonical form that is absent from e, and a payload to store there.
  predicate Pending(e: Entries, versions: map<string, string>, it: Item) {
    Target(versions, it).Some? && Target(versions, it).value !in e && Lookup(e, it.locator).Some?
  }

  // The archive after a real run over a plan: each pending item is stored in turn.
  function Migrated(e: Entries, versions: map<string, string>, plan: seq<Item>): Entries {
    if plan == [] then e
    else
      var done := Migrated(e, versions, plan[..|plan| - 1]);
      var it := plan[|plan| - 1];
      if Pending(done, versions, it) then done[Target(versions, it).value := Lookup(done, it.locator)] else done
  }

  datatype Counts = Counts(backfilled: nat, skipped: nat, missing: nat)

  // What a run counts: a dry run tests every item against the archive it started from.
  function Tally(e: Entries, versions: map<string, string>, plan: seq<Item>, dryRun: bool): Counts {
    if plan == [] then Counts(0, 0, 0)
    else
      var front := plan[..|plan| - 1];
      var c := Tally(e, versions, front, dryRun);
      var now := if dryRun then e else Migrated(e, versions, front);
      var it := plan[|plan| - 1];
      if Target(versions, it).None? then c
      else if Target(versions, it).value in now then c.(skipped := c.skipped + 1)
      else if Lookup(now, it.locator).None? then c.(missing := c.missing + 1)
      else c.(backfilled := c.backfilled + 1)
  }

  // ---------------------------------------------------------------- what a real run does

  // It changes no locator present before; every locator it adds holds the payload of the
  // first pending examined locator whose canonical form it is.
  ghost predicate Origin(e: Entries, versions: map<string, string>, plan: seq<Item>, l: Locator, p: Payload, i: int) {
    && 0 <= i < |plan|
    && Target(versions, plan[i]) == Some(l) && plan[i].locator in e && e[plan[i].locator] == Some(p)
    && forall j :: 0 <= j < i ==> !(Target(versions, plan[j]) == Some(l) && Lookup(e, plan[j].locator).Some?)
  }

  ghost predicate Listed(e: Entries, plan: seq<Item>) {
    forall it :: it in plan ==> it.locator in e
  }

  lemma {:induction false} MigrationKeeps(e: Entries, versions: map<string, string>, plan: seq<Item>)
    ensures forall l :: l in e ==> l in Migrated(e, versions, plan) && Migrated(e, versions, plan)[l] == e[l]
  {
    if plan != [] { MigrationKeeps(e, versions, plan[..|plan| - 1]); }
  }

  lemma {:induction false} MigrationStores(e: Entries, versions: map<string, string>, plan: seq<Item>, it: Item)
    requires Listed(e, plan) && it in plan
    requires Target(versions, it).Some? && Lookup(e, it.locator).Some?
    ensures Target(versions, it).value in Migrated(e, versions, plan)
  {
    var front, last := plan[..|plan| - 1], plan[|plan| - 1];
    assert plan == front + [last];
    MigrationKeeps(e, versions, front);
    if it != last { MigrationStores(e, versions, front, it); }
  }

  lemma {:induction false} MigrationOrigin(e: Entries, versions: map<string, string>, plan: seq<Item>, l: Locator)
    returns (i: int)
    requires Listed(e, plan)
    requires l in Migrated(e, versions, plan) && l !in e
    ensures Migrated(e, versions, plan)[l].Some?
    ensures Origin(e, versions, plan, l, Migrated(e, versions, plan)[l].value, i)
  {
    var front, last := plan[..|plan| - 1], plan[|plan| - 1];
    assert plan == front + [last];
    MigrationKeeps(e, versions, front);
    if l in Migrated(e, versions, front) {
      i := MigrationOrigin(e, versions, front, l);
    } else {
      i := |plan| - 1;
      forall j | 0 <= j < i && Target(versions, plan[j]) == Some(l) ensures Lookup(e, plan[j].locator).None? {
        assert plan[j] == front[j];
        if Lookup(e, plan[j].locator).Some? { MigrationStores(e, versions, front, plan[j]); }
      }
    }
  }

  // ---------------------------------------------------------------- a second run

  // Stored locators are canonical, so no pattern of the legacy namespace lists them.
  ghost predicate OnlyCanonicalAdded(e: Entries, f: Entries) {
    && (forall l :: l in e ==> l in f && f[l] == e[l])
    && (forall l :: l in f && l !in e ==> InCanonical(l))
  }

  lemma CanonicalIsMissed(root: string, l: Locator)
    requires LEGACY_PREFIX <= root && InCanonical(l)
    ensures !Under(root, l) && !(LEGACY_PREFIX <= l)
  {
    var tail :| l == SCHEME + Slash(CANONICAL, tail);
    CanonicalStart(tail);
    LegacyPatternMisses(root, tail);
  }

  lemma MigrationAddsCanonical(e: Entries, versions: map<string, string>, plan: seq<Item>)
    requires Listed(e, plan)
    ensures OnlyCanonicalAdded(e, Migrated(e, versions, plan))
  {
    var f := Migrated(e, versions, plan);
    MigrationKeeps(e, versions, plan);
    forall l | l in f && l !in e ensures InCanonical(l) {
      var i := MigrationOrigin(e, versions, plan, l);
      CanonicalIsNotLegacy(plan[i].locator, versions[plan[i].root]);
    }
  }

  lemma VersionedUnchanged(e: Entries, f: Entries, x: Extractor, root: string)
    requires OnlyCanonicalAdded(e, f)
    ensures Versioned(e, x, root) == Versioned(f, x, root)
    ensures Versioned(e, x, root) ==> TagOf(e, x, MainOf(root)) == TagOf(f, x, MainOf(root))
  {
    var main := MainOf(root);
    if main in f && main !in e {
      if IsLegacyMain(main) {
        MainIsLegacy(main);
        CanonicalIsMissed(root, main);
      }
    } else {
      assert Lookup(e, main) == Lookup(f, main);
    }
  }

  lemma VersionUnchanged(e: Entries, f: Entries, x: Extractor, v: map<string, string>, w: map<string, string>, root: string)
    requires OnlyCanonicalAdded(e, f)
    requires Versions(e, x, v) && Versions(f, x, w)
    ensures root in v <==> root in w
    ensures root in v ==> v[root] == w[root]
  {
    VersionedUnchanged(e, f, x, root);
    assert root in v <==> Versioned(e, x, root);
    assert root in w <==> Versioned(f, x, root);
  }

  lemma SameMap(v: map<string, string>, w: map<string, string>)
    requires forall root :: (root in v <==> root in w) && (root in v ==> v[root] == w[root])
    ensures v == w
  {
  }

  lemma VersionsUnchanged(e: Entries, f: Entries, x: Extractor, v: map<string, string>, w: map<string, string>)
    requires OnlyCanonicalAdded(e, f)
    requires Versions(e, x, v) && Versions(f, x, w)
    ensures v == w
  {
    forall root ensures (root in v <==> root in w) && (root in v ==> v[root] == w[root]) {
      VersionUnchanged(e, f, x, v, w, root);
    }
    SameMap(v, w);
  }

  lemma PlanMembersUnchanged(e: Entries, f: Entries, versions: map<string, string>, plan: seq<Item>, again: seq<Item>)
    requires OnlyCanonicalAdded(e, f)
    requires LegacyRoots(versions) && Plan(e, versions, plan) && Plan(f, versions, again)
    ensures forall it :: it in plan <==> it in again
  {
    forall it | it in again ensures it in plan {
      assert LEGACY_PREFIX <= it.root && Under(it.root, it.locator);
      if it.locator !in e { CanonicalIsMissed(it.root, it.locator); }
    }
  }

  lemma {:induction false} NothingPending(e: Entries, versions: map<string, string>, plan: seq<Item>)
    requires forall it :: it in plan ==> !Pending(e, versions, it)
    ensures Migrated(e, versions, plan) == e
    ensures Tally(e, versions, plan, false) == Tally(e, versions, plan, true)
    ensures Tally(e, versions, plan, true).backfilled == 0
  {
    if plan != [] {
      var front, last := plan[..|plan| - 1], plan[|plan| - 1];
      assert plan == front + [last];
      assert last in plan;
      NothingPending(e, versions, front);
    }
  }

  // ---------------------------------------------------------------- dry run against real run

  ghost function PendingItems(e: Entries, versions: map<string, string>, plan: seq<Item>): set<Item> {
    Selected(PendingIn(e, versions), plan)
  }

  ghost function TargetsOf(versions: map<string, string>, items: set<Item>): set<Locator> {
    set it | it in items && Target(versions, it).Some? :: Target(versions, it).value
  }

  function CountIf<T>(p: T -> bool, s: seq<T>): nat {
    if s == [] then 0 else CountIf(p, s[..|s| - 1]) + if p(s[|s| - 1]) then 1 else 0
  }

  ghost function Selected<T>(p: T -> bool, s: seq<T>): set<T> {
    set x | x in s && p(x)
  }

  lemma {:induction false} CountIfDistinct<T>(p: T -> bool, s: seq<T>)
    requires Distinct(s)
    ensures CountIf(p, s) == |Selected(p, s)|
  {
    if s != [] {
      var front, last := s[..|s| - 1], s[|s| - 1];
      Front(s);
      CountIfDistinct(p, front);
      SelectedSnoc(p, front, last);
    }
  }

  lemma SelectedSnoc<T>(p: T -> bool, front: seq<T>, last: T)
    requires last !in front
    ensures |Selected(p, front + [last])| == |Selected(p, front)| + if p(last) then 1 else 0
  {
    assert Selected(p, front + [last]) == Selected(p, front) + (if p(last) then {last} else {});
  }

  ghost function PendingIn(e: Entries, versions: map<string, string>): Item -> bool {
    (it: Item) => Pending(e, versions, it)
  }

  // Has a canonical form that e holds.
  ghost function StoredIn(e: Entries, versions: map<string, string>): Item -> bool {
    (it: Item) => Target(versions, it).Some? && Target(versions, it).value in e
  }

  // Has a canonical form that e does not hold, and no payload to store there.
  ghost function MissedIn(e: Entries, versions: map<string, string>): Item -> bool {
    (it: Item) => Target(versions, it).Some? && Target(versions, it).value !in e && Lookup(e, it.locator).None?
  }

  lemma {:induction false} DryTallyCounts(e: Entries, versions: map<string, string>, plan: seq<Item>)
    ensures
      var c := Tally(e, versions, plan, true);
      && c.backfilled == CountIf(PendingIn(e, versions), plan)
      && c.skipped == CountIf(StoredIn(e, versions), plan)
      && c.missing == CountIf(MissedIn(e, versions), plan)
  {
    if plan != [] { DryTallyCounts(e, versions, plan[..|plan| - 1]); }
  }

  lemma DryRunSelects(e: Entries, versions: map<string, string>, plan: seq<Item>)
    requires Distinct(plan)
    ensures
      var c := Tally(e, versions, plan, true);
      && c.backfilled == |PendingItems(e, versions, plan)|
      && c.skipped == |Selected(StoredIn(e, versions), plan)|
      && c.missing == |Selected(MissedIn(e, versions), plan)|
  {
    DryTallyCounts(e, versions, plan);
    CountIfDistinct(PendingIn(e, versions), plan);
    CountIfDistinct(StoredIn(e, versions), plan);
    CountIfDistinct(MissedIn(e, versions), plan);
  }

  // A dry run backfills what has an absent canonical form and a payload, skips what has a
  // stored canonical form, and misses what has an absent one and no payload.
  lemma DryRunCounts(e: Entries, versions: map<string, string>, plan: seq<Item>)
    requires Distinct(plan)
    ensures
      var c, form := Tally(e, versions, plan, true), it => Target(versions, it);
      && c.backfilled == |set it | it in plan && form(it).Some? && form(it).value !in e && Lookup(e, it.locator).Some?|
      && c.skipped == |set it | it in plan && form(it).Some? && form(it).value in e|
      && c.missing == |set it | it in plan && form(it).Some? && form(it).value !in e && Lookup(e, it.locator).None?|
  {
    DryRunSelects(e, versions, plan);
    SelectedAre(e, versions, plan);
  }

  lemma SelectedAre(e: Entries, versions: map<string, string>, plan: seq<Item>)
    ensures
      var form := it => Target(versions, it);
      && PendingItems(e, versions, plan) ==
        (set it | it in plan && form(it).Some? && form(it).value !in e && Lookup(e, it.locator).Some?)
      && Selected(StoredIn(e, versions), plan) == (set it | it in plan && form(it).Some? && form(it).value in e)
      && Selected(MissedIn(e, versions), plan) ==
        (set it | it in plan && form(it).Some? && form(it).value !in e && Lookup(e, it.locator).None?)
  {
  }

  // A real run counts the locators they have for targets, each once.
  lemma {:induction false} RealRunCounts(e: Entries, versions: map<string, string>, plan: seq<Item>)
    requires Listed(e, plan)
    ensures Tally(e, versions, plan, false).backfilled == |TargetsOf(versions, PendingItems(e, versions, plan))|
    ensures Migrated(e, versions, plan).Keys == e.Keys + TargetsOf(versions, PendingItems(e, versions, plan))
  {
    if plan == [] {
      assert TargetsOf(versions, PendingItems(e, versions, plan)) == {};
    } else {
      var front, last := plan[..|plan| - 1], plan[|plan| - 1];
      assert plan == front + [last];
      assert last in plan;
      RealRunCounts(e, versions, front);
      MigrationKeeps(e, versions, front);
      var targets := TargetsOf(versions, PendingItems(e, versions, front));
      assert StoredSoFar(e, versions, front, targets);
      if Pending(e, versions, last) {
        TargetAdded(e, versions, front, last);
        RealRunPending(e, versions, plan, targets, Target(versions, last).value);
      } else {
        NoTargetAdded(e, versions, front, last);
        RealRunOther(e, versions, plan, targets);
      }
    }
  }

  // The archive and the count after the front of a plan, when its pending items have these targets.
  ghost predicate StoredSoFar(e: Entries, versions: map<string, string>, front: seq<Item>, targets: set<Locator>) {
    var now := Migrated(e, versions, front);
    && Tally(e, versions, front, false).backfilled == |targets|
    && now.Keys == e.Keys + targets && targets !! e.Keys
    && forall l :: l in e ==> now[l] == e[l]
  }

  lemma RealRunPending(e: Entries, versions: map<string, string>, plan: seq<Item>, targets: set<Locator>, t: Locator)
    requires plan != [] && plan[|plan| - 1].locator in e && StoredSoFar(e, versions, plan[..|plan| - 1], targets)
    requires Pending(e, versions, plan[|plan| - 1]) && Target(versions, plan[|plan| - 1]) == Some(t)
    ensures Tally(e, versions, plan, false).backfilled == |targets + {t}|
    ensures Migrated(e, versions, plan).Keys == e.Keys + (targets + {t})
  {
    var last, now := plan[|plan| - 1], Migrated(e, versions, plan[..|plan| - 1]);
    assert Lookup(now, last.locator) == Lookup(e, last.locator);
    if t in targets {
      assert targets + {t} == targets;
    } else {
      assert |targets + {t}| == |targets| + 1;
    }
  }

  lemma RealRunOther(e: Entries, versions: map<string, string>, plan: seq<Item>, targets: set<Locator>)
    requires plan != [] && plan[|plan| - 1].locator in e && StoredSoFar(e, versions, plan[..|plan| - 1], targets)
    requires !Pending(e, versions, plan[|plan| - 1])
    ensures Tally(e, versions, plan, false).backfilled == |targets|
    ensures Migrated(e, versions, plan).Keys == e.Keys + targets
  {
    var last, now := plan[|plan| - 1], Migrated(e, versions, plan[..|plan| - 1]);
    assert Lookup(now, last.locator) == Lookup(e, last.locator);
    assert !Pending(now, versions, last);
  }

  lemma TargetAdded(e: Entries, versions: map<string, string>, front: seq<Item>, last: Item)
    requires Pending(e, versions, last)
    ensures TargetsOf(versions, PendingItems(e, versions, front + [last])) ==
      TargetsOf(versions, PendingItems(e, versions, front)) + {Target(versions, last).value}
  {
    assert PendingItems(e, versions, front + [last]) == PendingItems(e, versions, front) + {last};
    OneMoreTarget(versions, PendingItems(e, versions, front), last);
  }

  lemma NoTargetAdded(e: Entries, versions: map<string, string>, front: seq<Item>, last: Item)
    requires !Pending(e, versions, last)
    ensures TargetsOf(versions, PendingItems(e, versions, front + [last])) == TargetsOf(versions, PendingItems(e, versions, front))
  {
    assert PendingItems(e, versions, front + [last]) == PendingItems(e, versions, front);
  }

  lemma OneMoreTarget(versions: map<string, string>, items: set<Item>, it: Item)
    requires Target(versions, it).Some?
    ensures TargetsOf(versions, items + {it}) == TargetsOf(versions, items) + {Target(versions, it).value}
  {
  }

  // ---------------------------------------------------------------- a real run, item by item

  // An earlier item with the same canonical form has a payload.
  ghost predicate FormTaken(e: Entries, versions: map<string, string>, plan: seq<Item>, i: nat)
    requires i < |plan|
  {
    exists j :: 0 <= j < i && Target(versions, plan[j]) == Target(versions, plan[i]) && Lookup(e, plan[j].locator).Some?
  }

  // The canonical form of item i is in e, or stored by the time its turn comes.
  ghost function SkippedAt(e: Entries, versions: map<string, string>, plan: seq<Item>): nat -> bool {
    (i: nat) => i < |plan| && Target(versions, plan[i]).Some? &&
      (Target(versions, plan[i]).value in e || FormTaken(e, versions, plan, i))
  }

  // It is neither, and there is no payload.
  ghost function MissedAt(e: Entries, versions: map<string, string>, plan: seq<Item>): nat -> bool {
    (i: nat) => i < |plan| && Target(versions, plan[i]).Some? && Target(versions, plan[i]).value !in e &&
      !FormTaken(e, versions, plan, i) && Lookup(e, plan[i].locator).None?
  }

  ghost function IndicesBelow(p: nat -> bool, n: nat): set<nat> {
    set i: nat | i < n && p(i)
  }

  lemma OneMoreIndex(p: nat -> bool, n: nat)
    ensures |IndicesBelow(p, n + 1)| == |IndicesBelow(p, n)| + if p(n) then 1 else 0
  {
    assert IndicesBelow(p, n + 1) == IndicesBelow(p, n) + if p(n) then {n} else {};
  }

  // An item of the front that stores l.
  ghost predicate Stores(e: Entries, versions: map<string, string>, it: Item, l: Locator) {
    Target(versions, it) == Some(l) && Lookup(e, it.locator).Some?
  }

  lemma StoredTarget(e: Entries, versions: map<string, string>, front: seq<Item>, it: Item, l: Locator)
    requires it in front && Stores(e, versions, it, l) && l !in e
    ensures l in TargetsOf(versions, PendingItems(e, versions, front))
  {
    assert PendingIn(e, versions)(it);
    assert it in PendingItems(e, versions, front);
  }

  lemma TargetStored(e: Entries, versions: map<string, string>, front: seq<Item>, l: Locator) returns (j: nat)
    requires l in TargetsOf(versions, PendingItems(e, versions, front))
    ensures j < |front| && Stores(e, versions, front[j], l)
  {
    var it :| it in PendingItems(e, versions, front) && Target(versions, it) == Some(l);
    assert it in front && PendingIn(e, versions)(it);
    j :| 0 <= j < |front| && front[j] == it;
  }

  lemma PendingIsTaken(e: Entries, versions: map<string, string>, plan: seq<Item>, k: nat, front: seq<Item>, l: Locator)
    requires k < |plan| && front == plan[..k] && Target(versions, plan[k]) == Some(l)
    requires l in TargetsOf(versions, PendingItems(e, versions, front))
    ensures FormTaken(e, versions, plan, k)
  {
    var j := TargetStored(e, versions, front, l);
    assert plan[j] == front[j];
  }

  lemma InPrefix<T>(s: seq<T>, k: nat, j: nat)
    requires j < k <= |s|
    ensures s[j] in s[..k]
  {
    assert s[..k][j] == s[j];
  }

  lemma TakenIsPending(e: Entries, versions: map<string, string>, plan: seq<Item>, k: nat, front: seq<Item>, l: Locator)
    requires k < |plan| && front == plan[..k] && Target(versions, plan[k]) == Some(l) && l !in e
    requires FormTaken(e, versions, plan, k)
    ensures l in TargetsOf(versions, PendingItems(e, versions, front))
  {
    var j :| 0 <= j < k && Target(versions, plan[j]) == Target(versions, plan[k]) && Lookup(e, plan[j].locator).Some?;
    InPrefix(plan, k, j);
    StoredTarget(e, versions, front, plan[j], l);
  }

  // What the archive holds when item k is examined.
  lemma HeldAt(e: Entries, versions: map<string, string>, plan: seq<Item>, k: nat, front: seq<Item>, l: Locator)
    requires Listed(e, plan) && k < |plan| && front == plan[..k] && Target(versions, plan[k]) == Some(l)
    ensures l in Migrated(e, versions, front) <==> l in e || FormTaken(e, versions, plan, k)
    ensures Lookup(Migrated(e, versions, front), plan[k].locator) == Lookup(e, plan[k].locator)
  {
    RealRunCounts(e, versions, front);
    MigrationKeeps(e, versions, front);
    assert plan[k] in plan;
    if l in TargetsOf(versions, PendingItems(e, versions, front)) { PendingIsTaken(e, versions, plan, k, front, l); }
    if l !in e && FormTaken(e, versions, plan, k) { TakenIsPending(e, versions, plan, k, front, l); }
  }

  // What a real run counts for item k.
  lemma RealTallyNext(e: Entries, versions: map<string, string>, plan: seq<Item>, k: nat)
    requires Listed(e, plan) && k < |plan|
    ensures
      var c, d := Tally(e, versions, plan[..k], false), Tally(e, versions, plan[..k + 1], false);
      && d.skipped == c.skipped + (if SkippedAt(e, versions, plan)(k) then 1 else 0)
      && d.missing == c.missing + (if MissedAt(e, versions, plan)(k) then 1 else 0)
  {
    Longer(plan, k);
    var form := Target(versions, plan[k]);
    if form.Some? { HeldAt(e, versions, plan, k, plan[..k], form.value); }
  }

  lemma {:induction false} RealTallyCounts(e: Entries, versions: map<string, string>, plan: seq<Item>, k: nat)
    requires Listed(e, plan) && k <= |plan|
    ensures
      var c := Tally(e, versions, plan[..k], false);
      && c.skipped == |IndicesBelow(SkippedAt(e, versions, plan), k)|
      && c.missing == |IndicesBelow(MissedAt(e, versions, plan), k)|
  {
    if k > 0 {
      RealTallyCounts(e, versions, plan, k - 1);
      RealTallyNext(e, versions, plan, k - 1);
      OneMoreIndex(SkippedAt(e, versions, plan), k - 1);
      OneMoreIndex(MissedAt(e, versions, plan), k - 1);
    }
  }

  // A real run skips the items whose canonical form is in the archive, or is that of an earlier
  // item with a payload; it misses those of which neither holds and that have no payload.
  lemma RealRunSkips(e: Entries, versions: map<string, string>, plan: seq<Item>)
    requires Listed(e, plan)
    ensures
      var c := Tally(e, versions, plan, false);
      && c.skipped == |set i: nat | i < |plan| && Target(versions, plan[i]).Some? &&
           (Target(versions, plan[i]).value in e || FormTaken(e, versions, plan, i))|
      && c.missing == |set i: nat | i < |plan| && Target(versions, plan[i]).Some? &&
           Target(versions, plan[i]).value !in e && !FormTaken(e, versions, plan, i) && Lookup(e, plan[i].locator).None?|
  {
    RealTallyCounts(e, versions, plan, |plan|);
    Whole(plan);
    IndicesAre(e, versions, plan);
  }

  lemma IndicesAre(e: Entries, versions: map<string, string>, plan: seq<Item>)
    ensures IndicesBelow(SkippedAt(e, versions, plan), |plan|) ==
      set i: nat | i < |plan| && Target(versions, plan[i]).Some? &&
        (Target(versions, plan[i]).value in e || FormTaken(e, versions, plan, i))
    ensures IndicesBelow(MissedAt(e, versions, plan), |plan|) ==
      set i: nat | i < |plan| && Target(versions, plan[i]).Some? &&
        Target(versions, plan[i]).value !in e && !FormTaken(e, versions, plan, i) && Lookup(e, plan[i].locator).None?
  {
  }

  ghost predicate SharedTarget(versions: map<string, string>, items: set<Item>) {
    exists a, b :: a in items && b in items && a != b && Target(versions, a) == Target(versions, b)
  }

  ghost predicate Injective<A, B>(f: map<A, B>) {
    forall a, b :: a in f && b in f && a != b ==> f[a] != f[b]
  }

  // A map has as many values as keys exactly when it is injective.
  lemma {:induction false} ValuesSize<A, B>(f: map<A, B>)
    ensures |f.Values| <= |f.Keys|
    ensures |f.Values| == |f.Keys| <==> Injective(f)
    decreases |f|
  {
    if f.Keys == {} {
      assert f.Values == {};
    } else {
      var k :| k in f;
      var g := f - {k};
      ValuesSize(g);
      assert f.Keys == g.Keys + {k};
      assert f.Values == g.Values + {f[k]};
      if f[k] in g.Values {
        assert f.Values == g.Values;
        var other :| other in g && g[other] == f[k];
        assert !Injective(f);
      } else {
        assert Injective(f) <==> Injective(g);
      }
    }
  }

  // The same for a partial function on a set where it is defined.
  lemma ImageSize<A(!new), B(!new)>(t: A -> Option<B>, items: set<A>, image: set<B>)
    requires forall it :: it in items ==> t(it).Some?
    requires forall l :: l in image <==> exists it :: it in items && t(it) == Some(l)
    ensures |image| <= |items|
    ensures |image| == |items| <==> !exists a, b :: a in items && b in items && a != b && t(a) == t(b)
  {
    var f := map it | it in items :: t(it).value;
    ValuesSize(f);
    assert f.Keys == items;
    forall l ensures l in f.Values <==> l in image {
      if l in f.Values { var it :| it in f && f[it] == l; assert t(it) == Some(l); }
      if l in image { var it :| it in items && t(it) == Some(l); assert f[it] == l; }
    }
    assert f.Values == image;
    if !Injective(f) {
      var a, b :| a in f && b in f && a != b && f[a] == f[b];
      assert t(a) == t(b);
    }
    if a, b :| a in items && b in items && a != b && t(a) == t(b) {
      assert f[a] == f[b];
    }
  }

  lemma TargetsSize(versions: map<string, string>, items: set<Item>)
    requires forall it :: it in items ==> Target(versions, it).Some?
    ensures |TargetsOf(versions, items)| <= |items|
    ensures |TargetsOf(versions, items)| == |items| <==> !SharedTarget(versions, items)
  {
    var t := (it: Item) => Target(versions, it);
    var image := TargetsOf(versions, items);
    forall l ensures l in image <==> exists it :: it in items && t(it) == Some(l) {
      if l in image {
        var it :| it in items && Target(versions, it).Some? && Target(versions, it).value == l;
        assert t(it) == Some(l);
      }
    }
    ImageSize(t, items, image);
    assert SharedTarget(versions, items) <==> exists a, b :: a in items && b in items && a != b && t(a) == t(b);
  }

  // Over the same archive a dry run counts at least what a real run stores, in whatever
  // order either examines a family; the counts are equal exactly when no two examined
  // locators share an absent canonical form.
  lemma DryRunBoundsRealRun(e: Entries, versions: map<string, string>, dryPlan: seq<Item>, realPlan: seq<Item>)
    requires Plan(e, versions, dryPlan) && Plan(e, versions, realPlan)
    ensures Tally(e, versions, dryPlan, true).backfilled >= Tally(e, versions, realPlan, false).backfilled
    ensures Tally(e, versions, dryPlan, true).backfilled == Tally(e, versions, realPlan, false).backfilled <==>
      !SharedTarget(versions, PendingItems(e, versions, dryPlan))
  {
    assert PendingItems(e, versions, dryPlan) == PendingItems(e, versions, realPlan);
    DryRunSelects(e, versions, dryPlan);
    RealRunCounts(e, versions, realPlan);
    TargetsSize(versions, PendingItems(e, versions, dryPlan));
  }

  // ---------------------------------------------------------------- a second run, counted

  // After a real run another one finds the same families and locators and stores nothing.
  lemma SecondRunStoresNothing(e: Entries, x: Extractor, v: map<string, string>, plan: seq<Item>,
                               w: map<string, string>, again: seq<Item>)
    requires Versions(e, x, v) && Plan(e, v, plan)
    requires Versions(Migrated(e, v, plan), x, w) && Plan(Migrated(e, v, plan), w, again)
    ensures w == v && forall it :: it in plan <==> it in again
    ensures Migrated(Migrated(e, v, plan), w, again) == Migrated(e, v, plan)
    ensures
      var f := Migrated(e, v, plan);
      Tally(f, w, again, false).backfilled == 0 && Tally(f, w, again, false) == Tally(f, w, again, true)
  {
    var f := Migrated(e, v, plan);
    MigrationAddsCanonical(e, v, plan);
    VersionsUnchanged(e, f, x, v, w);
    RootsAreLegacy(e, x, v);
    PlanMembersUnchanged(e, f, v, plan, again);
    forall it | it in again ensures !Pending(f, w, it) {
      if Pending(f, w, it) { MigrationStores(e, v, plan, it); }
    }
    NothingPending(f, w, again);
  }

  // Has a canonical form.
  ghost function HasForm(versions: map<string, string>): Item -> bool {
    (it: Item) => Target(versions, it).Some?
  }

  // It skips what has a stored form and misses what has neither form nor payload; so it skips
  // every locator with a canonical form when all have payloads.
  lemma SecondRunCounts(e: Entries, x: Extractor, v: map<string, string>, plan: seq<Item>,
                        w: map<string, string>, again: seq<Item>)
    requires Versions(e, x, v) && Plan(e, v, plan)
    requires Versions(Migrated(e, v, plan), x, w) && Plan(Migrated(e, v, plan), w, again)
    ensures
      var f := Migrated(e, v, plan);
      var c := Tally(f, w, again, false);
      && c.skipped == |Selected(StoredIn(f, v), plan)|
      && c.missing == |Selected(MissedIn(f, v), plan)|
      && ((forall it :: it in plan ==> Lookup(e, it.locator).Some?) ==>
           c.skipped == |Selected(HasForm(v), plan)| && c.missing == 0)
  {
    var f := Migrated(e, v, plan);
    SecondRunStoresNothing(e, x, v, plan, w, again);
    DryRunSelects(f, v, again);
    SameSelected(StoredIn(f, v), plan, again);
    SameSelected(MissedIn(f, v), plan, again);
    if forall it :: it in plan ==> Lookup(e, it.locator).Some? { AllStored(e, v, plan); }
  }

  lemma SameSelected<T>(p: T -> bool, s: seq<T>, t: seq<T>)
    requires forall x :: x in s <==> x in t
    ensures Selected(p, s) == Selected(p, t)
  {
  }

  lemma AllStored(e: Entries, v: map<string, string>, plan: seq<Item>)
    requires Listed(e, plan) && forall it :: it in plan ==> Lookup(e, it.locator).Some?
    ensures Selected(StoredIn(Migrated(e, v, plan), v), plan) == Selected(HasForm(v), plan)
    ensures Selected(MissedIn(Migrated(e, v, plan), v), plan) == {}
  {
    forall it | it in plan && Target(v, it).Some? ensures Target(v, it).value in Migrated(e, v, plan) {
      MigrationStores(e, v, plan, it);
    }
  }

  // ---------------------------------------------------------------- run

  // _iter_legacy_main_locators, listed.
  method LegacyMains(archive: Archive) returns (mains: seq<Locator>)
    ensures Mains(archive.entries, mains)
  {
    var listed := archive.Locators(LEGACY_PREFIX + "%");
    mains := [];
    for i := 0 to |listed|
      invariant Distinct(mains)
      invariant forall l :: l in mains <==> l in listed[..i] && IsLegacyMain(l)
    {
      assert listed[..i + 1] == listed[..i] + [listed[i]];
      if IsLegacyMain(listed[i]) {
        assert listed[i] !in listed[..i];
        mains := mains + [listed[i]];
      }
    }
    assert listed[..|listed|] == listed;
    forall l | l in archive.entries && IsLegacyMain(l) ensures l in mains {
      MainIsLegacy(l);
      LikePointwise(LEGACY_PREFIX, LEGACY_PREFIX, l[|LEGACY_PREFIX|..]);
      assert LEGACY_PREFIX + l[|LEGACY_PREFIX|..] == l;
    }
  }

  // The tag of a family; "" when it is not versioned.
  ghost function FamilyTags(e: Entries, x: Extractor): string -> string {
    (root: string) => if Versioned(e, x, root) then TagOf(e, x, MainOf(root)) else ""
  }

  // The versions of the families whose main file is among the first ones.
  ghost predicate VersionsSoFar(tags: string -> string, mains: seq<Locator>, versions: map<string, string>) {
    && (forall root :: root in versions <==> MainOf(root) in mains && tags(root) != "")
    && (forall root :: root in versions ==> versions[root] == tags(root))
  }

  lemma MainNamesRoot(root: string, other: string)
    requires MainOf(root) == MainOf(other)
    ensures root == other
  {
    var l := MainOf(root);
    assert l[..|l| - |MAIN| - 1] == root;
    assert l == MainOf(other) && l[..|l| - |MAIN| - 1] == other;
  }

  lemma TagByMain(e: Entries, x: Extractor, l: Locator, root: string)
    requires l in e && FamilyRoot(l) == Some(root)
    ensures l == MainOf(root)
    ensures FamilyTags(e, x)(root) == TagOf(e, x, l)
  {
    RootNamesMain(l);
  }

  lemma FamilyAdded(tags: string -> string, mains: seq<Locator>, versions: map<string, string>, l: Locator, r: string)
    requires VersionsSoFar(tags, mains, versions) && l == MainOf(r) && l !in mains
    ensures r !in versions
    ensures VersionsSoFar(tags, mains + [l], if tags(r) == "" then versions else versions[r := tags(r)])
  {
    forall root ensures MainOf(root) in mains + [l] <==> MainOf(root) in mains || root == r {
      if MainOf(root) == l { MainNamesRoot(root, r); }
    }
  }

  lemma AllVersions(e: Entries, x: Extractor, mains: seq<Locator>, versions: map<string, string>)
    requires Mains(e, mains) && VersionsSoFar(FamilyTags(e, x), mains, versions)
    ensures Versions(e, x, versions)
  {
    forall root ensures root in versions <==> Versioned(e, x, root) {
      if Versioned(e, x, root) { assert MainOf(root) in mains; }
    }
  }

  // A main file without payload, and one whose payload carries no tag.
  ghost function UnreadableIn(e: Entries): Locator -> bool {
    (l: Locator) => Lookup(e, l).None?
  }

  ghost function TaglessIn(e: Entries, x: Extractor): Locator -> bool {
    (l: Locator) => Lookup(e, l).Some? && TagOf(e, x, l) == ""
  }

  // The legacy main files with a property.
  ghost function MainsWith(e: Entries, p: Locator -> bool): set<Locator> {
    set l | l in e && IsLegacyMain(l) && p(l)
  }

  lemma MainsCounted(e: Entries, mains: seq<Locator>, p: Locator -> bool)
    requires Mains(e, mains)
    ensures CountIf(p, mains) == |MainsWith(e, p)|
  {
    CountIfDistinct(p, mains);
    assert Selected(p, mains) == MainsWith(e, p);
  }

  // First pass: versions_by_family.  Every family seen is versioned, unversionable or an error.
  method CollectVersions(archive: Archive, mains: seq<Locator>, x: Extractor, stats: BackfillStats)
    returns (versions: map<string, string>)
    requires Mains(archive.entries, mains)
    requires stats.errors == 0 && stats.locatorsUnversionable == 0
    modifies stats`errors, stats`locatorsUnversionable
    ensures Versions(archive.entries, x, versions)
    ensures stats.errors == CountIf(UnreadableIn(archive.entries), mains)
    ensures stats.locatorsUnversionable == CountIf(TaglessIn(archive.entries, x), mains)
    ensures |mains| == |versions| + stats.locatorsUnversionable + stats.errors
  {
    versions := map[];
    ghost var e := archive.entries;
    for i := 0 to |mains|
      invariant Collected(e, x, mains[..i], versions, stats.locatorsUnversionable, stats.errors)
    {
      assert mains[i] in mains && mains[i] !in mains[..i];
      versions := CollectFamily(archive, mains[i], x, stats, versions, mains[..i]);
      Longer(mains, i);
    }
    Whole(mains);
    AllVersions(e, x, mains, versions);
  }

  ghost predicate Collected(e: Entries, x: Extractor, mains: seq<Locator>, versions: map<string, string>,
                             tagless: nat, errors: nat)
  {
    FirstPassSoFar(FamilyTags(e, x), UnreadableIn(e), TaglessIn(e, x), mains, versions, tagless, errors)
  }

  // The loop body for one main locator.
  method CollectFamily(archive: Archive, l: Locator, x: Extractor, stats: BackfillStats, versions: map<string, string>,
                       ghost mains: seq<Locator>)
    returns (versions': map<string, string>)
    requires l in archive.entries && IsLegacyMain(l) && l !in mains
    requires Collected(archive.entries, x, mains, versions, stats.locatorsUnversionable, stats.errors)
    modifies stats`errors, stats`locatorsUnversionable
    ensures Collected(archive.entries, x, mains + [l], versions', stats.locatorsUnversionable, stats.errors)
  {
    ghost var e := archive.entries;
    var outcome := FamilyOutcome(archive, l, x);
    FirstPassStep(FamilyTags(e, x), UnreadableIn(e), TaglessIn(e, x), mains, versions,
                  stats.locatorsUnversionable, stats.errors, l, outcome);
    CountOutcome(stats, outcome);
    versions' := if outcome.Tagged? then versions[outcome.root := outcome.tag] else versions;
  }

  // The first pass after the first main files; each is versioned, unversionable or an error.
  ghost predicate FirstPassSoFar(tags: string -> string, p: Locator -> bool, q: Locator -> bool, mains: seq<Locator>,
                                 versions: map<string, string>, tagless: nat, errors: nat)
  {
    && VersionsSoFar(tags, mains, versions)
    && errors == CountIf(p, mains) && tagless == CountIf(q, mains)
    && |mains| == |versions| + tagless + errors
  }

  lemma FirstPassStep(tags: string -> string, p: Locator -> bool, q: Locator -> bool, mains: seq<Locator>,
                      versions: map<string, string>, tagless: nat, errors: nat, l: Locator, r: Outcome)
    requires FirstPassSoFar(tags, p, q, mains, versions, tagless, errors)
    requires l == MainOf(r.root) && l !in mains
    requires tags(r.root) == (if r.Tagged? then r.tag else "") && (r.Tagged? ==> r.tag != "")
    requires (r.Unreadable? <==> p(l)) && (r.Unversionable? <==> q(l))
    ensures FirstPassSoFar(tags, p, q, mains + [l], if r.Tagged? then versions[r.root := r.tag] else versions,
                           tagless + (if r.Unversionable? then 1 else 0), errors + (if r.Unreadable? then 1 else 0))
  {
    FamilyAdded(tags, mains, versions, l, r.root);
    CountSnoc(p, mains, l);
    CountSnoc(q, mains, l);
  }

  lemma CountSnoc<T>(p: T -> bool, s: seq<T>, last: T)
    ensures CountIf(p, s + [last]) == CountIf(p, s) + if p(last) then 1 else 0
  {
    assert (s + [last])[..|s|] == s;
  }

  datatype Outcome = Unreadable(root: string) | Unversionable(root: string) | Tagged(root: string, tag: string)

  method CountOutcome(stats: BackfillStats, outcome: Outcome)
    modifies stats`errors, stats`locatorsUnversionable
    ensures stats.errors == old(stats.errors) + if outcome.Unreadable? then 1 else 0
    ensures stats.locatorsUnversionable == old(stats.locatorsUnversionable) + if outcome.Unversionable? then 1 else 0
  {
    match outcome
    case Unreadable(_) => stats.errors := stats.errors + 1;
    case Unversionable(_) => stats.locatorsUnversionable := stats.locatorsUnversionable + 1;
    case Tagged(_, _) =>
  }

  // What one main locator contributes.
  method FamilyOutcome(archive: Archive, locator: Locator, x: Extractor) returns (r: Outcome)
    requires locator in archive.entries && IsLegacyMain(locator)
    ensures locator == MainOf(r.root)
    ensures (if r.Tagged? then r.tag else "") == FamilyTags(archive.entries, x)(r.root)
    ensures r.Tagged? ==> r.tag != ""
    ensures r.Unreadable? <==> UnreadableIn(archive.entries)(locator)
    ensures r.Unversionable? <==> TaglessIn(archive.entries, x)(locator)
  {
    var root := FamilyRoot(locator).value;
    TagByMain(archive.entries, x, locator, root);
    var data := archive.Get(locator);
    if data.None? {
      return Unreadable(root);
    }
    var tag := x(data.value, FamilyLang(locator));
    r := if tag == "" then Unversionable(root) else Tagged(root, tag);
  }

  // What the first pass leaves in the counters.
  datatype FirstPass = FirstPass(seen: nat, unversionable: nat, errors: nat)

  // The archive and the counters after the items of `plan`, from archive e.
  ghost predicate Progress(archive: Archive, stats: BackfillStats, e: Entries, versions: map<string, string>,
                           plan: seq<Item>, dryRun: bool, first: FirstPass, written: set<Locator>)
    reads archive, stats
  {
    var c := Tally(e, versions, plan, dryRun);
    && archive.entries == (if dryRun then e else Migrated(e, versions, plan))
    && stats.locatorsExamined == |plan|
    && stats.locatorsBackfilled == c.backfilled
    && stats.locatorsSkippedExisting == c.skipped
    && stats.errors == first.errors + c.missing
    && stats.familiesSeen == first.seen
    && stats.locatorsUnversionable == first.unversionable
    && (if dryRun then written == {} else written <= archive.entries.Keys)
  }

  lemma Snoc<T>(s: seq<T>, x: T)
    ensures (s + [x])[..|s + [x]| - 1] == s && (s + [x])[|s + [x]| - 1] == x
  {
  }

  // The inner loop body: one examined locator.
  method Examine(archive: Archive, stats: BackfillStats, versions: map<string, string>, it: Item, dryRun: bool,
                 written: set<Locator>, ghost e: Entries, ghost plan: seq<Item>, ghost first: FirstPass)
    returns (written': set<Locator>)
    requires it.root in versions && versions[it.root] != ""
    requires Progress(archive, stats, e, versions, plan, dryRun, first, written)
    modifies archive, stats
    ensures Progress(archive, stats, e, versions, plan + [it], dryRun, first, written')
    ensures stats.familiesVersioned == old(stats.familiesVersioned)
  {
    Snoc(plan, it);
    written' := written;
    stats.locatorsExamined := stats.locatorsExamined + 1;
    var canonical := CanonicalLocator(it.locator, versions[it.root]);
    assert canonical == Target(versions, it);
    if canonical.None? {
      return;
    }
    if canonical.value in written || archive.Has(canonical.value) {
      stats.locatorsSkippedExisting := stats.locatorsSkippedExisting + 1;
      return;
    }
    var payload := archive.Get(it.locator);
    if payload.None? {
      stats.errors := stats.errors + 1;
      return;
    }
    if !dryRun {
      archive.Store(canonical.value, payload.value);
      written' := written + {canonical.value};
    }
    stats.locatorsBackfilled := stats.locatorsBackfilled + 1;
  }

  // The families sorted[..n], completely examined.
  ghost predicate PlanSoFar(e: Entries, sorted: seq<string>, n: int, plan: seq<Item>) {
    && 0 <= n <= |sorted|
    && Distinct(plan)
    && (forall it :: it in plan <==> it.root in sorted[..n] && it.locator in e && Under(it.root, it.locator))
    && (forall i, j :: 0 <= i < j < |plan| ==> plan[i].root == plan[j].root || LexLt(plan[i].root, plan[j].root))
  }

  lemma PlanIsListed(e: Entries, sorted: seq<string>, n: int, plan: seq<Item>)
    requires PlanSoFar(e, sorted, n, plan)
    ensures Listed(e, plan)
  {
  }

  lemma PlanIsWhole(e: Entries, versions: map<string, string>, sorted: seq<string>, plan: seq<Item>)
    requires PlanSoFar(e, sorted, |sorted|, plan) && forall root :: root in sorted <==> root in versions
    ensures Plan(e, versions, plan)
  {
    Whole(sorted);
  }

  ghost function FamilyItems(root: string, listed: seq<Locator>): seq<Item> {
    seq(|listed|, i requires 0 <= i < |listed| => Item(root, listed[i]))
  }

  lemma PlanFamily(e: Entries, sorted: seq<string>, n: int, plan: seq<Item>, listed: seq<Locator>)
    requires Increasing(LexLt, sorted) && StrictTotalOrder(LexLt)
    requires PlanSoFar(e, sorted, n, plan) && n < |sorted|
    requires Distinct(listed) && forall l :: l in listed <==> l in e && Under(sorted[n], l)
    ensures PlanSoFar(e, sorted, n + 1, plan + FamilyItems(sorted[n], listed))
  {
    var root := sorted[n];
    var items := FamilyItems(root, listed);
    var all := plan + items;
    assert sorted[..n + 1] == sorted[..n] + [root];
    forall i | 0 <= i < |plan| ensures LexLt(plan[i].root, root) {
      assert plan[i] in plan;
      var k :| 0 <= k < n && sorted[..n][k] == plan[i].root;
      assert LexLt(sorted[k], sorted[n]);
    }
    forall it ensures it in items <==> it.root == root && it.locator in e && Under(root, it.locator) {
      if it.root == root && it.locator in listed {
        var k :| 0 <= k < |listed| && listed[k] == it.locator;
        assert items[k] == it;
      }
    }
    forall i, j | 0 <= i < j < |all| ensures all[i] != all[j] && (all[i].root == all[j].root || LexLt(all[i].root, all[j].root)) {
      if j < |plan| {
      } else if i < |plan| {
        assert all[j].root == root;
      } else {
        assert all[i].locator == listed[i - |plan|] && all[j].locator == listed[j - |plan|];
      }
    }
  }

  // The locators a family prefix lists do not change while canonical ones are added.
  lemma ListingUnchanged(e: Entries, versions: map<string, string>, plan: seq<Item>, root: string)
    requires Listed(e, plan) && LEGACY_PREFIX <= root
    ensures forall l :: l in Migrated(e, versions, plan) && Under(root, l) <==> l in e && Under(root, l)
  {
    MigrationAddsCanonical(e, versions, plan);
    forall l | l in Migrated(e, versions, plan) && Under(root, l) ensures l in e {
      if l !in e { CanonicalIsMissed(root, l); }
    }
  }

  ghost predicate LegacyRoots(versions: map<string, string>) {
    forall root :: root in versions ==> LEGACY_PREFIX <= root && versions[root] != ""
  }

  lemma RootsAreLegacy(e: Entries, x: Extractor, versions: map<string, string>)
    requires Versions(e, x, versions)
    ensures LegacyRoots(versions)
  {
    forall root | root in versions ensures LEGACY_PREFIX <= root && versions[root] != "" {
      assert Versioned(e, x, root);
      RootNamesMain(MainOf(root));
    }
  }

  // The inner loop: every locator the archive lists under the family.
  method MigrateFamily(archive: Archive, stats: BackfillStats, versions: map<string, string>, root: string, dryRun: bool,
                       written: set<Locator>, ghost e: Entries, ghost plan: seq<Item>, ghost first: FirstPass)
    returns (written': set<Locator>, ghost listed: seq<Locator>)
    requires root in versions && versions[root] != "" && LEGACY_PREFIX <= root
    requires Listed(e, plan)
    requires Progress(archive, stats, e, versions, plan, dryRun, first, written)
    modifies archive, stats
    ensures Distinct(listed) && forall l :: l in listed <==> l in e && Under(root, l)
    ensures Progress(archive, stats, e, versions, plan + FamilyItems(root, listed), dryRun, first, written')
    ensures stats.familiesVersioned == old(stats.familiesVersioned)
  {
    if !dryRun { ListingUnchanged(e, versions, plan, root); }
    var locators := archive.Locators(root + "/%");
    listed := locators;
    written' := ExamineAll(archive, stats, versions, root, locators, dryRun, written, e, plan, first);
  }

  method ExamineAll(archive: Archive, stats: BackfillStats, versions: map<string, string>, root: string,
                    locators: seq<Locator>, dryRun: bool, written: set<Locator>, ghost e: Entries, ghost plan: seq<Item>,
                    ghost first: FirstPass)
    returns (written': set<Locator>)
    requires root in versions && versions[root] != ""
    requires Progress(archive, stats, e, versions, plan, dryRun, first, written)
    modifies archive, stats
    ensures Progress(archive, stats, e, versions, plan + FamilyItems(root, locators), dryRun, first, written')
    ensures stats.familiesVersioned == old(stats.familiesVersioned)
  {
    written' := written;
    UpToEnds(plan, root, locators);
    for i := 0 to |locators|
      invariant stats.familiesVersioned == old(stats.familiesVersioned)
      invariant Progress(archive, stats, e, versions, UpTo(plan, root, locators, i), dryRun, first, written')
    {
      UpToNext(plan, root, locators, i);
      written' := Examine(archive, stats, versions, Item(root, locators[i]), dryRun, written', e,
                          UpTo(plan, root, locators, i), first);
    }
  }

  // The plan with the first i items of a family.
  ghost function UpTo(plan: seq<Item>, root: string, locators: seq<Locator>, i: nat): seq<Item>
    requires i <= |locators|
  {
    plan + FamilyItems(root, locators)[..i]
  }

  lemma UpToNext(plan: seq<Item>, root: string, locators: seq<Locator>, i: nat)
    requires i < |locators|
    ensures UpTo(plan, root, locators, i) + [Item(root, locators[i])] == UpTo(plan, root, locators, i + 1)
  {
    Longer(FamilyItems(root, locators), i);
  }

  lemma UpToEnds(plan: seq<Item>, root: string, locators: seq<Locator>)
    ensures UpTo(plan, root, locators, 0) == plan
    ensures UpTo(plan, root, locators, |locators|) == plan + FamilyItems(root, locators)
  {
    Whole(FamilyItems(root, locators));
  }

  // Second pass: the families in root order.
  method MigrateFamilies(archive: Archive, stats: BackfillStats, versions: map<string, string>, dryRun: bool)
    returns (ghost plan: seq<Item>)
    requires LegacyRoots(versions)
    requires stats.familiesVersioned == stats.locatorsExamined == stats.locatorsBackfilled == 0
    requires stats.locatorsSkippedExisting == 0
    modifies archive, stats
    ensures Plan(old(archive.entries), versions, plan)
    ensures exists written :: Progress(archive, stats, old(archive.entries), versions, plan, dryRun,
      FirstPass(old(stats.familiesSeen), old(stats.locatorsUnversionable), old(stats.errors)), written)
    ensures stats.familiesVersioned == |versions|
  {
    ghost var e := archive.entries;
    ghost var first := FirstPass(stats.familiesSeen, stats.locatorsUnversionable, stats.errors);
    plan := [];
    var written: set<Locator> := {};
    LexIsOrder();
    var sorted := SortKeys(versions.Keys, LexLt);
    var n := 0;
    while n < |sorted|
      invariant 0 <= n <= |sorted|
      invariant stats.familiesVersioned == n
      invariant PlanSoFar(e, sorted, n, plan)
      invariant Progress(archive, stats, e, versions, plan, dryRun, first, written)
    {
      var root := sorted[n];
      assert root in sorted;
      PlanIsListed(e, sorted, n, plan);
      stats.familiesVersioned := stats.familiesVersioned + 1;
      ghost var listed;
      written, listed := MigrateFamily(archive, stats, versions, root, dryRun, written, e, plan, first);
      PlanFamily(e, sorted, n, plan, listed);
      plan := plan + FamilyItems(root, listed);
      n := n + 1;
    }
    PlanIsWhole(e, versions, sorted, plan);
    ListingSize(LexLt, sorted, versions.Keys);
  }

  // run(): the counters, and the archive after a real run; a dry run changes nothing.
  method Run(archive: Archive, x: Extractor, dryRun: bool)
    returns (stats: BackfillStats, ghost versions: map<string, string>, ghost plan: seq<Item>)
    modifies archive
    ensures fresh(stats)
    ensures Versions(old(archive.entries), x, versions) && Plan(old(archive.entries), versions, plan)
    ensures archive.entries == if dryRun then old(archive.entries) else Migrated(old(archive.entries), versions, plan)
    ensures
      var c := Tally(old(archive.entries), versions, plan, dryRun);
      && stats.locatorsExamined == |plan| && stats.locatorsBackfilled == c.backfilled
      && stats.locatorsSkippedExisting == c.skipped
      && stats.familiesVersioned == |versions|
      && stats.errors == |MainsWith(old(archive.entries), UnreadableIn(old(archive.entries)))| + c.missing
      && stats.locatorsUnversionable == |MainsWith(old(archive.entries), TaglessIn(old(archive.entries), x))|
      && stats.familiesSeen == |versions| + stats.locatorsUnversionable + (stats.errors - c.missing)
  {
    ghost var e := archive.entries;
    stats := new BackfillStats();
    var mains := LegacyMains(archive);
    stats.familiesSeen := |mains|;
    var byFamily := CollectVersions(archive, mains, x, stats);
    versions := byFamily;
    RootsAreLegacy(e, x, byFamily);
    MainsCounted(e, mains, UnreadableIn(e));
    MainsCounted(e, mains, TaglessIn(e, x));
    plan := MigrateFamilies(archive, stats, byFamily, dryRun);
  }
}
