// Statute stock and citation counts of scripts/ee_census.py.

module EstonianCensus {
  import opened Ordering
  import opened Sequences
  import opened Sums

  // grupi and globaal are "" when absent, expiryYear is 0 when there is none.
  datatype Act = Act(terviktekst: bool, grupi: string, globaal: string, enactedYear: int, expiryYear: int, cited: seq<string>)

  // ---------------------------------------------------------------- statute stock

  function GroupOf(a: Act): string {
    if a.grupi != "" then a.grupi else a.globaal
  }

  // A consolidated text of group g; an act without group identifier is a group of its own.
  predicate InGroup(a: Act, g: string) {
    a.terviktekst && g != "" && (a.grupi == g || (a.grupi == "" && a.globaal == g))
  }

  type Statutes = map<string, Act>

  // Act i is the newest of its group, and the first of the newest.
  ghost predicate Newest(acts: seq<Act>, g: string, i: int) {
    && 0 <= i < |acts| && InGroup(acts[i], g)
    && forall j :: 0 <= j < |acts| && InGroup(acts[j], g) ==>
         acts[j].enactedYear <= acts[i].enactedYear && (j < i ==> acts[j].enactedYear < acts[i].enactedYear)
  }

  // Every group with a consolidated text is represented by the first of its newest.
  ghost predicate Represents(acts: seq<Act>, m: Statutes) {
    forall g :: (g in m <==> exists i :: 0 <= i < |acts| && InGroup(acts[i], g)) && Represented(acts, m, g)
  }

  ghost predicate Represented(acts: seq<Act>, m: Statutes, g: string) {
    g in m ==> exists i :: Newest(acts, g, i) && m[g] == acts[i]
  }

  method Deduplicate(acts: seq<Act>) returns (m: Statutes)
    ensures Represents(acts, m)
  {
    m := map[];
    for n := 0 to |acts|
      invariant Represents(acts[..n], m)
    {
      var a := acts[n];
      assert acts[..n + 1] == acts[..n] + [a];
      var g := GroupOf(a);
      ghost var before := m;
      if a.terviktekst && g != "" {
        if g !in m || a.enactedYear > m[g].enactedYear {
          m := m[g := a];
        }
      }
      RepresentsOne(acts[..n], a, before, m);
    }
    assert acts[..|acts|] == acts;
  }

  // The dictionary after one more act.
  ghost function Next(before: Statutes, a: Act): Statutes {
    var g := GroupOf(a);
    if a.terviktekst && g != "" && (g !in before || a.enactedYear > before[g].enactedYear) then before[g := a] else before
  }

  lemma RepresentsOne(acts: seq<Act>, a: Act, before: Statutes, m: Statutes)
    requires Represents(acts, before)
    requires m == Next(before, a)
    ensures Represents(acts + [a], m)
  {
    var all := acts + [a];
    assert all[|acts|] == a;
    forall g ensures (exists i :: 0 <= i < |all| && InGroup(all[i], g)) <==>
      (exists i :: 0 <= i < |acts| && InGroup(acts[i], g)) || InGroup(a, g)
    {
      if i :| 0 <= i < |acts| && InGroup(acts[i], g) { assert all[i] == acts[i]; }
    }
    forall g ensures Represented(all, m, g) { RepresentedOne(acts, a, before, m, g); }
  }

  lemma RepresentedOne(acts: seq<Act>, a: Act, before: Statutes, m: Statutes, g: string)
    requires Represented(acts, before, g)
    requires g !in before ==> forall i :: 0 <= i < |acts| ==> !InGroup(acts[i], g)
    requires m == Next(before, a)
    ensures Represented(acts + [a], m, g)
  {
    var all := acts + [a];
    if g in before {
      var i :| Newest(acts, g, i) && before[g] == acts[i];
      if m[g] == before[g] && !(InGroup(a, g) && a.enactedYear > before[g].enactedYear) {
        assert Newest(all, g, i);
      } else {
        assert Newest(all, g, |acts|);
      }
    } else if g in m {
      assert Newest(all, g, |acts|);
    }
  }

  ghost function EnactedYears(m: Statutes): map<string, int> {
    map g | g in m :: m[g].enactedYear
  }

  ghost function ExpiryYears(m: Statutes): map<string, int> {
    map g | g in m && m[g].expiryYear != 0 :: m[g].expiryYear
  }

  // The statutes whose year is y or earlier.
  ghost function ByYear(years: map<string, int>, y: int): set<string> {
    set g | g in years && years[g] <= y
  }

  function YearCount(c: map<int, nat>, y: int): nat {
    if y in c then c[y] else 0
  }

  function InYear(years: map<string, int>, keys: set<string>, y: int): set<string>
    requires keys <= years.Keys
  {
    set g | g in keys && years[g] == y
  }

  // c is the Counter of the values under `keys`.
  ghost predicate Counts(years: map<string, int>, keys: set<string>, c: map<int, nat>)
    requires keys <= years.Keys
  {
    forall y :: YearCount(c, y) == |InYear(years, keys, y)| && (y in c <==> InYear(years, keys, y) != {})
  }

  ghost function ValueIn(years: map<string, int>): string -> int {
    (g: string) => if g in years then years[g] else 0
  }

  ghost function WeightIn(c: map<int, nat>): int -> int {
    (y: int) => y * YearCount(c, y)
  }

  // Counter(values): the counts, and that value times count adds up to the values.
  method CountValues(years: map<string, int>) returns (c: map<int, nat>)
    ensures Counts(years, years.Keys, c)
    ensures Total(c.Keys, WeightIn(c)) == Total(years.Keys, ValueIn(years))
  {
    c := map[];
    var rest := years.Keys;
    assert years.Keys - rest == {};
    NothingCounted(years);
    while rest != {}
      invariant rest <= years.Keys
      invariant Tallied(years, years.Keys - rest, c)
      decreases rest
    {
      var g :| g in rest;
      c := CountOneValue(years, rest, g, c);
      rest := rest - {g};
    }
    assert years.Keys - rest == years.Keys;
  }

  // The loop body.
  method CountOneValue(years: map<string, int>, ghost rest: set<string>, g: string, before: map<int, nat>)
    returns (c: map<int, nat>)
    requires rest <= years.Keys && g in rest && Tallied(years, years.Keys - rest, before)
    ensures Tallied(years, years.Keys - (rest - {g}), c)
  {
    TallyOne(years, years.Keys - rest, before, g);
    assert years.Keys - rest + {g} == years.Keys - (rest - {g});
    c := Incremented(before, years[g]);
  }

  // counter[y] += 1
  function Incremented(c: map<int, nat>, y: int): map<int, nat> {
    c[y := YearCount(c, y) + 1]
  }

  ghost predicate Tallied(years: map<string, int>, done: set<string>, c: map<int, nat>) {
    done <= years.Keys && Counts(years, done, c) && Total(c.Keys, WeightIn(c)) == Total(done, ValueIn(years))
  }

  lemma NothingCounted(years: map<string, int>)
    ensures Tallied(years, {}, map[])
  {
    var c: map<int, nat> := map[];
    assert c.Keys == {};
    forall y ensures InYear(years, {}, y) == {} { }
  }

  lemma TallyOne(years: map<string, int>, done: set<string>, c: map<int, nat>, g: string)
    requires Tallied(years, done, c) && g in years && g !in done
    ensures Tallied(years, done + {g}, Incremented(c, years[g]))
  {
    var d := Incremented(c, years[g]);
    CountOne(years, done, c, g);
    WeightNext(c, years[g]);
    ValueNext(years, done, g);
    assert Counts(years, done + {g}, d);
  }

  lemma WeightNext(c: map<int, nat>, y: int)
    ensures Total(Incremented(c, y).Keys, WeightIn(Incremented(c, y))) == Total(c.Keys, WeightIn(c)) + y
  {
    var d := Incremented(c, y);
    var f, g := WeightIn(c), WeightIn(d);
    OneMore(y, YearCount(c, y));
    assert d.Keys == c.Keys + {y};
    TotalRaised(c.Keys, f, g, y, y);
  }

  lemma OneMore(y: int, n: nat)
    ensures y * (n + 1) == y * n + y
  {
  }

  lemma ValueNext(years: map<string, int>, done: set<string>, g: string)
    requires g in years && g !in done
    ensures Total(done + {g}, ValueIn(years)) == Total(done, ValueIn(years)) + years[g]
  {
    TotalWithout(done + {g}, ValueIn(years), g);
    assert done + {g} - {g} == done;
  }

  lemma CountOne(years: map<string, int>, done: set<string>, c: map<int, nat>, g: string)
    requires done <= years.Keys && g in years && g !in done && Counts(years, done, c)
    ensures Counts(years, done + {g}, c[years[g] := YearCount(c, years[g]) + 1])
  {
    var d := c[years[g] := YearCount(c, years[g]) + 1];
    forall y ensures YearCount(d, y) == |InYear(years, done + {g}, y)| && (y in d <==> InYear(years, done + {g}, y) != {}) {
      if y == years[g] {
        assert InYear(years, done + {g}, y) == InYear(years, done, y) + {g};
      } else {
        assert InYear(years, done + {g}, y) == InYear(years, done, y);
      }
    }
  }

  datatype Stock = Stock(first: int, last: int, alive: map<int, int>)

  // For every year in range, enacted by then minus expired by then.
  ghost predicate Runs(s: Stock, births: map<string, int>, deaths: map<string, int>) {
    && (forall y :: y in s.alive <==> s.first <= y <= s.last)
    && (forall y :: y in s.alive ==> s.alive[y] == |ByYear(births, y)| - |ByYear(deaths, y)|)
  }

  // The range holds every year of the statutes.
  ghost predicate Spans(s: Stock, m: Statutes) {
    forall g :: g in m ==>
      && s.first <= m[g].enactedYear <= s.last
      && (m[g].expiryYear != 0 ==> s.first <= m[g].expiryYear <= s.last)
  }

  // The range starts and ends with a year of some statute.
  ghost predicate Tight(s: Stock, m: Statutes) {
    YearOfOne(m, s.first) && YearOfOne(m, s.last)
  }

  ghost predicate YearOfOne(m: Statutes, y: int) {
    exists g :: g in m && (m[g].enactedYear == y || (m[g].expiryYear == y && y != 0))
  }

  // compute_statute_stock: the running difference is enacted by y minus expired by y.
  method StatuteStock(acts: seq<Act>) returns (r: Option<Stock>, m: Statutes)
    ensures Represents(acts, m)
    ensures r.None? <==> m == map[]
    ensures r.Some? ==> Runs(r.value, EnactedYears(m), ExpiryYears(m)) && Spans(r.value, m) && Tight(r.value, m)
  {
    m := Deduplicate(acts);
    var enacted := CountValues(map g | g in m :: m[g].enactedYear);
    var expired := CountValues(map g | g in m && m[g].expiryYear != 0 :: m[g].expiryYear);
    StatuteYears(m, enacted, expired);
    var years := enacted.Keys + expired.Keys;
    if years == {} {
      assert m.Keys == {};
      return None, m;
    }
    var first, last := Bounds(years);
    YearsAreStatutes(m, enacted, expired);
    var alive := RunningStock(EnactedYears(m), ExpiryYears(m), enacted, expired, first, last);
    r := Some(Stock(first, last, alive));
  }

  // The loop over the years.
  method RunningStock(ghost births: map<string, int>, ghost deaths: map<string, int>, enacted: map<int, nat>,
                      expired: map<int, nat>, first: int, last: int)
    returns (alive: map<int, int>)
    requires Counts(births, births.Keys, enacted) && Counts(deaths, deaths.Keys, expired)
    requires first <= last && forall y :: y in enacted || y in expired ==> first <= y
    ensures Runs(Stock(first, last, alive), births, deaths)
  {
    alive := map[];
    var cumul, cumulRep := 0, 0;
    BeforeFirst(births, enacted, first);
    BeforeFirst(deaths, expired, first);
    for y := first to last + 1
      invariant forall z :: z in alive <==> first <= z < y
      invariant cumul == |ByYear(births, y - 1)| && cumulRep == |ByYear(deaths, y - 1)|
      invariant forall z :: z in alive ==> alive[z] == |ByYear(births, z)| - |ByYear(deaths, z)|
    {
      YearStep(births, enacted, y);
      YearStep(deaths, expired, y);
      cumul := cumul + YearCount(enacted, y);
      cumulRep := cumulRep + YearCount(expired, y);
      alive := alive[y := cumul - cumulRep];
    }
  }

  // min and max of sorted(all_years)
  method Bounds(years: set<int>) returns (first: int, last: int)
    requires years != {}
    ensures first in years && last in years && forall y :: y in years ==> first <= y <= last
  {
    var lt := (a: int, b: int) => a < b;
    var sorted := SortKeys(years, lt);
    ListingSize(lt, sorted, years);
    first, last := sorted[0], sorted[|sorted| - 1];
    assert first in sorted && last in sorted;
    forall y | y in years ensures first <= y <= last {
      assert y in sorted;
      var i :| 0 <= i < |sorted| && sorted[i] == y;
      assert i == 0 || lt(sorted[0], sorted[i]);
      assert i == |sorted| - 1 || lt(sorted[i], sorted[|sorted| - 1]);
    }
  }

  lemma CountedYear(years: map<string, int>, c: map<int, nat>, g: string)
    requires Counts(years, years.Keys, c) && g in years
    ensures years[g] in c
  {
    assert g in InYear(years, years.Keys, years[g]);
  }

  lemma StatuteYears(m: Statutes, enacted: map<int, nat>, expired: map<int, nat>)
    requires Counts(EnactedYears(m), EnactedYears(m).Keys, enacted) && Counts(ExpiryYears(m), ExpiryYears(m).Keys, expired)
    ensures forall g :: g in m ==> m[g].enactedYear in enacted
    ensures forall g :: g in m && m[g].expiryYear != 0 ==> m[g].expiryYear in expired
  {
    forall g | g in m ensures m[g].enactedYear in enacted { CountedYear(EnactedYears(m), enacted, g); }
    forall g | g in m && m[g].expiryYear != 0 ensures m[g].expiryYear in expired {
      CountedYear(ExpiryYears(m), expired, g);
    }
  }

  lemma CountedHas(years: map<string, int>, c: map<int, nat>, y: int) returns (g: string)
    requires Counts(years, years.Keys, c) && y in c
    ensures g in years && years[g] == y
  {
    g :| g in InYear(years, years.Keys, y);
  }

  lemma YearsAreStatutes(m: Statutes, enacted: map<int, nat>, expired: map<int, nat>)
    requires Counts(EnactedYears(m), EnactedYears(m).Keys, enacted) && Counts(ExpiryYears(m), ExpiryYears(m).Keys, expired)
    ensures forall y :: y in enacted || y in expired ==> YearOfOne(m, y)
  {
    forall y | y in enacted || y in expired ensures YearOfOne(m, y) {
      if y in enacted {
        var g := CountedHas(EnactedYears(m), enacted, y);
      } else {
        var g := CountedHas(ExpiryYears(m), expired, y);
      }
    }
  }

  lemma BeforeFirst(years: map<string, int>, c: map<int, nat>, first: int)
    requires Counts(years, years.Keys, c) && forall y :: y in c ==> first <= y
    ensures |ByYear(years, first - 1)| == 0
  {
    forall g | g in years ensures years[g] >= first { CountedYear(years, c, g); }
    assert ByYear(years, first - 1) == {};
  }

  lemma YearStep(years: map<string, int>, c: map<int, nat>, y: int)
    requires Counts(years, years.Keys, c)
    ensures |ByYear(years, y)| == |ByYear(years, y - 1)| + YearCount(c, y)
  {
    var now := InYear(years, years.Keys, y);
    assert ByYear(years, y) == ByYear(years, y - 1) + now && ByYear(years, y - 1) !! now;
  }

  // ---------------------------------------------------------------- citation network

  type Counter = map<string, int>

  function CountOf(c: Counter, k: string): int {
    if k in c then c[k] else 0
  }

  // The counter's values, added up.
  ghost function SumOf(c: Counter): int {
    Total(c.Keys, ValueIn(c))
  }

  function Targets(a: Act): set<string> {
    Members(a.cited)
  }

  // How many acts cite t.
  function CitedBy(acts: seq<Act>, t: string): nat {
    if acts == [] then 0 else CitedBy(acts[..|acts| - 1], t) + if t in acts[|acts| - 1].cited then 1 else 0
  }

  // How many distinct targets the acts with identifier g cite, act by act.
  function CitesFrom(acts: seq<Act>, g: string): nat {
    if acts == [] then 0 else CitesFrom(acts[..|acts| - 1], g) + EdgesFrom(acts[|acts| - 1], g)
  }

  function EdgesFrom(a: Act, g: string): nat {
    if g != "" && a.globaal == g then |Targets(a)| else 0
  }

  // The citation edges, and those from acts that have an identifier.
  function Edges(acts: seq<Act>): nat {
    if acts == [] then 0 else Edges(acts[..|acts| - 1]) + |Targets(acts[|acts| - 1])|
  }

  function NamedEdges(acts: seq<Act>): nat {
    if acts == [] then 0
    else NamedEdges(acts[..|acts| - 1]) + EdgesFrom(acts[|acts| - 1], acts[|acts| - 1].globaal)
  }

  // c counts f, and holds only the keys it has counted.
  ghost predicate Tallies(c: Counter, f: string -> int) {
    forall k :: CountOf(c, k) == f(k) && (k in c <==> f(k) > 0)
  }

  ghost function CitedByIn(acts: seq<Act>): string -> int {
    (t: string) => CitedBy(acts, t)
  }

  ghost function CitesFromIn(acts: seq<Act>): string -> int {
    (g: string) => CitesFrom(acts, g)
  }

  // What one act's distinct targets `seen` add to the two counters.
  ghost function PlusSeen(f: string -> int, seen: set<string>): string -> int {
    (t: string) => f(t) + if t in seen then 1 else 0
  }

  ghost function PlusFrom(f: string -> int, src: string, n: nat): string -> int {
    (g: string) => f(g) + if g != "" && g == src then n else 0
  }

  // counter[k] += 1
  method Bump(c: Counter, k: string) returns (d: Counter)
    ensures forall t :: CountOf(d, t) == CountOf(c, t) + if t == k then 1 else 0
    ensures forall t :: t in d <==> t in c || t == k
  {
    d := c[k := CountOf(c, k) + 1];
  }

  // The loop body for one target of one act.
  method CountEdge(src: string, ghost f: string -> int, ghost g: string -> int, ghost seen: set<string>, t: string,
                   inBefore: Counter, outBefore: Counter)
    returns (inNow: Counter, outNow: Counter)
    requires t !in seen && (forall k :: f(k) >= 0 && g(k) >= 0)
    requires Tallies(inBefore, PlusSeen(f, seen)) && Tallies(outBefore, PlusFrom(g, src, |seen|))
    ensures Tallies(inNow, PlusSeen(f, seen + {t})) && Tallies(outNow, PlusFrom(g, src, |seen + {t}|))
  {
    inNow := Bump(inBefore, t);
    outNow := outBefore;
    if src != "" {
      outNow := Bump(outBefore, src);
    }
    assert |seen + {t}| == |seen| + 1;
  }

  // One act: every distinct target once.
  method CountAct(a: Act, ghost f: string -> int, ghost g: string -> int, inDegree: Counter, outDegree: Counter)
    returns (inNow: Counter, outNow: Counter, edges: nat)
    requires Tallies(inDegree, f) && Tallies(outDegree, g) && forall k :: f(k) >= 0 && g(k) >= 0
    ensures edges == |Targets(a)|
    ensures Tallies(inNow, PlusSeen(f, Targets(a))) && Tallies(outNow, PlusFrom(g, a.globaal, edges))
  {
    inNow, outNow, edges := inDegree, outDegree, 0;
    var seen: set<string> := {};
    for i := 0 to |a.cited|
      invariant seen == Members(a.cited[..i]) && edges == |seen|
      invariant Tallies(inNow, PlusSeen(f, seen)) && Tallies(outNow, PlusFrom(g, a.globaal, |seen|))
    {
      var t := a.cited[i];
      MembersSnoc(a.cited, i);
      if t !in seen {
        inNow, outNow := CountEdge(a.globaal, f, g, seen, t, inNow, outNow);
        seen := seen + {t};
        edges := edges + 1;
      } else {
        assert seen + {t} == seen;
      }
    }
    assert a.cited[..|a.cited|] == a.cited;
  }

  function Members(s: seq<string>): set<string> {
    set t | t in s
  }

  lemma MembersSnoc(s: seq<string>, i: nat)
    requires i < |s|
    ensures Members(s[..i + 1]) == Members(s[..i]) + {s[i]}
  {
    assert s[..i + 1] == s[..i] + [s[i]];
  }

  // The counters after one more act.
  lemma TalliesNext(acts: seq<Act>, n: nat, inNow: Counter, outNow: Counter)
    requires n < |acts|
    requires Tallies(inNow, PlusSeen(CitedByIn(acts[..n]), Targets(acts[n])))
    requires Tallies(outNow, PlusFrom(CitesFromIn(acts[..n]), acts[n].globaal, |Targets(acts[n])|))
    ensures Tallies(inNow, CitedByIn(acts[..n + 1])) && Tallies(outNow, CitesFromIn(acts[..n + 1]))
  {
    var f, g := PlusSeen(CitedByIn(acts[..n]), Targets(acts[n])), PlusFrom(CitesFromIn(acts[..n]), acts[n].globaal, |Targets(acts[n])|);
    Longer(acts, n);
    forall k ensures CitedBy(acts[..n + 1], k) == f(k) && CitesFrom(acts[..n + 1], k) == g(k) { }
  }

  // Adding up a count over all keys: one more act adds one for each of its targets.
  lemma {:induction false} InDegreesAddUp(acts: seq<Act>, keys: set<string>)
    requires forall a :: a in acts ==> Targets(a) <= keys
    ensures Total(keys, CitedByIn(acts)) == Edges(acts)
  {
    if acts == [] {
      TotalConst(keys, CitedByIn(acts), 0);
    } else {
      var init, last := acts[..|acts| - 1], acts[|acts| - 1];
      InDegreesAddUp(init, keys);
      assert last in acts;
      var one := PlusSeen((k: string) => 0, Targets(last));
      TotalPlus(keys, CitedByIn(init), one, CitedByIn(acts));
      TotalSplit(keys, one, Targets(last));
      TotalConst(Targets(last), one, 1);
      TotalConst(keys - Targets(last), one, 0);
    }
  }

  // An act's out-degree share is booked under its own identifier, if it has one.
  lemma OneSource(a: Act, keys: set<string>)
    requires a.globaal != "" && a.cited != [] ==> a.globaal in keys
    ensures Total(keys, OneSourceIn(a)) == EdgesFrom(a, a.globaal)
  {
    NoTargets(a);
    var at := keys * {a.globaal};
    TotalSplit(keys, OneSourceIn(a), at);
    TotalConst(at, OneSourceIn(a), EdgesFrom(a, a.globaal));
    TotalConst(keys - at, OneSourceIn(a), 0);
    if a.globaal in keys {
      assert at == {a.globaal};
    } else {
      assert at == {};
    }
  }

  ghost function OneSourceIn(a: Act): string -> int {
    (g: string) => EdgesFrom(a, g)
  }

  lemma {:induction false} OutDegreesAddUp(acts: seq<Act>, keys: set<string>)
    requires forall a :: a in acts && a.globaal != "" && a.cited != [] ==> a.globaal in keys
    ensures Total(keys, CitesFromIn(acts)) == NamedEdges(acts)
  {
    if acts == [] {
      TotalConst(keys, CitesFromIn(acts), 0);
    } else {
      var init, last := acts[..|acts| - 1], acts[|acts| - 1];
      OutDegreesAddUp(init, keys);
      assert last in acts;
      TotalPlus(keys, CitesFromIn(init), OneSourceIn(last), CitesFromIn(acts));
      OneSource(last, keys);
    }
  }

  lemma {:induction false} NamedAtMostEdges(acts: seq<Act>)
    ensures NamedEdges(acts) <= Edges(acts)
  {
    if acts != [] { NamedAtMostEdges(acts[..|acts| - 1]); }
  }

  lemma NoTargets(a: Act)
    ensures |Targets(a)| == 0 <==> a.cited == []
  {
    if a.cited != [] { assert a.cited[0] in Targets(a); }
  }

  lemma {:induction false} CitedIsCounted(acts: seq<Act>, a: Act)
    requires a in acts
    ensures forall t :: t in Targets(a) ==> CitedBy(acts, t) > 0
    ensures a.globaal != "" && a.cited != [] ==> CitesFrom(acts, a.globaal) > 0
  {
    var init, last := acts[..|acts| - 1], acts[|acts| - 1];
    NoTargets(a);
    if a != last {
      assert acts == init + [last];
      CitedIsCounted(init, a);
    }
  }

  // The sum of the in-degrees is the edge total, that of the out-degrees the edges with a named source.
  lemma DegreesAddUp(acts: seq<Act>, inDegree: Counter, outDegree: Counter)
    requires Tallies(inDegree, CitedByIn(acts)) && Tallies(outDegree, CitesFromIn(acts))
    ensures SumOf(inDegree) == Edges(acts)
    ensures SumOf(outDegree) == NamedEdges(acts) <= Edges(acts)
  {
    forall a | a in acts
      ensures Targets(a) <= inDegree.Keys && (a.globaal != "" && a.cited != [] ==> a.globaal in outDegree.Keys)
    {
      CitedIsCounted(acts, a);
      assert forall t :: t in Targets(a) ==> CitedByIn(acts)(t) > 0;
      assert a.globaal != "" && a.cited != [] ==> CitesFromIn(acts)(a.globaal) > 0;
    }
    InDegreesAddUp(acts, inDegree.Keys);
    OutDegreesAddUp(acts, outDegree.Keys);
    NamedAtMostEdges(acts);
    TotalSame(inDegree.Keys, ValueIn(inDegree), CitedByIn(acts));
    TotalSame(outDegree.Keys, ValueIn(outDegree), CitesFromIn(acts));
  }

  // The loop of compute_citation_network over the acts.
  method CountCitations(acts: seq<Act>) returns (inDegree: Counter, outDegree: Counter, edges: nat, citing: nat)
    ensures Tallies(inDegree, CitedByIn(acts)) && Tallies(outDegree, CitesFromIn(acts))
    ensures edges == Edges(acts) && citing == |Citing(acts)|
  {
    inDegree, outDegree, edges, citing := map[], map[], 0, 0;
    for n := 0 to |acts|
      invariant Tallies(inDegree, CitedByIn(acts[..n])) && Tallies(outDegree, CitesFromIn(acts[..n]))
      invariant edges == Edges(acts[..n]) && citing == |Citing(acts[..n])|
    {
      Longer(acts, n);
      NoTargets(acts[n]);
      if acts[n].cited != [] {
        citing := citing + 1;
        var counted;
        inDegree, outDegree, counted :=
          CountAct(acts[n], CitedByIn(acts[..n]), CitesFromIn(acts[..n]), inDegree, outDegree);
        edges := edges + counted;
      }
      TalliesNext(acts, n, inDegree, outDegree);
    }
    Whole(acts);
  }

  // The acts that cite anything.
  function Citing(acts: seq<Act>): seq<Act> {
    if acts == [] then []
    else Citing(acts[..|acts| - 1]) + if acts[|acts| - 1].cited != [] then [acts[|acts| - 1]] else []
  }

  // ---------------------------------------------------------------- the counts as sets

  // The citation edges, one for every act and distinct target, from acts with a property.
  ghost function EdgesBy(acts: seq<Act>, p: Act -> bool): set<(int, string)> {
    set i, t | 0 <= i < |acts| && t in acts[i].cited && p(acts[i]) :: (i, t)
  }

  ghost function ActsBy(acts: seq<Act>, p: Act -> bool): set<int> {
    set i | 0 <= i < |acts| && p(acts[i])
  }

  lemma {:induction false} PairsWith(n: int, ts: set<string>)
    ensures |set t | t in ts :: (n, t)| == |ts|
  {
    var pairs := set t | t in ts :: (n, t);
    if ts != {} {
      var t :| t in ts;
      PairsWith(n, ts - {t});
      assert pairs == (set u | u in ts - {t} :: (n, u)) + {(n, t)};
    } else {
      assert pairs == {};
    }
  }

  lemma EdgesSnoc(front: seq<Act>, a: Act, p: Act -> bool)
    ensures |EdgesBy(front + [a], p)| == |EdgesBy(front, p)| + if p(a) then |Targets(a)| else 0
  {
    var all, some, more := EdgesBy(front + [a], p), EdgesBy(front, p), set t | t in Targets(a) :: (|front|, t);
    PairsWith(|front|, Targets(a));
    forall e ensures e in all <==> e in some || (p(a) && e in more) {
      if e in some { assert (front + [a])[e.0] == front[e.0]; }
    }
    if p(a) {
      assert all == some + more && some !! more;
    } else {
      assert all == some;
    }
  }

  lemma ActsSnoc(front: seq<Act>, a: Act, p: Act -> bool)
    ensures |ActsBy(front + [a], p)| == |ActsBy(front, p)| + if p(a) then 1 else 0
  {
    assert ActsBy(front + [a], p) == ActsBy(front, p) + if p(a) then {|front|} else {};
  }

  ghost function Cites(t: string): Act -> bool {
    (a: Act) => t in a.cited
  }

  ghost function CitesAny(): Act -> bool {
    (a: Act) => a.cited != []
  }

  ghost function NamedAs(g: string): Act -> bool {
    (a: Act) => g != "" && a.globaal == g
  }

  ghost function HasName(): Act -> bool {
    (a: Act) => a.globaal != ""
  }

  ghost function AnyAct(): Act -> bool {
    (a: Act) => true
  }

  // The in-degree of t is the number of acts that cite it.
  lemma {:induction false} ActCounts(acts: seq<Act>, t: string)
    ensures CitedBy(acts, t) == |ActsBy(acts, Cites(t))|
    ensures |Citing(acts)| == |ActsBy(acts, CitesAny())|
  {
    if acts != [] {
      var front, last := acts[..|acts| - 1], acts[|acts| - 1];
      Front(acts);
      ActCounts(front, t);
      ActsSnoc(front, last, Cites(t));
      ActsSnoc(front, last, CitesAny());
    }
  }

  // The edge total is the number of pairs of an act and a target it cites; the out-degree of g
  // counts those from acts identified as g.
  lemma {:induction false} EdgeCounts(acts: seq<Act>, g: string)
    ensures CitesFrom(acts, g) == |EdgesBy(acts, NamedAs(g))|
    ensures Edges(acts) == |EdgesBy(acts, AnyAct())|
    ensures NamedEdges(acts) == |EdgesBy(acts, HasName())|
  {
    if acts != [] {
      var front, last := acts[..|acts| - 1], acts[|acts| - 1];
      Front(acts);
      EdgeCounts(front, g);
      EdgesSnoc(front, last, NamedAs(g));
      EdgesSnoc(front, last, AnyAct());
      EdgesSnoc(front, last, HasName());
    }
  }

  // compute_citation_network, up to the fitted exponent.
  method CitationNetwork(acts: seq<Act>)
    returns (inDegree: Counter, outDegree: Counter, degreeDist: map<int, nat>, edges: nat, citing: nat)
    ensures Tallies(inDegree, CitedByIn(acts)) && Tallies(outDegree, CitesFromIn(acts))
    ensures edges == Edges(acts) && citing == |Citing(acts)|
    ensures SumOf(inDegree) == edges
    ensures SumOf(outDegree) == NamedEdges(acts) <= edges
    ensures Total(degreeDist.Keys, WeightIn(degreeDist)) == edges
    ensures Counts(inDegree, inDegree.Keys, degreeDist)
  {
    inDegree, outDegree, edges, citing := CountCitations(acts);
    degreeDist := CountValues(inDegree);
    DegreesAddUp(acts, inDegree, outDegree);
  }
}
