// Whole runs of the occupancy state machine of proofs/z3_occupancy.py, which proves only
// single steps.  States, actions and the invalid state are the integers of that file; the
// table is its five-entry one.

module Occupancy {

  const ABSENT: int := 0
  const SUBSTANTIVE: int := 1
  const TOMBSTONE: int := 2
  const INVALID: int := -1

  const INSERT: int := 0
  const REPLACE: int := 1
  const REPEAL: int := 2
  const REENACT: int := 3

  const TABLE: map<(int, int), int> := map[
    (INSERT, ABSENT) := SUBSTANTIVE,
    (INSERT, TOMBSTONE) := SUBSTANTIVE,
    (REPLACE, SUBSTANTIVE) := SUBSTANTIVE,
    (REPEAL, SUBSTANTIVE) := TOMBSTONE,
    (REENACT, TOMBSTONE) := SUBSTANTIVE
  ]

  // _transition: table.get((action, state), INVALID)
  function Transition(state: int, action: int): int {
    if (action, state) in TABLE then TABLE[(action, state)] else INVALID
  }

  // The nested-If twin handed to the solver.
  function NestedIf(s: int, a: int): int {
    if a == INSERT && s == ABSENT then SUBSTANTIVE
    else if a == INSERT && s == TOMBSTONE then SUBSTANTIVE
    else if a == REPLACE && s == SUBSTANTIVE then SUBSTANTIVE
    else if a == REPEAL && s == SUBSTANTIVE then TOMBSTONE
    else if a == REENACT && s == TOMBSTONE then SUBSTANTIVE
    else INVALID
  }

  function Run(state: int, actions: seq<int>): int {
    if actions == [] then state else Transition(Run(state, actions[..|actions| - 1]), actions[|actions| - 1])
  }

  function RunNestedIf(state: int, actions: seq<int>): int {
    if actions == [] then state else NestedIf(RunNestedIf(state, actions[..|actions| - 1]), actions[|actions| - 1])
  }

  // ---------------------------------------------------------------- regular expressions

  datatype Regex =
    | Sym(action: int)
    | Empty
    | Alt(left: Regex, right: Regex)
    | Cat(first: Regex, second: Regex)
    | Star(inner: Regex)

  ghost predicate Matches(r: Regex, w: seq<int>)
    decreases r, |w|
  {
    match r
    case Sym(a) => w == [a]
    case Empty => w == []
    case Alt(x, y) => Matches(x, w) || Matches(y, w)
    case Cat(x, y) => exists i: nat | i <= |w| :: Matches(x, w[..i]) && Matches(y, w[i..])
    // Repetition, last round first; an empty round adds nothing.
    case Star(x) => w == [] || exists i: nat | i < |w| :: Matches(r, w[..i]) && Matches(x, w[i..])
  }

  // INSERT REPLACE* (REPEAL (INSERT|REENACT) REPLACE*)*
  const REPLACES := Star(Sym(REPLACE))
  const HEAD := Cat(Sym(INSERT), REPLACES)
  const REVIVE := Alt(Sym(INSERT), Sym(REENACT))
  const REVIVAL := Cat(Sym(REPEAL), Cat(REVIVE, REPLACES))
  const LIVE := Cat(HEAD, Star(REVIVAL))

  // ... REPEAL?, or nothing at all
  const HISTORY := Alt(Empty, Cat(LIVE, Alt(Empty, Sym(REPEAL))))

  lemma CatIntro(x: Regex, y: Regex, u: seq<int>, v: seq<int>)
    requires Matches(x, u) && Matches(y, v)
    ensures Matches(Cat(x, y), u + v)
  {
    var w := u + v;
    assert w[..|u|] == u && w[|u|..] == v;
  }

  lemma StarSnoc(x: Regex, u: seq<int>, v: seq<int>)
    requires Matches(Star(x), u) && Matches(x, v) && v != []
    ensures Matches(Star(x), u + v)
  {
    var w := u + v;
    assert w[..|u|] == u && w[|u|..] == v;
  }

  lemma CatSplit(x: Regex, y: Regex, w: seq<int>) returns (u: seq<int>, v: seq<int>)
    requires Matches(Cat(x, y), w)
    ensures w == u + v && Matches(x, u) && Matches(y, v)
  {
    var i: nat :| i <= |w| && Matches(x, w[..i]) && Matches(y, w[i..]);
    u, v := w[..i], w[i..];
  }

  lemma StarSplit(x: Regex, w: seq<int>) returns (u: seq<int>, v: seq<int>)
    requires Matches(Star(x), w) && w != []
    ensures w == u + v && v != [] && Matches(Star(x), u) && Matches(x, v)
  {
    var i: nat :| i < |w| && Matches(Star(x), w[..i]) && Matches(x, w[i..]);
    u, v := w[..i], w[i..];
  }

  lemma StarOfNothing(x: Regex)
    ensures Matches(Star(x), [])
  {
  }

  // ---------------------------------------------------------------- runs

  lemma {:induction false} TwinsAgree(state: int, actions: seq<int>)
    ensures Run(state, actions) == RunNestedIf(state, actions)
  {
    if actions != [] { TwinsAgree(state, actions[..|actions| - 1]); }
  }

  lemma {:induction false} RunConcat(state: int, u: seq<int>, v: seq<int>)
    ensures Run(state, u + v) == Run(Run(state, u), v)
    decreases |v|
  {
    if v == [] {
      assert u + v == u;
    } else {
      assert (u + v)[..|u + v| - 1] == u + v[..|v| - 1];
      RunConcat(state, u, v[..|v| - 1]);
    }
  }

  // No action leaves INVALID, and none ever leads back to ABSENT.
  lemma {:induction false} InvalidIsAbsorbing(state: int, actions: seq<int>)
    ensures Run(INVALID, actions) == INVALID
    ensures actions != [] ==> Run(state, actions) != ABSENT
  {
    if actions != [] { InvalidIsAbsorbing(state, actions[..|actions| - 1]); }
  }

  function CountOf(action: int, actions: seq<int>): nat {
    if actions == [] then 0
    else CountOf(action, actions[..|actions| - 1]) + if actions[|actions| - 1] == action then 1 else 0
  }

  // Insertions and reenactments against repeals: one more exactly while the slot is live.
  lemma {:induction false} Balance(actions: seq<int>)
    requires Run(ABSENT, actions) != INVALID
    ensures CountOf(INSERT, actions) + CountOf(REENACT, actions) - CountOf(REPEAL, actions) ==
      if Run(ABSENT, actions) == SUBSTANTIVE then 1 else 0
    ensures Run(ABSENT, actions) in {ABSENT, SUBSTANTIVE, TOMBSTONE}
  {
    if actions != [] { Balance(actions[..|actions| - 1]); }
  }

  // ---------------------------------------------------------------- the valid histories

  // Every way of being SUBSTANTIVE is a LIVE word, and every way of being TOMBSTONE is a
  // LIVE word with one repeal after it.
  lemma {:induction false} LiveRunsMatch(w: seq<int>)
    ensures Run(ABSENT, w) == SUBSTANTIVE ==> Matches(LIVE, w)
    ensures Run(ABSENT, w) == TOMBSTONE ==> w != [] && w[|w| - 1] == REPEAL && Matches(LIVE, w[..|w| - 1])
  {
    if w != [] {
      var front, last := w[..|w| - 1], w[|w| - 1];
      LiveRunsMatch(front);
      InvalidIsAbsorbing(ABSENT, front);
      LiveStep(front, last);
      assert w == front + [last];
    }
  }

  lemma LiveStep(front: seq<int>, last: int)
    requires front != [] ==> Run(ABSENT, front) != ABSENT
    requires Run(ABSENT, front) == SUBSTANTIVE ==> Matches(LIVE, front)
    requires Run(ABSENT, front) == TOMBSTONE ==>
      front != [] && front[|front| - 1] == REPEAL && Matches(LIVE, front[..|front| - 1])
    ensures Run(ABSENT, front + [last]) == SUBSTANTIVE ==> Matches(LIVE, front + [last])
    ensures Run(ABSENT, front + [last]) == TOMBSTONE ==> last == REPEAL && Matches(LIVE, front)
  {
    var s := Run(ABSENT, front);
    RunOne(front, last);
    TransitionCases(s, last);
    if Transition(s, last) == SUBSTANTIVE {
      LiveGrows(front, last, s);
    }
  }

  lemma TransitionCases(s: int, a: int)
    ensures Transition(s, a) == SUBSTANTIVE <==>
      (s == SUBSTANTIVE && a == REPLACE) || (s == ABSENT && a == INSERT) || (s == TOMBSTONE && (a == INSERT || a == REENACT))
    ensures Transition(s, a) == TOMBSTONE <==> s == SUBSTANTIVE && a == REPEAL
  {
  }

  lemma LiveGrows(front: seq<int>, last: int, s: int)
    requires
      || (s == SUBSTANTIVE && last == REPLACE && Matches(LIVE, front))
      || (s == ABSENT && last == INSERT && front == [])
      || (s == TOMBSTONE && (last == INSERT || last == REENACT)
          && front != [] && front[|front| - 1] == REPEAL && Matches(LIVE, front[..|front| - 1]))
    ensures Matches(LIVE, front + [last])
  {
    if s == SUBSTANTIVE {
      LiveThenReplace(front);
    } else if s == ABSENT {
      assert front + [last] == [INSERT];
      FirstInsert();
    } else {
      LiveThenRevived(front, last);
    }
  }

  lemma LiveThenRevived(front: seq<int>, last: int)
    requires front != [] && front[|front| - 1] == REPEAL && Matches(LIVE, front[..|front| - 1])
    requires last == INSERT || last == REENACT
    ensures Matches(LIVE, front + [last])
  {
    var live, w := front[..|front| - 1], front + [last];
    assert w == live + [REPEAL, last];
    LiveThenRevival(live, last);
  }

  lemma FirstInsert()
    ensures Matches(LIVE, [INSERT])
  {
    var nothing: seq<int> := [];
    CatIntro(Sym(INSERT), REPLACES, [INSERT], nothing);
    assert [INSERT] + nothing == [INSERT];
    CatIntro(HEAD, Star(REVIVAL), [INSERT], nothing);
  }

  lemma LiveThenRevival(live: seq<int>, last: int)
    requires Matches(LIVE, live) && (last == INSERT || last == REENACT)
    ensures Matches(LIVE, live + [REPEAL, last])
  {
    OneRevival(last);
    var u, v := CatSplit(HEAD, Star(REVIVAL), live);
    StarSnoc(REVIVAL, v, [REPEAL, last]);
    CatIntro(HEAD, Star(REVIVAL), u, v + [REPEAL, last]);
    assert u + (v + [REPEAL, last]) == live + [REPEAL, last];
  }

  lemma OneRevival(last: int)
    requires last == INSERT || last == REENACT
    ensures Matches(REVIVAL, [REPEAL, last])
  {
    var nothing: seq<int> := [];
    StarOfNothing(Sym(REPLACE));
    assert Matches(REVIVE, [last]);
    CatIntro(REVIVE, REPLACES, [last], nothing);
    assert [last] + nothing == [last];
    CatIntro(Sym(REPEAL), Cat(REVIVE, REPLACES), [REPEAL], [last]);
    assert [REPEAL] + [last] == [REPEAL, last];
  }

  // A trailing run of replacements absorbs one more.
  lemma CatReplacesSnoc(x: Regex, w: seq<int>)
    requires Matches(Cat(x, REPLACES), w)
    ensures Matches(Cat(x, REPLACES), w + [REPLACE])
  {
    var u, v := CatSplit(x, REPLACES, w);
    StarSnoc(Sym(REPLACE), v, [REPLACE]);
    CatIntro(x, REPLACES, u, v + [REPLACE]);
    assert u + (v + [REPLACE]) == w + [REPLACE];
  }

  lemma RevivalSnoc(w: seq<int>)
    requires Matches(REVIVAL, w)
    ensures Matches(REVIVAL, w + [REPLACE])
  {
    var u, v := CatSplit(Sym(REPEAL), Cat(REVIVE, REPLACES), w);
    CatReplacesSnoc(REVIVE, v);
    CatIntro(Sym(REPEAL), Cat(REVIVE, REPLACES), u, v + [REPLACE]);
    assert u + (v + [REPLACE]) == w + [REPLACE];
  }

  lemma LiveThenReplace(live: seq<int>)
    requires Matches(LIVE, live)
    ensures Matches(LIVE, live + [REPLACE])
  {
    var u, v := CatSplit(HEAD, Star(REVIVAL), live);
    if v == [] {
      assert live == u;
      CatReplacesSnoc(Sym(INSERT), u);
      CatIntro(HEAD, Star(REVIVAL), u + [REPLACE], v);
      assert u + [REPLACE] + v == live + [REPLACE];
    } else {
      var x, y := StarSplit(REVIVAL, v);
      RevivalSnoc(y);
      StarSnoc(REVIVAL, x, y + [REPLACE]);
      CatIntro(HEAD, Star(REVIVAL), u, x + (y + [REPLACE]));
      assert u + (x + (y + [REPLACE])) == live + [REPLACE];
    }
  }

  lemma {:induction false} ReplacesKeepLive(w: seq<int>)
    requires Matches(REPLACES, w)
    ensures Run(SUBSTANTIVE, w) == SUBSTANTIVE
    decreases |w|
  {
    if w != [] {
      var u, v := StarSplit(Sym(REPLACE), w);
      ReplacesKeepLive(u);
      RunOne(u, REPLACE);
    }
  }

  lemma RunOne(u: seq<int>, a: int)
    ensures forall state :: Run(state, u + [a]) == Transition(Run(state, u), a)
  {
    assert (u + [a])[..|u|] == u;
  }

  // (first action)(REPLACE*) leads to SUBSTANTIVE when the first action does.
  lemma ReplacesAfter(state: int, x: Regex, w: seq<int>)
    requires Matches(Cat(x, REPLACES), w)
    requires forall u :: Matches(x, u) ==> |u| == 1 && Transition(state, u[0]) == SUBSTANTIVE
    ensures Run(state, w) == SUBSTANTIVE
  {
    var u, v := CatSplit(x, REPLACES, w);
    var nothing: seq<int> := [];
    assert u == nothing + [u[0]];
    RunOne(nothing, u[0]);
    RunConcat(state, u, v);
    ReplacesKeepLive(v);
  }

  lemma RevivalKeepsLive(w: seq<int>)
    requires Matches(REVIVAL, w)
    ensures Run(SUBSTANTIVE, w) == SUBSTANTIVE
  {
    var u, v := CatSplit(Sym(REPEAL), Cat(REVIVE, REPLACES), w);
    var nothing: seq<int> := [];
    assert u == nothing + [REPEAL];
    RunOne(nothing, REPEAL);
    RunConcat(SUBSTANTIVE, u, v);
    ReplacesAfter(TOMBSTONE, REVIVE, v);
  }

  lemma {:induction false} RevivalsKeepLive(w: seq<int>)
    requires Matches(Star(REVIVAL), w)
    ensures Run(SUBSTANTIVE, w) == SUBSTANTIVE
    decreases |w|
  {
    if w != [] {
      var u, v := StarSplit(REVIVAL, w);
      RevivalsKeepLive(u);
      RevivalKeepsLive(v);
      RunConcat(SUBSTANTIVE, u, v);
    }
  }

  lemma LiveWordsRun(w: seq<int>)
    requires Matches(LIVE, w)
    ensures Run(ABSENT, w) == SUBSTANTIVE
  {
    var u, v := CatSplit(HEAD, Star(REVIVAL), w);
    ReplacesAfter(ABSENT, Sym(INSERT), u);
    RevivalsKeepLive(v);
    RunConcat(ABSENT, u, v);
  }

  // A history is valid exactly when it is a word of the language; it ends SUBSTANTIVE
  // exactly on the words without the trailing repeal.
  lemma ValidHistories(w: seq<int>)
    ensures Run(ABSENT, w) != INVALID <==> Matches(HISTORY, w)
    ensures Run(ABSENT, w) == SUBSTANTIVE <==> Matches(LIVE, w)
  {
    LiveRunsMatch(w);
    if Matches(LIVE, w) { LiveWordsRun(w); }
    if Run(ABSENT, w) != INVALID {
      Balance(w);
      InvalidIsAbsorbing(ABSENT, w);
      if Run(ABSENT, w) == SUBSTANTIVE {
        var nothing: seq<int> := [];
        CatIntro(LIVE, Alt(Empty, Sym(REPEAL)), w, nothing);
        assert w + nothing == w;
      } else if Run(ABSENT, w) == TOMBSTONE {
        CatIntro(LIVE, Alt(Empty, Sym(REPEAL)), w[..|w| - 1], [REPEAL]);
        assert w[..|w| - 1] + [REPEAL] == w;
      }
    }
    if Matches(HISTORY, w) && w != [] {
      var ending := Alt(Empty, Sym(REPEAL));
      assert Matches(Cat(LIVE, ending), w) by { assert !Matches(Empty, w); }
      var u, v := CatSplit(LIVE, ending, w);
      LiveWordsRun(u);
      assert Matches(Empty, v) || Matches(Sym(REPEAL), v);
      if v == [] { assert w == u; } else { RunOne(u, REPEAL); }
    }
  }
}
