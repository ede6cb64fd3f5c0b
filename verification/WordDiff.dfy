// The word-level diff of scripts/build_standalone_findings.py: a backward table of
// longest-common-subsequence lengths, a greedy forward walk over it, and HTML escaping.

module WordDiff {

  type Word = string

  // ---------------------------------------------------------------- subsequences

  // s can be obtained from a by deleting words.
  ghost predicate Subsequence(s: seq<Word>, a: seq<Word>) {
    s == [] ||
    (a != [] && ((s[0] == a[0] && Subsequence(s[1..], a[1..])) || Subsequence(s, a[1..])))
  }

  ghost predicate Common(s: seq<Word>, a: seq<Word>, b: seq<Word>) {
    Subsequence(s, a) && Subsequence(s, b)
  }

  ghost predicate LongestCommon(s: seq<Word>, a: seq<Word>, b: seq<Word>) {
    Common(s, a, b) && forall t :: Common(t, a, b) ==> |t| <= |s|
  }

  ghost function Lcs(a: seq<Word>, b: seq<Word>): nat {
    if a == [] || b == [] then 0
    else if a[0] == b[0] then Lcs(a[1..], b[1..]) + 1
    else if Lcs(a[1..], b) >= Lcs(a, b[1..]) then Lcs(a[1..], b)
    else Lcs(a, b[1..])
  }

  lemma {:induction false} SubsequenceTail(s: seq<Word>, a: seq<Word>)
    requires s != [] && Subsequence(s, a)
    ensures a != [] && Subsequence(s[1..], a[1..])
  {
    if !(s[0] == a[0] && Subsequence(s[1..], a[1..])) {
      SubsequenceTail(s, a[1..]);
      assert Subsequence(s[1..], a[1..][1..]);
    }
  }

  lemma {:induction false} LcsBounds(s: seq<Word>, a: seq<Word>, b: seq<Word>)
    requires Common(s, a, b)
    ensures |s| <= Lcs(a, b)
    decreases |a| + |b|
  {
    if s != [] {
      SubsequenceTail(s, a);
      SubsequenceTail(s, b);
      if a[0] == b[0] {
        LcsBounds(s[1..], a[1..], b[1..]);
      } else if s[0] != a[0] {
        LcsBounds(s, a[1..], b);
      } else {
        LcsBounds(s, a, b[1..]);
      }
    }
  }

  lemma {:induction false} LcsAtMost(a: seq<Word>, b: seq<Word>)
    ensures Lcs(a, b) <= |a| && Lcs(a, b) <= |b|
    decreases |a| + |b|
  {
    if a != [] && b != [] {
      LcsAtMost(a[1..], b[1..]);
      LcsAtMost(a[1..], b);
      LcsAtMost(a, b[1..]);
    }
  }

  // ---------------------------------------------------------------- the table

  const MAX: nat := 400

  // What storing v in an Int16Array cell keeps of it.
  function ToInt16(v: int): int {
    (v + 0x8000) % 0x1_0000 - 0x8000
  }

  // The length of a longest common subsequence of what is left at i and at j.
  ghost function SuffixLcs(a: seq<Word>, b: seq<Word>, i: int, j: int): nat
    requires 0 <= i <= |a| && 0 <= j <= |b|
  {
    Lcs(a[i..], b[j..])
  }

  method FillTable(a: seq<Word>, b: seq<Word>) returns (dp: array2<int>)
    requires |a| <= MAX && |b| <= MAX
    ensures dp.Length0 == |a| + 1 && dp.Length1 == |b| + 1
    ensures forall i, j :: 0 <= i <= |a| && 0 <= j <= |b| ==> dp[i, j] == SuffixLcs(a, b, i, j)
  {
    var m, n := |a|, |b|;
    dp := new int[m + 1, n + 1]((i, j) => 0);
    var i := m - 1;
    while i >= 0
      invariant -1 <= i <= m - 1
      invariant forall p, q :: 0 <= p <= m && 0 <= q <= n && p > i ==> dp[p, q] == SuffixLcs(a, b, p, q)
      invariant forall p :: 0 <= p <= i ==> dp[p, n] == 0
      decreases i
    {
      var j := n - 1;
      while j >= 0
        invariant -1 <= j <= n - 1
        invariant forall p, q :: 0 <= p <= m && 0 <= q <= n && p > i ==> dp[p, q] == SuffixLcs(a, b, p, q)
        invariant forall p :: 0 <= p <= i ==> dp[p, n] == 0
        invariant forall q :: j < q <= n ==> dp[i, q] == SuffixLcs(a, b, i, q)
        decreases j
      {
        CellValue(a, b, i, j);
        var below, right, diagonal := dp[i + 1, j], dp[i, j + 1], dp[i + 1, j + 1];
        dp[i, j] := ToInt16(if a[i] == b[j] then diagonal + 1 else if below >= right then below else right);
        j := j - 1;
      }
      i := i - 1;
    }
  }

  // The recurrence of one cell, and that its value fits in 16 bits.
  lemma CellValue(a: seq<Word>, b: seq<Word>, i: nat, j: nat)
    requires i < |a| <= MAX && j < |b| <= MAX
    ensures
      var below, right := SuffixLcs(a, b, i + 1, j), SuffixLcs(a, b, i, j + 1);
      SuffixLcs(a, b, i, j) ==
      if a[i] == b[j] then SuffixLcs(a, b, i + 1, j + 1) + 1 else if below >= right then below else right
    ensures ToInt16(SuffixLcs(a, b, i, j)) == SuffixLcs(a, b, i, j)
  {
    assert a[i..][1..] == a[i + 1..] && b[j..][1..] == b[j + 1..];
    LcsAtMost(a[i..], b[j..]);
  }

  // ---------------------------------------------------------------- the walk

  // One pushed fragment: a word kept as it is, or a word wrapped in a highlighting span.
  datatype Piece = Kept(word: Word) | Marked(cls: string, word: Word)

  const SOURCE_ONLY := "source-only"
  const FINLEX_ONLY := "finlex-only"

  ghost function Words(ps: seq<Piece>): (ws: seq<Word>)
    ensures |ws| == |ps|
  {
    if ps == [] then [] else Words(ps[..|ps| - 1]) + [ps[|ps| - 1].word]
  }

  ghost function Unmarked(ps: seq<Piece>): seq<Word> {
    if ps == [] then []
    else Unmarked(ps[..|ps| - 1]) + (if ps[|ps| - 1].Kept? then [ps[|ps| - 1].word] else [])
  }

  lemma PushPiece(ps: seq<Piece>, p: Piece)
    ensures Words(ps + [p]) == Words(ps) + [p.word]
    ensures Unmarked(ps + [p]) == Unmarked(ps) + (if p.Kept? then [p.word] else [])
  {
    assert (ps + [p])[..|ps|] == ps;
  }

  lemma {:induction false} SubsequenceSnoc(s: seq<Word>, a: seq<Word>, w: Word)
    requires Subsequence(s, a)
    ensures Subsequence(s, a + [w]) && Subsequence(s + [w], a + [w])
    decreases |a|
  {
    if a == [] {
      assert [w][1..] == [];
      assert Subsequence([w], [w]);
    } else {
      assert (a + [w])[1..] == a[1..] + [w];
      if s != [] && s[0] == a[0] && Subsequence(s[1..], a[1..]) {
        SubsequenceSnoc(s[1..], a[1..], w);
        assert (s + [w])[1..] == s[1..] + [w];
      } else {
        SubsequenceSnoc(s, a[1..], w);
        assert Subsequence(s + [w], a[1..] + [w]);
      }
    }
  }

  lemma {:induction false} UnmarkedIsSubsequence(ps: seq<Piece>)
    ensures Subsequence(Unmarked(ps), Words(ps))
  {
    if ps != [] {
      UnmarkedIsSubsequence(ps[..|ps| - 1]);
      var kept := Unmarked(ps[..|ps| - 1]);
      assert kept + [] == kept;
      SubsequenceSnoc(kept, Words(ps[..|ps| - 1]), ps[|ps| - 1].word);
    }
  }

  ghost predicate MarksOnly(ps: seq<Piece>, cls: string) {
    forall p :: p in ps && p.Marked? ==> p.cls == cls
  }

  // What a diff of a against b has to be: both word lists complete and in order, the
  // kept words the same on both sides, and as many of them as any common subsequence has.
  ghost predicate OptimalDiff(aOut: seq<Piece>, bOut: seq<Piece>, a: seq<Word>, b: seq<Word>) {
    && Words(aOut) == a && MarksOnly(aOut, SOURCE_ONLY)
    && Words(bOut) == b && MarksOnly(bOut, FINLEX_ONLY)
    && Unmarked(aOut) == Unmarked(bOut)
    && LongestCommon(Unmarked(aOut), a, b)
  }

  lemma WalkIsOptimal(aOut: seq<Piece>, bOut: seq<Piece>, a: seq<Word>, b: seq<Word>)
    requires Words(aOut) == a && Words(bOut) == b
    requires Unmarked(aOut) == Unmarked(bOut)
    requires |Unmarked(aOut)| == Lcs(a, b)
    ensures LongestCommon(Unmarked(aOut), a, b)
  {
    UnmarkedIsSubsequence(aOut);
    UnmarkedIsSubsequence(bOut);
    forall t | Common(t, a, b) ensures |t| <= |Unmarked(aOut)| { LcsBounds(t, a, b); }
  }

  // The state of the walk at (i, j): "kept so far + dp[i][j] = dp[0][0]".
  ghost predicate WalkInvariant(aOut: seq<Piece>, bOut: seq<Piece>, a: seq<Word>, b: seq<Word>, i: int, j: int) {
    && 0 <= i <= |a| && 0 <= j <= |b|
    && Words(aOut) == a[..i] && MarksOnly(aOut, SOURCE_ONLY)
    && Words(bOut) == b[..j] && MarksOnly(bOut, FINLEX_ONLY)
    && Unmarked(aOut) == Unmarked(bOut)
    && |Unmarked(aOut)| + SuffixLcs(a, b, i, j) == Lcs(a, b)
  }

  lemma WalkKeeps(aOut: seq<Piece>, bOut: seq<Piece>, a: seq<Word>, b: seq<Word>, i: int, j: int)
    requires |a| <= MAX && |b| <= MAX
    requires WalkInvariant(aOut, bOut, a, b, i, j) && i < |a| && j < |b| && a[i] == b[j]
    ensures WalkInvariant(aOut + [Kept(a[i])], bOut + [Kept(b[j])], a, b, i + 1, j + 1)
  {
    CellValue(a, b, i, j);
    PushPiece(aOut, Kept(a[i]));
    PushPiece(bOut, Kept(b[j]));
    assert a[..i + 1] == a[..i] + [a[i]] && b[..j + 1] == b[..j] + [b[j]];
  }

  lemma WalkMarksB(aOut: seq<Piece>, bOut: seq<Piece>, a: seq<Word>, b: seq<Word>, i: int, j: int)
    requires |a| <= MAX && |b| <= MAX
    requires WalkInvariant(aOut, bOut, a, b, i, j) && j < |b|
    requires i < |a| ==> a[i] != b[j] && SuffixLcs(a, b, i, j + 1) >= SuffixLcs(a, b, i + 1, j)
    ensures WalkInvariant(aOut, bOut + [Marked(FINLEX_ONLY, b[j])], a, b, i, j + 1)
  {
    if i < |a| { CellValue(a, b, i, j); }
    PushPiece(bOut, Marked(FINLEX_ONLY, b[j]));
    assert b[..j + 1] == b[..j] + [b[j]];
  }

  lemma WalkMarksA(aOut: seq<Piece>, bOut: seq<Piece>, a: seq<Word>, b: seq<Word>, i: int, j: int)
    requires |a| <= MAX && |b| <= MAX
    requires WalkInvariant(aOut, bOut, a, b, i, j) && i < |a|
    requires j < |b| ==> a[i] != b[j] && SuffixLcs(a, b, i, j + 1) < SuffixLcs(a, b, i + 1, j)
    ensures WalkInvariant(aOut + [Marked(SOURCE_ONLY, a[i])], bOut, a, b, i + 1, j)
  {
    if j < |b| { CellValue(a, b, i, j); }
    PushPiece(aOut, Marked(SOURCE_ONLY, a[i]));
    assert a[..i + 1] == a[..i] + [a[i]];
  }

  // A word of a is kept exactly when some longest common subsequence continues with it.
  ghost predicate EarliestKept(aOut: seq<Piece>, a: seq<Word>, b: seq<Word>) {
    forall p :: 0 <= p < |aOut| ==> (aOut[p].Kept? <==> Continues(Unmarked(aOut[..p]) + [aOut[p].word], a, b))
  }

  ghost predicate Continues(s: seq<Word>, a: seq<Word>, b: seq<Word>) {
    exists t :: LongestCommon(t, a, b) && s <= t
  }

  lemma {:induction false} LcsIsReached(a: seq<Word>, b: seq<Word>) returns (s: seq<Word>)
    ensures Common(s, a, b) && |s| == Lcs(a, b)
    decreases |a| + |b|
  {
    if a == [] || b == [] {
      s := [];
    } else if a[0] == b[0] {
      var t := LcsIsReached(a[1..], b[1..]);
      s := [a[0]] + t;
      assert s[1..] == t;
    } else if Lcs(a[1..], b) >= Lcs(a, b[1..]) {
      s := LcsIsReached(a[1..], b);
    } else {
      s := LcsIsReached(a, b[1..]);
    }
  }

  lemma {:induction false} SubsequenceConcat(s: seq<Word>, t: seq<Word>, a: seq<Word>, k: nat)
    requires k <= |a| && Subsequence(s, a[..k]) && Subsequence(t, a[k..])
    ensures Subsequence(s + t, a)
    decreases k
  {
    if k == 0 {
      assert s + t == t && a[k..] == a;
    } else {
      assert a[1..][..k - 1] == a[..k][1..] && a[1..][k - 1..] == a[k..];
      if s == [] {
        SubsequenceConcat(s, t, a[1..], k - 1);
      } else if s[0] == a[0] && Subsequence(s[1..], a[..k][1..]) {
        SubsequenceConcat(s[1..], t, a[1..], k - 1);
        assert (s + t)[1..] == s[1..] + t;
      } else {
        SubsequenceConcat(s, t, a[1..], k - 1);
      }
    }
  }

  // Where s ends in a, when s + t is found there.
  lemma {:induction false} SubsequenceSplit(s: seq<Word>, t: seq<Word>, a: seq<Word>) returns (k: nat)
    requires Subsequence(s + t, a)
    ensures k <= |a| && Subsequence(s, a[..k]) && Subsequence(t, a[k..])
    ensures if s == [] then k == 0 else k > 0 && a[k - 1] == s[|s| - 1]
    decreases |a|
  {
    if s == [] {
      k := 0;
      assert s + t == t && a[0..] == a;
    } else if s[0] == a[0] && Subsequence((s + t)[1..], a[1..]) {
      assert (s + t)[1..] == s[1..] + t;
      var j := SubsequenceSplit(s[1..], t, a[1..]);
      k := j + 1;
      assert a[..k][1..] == a[1..][..j] && a[k..] == a[1..][j..];
    } else {
      var j := SubsequenceSplit(s, t, a[1..]);
      k := j + 1;
      assert a[..k][1..] == a[1..][..j] && a[k..] == a[1..][j..];
    }
  }

  // What a longest common subsequence that starts with the kept words has left, it finds in a
  // from i on; and no marked word was one it could have continued with.
  ghost predicate WalkEarliest(aOut: seq<Piece>, a: seq<Word>, b: seq<Word>, i: int) {
    && 0 <= i <= |a|
    && (forall t :: LongestCommon(t, a, b) && Unmarked(aOut) <= t ==> Subsequence(t[|Unmarked(aOut)|..], a[i..]))
    && forall p :: 0 <= p < |aOut| && aOut[p].Marked? ==> !Continues(Unmarked(aOut[..p]) + [aOut[p].word], a, b)
  }

  lemma OneLonger(t: seq<Word>, s: seq<Word>, w: Word)
    requires s + [w] <= t
    ensures s <= t && t[|s|] == w && t[|s|..] == [w] + t[|s| + 1..]
  {
    assert t[|s|] == (s + [w])[|s|];
    assert t[..|s|] == (s + [w])[..|s|] == s;
  }

  lemma LongerStart(t: seq<Word>, s: seq<Word>, w: Word)
    ensures s <= t && |t| > |s| && t[|s|] == w ==> s + [w] <= t
  {
    if s <= t && |t| > |s| && t[|s|] == w { assert t[..|s| + 1] == s + [w]; }
  }

  lemma RestAfter(t: seq<Word>, s: seq<Word>, a: seq<Word>, i: nat)
    requires i < |a| && s + [a[i]] <= t
    requires s <= t ==> Subsequence(t[|s|..], a[i..])
    ensures Subsequence(t[|s| + 1..], a[i + 1..])
  {
    OneLonger(t, s, a[i]);
    SubsequenceTail(t[|s|..], a[i..]);
    assert t[|s|..][1..] == t[|s| + 1..] && a[i..][1..] == a[i + 1..];
  }

  lemma KeepsEarliest(aOut: seq<Piece>, a: seq<Word>, b: seq<Word>, i: int)
    requires WalkEarliest(aOut, a, b, i) && i < |a|
    ensures WalkEarliest(aOut + [Kept(a[i])], a, b, i + 1)
  {
    var s, longer := Unmarked(aOut), Unmarked(aOut + [Kept(a[i])]);
    PushPiece(aOut, Kept(a[i]));
    assert longer == s + [a[i]] && |longer| == |s| + 1;
    forall t | LongestCommon(t, a, b) && longer <= t ensures Subsequence(t[|longer|..], a[i + 1..]) {
      RestAfter(t, s, a, i);
    }
    StillMarked(aOut, Kept(a[i]), a, b);
  }

  lemma StillMarked(aOut: seq<Piece>, x: Piece, a: seq<Word>, b: seq<Word>)
    requires forall p :: 0 <= p < |aOut| && aOut[p].Marked? ==> !Continues(Unmarked(aOut[..p]) + [aOut[p].word], a, b)
    requires x.Marked? ==> !Continues(Unmarked(aOut) + [x.word], a, b)
    ensures forall p :: 0 <= p < |aOut + [x]| && (aOut + [x])[p].Marked? ==>
      !Continues(Unmarked((aOut + [x])[..p]) + [(aOut + [x])[p].word], a, b)
  {
    var out := aOut + [x];
    forall p | 0 <= p < |out| && out[p].Marked? ensures !Continues(Unmarked(out[..p]) + [out[p].word], a, b) {
      if p < |aOut| { assert out[..p] == aOut[..p]; } else { assert out[..p] == aOut; }
    }
  }

  lemma MarksEarliest(aOut: seq<Piece>, bOut: seq<Piece>, a: seq<Word>, b: seq<Word>, i: int, j: int)
    requires |a| <= MAX && |b| <= MAX
    requires WalkInvariant(aOut, bOut, a, b, i, j) && WalkEarliest(aOut, a, b, i) && i < |a|
    requires j < |b| ==> a[i] != b[j] && SuffixLcs(a, b, i, j + 1) < SuffixLcs(a, b, i + 1, j)
    ensures WalkEarliest(aOut + [Marked(SOURCE_ONLY, a[i])], a, b, i + 1)
  {
    forall t | LongestCommon(t, a, b) ensures !(Unmarked(aOut) + [a[i]] <= t) {
      NotContinued(t, aOut, bOut, a, b, i, j);
    }
    PassesEarliest(aOut, Marked(SOURCE_ONLY, a[i]), a, b, i);
  }

  lemma PassesEarliest(aOut: seq<Piece>, x: Piece, a: seq<Word>, b: seq<Word>, i: int)
    requires WalkEarliest(aOut, a, b, i) && i < |a| && x.Marked? && x.word == a[i]
    requires !Continues(Unmarked(aOut) + [a[i]], a, b)
    ensures WalkEarliest(aOut + [x], a, b, i + 1)
  {
    var s := Unmarked(aOut);
    PushPiece(aOut, x);
    assert Unmarked(aOut + [x]) == s;
    StillMarked(aOut, x, a, b);
    forall t | LongestCommon(t, a, b) && s <= t ensures Subsequence(t[|s|..], a[i + 1..]) {
      var u := t[|s|..];
      LongerStart(t, s, a[i]);
      assert a[i..][1..] == a[i + 1..];
    }
  }

  // With a word of a to come and the kept words found early in b, there is room for one more.
  lemma ReadEarly(s: seq<Word>, a: seq<Word>, b: seq<Word>, i: nat, j: nat, k: nat)
    requires i < |a| && k <= j <= |b|
    requires Subsequence(s, a[..i]) && Subsequence(s + [a[i]], b[..k])
    ensures |s| + 1 + SuffixLcs(a, b, i + 1, j) <= Lcs(a, b)
  {
    var z := LcsIsReached(a[i + 1..], b[j..]);
    SubsequenceSnoc(s, a[..i], a[i]);
    assert a[..i] + [a[i]] == a[..i + 1];
    SubsequenceConcat(s + [a[i]], z, a, i + 1);
    assert b[..j][..k] == b[..k];
    SubsequenceConcat(s + [a[i]], [], b[..j], k);
    assert s + [a[i]] + [] == s + [a[i]];
    SubsequenceConcat(s + [a[i]], z, b, j);
    LcsBounds(s + [a[i]] + z, a, b);
  }

  lemma ReadLate(u: seq<Word>, a: seq<Word>, b: seq<Word>, i: nat, j: nat, k: nat)
    requires i < |a| && j < k <= |b| && b[k - 1] == a[i] != b[j]
    requires Subsequence(u, b[k..]) && Subsequence([a[i]] + u, a[i..])
    ensures 1 + |u| <= SuffixLcs(a, b, i, j + 1)
  {
    var v, rest := [a[i]] + u, b[j + 1..];
    assert v[1..] == u && b[k - 1..][1..] == b[k..];
    assert Subsequence(v, b[k - 1..]);
    assert rest[k - 2 - j..] == b[k - 1..];
    SubsequenceConcat([], v, rest, k - 2 - j);
    assert [] + v == v;
    LcsBounds(v, a[i..], rest);
  }

  // A word of a that is passed over continues no longest common subsequence.
  lemma NotContinued(t: seq<Word>, aOut: seq<Piece>, bOut: seq<Piece>, a: seq<Word>, b: seq<Word>, i: int, j: int)
    requires |a| <= MAX && |b| <= MAX
    requires WalkInvariant(aOut, bOut, a, b, i, j) && i < |a|
    requires j < |b| ==> a[i] != b[j] && SuffixLcs(a, b, i, j + 1) < SuffixLcs(a, b, i + 1, j)
    requires LongestCommon(t, a, b) && (Unmarked(aOut) <= t ==> Subsequence(t[|Unmarked(aOut)|..], a[i..]))
    ensures !(Unmarked(aOut) + [a[i]] <= t)
  {
    var s := Unmarked(aOut);
    LcsBounds(t, a, b);
    if j == |b| { assert b[j..] == []; }
    if s + [a[i]] <= t {
      OneLonger(t, s, a[i]);
      var u := t[|s| + 1..];
      var full := LcsIsReached(a, b);
      assert t == s + [a[i]] + u && |t| >= Lcs(a, b);
      if j < |b| {
        CellValue(a, b, i, j);
        UnmarkedIsSubsequence(aOut);
        var k := SubsequenceSplit(s + [a[i]], u, b);
        if k <= j { ReadEarly(s, a, b, i, j, k); } else { ReadLate(u, a, b, i, j, k); }
      }
    }
  }

  lemma {:induction false} UnmarkedGrows(front: seq<Piece>, rest: seq<Piece>)
    ensures Unmarked(front) <= Unmarked(front + rest)
  {
    if rest == [] {
      assert front + rest == front;
    } else {
      var r, x := rest[..|rest| - 1], rest[|rest| - 1];
      UnmarkedGrows(front, r);
      PushPiece(front + r, x);
      assert front + rest == front + r + [x];
    }
  }

  lemma KeptStarts(front: seq<Piece>, x: Piece, rest: seq<Piece>)
    requires x.Kept?
    ensures Unmarked(front) + [x.word] <= Unmarked(front + [x] + rest)
  {
    PushPiece(front, x);
    UnmarkedGrows(front + [x], rest);
  }

  lemma ContinuesBy(t: seq<Word>, s: seq<Word>, a: seq<Word>, b: seq<Word>)
    requires LongestCommon(t, a, b) && s <= t
    ensures Continues(s, a, b)
  {
  }

  lemma KeptContinues(front: seq<Piece>, x: Piece, rest: seq<Piece>, whole: seq<Piece>, a: seq<Word>, b: seq<Word>)
    requires x.Kept? && whole == front + [x] + rest && LongestCommon(Unmarked(whole), a, b)
    ensures Continues(Unmarked(front) + [x.word], a, b)
  {
    KeptStarts(front, x, rest);
    ContinuesBy(Unmarked(whole), Unmarked(front) + [x.word], a, b);
  }

  lemma Around(ps: seq<Piece>, p: nat)
    requires p < |ps|
    ensures ps == ps[..p] + [ps[p]] + ps[p + 1..]
  {
  }

  lemma EarliestIsExact(aOut: seq<Piece>, a: seq<Word>, b: seq<Word>)
    requires forall p :: 0 <= p < |aOut| && aOut[p].Marked? ==> !Continues(Unmarked(aOut[..p]) + [aOut[p].word], a, b)
    requires LongestCommon(Unmarked(aOut), a, b)
    ensures EarliestKept(aOut, a, b)
  {
    forall p | 0 <= p < |aOut| && aOut[p].Kept? ensures Continues(Unmarked(aOut[..p]) + [aOut[p].word], a, b) {
      Around(aOut, p);
      KeptContinues(aOut[..p], aOut[p], aOut[p + 1..], aOut, a, b);
    }
  }

  // The two invariants of the walk together.
  ghost predicate WalkState(aOut: seq<Piece>, bOut: seq<Piece>, a: seq<Word>, b: seq<Word>, i: int, j: int) {
    WalkInvariant(aOut, bOut, a, b, i, j) && WalkEarliest(aOut, a, b, i)
  }

  lemma StepKeeps(aOut: seq<Piece>, bOut: seq<Piece>, a: seq<Word>, b: seq<Word>, i: int, j: int)
    requires |a| <= MAX && |b| <= MAX
    requires WalkState(aOut, bOut, a, b, i, j) && i < |a| && j < |b| && a[i] == b[j]
    ensures WalkState(aOut + [Kept(a[i])], bOut + [Kept(b[j])], a, b, i + 1, j + 1)
  {
    WalkKeeps(aOut, bOut, a, b, i, j);
    KeepsEarliest(aOut, a, b, i);
  }

  lemma StepMarksA(aOut: seq<Piece>, bOut: seq<Piece>, a: seq<Word>, b: seq<Word>, i: int, j: int)
    requires |a| <= MAX && |b| <= MAX
    requires WalkState(aOut, bOut, a, b, i, j) && i < |a|
    requires j < |b| ==> a[i] != b[j] && SuffixLcs(a, b, i, j + 1) < SuffixLcs(a, b, i + 1, j)
    ensures WalkState(aOut + [Marked(SOURCE_ONLY, a[i])], bOut, a, b, i + 1, j)
  {
    WalkMarksA(aOut, bOut, a, b, i, j);
    MarksEarliest(aOut, bOut, a, b, i, j);
  }

  lemma WalkStarts(a: seq<Word>, b: seq<Word>)
    ensures WalkState([], [], a, b, 0, 0)
  {
    assert a[0..] == a && b[0..] == b;
    forall t: seq<Word> ensures t[0..] == t {}
  }

  lemma WalkEnds(aOut: seq<Piece>, bOut: seq<Piece>, a: seq<Word>, b: seq<Word>)
    requires WalkState(aOut, bOut, a, b, |a|, |b|)
    ensures OptimalDiff(aOut, bOut, a, b) && EarliestKept(aOut, a, b)
  {
    assert a[..|a|] == a && b[..|b|] == b && a[|a|..] == [];
    WalkIsOptimal(aOut, bOut, a, b);
    EarliestIsExact(aOut, a, b);
  }

  method Walk(a: seq<Word>, b: seq<Word>, dp: array2<int>) returns (aOut: seq<Piece>, bOut: seq<Piece>)
    requires dp.Length0 == |a| + 1 && dp.Length1 == |b| + 1
    requires |a| <= MAX && |b| <= MAX
    requires forall i, j :: 0 <= i <= |a| && 0 <= j <= |b| ==> dp[i, j] == SuffixLcs(a, b, i, j)
    ensures OptimalDiff(aOut, bOut, a, b) && EarliestKept(aOut, a, b)
  {
    var m, n := |a|, |b|;
    aOut, bOut := [], [];
    var i, j := 0, 0;
    WalkStarts(a, b);
    while i < m || j < n
      invariant 0 <= i <= m && 0 <= j <= n
      invariant WalkState(aOut, bOut, a, b, i, j)
      decreases m - i + n - j
    {
      if i < m && j < n && a[i] == b[j] {
        StepKeeps(aOut, bOut, a, b, i, j);
        aOut := aOut + [Kept(a[i])];
        bOut := bOut + [Kept(b[j])];
        i, j := i + 1, j + 1;
      } else if j < n && (i >= m || dp[i, j + 1] >= dp[i + 1, j]) {
        WalkMarksB(aOut, bOut, a, b, i, j);
        bOut := bOut + [Marked(FINLEX_ONLY, b[j])];
        j := j + 1;
      } else {
        StepMarksA(aOut, bOut, a, b, i, j);
        aOut := aOut + [Marked(SOURCE_ONLY, a[i])];
        i := i + 1;
      }
    }
    WalkEnds(aOut, bOut, a, b);
  }

  // ---------------------------------------------------------------- escaping

  // s.replace(/c/g, r)
  function ReplaceAll(s: string, c: char, r: string): string {
    if s == "" then "" else (if s[0] == c then r else [s[0]]) + ReplaceAll(s[1..], c, r)
  }

  function Esc(s: string): string {
    ReplaceAll(ReplaceAll(ReplaceAll(ReplaceAll(s, '&', "&amp;"), '<', "&lt;"), '>', "&gt;"), '"', "&quot;")
  }

  function Entity(c: char): string {
    if c == '&' then "&amp;"
    else if c == '<' then "&lt;"
    else if c == '>' then "&gt;"
    else if c == '"' then "&quot;"
    else [c]
  }

  // Every character on its own, in one pass.
  function EscOnePass(s: string): string {
    if s == "" then "" else Entity(s[0]) + EscOnePass(s[1..])
  }

  lemma {:induction false} ReplaceConcat(s: string, t: string, c: char, r: string)
    ensures ReplaceAll(s + t, c, r) == ReplaceAll(s, c, r) + ReplaceAll(t, c, r)
  {
    if s == "" {
      assert s + t == t;
    } else {
      assert (s + t)[1..] == s[1..] + t;
      ReplaceConcat(s[1..], t, c, r);
    }
  }

  lemma {:induction false} ReplaceNothing(s: string, c: char, r: string)
    requires c !in s
    ensures ReplaceAll(s, c, r) == s
  {
    if s != "" {
      assert s == [s[0]] + s[1..];
      ReplaceNothing(s[1..], c, r);
    }
  }

  lemma ReplaceOne(c: char, d: char, r: string)
    ensures ReplaceAll([c], d, r) == if c == d then r else [c]
  {
    assert [c][1..] == "";
    assert ReplaceAll("", d, r) == "";
  }

  // Four passes over one character, when no pass meets what an earlier one put in.
  lemma FourPasses(c: char, amp: string, lt: string, gt: string, quot: string)
    requires '<' !in amp && '>' !in amp && '"' !in amp && '>' !in lt && '"' !in lt && '"' !in gt
    ensures ReplaceAll(ReplaceAll(ReplaceAll(ReplaceAll([c], '&', amp), '<', lt), '>', gt), '"', quot) ==
      if c == '&' then amp else if c == '<' then lt else if c == '>' then gt else if c == '"' then quot else [c]
  {
    ReplaceOne(c, '&', amp);
    ReplaceOne(c, '<', lt);
    ReplaceOne(c, '>', gt);
    ReplaceOne(c, '"', quot);
    ReplaceNothing(amp, '<', lt);
    ReplaceNothing(amp, '>', gt);
    ReplaceNothing(amp, '"', quot);
    ReplaceNothing(lt, '>', gt);
    ReplaceNothing(lt, '"', quot);
    ReplaceNothing(gt, '"', quot);
  }

  lemma EscOneChar(c: char)
    ensures Esc([c]) == Entity(c)
  {
    FourPasses(c, "&amp;", "&lt;", "&gt;", "&quot;");
  }

  // The four passes do what one pass over the characters does.
  lemma {:induction false} EscIsOnePass(s: string)
    ensures Esc(s) == EscOnePass(s)
  {
    if s != "" {
      assert s == [s[0]] + s[1..];
      EscConcat([s[0]], s[1..]);
      EscOneChar(s[0]);
      EscIsOnePass(s[1..]);
    }
  }

  lemma EscConcat(s: string, t: string)
    ensures Esc(s + t) == Esc(s) + Esc(t)
  {
    ReplaceConcat(s, t, '&', "&amp;");
    var s1, t1 := ReplaceAll(s, '&', "&amp;"), ReplaceAll(t, '&', "&amp;");
    ReplaceConcat(s1, t1, '<', "&lt;");
    var s2, t2 := ReplaceAll(s1, '<', "&lt;"), ReplaceAll(t1, '<', "&lt;");
    ReplaceConcat(s2, t2, '>', "&gt;");
    ReplaceConcat(ReplaceAll(s2, '>', "&gt;"), ReplaceAll(t2, '>', "&gt;"), '"', "&quot;");
  }

  // ---------------------------------------------------------------- reading HTML back

  // A character of the text shown, and the class of the span it stands in ("" outside all spans).
  datatype Glyph = Glyph(c: char, cls: string)

  // What is left of h after the next '>'.
  function AfterTag(h: string): (rest: string)
    ensures |rest| <= |h|
    ensures h != "" ==> |rest| < |h|
  {
    if h == "" then "" else if h[0] == '>' then h[1..] else AfterTag(h[1..])
  }

  function UpToQuote(s: string): string {
    if s == "" || s[0] == '"' then "" else [s[0]] + UpToQuote(s[1..])
  }

  // The class of the span a tag opens; any other tag leaves the span.
  function TagClass(h: string): string {
    if "<span class=\"" <= h then UpToQuote(h[13..]) else ""
  }

  // What a reader sees of h inside a span of class cls: tags dropped, the four entities decoded.
  function Glyphs(h: string, cls: string): seq<Glyph>
    decreases |h|
  {
    if h == "" then []
    else if h[0] == '<' then Glyphs(AfterTag(h), TagClass(h))
    else if "&amp;" <= h then [Glyph('&', cls)] + Glyphs(h[5..], cls)
    else if "&lt;" <= h then [Glyph('<', cls)] + Glyphs(h[4..], cls)
    else if "&gt;" <= h then [Glyph('>', cls)] + Glyphs(h[4..], cls)
    else if "&quot;" <= h then [Glyph('"', cls)] + Glyphs(h[6..], cls)
    else [Glyph(h[0], cls)] + Glyphs(h[1..], cls)
  }

  function Chars(gs: seq<Glyph>): string {
    if gs == [] then "" else [gs[0].c] + Chars(gs[1..])
  }

  function CharsUnder(gs: seq<Glyph>, cls: string): string {
    if gs == [] then "" else (if gs[0].cls == cls then [gs[0].c] else "") + CharsUnder(gs[1..], cls)
  }

  // The whole text of a piece of HTML, and the part of it in spans of one class.
  function TextOf(h: string): string {
    Chars(Glyphs(h, ""))
  }

  function TextUnder(h: string, cls: string): string {
    CharsUnder(Glyphs(h, ""), cls)
  }

  // The text s in a span of class cls.
  function Shown(s: string, cls: string): seq<Glyph> {
    if s == "" then [] else [Glyph(s[0], cls)] + Shown(s[1..], cls)
  }

  lemma {:induction false} CharsConcat(x: seq<Glyph>, y: seq<Glyph>)
    ensures Chars(x + y) == Chars(x) + Chars(y)
  {
    if x == [] {
      assert x + y == y;
    } else {
      assert (x + y)[1..] == x[1..] + y;
      CharsConcat(x[1..], y);
    }
  }

  lemma {:induction false} CharsUnderConcat(x: seq<Glyph>, y: seq<Glyph>, cls: string)
    ensures CharsUnder(x + y, cls) == CharsUnder(x, cls) + CharsUnder(y, cls)
  {
    var z, first := x + y, if x != [] && x[0].cls == cls then [x[0].c] else "";
    if x == [] {
      assert z == y;
    } else {
      assert z[1..] == x[1..] + y;
      CharsUnderConcat(x[1..], y, cls);
      var s, t := CharsUnder(x[1..], cls), CharsUnder(y, cls);
      assert CharsUnder(x, cls) == first + s && CharsUnder(z, cls) == first + (s + t);
      assert first + (s + t) == first + s + t;
    }
  }

  lemma {:induction false} CharsShown(s: string, cls: string, other: string)
    ensures Chars(Shown(s, cls)) == s
    ensures CharsUnder(Shown(s, cls), other) == if cls == other then s else ""
  {
    if s != "" {
      assert s == [s[0]] + s[1..];
      assert Shown(s, cls)[1..] == Shown(s[1..], cls);
      CharsShown(s[1..], cls, other);
    }
  }

  lemma GlyphsOfEntity(c: char, rest: string, cls: string)
    ensures Glyphs(Entity(c) + rest, cls) == [Glyph(c, cls)] + Glyphs(rest, cls)
  {
    var h := Entity(c) + rest;
    assert h[|Entity(c)|..] == rest;
    if c == '&' { assert "&amp;" <= h; }
    else if c == '<' { assert "&lt;" <= h; assert h[1] == 'l'; }
    else if c == '>' { assert "&gt;" <= h; assert h[1] == 'g'; }
    else if c == '"' { assert "&quot;" <= h; assert h[1] == 'q'; }
  }

  lemma {:induction false} GlyphsOfEscOnePass(s: string, rest: string, cls: string)
    ensures Glyphs(EscOnePass(s) + rest, cls) == Shown(s, cls) + Glyphs(rest, cls)
  {
    if s == "" {
      assert EscOnePass(s) + rest == rest;
    } else {
      GlyphsOfEscOnePass(s[1..], rest, cls);
      GlyphsOfCons(s[0], EscOnePass(s[1..]), rest, cls, Shown(s[1..], cls));
    }
  }

  lemma GlyphsOfCons(c: char, e: string, rest: string, cls: string, shown: seq<Glyph>)
    requires Glyphs(e + rest, cls) == shown + Glyphs(rest, cls)
    ensures Glyphs(Entity(c) + e + rest, cls) == [Glyph(c, cls)] + shown + Glyphs(rest, cls)
  {
    var t := Glyphs(rest, cls);
    GlyphsOfEntity(c, e + rest, cls);
    assert Entity(c) + e + rest == Entity(c) + (e + rest);
    assert [Glyph(c, cls)] + shown + t == [Glyph(c, cls)] + (shown + t);
  }

  // Decoding undoes escaping, whatever HTML follows and whatever span it stands in.
  lemma GlyphsOfEsc(s: string, rest: string, cls: string)
    ensures Glyphs(Esc(s) + rest, cls) == Shown(s, cls) + Glyphs(rest, cls)
  {
    EscIsOnePass(s);
    GlyphsOfEscOnePass(s, rest, cls);
  }

  lemma TextOfEscaped(s: string, cls: string)
    ensures TextOf(Esc(s)) == s
    ensures TextUnder(Esc(s), cls) == if cls == "" then s else ""
  {
    GlyphsOfEsc(s, "", "");
    assert Esc(s) + "" == Esc(s);
    assert Glyphs("", "") == [] && Shown(s, "") + [] == Shown(s, "");
    CharsShown(s, "", cls);
  }

  lemma EscIsInjective(s: string, t: string)
    requires Esc(s) == Esc(t)
    ensures s == t
  {
    TextOfEscaped(s, "");
    TextOfEscaped(t, "");
  }

  // Escaped text opens and closes nothing: no tag, no attribute value.
  lemma EscIsPlain(s: string)
    ensures '<' !in Esc(s) && '>' !in Esc(s) && '"' !in Esc(s)
  {
    EscIsOnePass(s);
    OnePassIsPlain(s);
  }

  lemma {:induction false} OnePassIsPlain(s: string)
    ensures '<' !in EscOnePass(s) && '>' !in EscOnePass(s) && '"' !in EscOnePass(s)
  {
    if s != "" { OnePassIsPlain(s[1..]); }
  }

  function Render(p: Piece): string {
    match p
    case Kept(w) => Esc(w)
    case Marked(cls, w) => "<span class=\"" + cls + "\">" + Esc(w) + "</span>"
  }

  // out.join('')
  function Join(ps: seq<Piece>): string {
    if ps == [] then "" else Render(ps[0]) + Join(ps[1..])
  }

  // The concatenation of the words: what split(/(\s+)/) cuts a text into.
  function Concat(ws: seq<Word>): string {
    if ws == [] then "" else ws[0] + Concat(ws[1..])
  }

  lemma {:induction false} AfterTagSkips(s: string, rest: string)
    requires '>' !in s
    ensures AfterTag(s + ">" + rest) == rest
  {
    var h := s + ">" + rest;
    if s == "" {
      assert h[1..] == rest;
    } else {
      assert h[0] == s[0] && s[0] in s;
      assert h[1..] == s[1..] + ">" + rest;
      AfterTagSkips(s[1..], rest);
    }
  }

  lemma GlyphsOfTag(tag: string, rest: string, cls: string)
    requires '>' !in tag
    ensures Glyphs("<" + tag + ">" + rest, cls) == Glyphs(rest, TagClass("<" + tag + ">" + rest))
  {
    var h := "<" + tag + ">" + rest;
    assert h == ("<" + tag) + ">" + rest;
    AfterTagSkips("<" + tag, rest);
  }

  lemma {:induction false} UpToFirstQuote(s: string, rest: string)
    requires '"' !in s
    ensures UpToQuote(s + "\"" + rest) == s
  {
    var h := s + "\"" + rest;
    if s != "" {
      assert h[0] == s[0] && s[0] in s;
      assert h[1..] == s[1..] + "\"" + rest;
      UpToFirstQuote(s[1..], rest);
    }
  }

  lemma OpeningClass(cls: string, rest: string)
    requires '"' !in cls
    ensures TagClass("<" + ("span class=\"" + cls + "\"") + ">" + rest) == cls
  {
    var h := "<" + ("span class=\"" + cls + "\"") + ">" + rest;
    var t := ">" + rest;
    assert h == "<span class=\"" + (cls + "\"" + t);
    assert h[13..] == cls + "\"" + t;
    UpToFirstQuote(cls, t);
  }

  lemma ClosingClass(rest: string)
    ensures TagClass("<" + "/span" + ">" + rest) == ""
  {
    var h := "<" + "/span" + ">" + rest;
    assert h[1] == '/' && "<span class=\""[1] == 's';
  }

  // The class of the span a fragment's word stands in.
  function ClassOf(p: Piece): string {
    match p
    case Kept(_) => ""
    case Marked(cls, _) => cls
  }

  lemma GlyphsOfPiece(p: Piece, rest: string)
    requires '>' !in ClassOf(p) && '"' !in ClassOf(p)
    ensures Glyphs(Render(p) + rest, "") == Shown(p.word, ClassOf(p)) + Glyphs(rest, "")
  {
    match p
    case Kept(w) => GlyphsOfEsc(w, rest, "");
    case Marked(cls, w) =>
      var close := "<" + "/span" + ">" + rest;
      var open := "span class=\"" + cls + "\"";
      SpanShape(cls, Esc(w), rest);
      GlyphsOfTag(open, Esc(w) + close, "");
      OpeningClass(cls, Esc(w) + close);
      GlyphsOfEsc(w, close, cls);
      GlyphsOfTag("/span", rest, cls);
      ClosingClass(rest);
  }

  lemma SpanShape(cls: string, body: string, rest: string)
    ensures "<span class=\"" + cls + "\">" + body + "</span>" + rest ==
      "<" + ("span class=\"" + cls + "\"") + ">" + (body + ("<" + "/span" + ">" + rest))
  {
    assert "<span class=\"" == "<" + "span class=\"";
    assert "\">" == "\"" + ">";
    assert "</span>" == "<" + "/span" + ">";
  }

  // The fragments' words, each in its span.
  function AllShown(ps: seq<Piece>): seq<Glyph> {
    if ps == [] then [] else Shown(ps[0].word, ClassOf(ps[0])) + AllShown(ps[1..])
  }

  // The words that are highlighted.
  ghost function Highlighted(ps: seq<Piece>): seq<Word> {
    if ps == [] then []
    else Highlighted(ps[..|ps| - 1]) + (if ps[|ps| - 1].Marked? then [ps[|ps| - 1].word] else [])
  }

  lemma {:induction false} WordsHead(ps: seq<Piece>)
    requires ps != []
    ensures Words(ps) == [ps[0].word] + Words(ps[1..])
  {
    if |ps| > 1 {
      var front := ps[..|ps| - 1];
      WordsHead(front);
      assert front[1..] == ps[1..][..|ps| - 2];
    }
  }

  lemma {:induction false} UnmarkedHead(ps: seq<Piece>)
    requires ps != []
    ensures Unmarked(ps) == (if ps[0].Kept? then [ps[0].word] else []) + Unmarked(ps[1..])
  {
    if |ps| > 1 {
      var front := ps[..|ps| - 1];
      UnmarkedHead(front);
      assert front[1..] == ps[1..][..|ps| - 2];
    }
  }

  lemma {:induction false} HighlightedHead(ps: seq<Piece>)
    requires ps != []
    ensures Highlighted(ps) == (if ps[0].Marked? then [ps[0].word] else []) + Highlighted(ps[1..])
  {
    if |ps| > 1 {
      var front := ps[..|ps| - 1];
      HighlightedHead(front);
      assert front[1..] == ps[1..][..|ps| - 2];
    }
  }

  // A side of the diff, read back: every word in its place and in its span.
  lemma {:induction false} JoinShows(ps: seq<Piece>, cls: string)
    requires MarksOnly(ps, cls) && '>' !in cls && '"' !in cls
    ensures Glyphs(Join(ps), "") == AllShown(ps)
  {
    if ps != [] {
      assert ps[0] in ps;
      assert MarksOnly(ps[1..], cls);
      GlyphsOfPiece(ps[0], Join(ps[1..]));
      JoinShows(ps[1..], cls);
    }
  }

  lemma {:induction false} ShownWords(ps: seq<Piece>)
    ensures Chars(AllShown(ps)) == Concat(Words(ps))
  {
    if ps != [] {
      var p, rest := ps[0], ps[1..];
      ShownWords(rest);
      WordsHead(ps);
      CharsConcat(Shown(p.word, ClassOf(p)), AllShown(rest));
      CharsShown(p.word, ClassOf(p), "");
      ConcatHead(p.word, Words(rest));
    }
  }

  // Of one head and the rest, what stands in spans of class cls.
  lemma ShownHead(ps: seq<Piece>, cls: string)
    requires ps != []
    ensures CharsUnder(AllShown(ps), cls) ==
      (if ClassOf(ps[0]) == cls then ps[0].word else "") + CharsUnder(AllShown(ps[1..]), cls)
  {
    CharsUnderConcat(Shown(ps[0].word, ClassOf(ps[0])), AllShown(ps[1..]), cls);
    CharsShown(ps[0].word, ClassOf(ps[0]), cls);
  }

  lemma {:induction false} ShownUnmarked(ps: seq<Piece>, cls: string)
    requires MarksOnly(ps, cls) && cls != ""
    ensures CharsUnder(AllShown(ps), "") == Concat(Unmarked(ps))
  {
    if ps != [] {
      var p, rest := ps[0], ps[1..];
      assert p in ps;
      assert MarksOnly(rest, cls);
      ShownUnmarked(rest, cls);
      ShownHead(ps, "");
      UnmarkedHead(ps);
      ConcatHead(p.word, Unmarked(rest));
      NothingBefore(Unmarked(rest));
    }
  }

  lemma {:induction false} ShownHighlighted(ps: seq<Piece>, cls: string)
    requires MarksOnly(ps, cls) && cls != ""
    ensures CharsUnder(AllShown(ps), cls) == Concat(Highlighted(ps))
  {
    if ps != [] {
      var p, rest := ps[0], ps[1..];
      assert p in ps;
      assert MarksOnly(rest, cls);
      ShownHighlighted(rest, cls);
      ShownHead(ps, cls);
      HighlightedHead(ps);
      ConcatHead(p.word, Highlighted(rest));
      NothingBefore(Highlighted(rest));
    }
  }

  lemma ConcatHead(w: Word, ws: seq<Word>)
    ensures Concat([w] + ws) == w + Concat(ws)
  {
    assert ([w] + ws)[1..] == ws;
  }

  lemma NothingBefore(ws: seq<Word>)
    ensures [] + ws == ws && "" + Concat(ws) == Concat(ws)
  {
  }

  // The text is the words, the highlighted part the marked words, the rest the others.
  lemma JoinReadsBack(ps: seq<Piece>, cls: string)
    requires MarksOnly(ps, cls) && '>' !in cls && '"' !in cls && cls != ""
    ensures TextOf(Join(ps)) == Concat(Words(ps))
    ensures TextUnder(Join(ps), cls) == Concat(Highlighted(ps))
    ensures TextUnder(Join(ps), "") == Concat(Unmarked(ps))
  {
    JoinShows(ps, cls);
    ShownWords(ps);
    ShownHighlighted(ps, cls);
    ShownUnmarked(ps, cls);
  }

  // ---------------------------------------------------------------- wordDiff

  // html shows the text, with exactly the marked fragments' words in spans of class cls.
  ghost predicate Shows(html: string, ps: seq<Piece>, cls: string) {
    && TextUnder(html, cls) == Concat(Highlighted(ps))
    && TextUnder(html, "") == Concat(Unmarked(ps))
    && Glyphs(html, "") == AllShown(ps)
  }

  method Diff(aText: string, bText: string, aWords: seq<Word>, bWords: seq<Word>)
    returns (aHtml: string, bHtml: string, ghost aOut: seq<Piece>, ghost bOut: seq<Piece>)
    requires Concat(aWords) == aText && Concat(bWords) == bText
    ensures TextOf(aHtml) == aText && TextOf(bHtml) == bText
    ensures |aWords| <= 400 && |bWords| <= 400 ==>
      && OptimalDiff(aOut, bOut, aWords, bWords) && EarliestKept(aOut, aWords, bWords)
      && Shows(aHtml, aOut, "source-only") && Shows(bHtml, bOut, "finlex-only")
    ensures |aWords| > 400 || |bWords| > 400 ==> TextUnder(aHtml, "") == aText && TextUnder(bHtml, "") == bText
  {
    if |aWords| > MAX || |bWords| > MAX {
      TextOfEscaped(aText, "");
      TextOfEscaped(bText, "");
      aHtml, bHtml, aOut, bOut := Esc(aText), Esc(bText), [], [];
    } else {
      aHtml, bHtml, aOut, bOut := MarkedDiff(aWords, bWords);
    }
  }

  // Within the limit: the table, the walk, and the joined fragments.
  method MarkedDiff(aWords: seq<Word>, bWords: seq<Word>)
    returns (aHtml: string, bHtml: string, ghost aOut: seq<Piece>, ghost bOut: seq<Piece>)
    requires |aWords| <= MAX && |bWords| <= MAX
    ensures OptimalDiff(aOut, bOut, aWords, bWords) && EarliestKept(aOut, aWords, bWords)
    ensures TextOf(aHtml) == Concat(aWords) && Shows(aHtml, aOut, SOURCE_ONLY)
    ensures TextOf(bHtml) == Concat(bWords) && Shows(bHtml, bOut, FINLEX_ONLY)
  {
    var dp := FillTable(aWords, bWords);
    var aPieces, bPieces := Walk(aWords, bWords, dp);
    SidesShow(aPieces, bPieces, aWords, bWords);
    aHtml, bHtml, aOut, bOut := Join(aPieces), Join(bPieces), aPieces, bPieces;
  }

  lemma SidesShow(aOut: seq<Piece>, bOut: seq<Piece>, a: seq<Word>, b: seq<Word>)
    requires OptimalDiff(aOut, bOut, a, b)
    ensures TextOf(Join(aOut)) == Concat(a) && Shows(Join(aOut), aOut, SOURCE_ONLY)
    ensures TextOf(Join(bOut)) == Concat(b) && Shows(Join(bOut), bOut, FINLEX_ONLY)
  {
    ClassesArePlain();
    SideShows(aOut, SOURCE_ONLY);
    SideShows(bOut, FINLEX_ONLY);
  }

  predicate PlainClass(cls: string) {
    '>' !in cls && '"' !in cls && cls != ""
  }

  lemma ClassesArePlain()
    ensures PlainClass(SOURCE_ONLY) && PlainClass(FINLEX_ONLY)
  {
  }

  lemma SideShows(ps: seq<Piece>, cls: string)
    requires MarksOnly(ps, cls) && PlainClass(cls)
    ensures TextOf(Join(ps)) == Concat(Words(ps)) && Shows(Join(ps), ps, cls)
  {
    JoinShows(ps, cls);
    JoinReadsBack(ps, cls);
  }
}
