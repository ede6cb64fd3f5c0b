// Orders on strings and on pairs of strings, and the strictly increasing listing of a
// finite set of keys: what Python's `sorted` returns for dictionary keys and for sets.

module Ordering {

  datatype Option<+T> = None | Some(value: T)

  // Lexical order by character, shorter first: Python's (and SQLite's) string order.
  predicate LexLt(a: string, b: string) {
    b != [] && (a == [] || a[0] < b[0] || (a[0] == b[0] && LexLt(a[1..], b[1..])))
  }

  predicate PairLt(p: (string, string), q: (string, string)) {
    LexLt(p.0, q.0) || (p.0 == q.0 && LexLt(p.1, q.1))
  }

  ghost predicate StrictTotalOrder<K(!new)>(lt: (K, K) -> bool) {
    && (forall a :: !lt(a, a))
    && (forall a, b :: a != b ==> lt(a, b) || lt(b, a))
    && (forall a, b, c :: lt(a, b) && lt(b, c) ==> lt(a, c))
  }

  lemma {:induction false} LexIrreflexive(a: string)
    ensures !LexLt(a, a)
  {
    if a != [] { LexIrreflexive(a[1..]); }
  }

  lemma {:induction false} LexTotal(a: string, b: string)
    requires a != b
    ensures LexLt(a, b) || LexLt(b, a)
  {
    if a != [] && b != [] && a[0] == b[0] {
      assert a == [a[0]] + a[1..] && b == [b[0]] + b[1..];
      LexTotal(a[1..], b[1..]);
    }
  }

  lemma {:induction false} LexTransitive(a: string, b: string, c: string)
    requires LexLt(a, b) && LexLt(b, c)
    ensures LexLt(a, c)
  {
    if a != [] && a[0] == b[0] && b[0] == c[0] {
      LexTransitive(a[1..], b[1..], c[1..]);
    }
  }

  lemma LexIsOrder()
    ensures StrictTotalOrder(LexLt)
  {
    forall a ensures !LexLt(a, a) { LexIrreflexive(a); }
    forall a, b | a != b ensures LexLt(a, b) || LexLt(b, a) { LexTotal(a, b); }
    forall a, b, c | LexLt(a, b) && LexLt(b, c) ensures LexLt(a, c) { LexTransitive(a, b, c); }
  }

  lemma PairTransitive(p: (string, string), q: (string, string), r: (string, string))
    requires PairLt(p, q) && PairLt(q, r)
    ensures PairLt(p, r)
  {
    if LexLt(p.0, q.0) && LexLt(q.0, r.0) {
      LexTransitive(p.0, q.0, r.0);
    } else if p.0 == q.0 && q.0 == r.0 {
      LexTransitive(p.1, q.1, r.1);
    }
  }

  lemma PairIsOrder()
    ensures StrictTotalOrder(PairLt)
  {
    LexIsOrder();
    forall p, q, r | PairLt(p, q) && PairLt(q, r) ensures PairLt(p, r) { PairTransitive(p, q, r); }
  }

  ghost predicate Increasing<K>(lt: (K, K) -> bool, s: seq<K>) {
    forall i, j :: 0 <= i < j < |s| ==> lt(s[i], s[j])
  }

  ghost predicate Lists<K(!new)>(s: seq<K>, keys: set<K>) {
    forall k :: k in s <==> k in keys
  }

  // Takes the least remaining key until none is left.
  method SortKeys<K(!new, ==)>(keys: set<K>, lt: (K, K) -> bool) returns (out: seq<K>)
    requires StrictTotalOrder(lt)
    ensures Increasing(lt, out)
    ensures Lists(out, keys)
  {
    out := [];
    var rest := keys;
    while rest != {}
      invariant rest <= keys
      invariant Increasing(lt, out)
      invariant forall k :: k in out <==> k in keys && k !in rest
      invariant forall k, l :: k in out && l in rest ==> lt(k, l)
      decreases |rest|
    {
      var least := Least(rest, lt);
      out := out + [least];
      rest := rest - {least};
    }
  }

  method Least<K(!new, ==)>(keys: set<K>, lt: (K, K) -> bool) returns (least: K)
    requires keys != {}
    requires StrictTotalOrder(lt)
    ensures least in keys
    ensures forall k :: k in keys && k != least ==> lt(least, k)
  {
    least :| least in keys;
    var rest := keys - {least};
    while rest != {}
      invariant rest <= keys
      invariant least in keys && least !in rest
      invariant forall k :: k in keys && k !in rest && k != least ==> lt(least, k)
      decreases |rest|
    {
      var k :| k in rest;
      if lt(k, least) {
        least := k;
      }
      rest := rest - {k};
    }
  }

  // A listing has as many entries as there are keys.
  lemma {:induction false} ListingSize<K(!new)>(lt: (K, K) -> bool, s: seq<K>, keys: set<K>)
    requires StrictTotalOrder(lt) && Increasing(lt, s) && Lists(s, keys)
    ensures |s| == |keys|
  {
    if s == [] {
      assert keys == {};
    } else {
      var front, last := s[..|s| - 1], s[|s| - 1];
      assert s == front + [last];
      assert last !in front && last in keys;
      ListingSize(lt, front, keys - {last});
    }
  }

  // ---------------------------------------------------------------- list.sort(key=...)

  predicate RankLt(v: (nat, nat), w: (nat, nat)) {
    v.0 < w.0 || (v.0 == w.0 && v.1 < w.1)
  }

  // An element goes behind those of its own rank.
  function Insert<T>(rank: T -> (nat, nat), e: T, sorted: seq<T>): seq<T> {
    if sorted == [] then [e]
    else if RankLt(rank(e), rank(sorted[|sorted| - 1]))
    then Insert(rank, e, sorted[..|sorted| - 1]) + [sorted[|sorted| - 1]]
    else sorted + [e]
  }

  function SortBy<T>(rank: T -> (nat, nat), s: seq<T>): seq<T> {
    if s == [] then [] else Insert(rank, s[|s| - 1], SortBy(rank, s[..|s| - 1]))
  }

  ghost predicate Ascending<T>(rank: T -> (nat, nat), s: seq<T>) {
    forall i, j :: 0 <= i < j < |s| ==> !RankLt(rank(s[j]), rank(s[i]))
  }

  // The elements of one rank, in their order.
  ghost function OfRank<T>(rank: T -> (nat, nat), s: seq<T>, v: (nat, nat)): seq<T> {
    if s == [] then []
    else OfRank(rank, s[..|s| - 1], v) + (if rank(s[|s| - 1]) == v then [s[|s| - 1]] else [])
  }

  lemma AscendingSnoc<T>(rank: T -> (nat, nat), s: seq<T>, last: T)
    requires Ascending(rank, s)
    requires forall x :: x in multiset(s) ==> !RankLt(rank(last), rank(x))
    ensures Ascending(rank, s + [last])
  {
    var all := s + [last];
    forall i, j | 0 <= i < j < |all| ensures !RankLt(rank(all[j]), rank(all[i])) {
      if j == |s| { assert s[i] in multiset(s); }
    }
  }

  lemma LastIsGreatest<T>(rank: T -> (nat, nat), s: seq<T>, x: T)
    requires Ascending(rank, s) && x in multiset(s)
    ensures !RankLt(rank(s[|s| - 1]), rank(x))
  {
    var i :| 0 <= i < |s| && s[i] == x;
    assert i < |s| - 1 ==> !RankLt(rank(s[|s| - 1]), rank(s[i]));
  }

  lemma {:induction false} InsertKeeps<T>(rank: T -> (nat, nat), e: T, sorted: seq<T>)
    ensures multiset(Insert(rank, e, sorted)) == multiset(sorted) + multiset{e}
  {
    if sorted != [] {
      var front, last := sorted[..|sorted| - 1], sorted[|sorted| - 1];
      assert sorted == front + [last];
      InsertKeeps(rank, e, front);
    }
  }

  lemma {:induction false} InsertSorts<T>(rank: T -> (nat, nat), e: T, sorted: seq<T>)
    requires Ascending(rank, sorted)
    ensures Ascending(rank, Insert(rank, e, sorted))
  {
    if sorted != [] {
      var front, last := sorted[..|sorted| - 1], sorted[|sorted| - 1];
      assert sorted == front + [last];
      forall x | x in multiset(sorted) ensures !RankLt(rank(last), rank(x)) { LastIsGreatest(rank, sorted, x); }
      if RankLt(rank(e), rank(last)) {
        InsertSorts(rank, e, front);
        InsertKeeps(rank, e, front);
        AscendingSnoc(rank, Insert(rank, e, front), last);
      } else {
        AscendingSnoc(rank, sorted, e);
      }
    }
  }

  lemma {:induction false} InsertIsStable<T>(rank: T -> (nat, nat), e: T, sorted: seq<T>, v: (nat, nat))
    requires Ascending(rank, sorted)
    ensures OfRank(rank, Insert(rank, e, sorted), v) == OfRank(rank, sorted + [e], v)
  {
    assert (sorted + [e])[..|sorted|] == sorted;
    if sorted != [] && RankLt(rank(e), rank(sorted[|sorted| - 1])) {
      var front, last := sorted[..|sorted| - 1], sorted[|sorted| - 1];
      InsertIsStable(rank, e, front, v);
      assert (front + [e])[..|front|] == front;
      var inserted := Insert(rank, e, front);
      assert (inserted + [last])[..|inserted|] == inserted;
    }
  }

  // The sort is ascending, a permutation, and keeps the order inside every rank.
  lemma {:induction false} SortBySorts<T>(rank: T -> (nat, nat), s: seq<T>, v: (nat, nat))
    ensures Ascending(rank, SortBy(rank, s))
    ensures multiset(SortBy(rank, s)) == multiset(s)
    ensures OfRank(rank, SortBy(rank, s), v) == OfRank(rank, s, v)
  {
    if s != [] {
      var front, last := s[..|s| - 1], s[|s| - 1];
      assert s == front + [last];
      SortBySorts(rank, front, v);
      var sorted := SortBy(rank, front);
      InsertSorts(rank, last, sorted);
      InsertKeeps(rank, last, sorted);
      InsertIsStable(rank, last, sorted, v);
      assert (sorted + [last])[..|sorted|] == sorted;
    }
  }

  ghost predicate Before<T>(s: seq<T>, x: T, y: T) {
    exists p, q :: 0 <= p < q < |s| && s[p] == x && s[q] == y
  }

  lemma BeforeSnoc<T>(front: seq<T>, last: T, x: T, y: T)
    ensures Before(front + [last], x, y) <==> Before(front, x, y) || (y == last && x in front)
  {
    var s := front + [last];
    if Before(s, x, y) {
      var p, q :| 0 <= p < q < |s| && s[p] == x && s[q] == y;
      if q < |front| { assert front[p] == x && front[q] == y; } else { assert front[p] == x; }
    }
    if Before(front, x, y) {
      var p, q :| 0 <= p < q < |front| && front[p] == x && front[q] == y;
      assert s[p] == x && s[q] == y;
    }
    if y == last && x in front {
      var p :| 0 <= p < |front| && front[p] == x;
      assert s[p] == x && s[|front|] == y;
    }
  }

  // Elements of one rank stand among themselves as they stand in the whole.
  lemma {:induction false} OfRankOrder<T>(rank: T -> (nat, nat), s: seq<T>, v: (nat, nat), x: T, y: T)
    requires rank(x) == v && rank(y) == v
    ensures Before(OfRank(rank, s, v), x, y) <==> Before(s, x, y)
    ensures x in OfRank(rank, s, v) <==> x in s
  {
    if s != [] {
      var front, last := s[..|s| - 1], s[|s| - 1];
      assert s == front + [last];
      OfRankOrder(rank, front, v, x, y);
      BeforeSnoc(front, last, x, y);
      if rank(last) == v {
        BeforeSnoc(OfRank(rank, front, v), last, x, y);
        assert OfRank(rank, s, v) == OfRank(rank, front, v) + [last];
      } else {
        assert OfRank(rank, s, v) == OfRank(rank, front, v) + [];
        assert OfRank(rank, s, v) == OfRank(rank, front, v);
      }
    }
  }

  // In a sorted sequence an element stands before one of greater rank, and before one of its
  // own rank that it stood before.
  lemma SortByOrder<T>(rank: T -> (nat, nat), s: seq<T>, i: nat, j: nat)
    requires i < j < |SortBy(rank, s)|
    ensures
      var x, y := SortBy(rank, s)[i], SortBy(rank, s)[j];
      RankLt(rank(x), rank(y)) || (rank(x) == rank(y) && Before(s, x, y))
  {
    var t := SortBy(rank, s);
    var x, y := t[i], t[j];
    SortBySorts(rank, s, rank(x));
    assert !RankLt(rank(y), rank(x));
    if rank(x) == rank(y) {
      assert Before(t, x, y);
      OfRankOrder(rank, t, rank(x), x, y);
      OfRankOrder(rank, s, rank(x), x, y);
    }
  }
}
