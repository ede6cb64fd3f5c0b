// Sums over finite sets of keys.

module Sums {

  ghost function Total<K>(keys: set<K>, f: K -> int): int {
    if keys == {} then 0 else var k :| k in keys; f(k) + Total(keys - {k}, f)
  }

  // Any key may be taken out first.
  lemma {:induction false} TotalWithout<K>(keys: set<K>, f: K -> int, k: K)
    requires k in keys
    ensures Total(keys, f) == f(k) + Total(keys - {k}, f)
    decreases |keys|
  {
    var first :| first in keys && Total(keys, f) == f(first) + Total(keys - {first}, f);
    if first != k {
      TotalWithout(keys - {first}, f, k);
      TotalWithout(keys - {k}, f, first);
      assert keys - {first} - {k} == keys - {k} - {first};
    }
  }

  lemma {:induction false} TotalUnion<K>(a: set<K>, b: set<K>, f: K -> int)
    requires a !! b
    ensures Total(a + b, f) == Total(a, f) + Total(b, f)
    decreases |a|
  {
    if a == {} {
      assert a + b == b;
    } else {
      var k :| k in a;
      TotalWithout(a, f, k);
      TotalWithout(a + b, f, k);
      assert a + b - {k} == (a - {k}) + b;
      TotalUnion(a - {k}, b, f);
    }
  }

  // Pointwise at most; equal exactly when pointwise equal.
  lemma {:induction false} TotalAtMost<K(!new)>(keys: set<K>, f: K -> int, g: K -> int)
    requires forall k :: k in keys ==> f(k) <= g(k)
    ensures Total(keys, f) <= Total(keys, g)
    ensures Total(keys, f) == Total(keys, g) <==> forall k :: k in keys ==> f(k) == g(k)
    decreases |keys|
  {
    if keys != {} {
      var k :| k in keys;
      TotalWithout(keys, f, k);
      TotalWithout(keys, g, k);
      TotalAtMost(keys - {k}, f, g);
    }
  }

  lemma TotalSame<K(!new)>(keys: set<K>, f: K -> int, g: K -> int)
    requires forall k :: k in keys ==> f(k) == g(k)
    ensures Total(keys, f) == Total(keys, g)
  {
    TotalAtMost(keys, f, g);
  }

  lemma {:induction false} TotalPlus<K(!new)>(keys: set<K>, f: K -> int, g: K -> int, h: K -> int)
    requires forall k :: k in keys ==> h(k) == f(k) + g(k)
    ensures Total(keys, h) == Total(keys, f) + Total(keys, g)
    decreases |keys|
  {
    if keys != {} {
      var k :| k in keys;
      TotalWithout(keys, f, k);
      TotalWithout(keys, g, k);
      TotalWithout(keys, h, k);
      TotalPlus(keys - {k}, f, g, h);
    }
  }

  lemma {:induction false} TotalConst<K(!new)>(keys: set<K>, f: K -> int, n: int)
    requires forall k :: k in keys ==> f(k) == n
    ensures Total(keys, f) == n * |keys|
    decreases |keys|
  {
    if keys != {} {
      var k :| k in keys;
      TotalWithout(keys, f, k);
      TotalConst(keys - {k}, f, n);
      assert n * |keys| == n * |keys - {k}| + n;
    }
  }

  lemma TotalSplit<K>(keys: set<K>, f: K -> int, part: set<K>)
    requires part <= keys
    ensures Total(keys, f) == Total(part, f) + Total(keys - part, f)
  {
    assert part + (keys - part) == keys;
    TotalUnion(part, keys - part, f);
  }

  // One value raised by d, its key possibly new.
  lemma TotalRaised<K(!new)>(keys: set<K>, f: K -> int, g: K -> int, k: K, d: int)
    requires g(k) == f(k) + d && (k !in keys ==> f(k) == 0)
    requires forall j :: j in keys && j != k ==> f(j) == g(j)
    ensures Total(keys + {k}, g) == Total(keys, f) + d
  {
    var rest := keys - {k};
    TotalSame(rest, f, g);
    assert keys + {k} - {k} == rest;
    TotalWithout(keys + {k}, g, k);
    if k in keys {
      TotalWithout(keys, f, k);
    } else {
      assert rest == keys;
    }
  }
}
