// Cutting strings, decimal numerals, and how numerals of one width are ordered.

module Text {
  import opened Ordering

  // s up to the first c, and what follows it.
  datatype Cut = Cut(before: string, after: string) | NoCut

  function CutAt(s: string, c: char): (r: Cut)
    ensures r.Cut? ==> c !in r.before && s == r.before + [c] + r.after
    ensures r.NoCut? ==> c !in s
  {
    if s == "" then NoCut
    else if s[0] == c then Cut("", s[1..])
    else
      var r := CutAt(s[1..], c);
      if r.NoCut? then NoCut else Cut([s[0]] + r.before, r.after)
  }

  lemma {:induction false} CutAtFirst(a: string, c: char, b: string)
    requires c !in a
    ensures CutAt(a + [c] + b, c) == Cut(a, b)
  {
    var m := a + [c] + b;
    if a == "" {
      assert m[1..] == b;
    } else {
      assert m[1..] == a[1..] + [c] + b;
      assert a[0] in a;
      CutAtFirst(a[1..], c, b);
    }
  }

  // s.split(c, 1)[0]
  function Head(s: string, c: char): string {
    match CutAt(s, c)
    case NoCut => s
    case Cut(before, _) => before
  }

  // s.split(c)
  function Split(s: string, c: char): (parts: seq<string>)
    ensures parts != []
  {
    if s == "" then [""]
    else Lead(s[0], c, Split(s[1..], c))
  }

  // One character before a text cut at every c.
  function Lead(first: char, c: char, rest: seq<string>): (parts: seq<string>)
    requires rest != []
    ensures parts != []
  {
    if first == c then [""] + rest else [[first] + rest[0]] + rest[1..]
  }

  lemma LeadConcat(first: char, c: char, p: seq<string>, q: seq<string>)
    requires p != []
    ensures Lead(first, c, p + q) == Lead(first, c, p) + q
  {
  }

  // c.join(parts)
  function Join(parts: seq<string>, c: char): string {
    if parts == [] then "" else if |parts| == 1 then parts[0] else parts[0] + [c] + Join(parts[1..], c)
  }

  lemma {:induction false} JoinSplit(s: string, c: char)
    ensures Join(Split(s, c), c) == s
  {
    if s != "" {
      JoinSplit(s[1..], c);
      var rest := Split(s[1..], c);
      if s[0] == c {
        assert Split(s, c)[1..] == rest;
      } else if |rest| > 1 {
        assert Split(s, c)[1..] == rest[1..];
        assert Join(Split(s, c), c) == [s[0]] + rest[0] + [c] + Join(rest[1..], c);
      }
    }
  }

  lemma {:induction false} JoinConcat(p: seq<string>, q: seq<string>, c: char)
    requires p != [] && q != []
    ensures Join(p + q, c) == Join(p, c) + [c] + Join(q, c)
  {
    if |p| == 1 {
      assert (p + q)[1..] == q;
    } else {
      assert (p + q)[1..] == p[1..] + q;
      JoinConcat(p[1..], q, c);
      assert Join(p + q, c) == p[0] + [c] + (Join(p[1..], c) + [c] + Join(q, c));
    }
  }

  // Splitting at one more separator appends what follows it.
  lemma {:induction false} SplitAt(a: string, b: string, c: char)
    ensures Split(a + [c] + b, c) == Split(a, c) + Split(b, c)
  {
    var m := a + [c] + b;
    if a == "" {
      assert m[1..] == b;
    } else {
      assert m[1..] == a[1..] + [c] + b;
      SplitAt(a[1..], b, c);
      LeadConcat(a[0], c, Split(a[1..], c), Split(b, c));
    }
  }

  // s cut at every c: the parts hold no c and join to s.
  ghost predicate CutInto(s: string, c: char, parts: seq<string>) {
    parts != [] && (forall p :: p in parts ==> c !in p) && Join(parts, c) == s
  }

  lemma {:induction false} SplitOne(s: string, c: char)
    requires c !in s
    ensures Split(s, c) == [s]
  {
    if s != "" {
      assert s[0] in s && c !in s[1..];
      SplitOne(s[1..], c);
      assert s == [s[0]] + s[1..];
    }
  }

  lemma {:induction false} SplitJoins(parts: seq<string>, c: char)
    requires parts != [] && forall p :: p in parts ==> c !in p
    ensures Split(Join(parts, c), c) == parts
  {
    assert parts[0] in parts;
    SplitOne(parts[0], c);
    if |parts| == 1 {
      assert parts == [parts[0]];
    } else {
      SplitJoins(parts[1..], c);
      SplitAt(parts[0], Join(parts[1..], c), c);
      assert parts == [parts[0]] + parts[1..];
    }
  }

  lemma {:induction false} SplitParts(s: string, c: char)
    ensures forall p :: p in Split(s, c) ==> c !in p
  {
    if s != "" { SplitParts(s[1..], c); }
  }

  // Splitting is the only way to cut a string at every c.
  lemma SplitIsCut(s: string, c: char, parts: seq<string>)
    ensures parts == Split(s, c) <==> CutInto(s, c, parts)
  {
    SplitParts(s, c);
    JoinSplit(s, c);
    if CutInto(s, c, parts) { SplitJoins(parts, c); }
  }

  predicate IsDigit(c: char) {
    '0' <= c <= '9'
  }

  predicate AllDigits(s: string) {
    s != "" && forall c :: c in s ==> IsDigit(c)
  }

  // int(s), for a string of digits
  function Value(s: string): nat
    requires forall c :: c in s ==> IsDigit(c)
  {
    if s == "" then 0
    else
      assert IsDigit(s[|s| - 1]);
      10 * Value(s[..|s| - 1]) + (s[|s| - 1] as int - '0' as int)
  }

  function Digit(d: nat): char
    requires d < 10
  {
    ('0' as int + d) as char
  }

  // str(n)
  function Decimal(n: nat): string {
    if n < 10 then [Digit(n)] else Decimal(n / 10) + [Digit(n % 10)]
  }

  function ZeroFill(s: string, width: nat): string
    decreases width
  {
    if |s| >= width then s else "0" + ZeroFill(s, width - 1)
  }

  // f"{n:0<width>d}"
  function Padded(n: nat, width: nat): string {
    ZeroFill(Decimal(n), width)
  }

  function Pow10(w: nat): nat {
    if w == 0 then 1 else 10 * Pow10(w - 1)
  }

  // The last w digits of n.
  function Fixed(n: nat, w: nat): (s: string)
    ensures |s| == w
  {
    if w == 0 then "" else Fixed(n / 10, w - 1) + [Digit(n % 10)]
  }

  lemma {:induction false} ZeroFillSnoc(s: string, c: char, w: nat)
    requires w > 0
    ensures ZeroFill(s + [c], w) == ZeroFill(s, w - 1) + [c]
    decreases w
  {
    if |s| < w - 1 { ZeroFillSnoc(s, c, w - 1); }
  }

  lemma {:induction false} FixedZero(w: nat)
    ensures Fixed(0, w) == ZeroFill("", w)
  {
    if w > 0 {
      FixedZero(w - 1);
      assert "" + ['0'] == "0" + "";
      ZeroFillSnoc("", '0', w);
      ZerosEqual(w);
    }
  }

  lemma {:induction false} ZerosEqual(w: nat)
    requires w > 0
    ensures ZeroFill("" + ['0'], w) == ZeroFill("", w)
    decreases w
  {
    assert "" + ['0'] == "0";
    if w > 1 { ZerosEqual(w - 1); }
    else { assert ZeroFill("", 0) == "" && ZeroFill("", 1) == "0" + ZeroFill("", 0); }
  }

  lemma PaddedDigit(n: nat, w: nat)
    requires n < 10 && w > 0
    ensures Padded(n, w) == Fixed(n, w)
  {
    FixedZero(w - 1);
    assert "" + [Digit(n)] == [Digit(n)];
    ZeroFillSnoc("", Digit(n), w);
  }

  lemma PaddedNext(n: nat, w: nat)
    requires n >= 10 && w > 1 && Padded(n / 10, w - 1) == Fixed(n / 10, w - 1)
    ensures Padded(n, w) == Fixed(n, w)
  {
    ZeroFillSnoc(Decimal(n / 10), Digit(n % 10), w);
  }

  // A number that fits is its last w digits.
  lemma {:induction false} PaddedIsFixed(n: nat, w: nat)
    requires n < Pow10(w) && w > 0
    ensures Padded(n, w) == Fixed(n, w)
    decreases w
  {
    if n < 10 {
      PaddedDigit(n, w);
    } else {
      assert w > 1 && Pow10(w) == 10 * Pow10(w - 1);
      PaddedIsFixed(n / 10, w - 1);
      PaddedNext(n, w);
    }
  }

  // Behind a common width, the first difference decides.
  lemma {:induction false} LexConcat(a: string, b: string, x: string, y: string)
    requires |a| == |b|
    ensures LexLt(a + x, b + y) <==> LexLt(a, b) || (a == b && LexLt(x, y))
  {
    if a == "" {
      assert a + x == x && b + y == y;
    } else {
      assert (a + x)[1..] == a[1..] + x && (b + y)[1..] == b[1..] + y;
      assert a == [a[0]] + a[1..] && b == [b[0]] + b[1..];
      LexConcat(a[1..], b[1..], x, y);
    }
  }

  lemma {:induction false} FixedOrder(m: nat, n: nat, w: nat)
    requires m < Pow10(w) && n < Pow10(w)
    ensures LexLt(Fixed(m, w), Fixed(n, w)) <==> m < n
    ensures Fixed(m, w) == Fixed(n, w) <==> m == n
  {
    if w > 0 {
      FixedOrder(m / 10, n / 10, w - 1);
      var x, y := [Digit(m % 10)], [Digit(n % 10)];
      LexConcat(Fixed(m / 10, w - 1), Fixed(n / 10, w - 1), x, y);
      assert x[1..] == "" && y[1..] == "";
      assert LexLt(x, y) <==> m % 10 < n % 10;
      if Fixed(m, w) == Fixed(n, w) {
        assert Fixed(m, w)[..w - 1] == Fixed(m / 10, w - 1) && Fixed(n, w)[..w - 1] == Fixed(n / 10, w - 1);
        assert Fixed(m, w)[w - 1] == Digit(m % 10) && Fixed(n, w)[w - 1] == Digit(n % 10);
      }
    }
  }

  // Numerals of one fixed width are ordered as the numbers they show.
  lemma PaddedOrder(m: nat, n: nat, w: nat)
    requires m < Pow10(w) && n < Pow10(w) && w > 0
    ensures |Padded(m, w)| == |Padded(n, w)| == w
    ensures LexLt(Padded(m, w), Padded(n, w)) <==> m < n
    ensures Padded(m, w) == Padded(n, w) <==> m == n
  {
    PaddedIsFixed(m, w);
    PaddedIsFixed(n, w);
    FixedOrder(m, n, w);
  }
}
