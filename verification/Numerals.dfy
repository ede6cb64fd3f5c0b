// How zero-filled numerals of any width compare as strings.

module Numerals {
  import opened Ordering
  import opened Text

  lemma {:induction false} Pow10Positive(w: nat)
    ensures Pow10(w) >= 1
  {
    if w > 0 { Pow10Positive(w - 1); }
  }

  lemma {:induction false} Pow10Grows(v: nat, w: nat)
    requires v <= w
    ensures Pow10(v) <= Pow10(w)
  {
    if v < w {
      Pow10Grows(v, w - 1);
      Pow10Positive(w - 1);
    }
  }

  // ---------------------------------------------------------------- leading digits

  // n without its last d digits.
  function Leading(n: nat, d: nat): nat {
    if d == 0 then n else Leading(n / 10, d - 1)
  }

  lemma TimesAtLeast(p: nat, d: int)
    ensures d >= 1 ==> p * d >= p
    ensures d <= -1 ==> p * d + p <= 0
  {
  }

  lemma QuotientIs(n: nat, p: nat, q: nat, r: nat)
    requires n == p * q + r && r < p
    ensures n / p == q
  {
    var d := n / p - q;
    assert p * (n / p) <= n < p * (n / p) + p;
    assert p * (n / p) == p * q + p * d;
    TimesAtLeast(p, d);
  }

  // Dividing by ten and then by p.
  lemma DivTwice(n: nat, p: nat)
    requires p > 0
    ensures n / 10 / p == n / (10 * p)
  {
    var q, r := n / (10 * p), n % (10 * p);
    var pq := p * q;
    assert 10 * p * q == 10 * pq;
    assert n == 10 * pq + r;
    assert n / 10 == pq + r / 10 && r / 10 < p;
    QuotientIs(n / 10, p, q, r / 10);
  }

  lemma {:induction false} LeadingIsQuotient(n: nat, d: nat)
    ensures Pow10(d) > 0 && Leading(n, d) == n / Pow10(d)
  {
    Pow10Positive(d);
    if d > 0 {
      LeadingIsQuotient(n / 10, d - 1);
      DivTwice(n, Pow10(d - 1));
    }
  }

  lemma {:induction false} LeadingFits(n: nat, a: nat, d: nat)
    requires n < Pow10(a + d)
    ensures Leading(n, d) < Pow10(a)
    decreases d
  {
    if d > 0 { LeadingFits(n / 10, a, d - 1); }
  }

  // The last a + d digits are those of the leading number, and the last d.
  lemma {:induction false} FixedCut(n: nat, a: nat, d: nat)
    ensures Fixed(n, a + d) == Fixed(Leading(n, d), a) + Fixed(n, d)
    decreases d
  {
    if d == 0 {
      assert Fixed(n, a) + "" == Fixed(n, a);
    } else {
      FixedCut(n / 10, a, d - 1);
      var c := [Digit(n % 10)];
      assert Fixed(n, a + d) == Fixed(n / 10, a + d - 1) + c && Fixed(n, d) == Fixed(n / 10, d - 1) + c;
    }
  }

  lemma {:induction false} FixedHead(n: nat, w: nat)
    requires w > 0
    ensures Fixed(n, w) != "" && IsDigit(Fixed(n, w)[0])
  {
    if w > 1 { FixedHead(n / 10, w - 1); }
  }

  // ---------------------------------------------------------------- what a padded numeral shows

  lemma {:induction false} DecimalWidth(n: nat)
    ensures |Decimal(n)| >= 1 && n < Pow10(|Decimal(n)|)
    ensures |Decimal(n)| > 1 ==> n >= Pow10(|Decimal(n)| - 1)
  {
    assert Pow10(1) == 10 * Pow10(0);
    if n >= 10 {
      DecimalWidth(n / 10);
      var w := |Decimal(n / 10)|;
      assert |Decimal(n)| == w + 1 && Pow10(w + 1) == 10 * Pow10(w);
      assert w > 1 ==> Pow10(w) == 10 * Pow10(w - 1);
    }
  }

  // The last digits of its number, and all of it.
  lemma PaddedShows(n: nat, w: nat)
    requires w > 0
    ensures
      var v := |Padded(n, w)|;
      v >= w && n < Pow10(v) && Padded(n, w) == Fixed(n, v) && (v > w ==> n >= Pow10(v - 1))
  {
    DecimalWidth(n);
    var v := |Decimal(n)|;
    if v > w {
      PaddedIsFixed(n, v);
    } else {
      Pow10Grows(v, w);
      PaddedIsFixed(n, w);
    }
  }

  // The wider numeral shows the greater number.
  lemma WiderIsGreater(m: nat, n: nat, w: nat)
    requires w > 0 && |Padded(m, w)| < |Padded(n, w)|
    ensures m < n
  {
    PaddedShows(m, w);
    PaddedShows(n, w);
    Pow10Grows(|Padded(m, w)|, |Padded(n, w)| - 1);
  }

  // ---------------------------------------------------------------- fields of a key

  // How a padded numeral with a colon behind it compares with another one, when `rest` says
  // how what follows the colons compares.
  predicate FieldLt(m: nat, n: nat, w: nat, rest: bool) {
    var v, u := |Padded(m, w)|, |Padded(n, w)|;
    Pow10Positive(if v < u then u - v else v - u);
    if v == u then m < n || (m == n && rest)
    else if v < u then m < n / Pow10(u - v)
    else m / Pow10(v - u) <= n
  }

  function Field(numeral: string, rest: string): string {
    numeral + (":" + rest)
  }

  lemma LexHead(c: char, x: string, d: char, y: string)
    ensures LexLt([c] + x, [d] + y) <==> c < d || (c == d && LexLt(x, y))
  {
    assert ([c] + x)[1..] == x && ([d] + y)[1..] == y;
  }

  lemma SameWidth(a: string, b: string, x: string, y: string)
    requires |a| == |b|
    ensures LexLt(Field(a, x), Field(b, y)) <==> LexLt(a, b) || (a == b && LexLt(x, y))
  {
    LexConcat(a, b, ":" + x, ":" + y);
    LexHead(':', x, ':', y);
  }

  // A colon is greater than any digit.
  lemma ColonAgainstDigit(a: string, b: string, tail: string, x: string, y: string)
    requires |a| == |b| && tail != "" && IsDigit(tail[0])
    ensures LexLt(Field(a, x), Field(b + tail, y)) <==> LexLt(a, b)
    ensures LexLt(Field(b + tail, y), Field(a, x)) <==> LexLt(b, a) || a == b
  {
    var colon, z := ":" + x, tail + (":" + y);
    assert Field(b + tail, y) == b + z;
    assert z[0] == tail[0] && colon[0] == ':';
    FirstDecides(colon, z);
    FirstDecides(z, colon);
    LexConcat(a, b, colon, z);
    LexConcat(b, a, z, colon);
  }

  lemma FirstDecides(x: string, y: string)
    requires x != "" && y != "" && x[0] != y[0]
    ensures LexLt(x, y) <==> x[0] < y[0]
  {
  }

  // A narrower numeral is compared with the leading digits of a wider one.
  lemma Narrower(m: nat, n: nat, v: nat, d: nat, x: string, y: string)
    requires m < Pow10(v) && n < Pow10(v + d) && d > 0
    ensures LexLt(Field(Fixed(m, v), x), Field(Fixed(n, v + d), y)) <==> m < Leading(n, d)
    ensures LexLt(Field(Fixed(n, v + d), y), Field(Fixed(m, v), x)) <==> Leading(n, d) <= m
  {
    FixedCut(n, v, d);
    FixedHead(n, d);
    LeadingFits(n, v, d);
    FixedOrder(m, Leading(n, d), v);
    FixedOrder(Leading(n, d), m, v);
    ColonAgainstDigit(Fixed(m, v), Fixed(Leading(n, d), v), Fixed(n, d), x, y);
  }

  // Any two numerals, whatever their widths.
  lemma FieldOrder(m: nat, n: nat, w: nat, x: string, y: string)
    requires w > 0
    ensures LexLt(Field(Padded(m, w), x), Field(Padded(n, w), y)) <==> FieldLt(m, n, w, LexLt(x, y))
  {
    PaddedShows(m, w);
    PaddedShows(n, w);
    var v, u := |Padded(m, w)|, |Padded(n, w)|;
    if v == u {
      FixedOrder(m, n, v);
      SameWidth(Padded(m, w), Padded(n, w), x, y);
    } else if v < u {
      LeadingIsQuotient(n, u - v);
      Narrower(m, n, v, u - v, x, y);
    } else {
      LeadingIsQuotient(m, v - u);
      Narrower(n, m, u, v - u, y, x);
    }
  }

  // Two numerals of one width, or the narrower one below the leading digits of the wider.
  predicate FieldAgrees(m: nat, n: nat, w: nat) {
    var v, u := |Padded(m, w)|, |Padded(n, w)|;
    Pow10Positive(if v < u then u - v else v - u);
    v == u || (v < u && m < n / Pow10(u - v)) || (v > u && n < m / Pow10(v - u))
  }

  // When a field is compared as its number is.
  lemma FieldCases(m: nat, n: nat, w: nat, rest: bool)
    requires w > 0
    ensures m != n ==> ((FieldLt(m, n, w, rest) <==> m < n) <==> FieldAgrees(m, n, w))
    ensures m == n ==> (FieldLt(m, n, w, rest) <==> rest) && FieldAgrees(m, n, w)
  {
    if |Padded(m, w)| < |Padded(n, w)| { WiderIsGreater(m, n, w); }
    if |Padded(n, w)| < |Padded(m, w)| { WiderIsGreater(n, m, w); }
  }

  // ---------------------------------------------------------------- the greatest numeral of ten digits

  lemma Powers()
    ensures Pow10(4) == 10_000 && Pow10(10) == 10_000_000_000
  {
    assert Pow10(4) == 10_000;
    assert Pow10(7) == 1000 * Pow10(4);
    assert Pow10(10) == 1000 * Pow10(7);
  }

  lemma Nines()
    ensures Decimal(9_999_999_999) == Padded(9_999_999_999, 10) == "9999999999"
  {
    assert Decimal(9999) == "9999";
    assert Decimal(9999999) == "9999999";
    assert Decimal(9_999_999_999) == "9999999999";
  }

  // No ten leading digits exceed ten nines.
  lemma NinesAreGreatest(n: nat, rest: bool)
    ensures FieldLt(n, 9_999_999_999, 10, rest) <==> n != 9_999_999_999 || rest
  {
    Nines();
    Powers();
    PaddedShows(n, 10);
    var v := |Padded(n, 10)|;
    if v > 10 {
      LeadingFits(n, 10, v - 10);
      LeadingIsQuotient(n, v - 10);
      Pow10Grows(10, v - 1);
    }
  }

  function Zeros(k: nat): string {
    if k == 0 then "" else Zeros(k - 1) + "0"
  }

  lemma {:induction false} DecimalPower(k: nat)
    ensures Decimal(Pow10(k)) == "1" + Zeros(k)
  {
    Pow10Positive(k);
    if k == 0 {
      assert Decimal(1) == "1";
    } else {
      DecimalPower(k - 1);
      Pow10Positive(k - 1);
      assert Pow10(k) / 10 == Pow10(k - 1) && Pow10(k) % 10 == 0;
    }
  }

  lemma ElevenDigits()
    ensures Decimal(10_000_000_000) == Padded(10_000_000_000, 10) == "10000000000"
  {
    Powers();
    DecimalPower(10);
    assert Zeros(5) == "00000";
    assert Zeros(10) == "0000000000";
  }

  // The next number, of eleven digits, is compared below it.
  lemma ElevenBelowTen(rest: bool)
    ensures FieldLt(10_000_000_000, 9_999_999_999, 10, rest)
  {
    Nines();
    ElevenDigits();
    assert Pow10(1) == 10;
  }
}
