// The sort keys of scripts/build_publication_db.py, on ASCII ids (with the Finnish letters
// the id pattern names).

module StatuteKeys {
  import opened Numerals
  import opened Ordering
  import opened Text

  predicate IsSpace(c: char) {
    c == ' ' || 9 <= c as int <= 13 || 28 <= c as int <= 31
  }

  function LStrip(s: string): string {
    if s != "" && IsSpace(s[0]) then LStrip(s[1..]) else s
  }

  function RStrip(s: string): string {
    if s != "" && IsSpace(s[|s| - 1]) then RStrip(s[..|s| - 1]) else s
  }

  predicate IsSuffixLetter(c: char) {
    'a' <= c <= 'z' || c == '\U{E4}' || c == '\U{F6}' || c == '\U{E5}'
  }

  function LowerChar(c: char): char {
    if 'A' <= c <= 'Z' || c == '\U{C4}' || c == '\U{D6}' || c == '\U{C5}' then (c as int + 32) as char else c
  }

  function Lower(s: string): string {
    if s == "" then "" else [LowerChar(s[0])] + Lower(s[1..])
  }

  // The leading digits of s.
  function Digits(s: string): (d: string)
    ensures forall c :: c in d ==> IsDigit(c)
    ensures d <= s
    ensures |d| < |s| ==> !IsDigit(s[|d|])
  {
    if s == "" || !IsDigit(s[0]) then "" else [s[0]] + Digits(s[1..])
  }

  // What a pattern's `$` may leave behind it: one final line break.
  function BeforeNewline(s: string): string {
    if s != "" && s[|s| - 1] == '\n' then s[..|s| - 1] else s
  }

  // An id as the key reads it: year and number, or a year with an unreadable number, or nothing.
  datatype Id = Numeric(year: nat, number: nat, suffix: string) | Irregular(year: nat, text: string) | Unsortable

  function ReadId(raw: string): Id {
    ReadHead(Head(RStrip(LStrip(raw)), '-'))
  }

  // The id up to its first minus sign.
  function ReadHead(head: string): Id {
    match CutAt(head, '/')
    case NoCut => Unsortable
    case Cut(year, num) =>
      if !AllDigits(year) then Unsortable
      else
        var d := Digits(num);
        var suffix := BeforeNewline(num[|d|..]);
        if d != "" && forall c :: c in suffix ==> IsSuffixLetter(c) then Numeric(Value(year), Value(d), suffix)
        else Irregular(Value(year), num)
  }

  // The fields of a key, joined with colons.
  function KeyOf(id: Id): string {
    match id
    case Unsortable => "~"
    case Numeric(year, number, suffix) => Field(Padded(year, 4), Field(Padded(number, 10), suffix))
    case Irregular(year, text) => Field(Padded(year, 4), Field("9999999999", Lower(text)))
  }

  // _statute_sort_key
  function StatuteSortKey(raw: string): string {
    KeyOf(ReadId(raw))
  }

  // (year, number, suffix) in order
  predicate IdLt(a: Id, b: Id)
    requires a.Numeric? && b.Numeric?
  {
    a.year < b.year ||
    (a.year == b.year && (a.number < b.number || (a.number == b.number && LexLt(a.suffix, b.suffix))))
  }

  predicate InRange(a: Id) {
    a.Numeric? && a.year < 10_000 && a.number < 10_000_000_000
  }

  // The string order of two keys, whatever the size of year and number.
  lemma KeyOrderIs(p: Id, q: Id)
    requires p.Numeric? && q.Numeric?
    ensures LexLt(KeyOf(p), KeyOf(q)) <==>
      FieldLt(p.year, q.year, 4, FieldLt(p.number, q.number, 10, LexLt(p.suffix, q.suffix)))
  {
    FieldOrder(p.number, q.number, 10, p.suffix, q.suffix);
    FieldOrder(p.year, q.year, 4, Field(Padded(p.number, 10), p.suffix), Field(Padded(q.number, 10), q.suffix));
  }

  // The string order of two keys is the order of their ids exactly when the years agree so,
  // and, for ids of one year, the numbers.
  lemma OrdersAgree(p: Id, q: Id)
    requires p.Numeric? && q.Numeric?
    ensures (LexLt(KeyOf(p), KeyOf(q)) <==> IdLt(p, q)) <==>
      FieldAgrees(p.year, q.year, 4) && (p.year == q.year ==> FieldAgrees(p.number, q.number, 10))
  {
    KeyOrderIs(p, q);
    FieldCases(p.year, q.year, 4, FieldLt(p.number, q.number, 10, LexLt(p.suffix, q.suffix)));
    FieldCases(p.number, q.number, 10, LexLt(p.suffix, q.suffix));
  }

  // In range every field has its width.
  lemma KeyOrder(p: Id, q: Id)
    requires InRange(p) && InRange(q)
    ensures LexLt(KeyOf(p), KeyOf(q)) <==> IdLt(p, q)
  {
    Powers();
    PaddedOrder(p.year, q.year, 4);
    PaddedOrder(p.number, q.number, 10);
    OrdersAgree(p, q);
  }

  lemma KeysDiffer(p: Id, q: Id)
    requires InRange(p) && InRange(q)
    ensures KeyOf(p) == KeyOf(q) <==> p == q
  {
    KeyOrder(p, q);
    KeyOrder(q, p);
    if p != q && !IdLt(p, q) && !IdLt(q, p) { LexTotal(p.suffix, q.suffix); }
    LexIrreflexive(KeyOf(p));
  }

  // On ids in range the string order of the keys is the order of (year, number, suffix),
  // and equal keys mean equal ids.
  lemma KeyOrderIsIdOrder(a: string, b: string)
    ensures InRange(ReadId(a)) && InRange(ReadId(b)) ==>
      && (LexLt(StatuteSortKey(a), StatuteSortKey(b)) <==> IdLt(ReadId(a), ReadId(b)))
      && (StatuteSortKey(a) == StatuteSortKey(b) <==> ReadId(a) == ReadId(b))
  {
    if InRange(ReadId(a)) && InRange(ReadId(b)) {
      KeyOrder(ReadId(a), ReadId(b));
      KeysDiffer(ReadId(a), ReadId(b));
    }
  }

  // Among the ids of one year, a numeric id sorts before one whose number cannot be read,
  // except with the number that the latter carry in its place: there the suffix is compared
  // with the text.
  lemma IrregularSortsLast(a: string, b: string)
    ensures ReadId(a).Numeric? && ReadId(b).Irregular? && ReadId(b).year == ReadId(a).year ==>
      (LexLt(StatuteSortKey(a), StatuteSortKey(b)) <==>
        ReadId(a).number != 9_999_999_999 || LexLt(ReadId(a).suffix, Lower(ReadId(b).text)))
  {
    if ReadId(a).Numeric? && ReadId(b).Irregular? && ReadId(b).year == ReadId(a).year {
      IrregularBehind(ReadId(a), ReadId(b));
    }
  }

  lemma IrregularBehind(p: Id, q: Id)
    requires p.Numeric? && q.Irregular? && q.year == p.year
    ensures LexLt(KeyOf(p), KeyOf(q)) <==> p.number != 9_999_999_999 || LexLt(p.suffix, Lower(q.text))
  {
    Nines();
    var x, y := p.suffix, Lower(q.text);
    FieldOrder(p.number, 9_999_999_999, 10, x, y);
    FieldOrder(p.year, q.year, 4, Field(Padded(p.number, 10), x), Field("9999999999", y));
    NinesAreGreatest(p.number, LexLt(x, y));
    FieldCases(p.year, q.year, 4, FieldLt(p.number, 9_999_999_999, 10, LexLt(x, y)));
  }

  // Unreadable ids sort behind every readable one.
  lemma UnsortableSortsLast(a: string, b: string)
    requires !ReadId(a).Unsortable? && ReadId(b).Unsortable?
    ensures LexLt(StatuteSortKey(a), StatuteSortKey(b))
  {
    PaddedStartsWithDigit(ReadId(a).year, 4);
  }

  lemma {:induction false} PaddedStartsWithDigit(n: nat, w: nat)
    ensures Padded(n, w) != "" && IsDigit(Padded(n, w)[0])
  {
    DecimalDigits(n);
  }

  lemma {:induction false} DecimalDigits(n: nat)
    ensures Decimal(n) != "" && IsDigit(Decimal(n)[0])
  {
    if n >= 10 { DecimalDigits(n / 10); }
  }

  // ---------------------------------------------------------------- reading plain ids

  lemma {:induction false} StripTail(base: string, tail: string) returns (kept: string)
    requires base != "" && !IsSpace(base[|base| - 1]) && (tail == "" || tail[0] == '-')
    ensures RStrip(base + tail) == base + kept && (kept == "" || kept[0] == '-')
    decreases |tail|
  {
    var s := base + tail;
    if IsSpace(s[|s| - 1]) {
      var front := tail[..|tail| - 1];
      assert s[..|s| - 1] == base + front;
      kept := StripTail(base, front);
    } else {
      kept := tail;
    }
  }

  lemma {:induction false} DigitsBefore(d: string, rest: string)
    requires (forall c :: c in d ==> IsDigit(c)) && (rest == "" || !IsDigit(rest[0]))
    ensures Digits(d + rest) == d
  {
    if d == "" {
      assert d + rest == rest;
    } else {
      assert d[0] in d && (d + rest)[1..] == d[1..] + rest;
      DigitsBefore(d[1..], rest);
    }
  }

  // year/number with a letter suffix, with or without what follows a minus sign, is read as written.
  lemma PlainId(y: string, n: string, suffix: string, tail: string)
    requires AllDigits(y) && AllDigits(n) && (tail == "" || tail[0] == '-')
    requires forall c :: c in suffix ==> IsSuffixLetter(c)
    ensures ReadId(y + "/" + n + suffix + tail) == Numeric(Value(y), Value(n), suffix)
  {
    var num := n + suffix;
    var base := y + "/" + num;
    assert y + "/" + n + suffix + tail == base + tail;
    LastIsNoSpace(n, suffix);
    NoMinus(y, n, suffix);
    StripPlain(base, num, y, tail);
    assert '/' !in y;
    CutAtFirst(y, '/', num);
    assert y + ['/'] + num == base;
    NumberParts(n, suffix);
  }

  // The id without what surrounds and follows it.
  lemma StripPlain(base: string, num: string, y: string, tail: string)
    requires AllDigits(y) && num != "" && base == y + "/" + num && !IsSpace(num[|num| - 1])
    requires '-' !in base && (tail == "" || tail[0] == '-')
    ensures Head(RStrip(LStrip(base + tail)), '-') == base
  {
    assert base[|base| - 1] == num[|num| - 1];
    assert y[0] in y && (base + tail)[0] == y[0];
    assert LStrip(base + tail) == base + tail;
    var kept := StripTail(base, tail);
    HeadOf(base, kept);
  }

  // Its number splits into digits and letters.
  lemma NumberParts(n: string, suffix: string)
    requires AllDigits(n) && forall c :: c in suffix ==> IsSuffixLetter(c)
    ensures Digits(n + suffix) == n && BeforeNewline((n + suffix)[|n|..]) == suffix
  {
    if suffix != "" { assert suffix[0] in suffix && suffix[|suffix| - 1] in suffix; }
    DigitsBefore(n, suffix);
    assert (n + suffix)[|n|..] == suffix;
  }

  lemma LastIsNoSpace(n: string, suffix: string)
    requires AllDigits(n) && forall c :: c in suffix ==> IsSuffixLetter(c)
    ensures !IsSpace((n + suffix)[|n + suffix| - 1])
  {
    if suffix == "" { assert n[|n| - 1] in n; } else { assert suffix[|suffix| - 1] in suffix; }
  }

  lemma NoMinus(y: string, n: string, suffix: string)
    requires AllDigits(y) && AllDigits(n) && forall c :: c in suffix ==> IsSuffixLetter(c)
    ensures '-' !in y + "/" + (n + suffix)
  {
  }

  // ---------------------------------------------------------------- reading any id

  // core is raw without the spaces around it.
  ghost predicate Trimmed(raw: string, core: string) {
    && (exists a, b :: raw == a + core + b && AllSpace(a) && AllSpace(b))
    && (core != "" ==> !IsSpace(core[0]) && !IsSpace(core[|core| - 1]))
  }

  ghost predicate AllSpace(s: string) {
    forall c :: c in s ==> IsSpace(c)
  }

  // head is core up to its first minus sign.
  ghost predicate UpToMinus(core: string, head: string) {
    '-' !in head && (core == head || head + "-" <= core)
  }

  // Digits and then letters, with or without a line break behind them.
  ghost predicate NumberText(num: string, d: string, suffix: string) {
    && AllDigits(d) && (forall c :: c in suffix ==> IsSuffixLetter(c))
    && (num == d + suffix || num == d + suffix + "\n")
  }

  // head is year / text, the slash being its first.
  ghost predicate YearSlash(head: string, year: string, text: string) {
    '/' !in year && head == year + "/" + text
  }

  ghost predicate ReadAs(head: string, id: Id) {
    match id
    case Unsortable => forall year, text :: YearSlash(head, year, text) ==> !AllDigits(year)
    case Numeric(y, n, suffix) =>
      exists year, text, d :: YearSlash(head, year, text) && AllDigits(year) && Value(year) == y && NumberText(text, d, suffix) && Value(d) == n
    case Irregular(y, text) =>
      && (exists year :: YearSlash(head, year, text) && AllDigits(year) && Value(year) == y)
      && forall d, suffix :: !NumberText(text, d, suffix)
  }

  lemma {:induction false} LStripIs(s: string) returns (a: string)
    ensures s == a + LStrip(s) && AllSpace(a)
    ensures LStrip(s) != "" ==> !IsSpace(LStrip(s)[0])
  {
    if s != "" && IsSpace(s[0]) {
      var rest := LStripIs(s[1..]);
      a := [s[0]] + rest;
      assert s == [s[0]] + s[1..];
    } else {
      a := "";
    }
  }

  lemma {:induction false} RStripIs(s: string) returns (b: string)
    ensures s == RStrip(s) + b && AllSpace(b)
    ensures RStrip(s) != "" ==> !IsSpace(RStrip(s)[|RStrip(s)| - 1])
  {
    if s != "" && IsSpace(s[|s| - 1]) {
      var rest := RStripIs(s[..|s| - 1]);
      b := rest + [s[|s| - 1]];
      assert s == s[..|s| - 1] + [s[|s| - 1]];
    } else {
      b := "";
    }
  }

  lemma {:induction false} LStripSpaces(a: string, s: string)
    requires AllSpace(a) && (s != "" ==> !IsSpace(s[0]))
    ensures LStrip(a + s) == s
  {
    if a == "" {
      assert a + s == s;
    } else {
      assert a[0] in a && (a + s)[1..] == a[1..] + s;
      LStripSpaces(a[1..], s);
    }
  }

  lemma {:induction false} RStripSpaces(s: string, b: string)
    requires AllSpace(b) && (s != "" ==> !IsSpace(s[|s| - 1]))
    ensures RStrip(s + b) == s
    decreases |b|
  {
    if b == "" {
      assert s + b == s;
    } else {
      var front, last := b[..|b| - 1], b[|b| - 1];
      assert last in b && (s + b)[..|s + b| - 1] == s + front;
      RStripSpaces(s, front);
    }
  }

  lemma {:induction false} AllSpaceStrips(s: string)
    requires AllSpace(s)
    ensures LStrip(s) == ""
  {
    if s != "" {
      assert s[0] in s;
      AllSpaceStrips(s[1..]);
    }
  }

  lemma StrippedIsTrimmed(raw: string)
    ensures Trimmed(raw, RStrip(LStrip(raw)))
  {
    var a := LStripIs(raw);
    var left := LStrip(raw);
    var b := RStripIs(left);
    var core := RStrip(left);
    assert raw == a + core + b;
    assert core != "" ==> core[0] == left[0];
  }

  lemma TrimmedIsStripped(x: string, core: string, y: string)
    requires AllSpace(x) && AllSpace(y)
    requires core != "" ==> !IsSpace(core[0]) && !IsSpace(core[|core| - 1])
    ensures RStrip(LStrip(x + core + y)) == core
  {
    if core == "" {
      assert x + core + y == x + y && AllSpace(x + y);
      AllSpaceStrips(x + y);
    } else {
      var tail := core + y;
      assert x + core + y == x + tail && tail[0] == core[0];
      LStripSpaces(x, tail);
      RStripSpaces(core, y);
    }
  }

  lemma TrimmedIs(raw: string, core: string)
    ensures RStrip(LStrip(raw)) == core <==> Trimmed(raw, core)
  {
    StrippedIsTrimmed(raw);
    if Trimmed(raw, core) {
      var x, y :| raw == x + core + y && AllSpace(x) && AllSpace(y);
      TrimmedIsStripped(x, core, y);
    }
  }

  lemma HeadIs(core: string, head: string)
    ensures Head(core, '-') == head <==> UpToMinus(core, head)
  {
    if UpToMinus(core, head) {
      var tail := core[|head|..];
      assert core == head + tail;
      assert head + "-" <= core ==> core[|head|] == (head + "-")[|head|];
      HeadOf(head, tail);
    }
    match CutAt(core, '-')
    case NoCut =>
    case Cut(before, after) => assert before + ['-'] == before + "-" && before + "-" <= core;
  }

  lemma CutIs(head: string, year: string, text: string)
    ensures CutAt(head, '/') == Cut(year, text) <==> YearSlash(head, year, text)
  {
    assert year + ['/'] + text == year + "/" + text;
    if YearSlash(head, year, text) { CutAtFirst(year, '/', text); }
  }

  ghost predicate Suffix(s: string) {
    forall c :: c in s ==> IsSuffixLetter(c)
  }

  lemma NumberTextParts(num: string, d: string, suffix: string, tail: string)
    requires AllDigits(d) && Suffix(suffix) && (tail == suffix || tail == suffix + "\n") && num == d + tail
    ensures Digits(num) == d && num[|d|..] == tail && BeforeNewline(tail) == suffix
  {
    assert tail != "" ==> tail[0] == '\n' || tail[0] in suffix;
    DigitsBefore(d, tail);
    if tail == suffix && suffix != "" { assert suffix[|suffix| - 1] in suffix; }
    assert (suffix + "\n")[..|suffix|] == suffix;
  }

  lemma NumberTextHolds(num: string)
    requires Digits(num) != "" && Suffix(BeforeNewline(num[|Digits(num)|..]))
    ensures NumberText(num, Digits(num), BeforeNewline(num[|Digits(num)|..]))
  {
    var d, rest := Digits(num), num[|Digits(num)|..];
    var suffix := BeforeNewline(rest);
    assert num == d + rest;
    LineBreak(d, suffix, rest);
  }

  lemma LineBreak(d: string, suffix: string, rest: string)
    requires suffix == BeforeNewline(rest)
    ensures d + rest == d + suffix || d + rest == d + suffix + "\n"
  {
    if rest != suffix {
      assert rest == suffix + "\n";
      assert d + (suffix + "\n") == d + suffix + "\n";
    }
  }

  // The digits and letters a text is made of, if it is.
  lemma NumberTextIs(num: string, d: string, suffix: string)
    ensures NumberText(num, d, suffix) <==>
      d == Digits(num) && d != "" && suffix == BeforeNewline(num[|Digits(num)|..]) && Suffix(suffix)
  {
    if NumberText(num, d, suffix) {
      var tail := num[|d|..];
      assert num == d + tail;
      NumberTextParts(num, d, suffix, if num == d + suffix then suffix else suffix + "\n");
    }
    if d == Digits(num) && d != "" && suffix == BeforeNewline(num[|Digits(num)|..]) && Suffix(suffix) { NumberTextHolds(num); }
  }

  lemma ReadHeadHolds(head: string)
    ensures ReadAs(head, ReadHead(head))
  {
    var id := ReadHead(head);
    forall year, text ensures CutAt(head, '/') == Cut(year, text) <==> YearSlash(head, year, text) { CutIs(head, year, text); }
    if CutAt(head, '/').Cut? {
      var year, num := CutAt(head, '/').before, CutAt(head, '/').after;
      assert YearSlash(head, year, num);
      if id.Numeric? {
        NumberTextIs(num, Digits(num), id.suffix);
      } else if id.Irregular? {
        forall d, suffix ensures !NumberText(num, d, suffix) { NumberTextIs(num, d, suffix); }
      }
    }
  }

  lemma ReadHeadOnly(head: string, id: Id)
    requires ReadAs(head, id)
    ensures ReadHead(head) == id
  {
    match id
    case Numeric(y, n, suffix) =>
      var year, text, d :|
        YearSlash(head, year, text) && AllDigits(year) && Value(year) == y && NumberText(text, d, suffix) && Value(d) == n;
      CutIs(head, year, text);
      NumberTextIs(text, d, suffix);
    case Irregular(y, text) =>
      var year :| YearSlash(head, year, text) && AllDigits(year) && Value(year) == y;
      CutIs(head, year, text);
      NumberTextIs(text, Digits(text), BeforeNewline(text[|Digits(text)|..]));
    case Unsortable =>
      if CutAt(head, '/').Cut? { CutIs(head, CutAt(head, '/').before, CutAt(head, '/').after); }
  }

  lemma ReadHeadIs(head: string, id: Id)
    ensures ReadHead(head) == id <==> ReadAs(head, id)
  {
    ReadHeadHolds(head);
    if ReadAs(head, id) { ReadHeadOnly(head, id); }
  }

  // How any text is read: trimmed, cut at its first minus sign, and then by its shape.
  lemma ReadIdIs(raw: string, id: Id)
    ensures ReadId(raw) == id <==> exists core, head :: Trimmed(raw, core) && UpToMinus(core, head) && ReadAs(head, id)
  {
    var core := RStrip(LStrip(raw));
    var head := Head(core, '-');
    TrimmedIs(raw, core);
    HeadIs(core, head);
    ReadHeadIs(head, id);
    if c, h :| Trimmed(raw, c) && UpToMinus(c, h) && ReadAs(h, id) {
      TrimmedIs(raw, c);
      HeadIs(c, h);
    }
  }

  // Beyond ten digits the two orders part: the id with the larger number sorts first.
  lemma RangeIsNeeded()
    ensures
      var a, b := "2000/9999999999", "2000/10000000000";
      && ReadId(a) == Numeric(2000, 9_999_999_999, "") && ReadId(b) == Numeric(2000, 10_000_000_000, "")
      && IdLt(ReadId(a), ReadId(b)) && LexLt(StatuteSortKey(b), StatuteSortKey(a))
  {
    ReadsDecimal(2000, 9_999_999_999);
    ReadsDecimal(2000, 10_000_000_000);
    Literals();
    KeyOrderIs(Numeric(2000, 10_000_000_000, ""), Numeric(2000, 9_999_999_999, ""));
    ElevenBelowTen(false);
    FieldCases(2000, 2000, 4, true);
  }

  lemma Literals()
    ensures Decimal(2000) + "/" + Decimal(9_999_999_999) == "2000/9999999999"
    ensures Decimal(2000) + "/" + Decimal(10_000_000_000) == "2000/10000000000"
  {
    Nines();
    ElevenDigits();
    assert Decimal(200) == "200";
    assert Decimal(2000) == "2000";
  }

  // Any year and number can be written as an id.
  lemma ReadsDecimal(y: nat, n: nat)
    ensures ReadId(Decimal(y) + "/" + Decimal(n)) == Numeric(y, n, "")
  {
    DecimalValue(y);
    DecimalValue(n);
    PlainId(Decimal(y), Decimal(n), "", "");
    assert Decimal(y) + "/" + Decimal(n) + "" + "" == Decimal(y) + "/" + Decimal(n);
  }

  lemma {:induction false} DecimalValue(n: nat)
    ensures AllDigits(Decimal(n)) && Value(Decimal(n)) == n
  {
    if n < 10 {
      assert Value(Decimal(n)[..0]) == 0;
    } else {
      DecimalValue(n / 10);
      var d := Decimal(n);
      assert d[..|d| - 1] == Decimal(n / 10) && d[|d| - 1] == Digit(n % 10);
    }
  }

  // With ten nines two ids of a year may even share a key.
  lemma SharedKey(y: string)
    requires AllDigits(y)
    ensures ReadId(y + "/" + Decimal(9_999_999_999) + "a") == Numeric(Value(y), 9_999_999_999, "a")
    ensures ReadId(y + "/A") == Irregular(Value(y), "A")
    ensures StatuteSortKey(y + "/" + Decimal(9_999_999_999) + "a") == StatuteSortKey(y + "/A")
  {
    ReadsWithLetter(y, 9_999_999_999);
    ReadsCapital(y);
    LowerA();
    KeyOfNines(Value(y));
  }

  lemma ReadsWithLetter(y: string, n: nat)
    requires AllDigits(y)
    ensures ReadId(y + "/" + Decimal(n) + "a") == Numeric(Value(y), n, "a")
  {
    DecimalValue(n);
    PlainId(y, Decimal(n), "a", "");
    assert y + "/" + Decimal(n) + "a" + "" == y + "/" + Decimal(n) + "a";
  }

  lemma LowerA()
    ensures Lower("A") == "a"
  {
    assert Lower("") == "" && "A"[1..] == "";
    assert Lower("A") == [LowerChar('A')] + Lower("A"[1..]);
  }

  lemma KeyOfNines(year: nat)
    ensures KeyOf(Numeric(year, 9_999_999_999, "a")) == Field(Padded(year, 4), Field("9999999999", "a"))
  {
    Nines();
  }

  lemma ReadsCapital(y: string)
    requires AllDigits(y)
    ensures ReadId(y + "/A") == Irregular(Value(y), "A")
  {
    var base := y + "/" + "A";
    assert base == y + "/A" && base + "" == base;
    assert '-' !in base && '/' !in y;
    StripPlain(base, "A", y, "");
    CutAtFirst(y, '/', "A");
    assert y + ['/'] + "A" == base;
    assert Digits("A") == "" && "A"[0..] == "A";
  }

  // ---------------------------------------------------------------- versions

  predicate IsLiteralChar(c: char) {
    IsDigit(c) || c == '_'
  }

  // Digits with single underscores between them.
  predicate IsLiteral(s: string) {
    && s != "" && IsDigit(s[0]) && IsDigit(s[|s| - 1])
    && (forall c :: c in s ==> IsLiteralChar(c))
    && forall i :: 0 < i < |s| && s[i] == '_' ==> s[i - 1] != '_'
  }

  function WithoutUnderscores(s: string): (d: string)
    requires forall c :: c in s ==> IsLiteralChar(c)
    ensures forall c :: c in d ==> IsDigit(c)
  {
    if s == "" then ""
    else
      assert s[0] in s && IsLiteralChar(s[0]);
      var rest := WithoutUnderscores(s[1..]);
      if s[0] == '_' then rest
      else
        var d := [s[0]] + rest;
        assert forall c :: c in d ==> c == s[0] || c in rest;
        d
  }

  // int(s), for a text without a minus sign
  function ReadInt(s: string): Option<nat> {
    var t := RStrip(LStrip(s));
    var u := if t != "" && t[0] == '+' then t[1..] else t;
    if IsLiteral(u) then Some(Value(WithoutUnderscores(u))) else None
  }

  // _version_sort_key; what it reads is cut at the first minus sign.
  function VersionSortKey(amendment: string): (nat, nat) {
    VersionOfCut(Head(amendment, '-'))
  }

  function VersionOfCut(head: string): (nat, nat) {
    match CutAt(head, '/')
    case NoCut => (0, 0)
    case Cut(y, n) =>
      if ReadInt(y).Some? && ReadInt(n).Some? then (ReadInt(y).value, ReadInt(n).value) else (0, 0)
  }

  // An integer literal, perhaps with a plus sign, between spaces.
  ghost predicate IntText(s: string, v: nat) {
    exists core :: Trimmed(s, core) && (Literal(core, v) || exists lit :: core == "+" + lit && Literal(lit, v))
  }

  ghost predicate Literal(s: string, v: nat) {
    IsLiteral(s) && Value(WithoutUnderscores(s)) == v
  }

  lemma LiteralCore(core: string, v: nat)
    ensures Literal(core, v) || (exists lit :: core == "+" + lit && Literal(lit, v)) <==>
      Literal(if core != "" && core[0] == '+' then core[1..] else core, v)
  {
    if core != "" && core[0] == '+' {
      assert core == "+" + core[1..];
      if lit :| core == "+" + lit && Literal(lit, v) { assert core[1..] == lit; }
    }
  }

  lemma ReadIntIs(s: string, v: nat)
    ensures ReadInt(s) == Some(v) <==> IntText(s, v)
  {
    var t := RStrip(LStrip(s));
    TrimmedIs(s, t);
    LiteralCore(t, v);
    assert ReadInt(s) == Some(v) <==> Literal(if t != "" && t[0] == '+' then t[1..] else t, v);
    forall core | Trimmed(s, core) ensures core == t { TrimmedIs(s, core); }
  }

  // The two integers around the first slash, up to the first minus sign; (0, 0) for any other text.
  ghost predicate VersionAs(head: string, v: (nat, nat)) {
    || (exists y, n :: YearSlash(head, y, n) && IntText(y, v.0) && IntText(n, v.1))
    || (v == (0, 0) && forall y, n, i: nat, j: nat :: YearSlash(head, y, n) ==> !(IntText(y, i) && IntText(n, j)))
  }

  lemma VersionIs(amendment: string, v: (nat, nat))
    ensures VersionSortKey(amendment) == v <==> exists head :: UpToMinus(amendment, head) && VersionAs(head, v)
  {
    var head := Head(amendment, '-');
    HeadIs(amendment, head);
    VersionHolds(head);
    if VersionAs(head, v) { VersionOnly(head, v); }
    forall h | UpToMinus(amendment, h) ensures h == head { HeadIs(amendment, h); }
  }

  lemma VersionHolds(head: string)
    ensures VersionAs(head, VersionOfCut(head))
  {
    match CutAt(head, '/')
    case NoCut =>
      forall y, n ensures !YearSlash(head, y, n) { CutIs(head, y, n); }
    case Cut(y, n) =>
      CutIs(head, y, n);
      if ReadInt(y).Some? && ReadInt(n).Some? {
        ReadIntIs(y, ReadInt(y).value);
        ReadIntIs(n, ReadInt(n).value);
      } else {
        forall y', n', i: nat, j: nat | YearSlash(head, y', n') ensures !(IntText(y', i) && IntText(n', j)) {
          CutIs(head, y', n');
          ReadIntIs(y, i);
          ReadIntIs(n, j);
        }
      }
  }

  lemma VersionOnly(head: string, v: (nat, nat))
    requires VersionAs(head, v)
    ensures VersionOfCut(head) == v
  {
    if y, n :| YearSlash(head, y, n) && IntText(y, v.0) && IntText(n, v.1) {
      CutIs(head, y, n);
      ReadIntIs(y, v.0);
      ReadIntIs(n, v.1);
    } else if CutAt(head, '/').Cut? {
      var y, n := CutAt(head, '/').before, CutAt(head, '/').after;
      CutIs(head, y, n);
      if ReadInt(y).Some? && ReadInt(n).Some? {
        ReadIntIs(y, ReadInt(y).value);
        ReadIntIs(n, ReadInt(n).value);
      }
    }
  }

  lemma {:induction false} PlainDigits(s: string)
    requires forall c :: c in s ==> IsDigit(c)
    ensures WithoutUnderscores(s) == s
  {
    if s != "" {
      assert s[0] in s && s == [s[0]] + s[1..];
      PlainDigits(s[1..]);
    }
  }

  // A plain year/number id, with or without a suffix behind a minus sign, is read as written.
  lemma PlainVersion(y: string, n: string, tail: string)
    requires AllDigits(y) && AllDigits(n) && (tail == "" || tail[0] == '-')
    ensures VersionSortKey(y + "/" + n + tail) == (Value(y), Value(n))
  {
    HeadOf(y + "/" + n, tail);
    assert '/' !in y;
    CutAtFirst(y, '/', n);
    PlainInt(y);
    PlainInt(n);
  }

  lemma HeadOf(base: string, tail: string)
    requires '-' !in base && (tail == "" || tail[0] == '-')
    ensures Head(base + tail, '-') == base
  {
    if tail != "" {
      CutAtFirst(base, '-', tail[1..]);
      assert base + tail == base + ['-'] + tail[1..];
    } else {
      assert base + tail == base;
      forall before, after: string ensures '-' in before + ['-'] + after {
        assert (before + ['-'] + after)[|before|] == '-';
      }
    }
  }

  lemma PlainInt(s: string)
    requires AllDigits(s)
    ensures ReadInt(s) == Some(Value(s))
  {
    assert s[0] in s && s[|s| - 1] in s;
    assert IsDigit(s[0]) && IsDigit(s[|s| - 1]);
    assert LStrip(s) == s && RStrip(s) == s;
    forall i | 0 < i < |s| ensures s[i] != '_' { assert s[i] in s; }
    PlainDigits(s);
  }
}
