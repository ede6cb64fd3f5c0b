// Locators of consolidated artifacts: parsing and building, after
// src/lawvm/finland/consolidated_artifacts.py, and the two name functions of
// scripts/backfill_finlex_consolidated_versions.py.

module ConsolidatedLocators {
  import opened Ordering
  import opened Text

  type Locator = string

  datatype Parts = Parts(namespace: string, sid: string, lang: string, version: string, rest: string)

  const SCHEME := "finlex://"
  const CANONICAL := "sd-cons"
  const LEGACY := "sd-cons-old"
  const MAIN := "main.xml"
  const LEGACY_PREFIX := "finlex://sd-cons-old/"

  predicate FourDigits(s: string) {
    |s| == 4 && AllDigits(s)
  }

  // "fin" or "fin@20200101"
  function ParseLanguage(s: string): Option<(string, string)> {
    match CutAt(s, '@')
    case NoCut => if s == "" then None else Some((s, ""))
    case Cut(lang, version) => if lang == "" || version == "" then None else Some((lang, version))
  }

  // parse_consolidated_locator:
  // finlex://(sd-cons|sd-cons-old)/YYYY/NUM/LANG[@VERSION]/REST
  function Parse(l: Locator): Option<Parts> {
    if !(SCHEME <= l) then None
    else match CutAt(l[|SCHEME|..], '/')
      case NoCut => None
      case Cut(namespace, tail) =>
        if namespace != CANONICAL && namespace != LEGACY then None else ParseStatute(namespace, tail)
  }

  // YYYY/NUM/LANG[@VERSION]/REST
  function ParseStatute(namespace: string, s: string): Option<Parts> {
    match CutAt(s, '/')
    case NoCut => None
    case Cut(year, tail) =>
      if !FourDigits(year) then None
      else match CutAt(tail, '/')
        case NoCut => None
        case Cut(number, tail) => if number == "" then None else ParseExpression(namespace, Slash(year, number), tail)
  }

  // LANG[@VERSION]/REST
  function ParseExpression(namespace: string, sid: string, s: string): Option<Parts> {
    match CutAt(s, '/')
    case NoCut => None
    case Cut(language, rest) =>
      if rest == "" || ParseLanguage(language).None? then None
      else
        var lv := ParseLanguage(language).value;
        Some(Parts(namespace, sid, lv.0, lv.1, rest))
  }

  function Slash(a: string, b: string): string {
    a + "/" + b
  }

  function LanguageOf(p: Parts): string {
    if p.version == "" then p.lang else p.lang + "@" + p.version
  }

  function Build(p: Parts): Locator {
    SCHEME + Slash(p.namespace, Slash(p.sid, Slash(LanguageOf(p), p.rest)))
  }

  lemma SlashAssoc(a: string, b: string, c: string)
    ensures Slash(Slash(a, b), c) == Slash(a, Slash(b, c))
  {
  }

  lemma CutIsSlash(s: string)
    ensures CutAt(s, '/').Cut? ==> s == Slash(CutAt(s, '/').before, CutAt(s, '/').after)
  {
  }

  lemma ParseLanguageBuilds(s: string)
    ensures ParseLanguage(s).Some? ==>
      var lv := ParseLanguage(s).value;
      s == LanguageOf(Parts("", "", lv.0, lv.1, ""))
  {
  }

  lemma ParseExpressionBuilds(namespace: string, sid: string, s: string)
    requires ParseExpression(namespace, sid, s).Some?
    ensures
      var p := ParseExpression(namespace, sid, s).value;
      p.namespace == namespace && p.sid == sid && s == Slash(LanguageOf(p), p.rest)
  {
    CutIsSlash(s);
    ParseLanguageBuilds(CutAt(s, '/').before);
  }

  lemma ParseStatuteBuilds(namespace: string, s: string)
    requires ParseStatute(namespace, s).Some?
    ensures
      var p := ParseStatute(namespace, s).value;
      p.namespace == namespace && s == Slash(p.sid, Slash(LanguageOf(p), p.rest))
  {
    CutIsSlash(s);
    var year, tail := CutAt(s, '/').before, CutAt(s, '/').after;
    CutIsSlash(tail);
    var number, tail' := CutAt(tail, '/').before, CutAt(tail, '/').after;
    ParseExpressionBuilds(namespace, Slash(year, number), tail');
    SlashAssoc(year, number, tail');
  }

  // A parsed locator is spelled back by its parts.
  lemma ParseBuilds(l: Locator)
    requires Parse(l).Some?
    ensures Build(Parse(l).value) == l
    ensures Parse(l).value.namespace == CANONICAL || Parse(l).value.namespace == LEGACY
  {
    var s := l[|SCHEME|..];
    assert l == SCHEME + s;
    CutIsSlash(s);
    ParseStatuteBuilds(CutAt(s, '/').before, CutAt(s, '/').after);
  }

  // ---------------------------------------------------------------- what parses

  ghost predicate IsSid(sid: string) {
    exists year, number :: sid == Slash(year, number) && FourDigits(year) && number != "" && '/' !in number
  }

  // The parts a locator may have.
  ghost predicate WellFormed(p: Parts) {
    && (p.namespace == CANONICAL || p.namespace == LEGACY)
    && IsSid(p.sid)
    && p.lang != "" && '@' !in p.lang && '/' !in p.lang
    && '/' !in p.version
    && p.rest != ""
  }

  lemma SlashCuts(a: string, b: string)
    requires '/' !in a
    ensures CutAt(Slash(a, b), '/') == Cut(a, b)
  {
    CutAtFirst(a, '/', b);
    assert a + ['/'] + b == Slash(a, b);
  }

  lemma LanguageParses(p: Parts)
    requires p.lang != "" && '@' !in p.lang
    ensures ParseLanguage(LanguageOf(p)) == Some((p.lang, p.version))
  {
    if p.version == "" {
      forall before, after: string ensures '@' in before + ['@'] + after {
        assert (before + ['@'] + after)[|before|] == '@';
      }
    } else {
      CutAtFirst(p.lang, '@', p.version);
      assert p.lang + ['@'] + p.version == LanguageOf(p);
    }
  }

  lemma ExpressionParses(p: Parts)
    requires WellFormed(p)
    ensures ParseExpression(p.namespace, p.sid, Slash(LanguageOf(p), p.rest)) == Some(p)
  {
    assert '/' !in LanguageOf(p);
    SlashCuts(LanguageOf(p), p.rest);
    LanguageParses(p);
  }

  lemma StatuteParses(p: Parts)
    requires WellFormed(p)
    ensures ParseStatute(p.namespace, Slash(p.sid, Slash(LanguageOf(p), p.rest))) == Some(p)
  {
    var tail := Slash(LanguageOf(p), p.rest);
    var year, number :| p.sid == Slash(year, number) && FourDigits(year) && number != "" && '/' !in number;
    SlashAssoc(year, number, tail);
    assert '/' !in year;
    SlashCuts(year, Slash(number, tail));
    SlashCuts(number, tail);
    ExpressionParses(p);
  }

  // Well-formed parts are read back from their locator.
  lemma BuildParses(p: Parts)
    requires WellFormed(p)
    ensures Parse(Build(p)) == Some(p)
  {
    var tail := Slash(p.sid, Slash(LanguageOf(p), p.rest));
    assert Build(p)[|SCHEME|..] == Slash(p.namespace, tail);
    assert '/' !in p.namespace;
    SlashCuts(p.namespace, tail);
    StatuteParses(p);
  }

  lemma ExpressionWellFormed(namespace: string, sid: string, s: string)
    requires ParseExpression(namespace, sid, s).Some?
    requires (namespace == CANONICAL || namespace == LEGACY) && IsSid(sid)
    ensures WellFormed(ParseExpression(namespace, sid, s).value)
  {
    var language := CutAt(s, '/').before;
    var lv := ParseLanguage(language).value;
    ParseLanguageBuilds(language);
    forall c | c in lv.0 || c in lv.1 ensures c in language {
      assert language == LanguageOf(Parts("", "", lv.0, lv.1, ""));
    }
  }

  // Only such parts come out of a locator.
  lemma ParseWellFormed(l: Locator)
    requires Parse(l).Some?
    ensures WellFormed(Parse(l).value)
  {
    var s := l[|SCHEME|..];
    var namespace, tail := CutAt(s, '/').before, CutAt(s, '/').after;
    var year, tail' := CutAt(tail, '/').before, CutAt(tail, '/').after;
    var number := CutAt(tail', '/').before;
    assert IsSid(Slash(year, number));
    ExpressionWellFormed(namespace, Slash(year, number), CutAt(tail', '/').after);
  }

  // The locator written out: scheme, namespace, year and number, language with its version if
  // it has one, and the file.
  ghost predicate Spells(l: Locator, p: Parts) {
    && WellFormed(p)
    && l == "finlex://" + p.namespace + "/" + p.sid + "/" + p.lang + (if p.version == "" then "" else "@" + p.version) + "/" + p.rest
  }

  lemma BuiltIsSpelled(p: Parts)
    ensures Build(p) ==
      "finlex://" + p.namespace + "/" + p.sid + "/" + p.lang + (if p.version == "" then "" else "@" + p.version) + "/" + p.rest
  {
    var version := if p.version == "" then "" else "@" + p.version;
    assert LanguageOf(p) == p.lang + version;
    assert Slash(LanguageOf(p), p.rest) == p.lang + version + "/" + p.rest;
    assert Slash(p.sid, Slash(LanguageOf(p), p.rest)) == p.sid + "/" + p.lang + version + "/" + p.rest;
  }

  // A locator is parsed into the parts that spell it, and only then.
  lemma ParsedIsSpelled(l: Locator, p: Parts)
    ensures Parse(l) == Some(p) <==> Spells(l, p)
  {
    BuiltIsSpelled(p);
    if Parse(l) == Some(p) {
      ParseBuilds(l);
      ParseWellFormed(l);
    }
    if Spells(l, p) { BuildParses(p); }
  }

  predicate IsLegacyMain(l: Locator) {
    var p := Parse(l);
    p.Some? && p.value.namespace == LEGACY && p.value.rest == MAIN
  }

  // _legacy_family_root
  function FamilyRoot(l: Locator): Option<string> {
    if !IsLegacyMain(l) then None
    else
      var p := Parse(l).value;
      Some(LEGACY_PREFIX + Slash(p.sid, LanguageOf(p)))
  }

  // The main locator of a family.
  function MainOf(root: string): Locator {
    root + "/" + MAIN
  }

  // _legacy_family_lang, for a legacy main locator
  function FamilyLang(l: Locator): string
    requires IsLegacyMain(l)
  {
    Parse(l).value.lang
  }

  // _canonical_locator_from_legacy
  function CanonicalLocator(l: Locator, tag: string): Option<Locator>
    requires tag != ""
  {
    var p := Parse(l);
    if p.None? || p.value.namespace != LEGACY then None
    else Some(Build(Parts(CANONICAL, p.value.sid, p.value.lang, tag, p.value.rest)))
  }

  // A legacy main file is a main.xml of the legacy namespace; its language is the one spelled.
  lemma LegacyMainIs(l: Locator)
    ensures IsLegacyMain(l) <==> exists p :: Spells(l, p) && p.namespace == "sd-cons-old" && p.rest == "main.xml"
    ensures IsLegacyMain(l) ==> forall p :: Spells(l, p) ==> FamilyLang(l) == p.lang
  {
    forall p ensures Parse(l) == Some(p) <==> Spells(l, p) { ParsedIsSpelled(l, p); }
  }

  // A locator of the legacy namespace, and no other, has a canonical form: the same statute,
  // language and file in the canonical namespace, with the tag for its version.
  lemma CanonicalIsSpelled(l: Locator, tag: string)
    requires tag != ""
    ensures CanonicalLocator(l, tag).None? <==> forall p :: Spells(l, p) ==> p.namespace != "sd-cons-old"
    ensures forall p :: Spells(l, p) && p.namespace == "sd-cons-old" ==>
      CanonicalLocator(l, tag) == Some("finlex://" + "sd-cons" + "/" + p.sid + "/" + p.lang + ("@" + tag) + "/" + p.rest)
  {
    forall p ensures Parse(l) == Some(p) <==> Spells(l, p) { ParsedIsSpelled(l, p); }
    forall p | Spells(l, p) && p.namespace == "sd-cons-old"
      ensures CanonicalLocator(l, tag) == Some("finlex://" + "sd-cons" + "/" + p.sid + "/" + p.lang + ("@" + tag) + "/" + p.rest)
    {
      BuiltIsSpelled(Parts(CANONICAL, p.sid, p.lang, tag, p.rest));
    }
  }

  lemma LegacyBuild(sid: string, language: string, rest: string)
    ensures SCHEME + Slash(LEGACY, Slash(sid, Slash(language, rest))) == LEGACY_PREFIX + Slash(sid, language) + "/" + rest
  {
    SlashAssoc(sid, language, rest);
    var tail := Slash(Slash(sid, language), rest);
    assert SCHEME + LEGACY + "/" == LEGACY_PREFIX;
    assert SCHEME + Slash(LEGACY, tail) == LEGACY_PREFIX + tail;
  }

  // A family has one main locator: its root with the main file name.
  lemma RootNamesMain(l: Locator)
    requires IsLegacyMain(l)
    ensures l == MainOf(FamilyRoot(l).value)
    ensures LEGACY_PREFIX <= FamilyRoot(l).value
    ensures FamilyRoot(l).value + "/" <= l
  {
    ParseBuilds(l);
    var p := Parse(l).value;
    LegacyBuild(p.sid, LanguageOf(p), p.rest);
  }

  lemma CanonicalStart(tail: string)
    ensures !(LEGACY_PREFIX <= SCHEME + Slash(CANONICAL, tail))
  {
    var l := SCHEME + Slash(CANONICAL, tail);
    assert l[16] == '/' && LEGACY_PREFIX[16] == '-';
  }

  ghost predicate InCanonical(l: Locator) {
    exists tail :: l == SCHEME + Slash(CANONICAL, tail)
  }

  // A canonical locator lies in the canonical namespace, outside the legacy one.
  lemma CanonicalIsNotLegacy(l: Locator, tag: string)
    requires tag != "" && CanonicalLocator(l, tag).Some?
    ensures InCanonical(CanonicalLocator(l, tag).value)
    ensures !(LEGACY_PREFIX <= CanonicalLocator(l, tag).value)
  {
    var p := Parse(l).value;
    var tail := Slash(p.sid, Slash(LanguageOf(Parts(CANONICAL, p.sid, p.lang, tag, p.rest)), p.rest));
    CanonicalStart(tail);
    assert CanonicalLocator(l, tag).value == SCHEME + Slash(CANONICAL, tail);
  }

  // The canonical form is read back as the same statute, language and file with the tag for
  // its version, exactly when the tag holds no slash.
  lemma CanonicalKeepsParts(l: Locator, tag: string)
    requires tag != "" && CanonicalLocator(l, tag).Some?
    ensures
      var p := Parse(l).value;
      p.namespace == LEGACY &&
      (Parse(CanonicalLocator(l, tag).value) == Some(Parts(CANONICAL, p.sid, p.lang, tag, p.rest)) <==> '/' !in tag)
  {
    ParseWellFormed(l);
    var p := Parse(l).value;
    var c := Parts(CANONICAL, p.sid, p.lang, tag, p.rest);
    if '/' !in tag {
      BuildParses(c);
    } else if Parse(Build(c)).Some? {
      ParseWellFormed(Build(c));
    }
  }

  lemma MainIsLegacy(l: Locator)
    requires IsLegacyMain(l)
    ensures LEGACY_PREFIX <= l
  {
    RootNamesMain(l);
  }

  // ---------------------------------------------------------------- patterns

  // LIKE compares ASCII letters without their case.
  function Fold(c: char): char {
    if 'A' <= c <= 'Z' then (c as int + 32) as char else c
  }

  // '%' stands for any text, '_' for any one character.
  predicate Like(pattern: string, s: string)
    decreases |pattern| + |s|
  {
    if pattern == "" then s == ""
    else if pattern[0] == '%' then Like(pattern[1..], s) || (s != "" && Like(pattern, s[1..]))
    else s != "" && (pattern[0] == '_' || Fold(pattern[0]) == Fold(s[0])) && Like(pattern[1..], s[1..])
  }

  predicate Plain(c: char) {
    c != '%' && c != '_'
  }

  // What the archive lists for a family.
  predicate Under(root: string, l: Locator) {
    Like(root + "/%", l)
  }

  lemma {:induction false} AnyText(s: string)
    ensures Like("%", s)
  {
    assert "%"[1..] == "";
    if s == "" { assert Like("", s); } else { AnyText(s[1..]); }
  }

  predicate Stands(c: char, d: char) {
    c == '%' || c == '_' || Fold(c) == Fold(d)
  }

  // A pattern whose characters stand for those of a text matches whatever starts with the text.
  lemma {:induction false} LikePointwise(pattern: string, s: string, tail: string)
    requires |pattern| == |s| && forall i :: 0 <= i < |s| ==> Stands(pattern[i], s[i])
    ensures Like(pattern + "%", s + tail)
  {
    if pattern == "" {
      assert pattern + "%" == "%" && s + tail == tail;
      AnyText(tail);
    } else {
      assert (pattern + "%")[1..] == pattern[1..] + "%" && (s + tail)[1..] == s[1..] + tail;
      LikePointwise(pattern[1..], s[1..], tail);
      if pattern[0] == '%' { PercentSkips((pattern + "%")[1..], s + tail); }
    }
  }

  lemma PercentSkips(pattern: string, s: string)
    requires s != "" && Like(pattern, s[1..])
    ensures Like("%" + pattern, s)
  {
    var p := "%" + pattern;
    assert p[1..] == pattern;
    assert Like(p, s[1..]);
  }

  // Plain characters at the start of a pattern are matched one by one.
  lemma {:induction false} LikeLiteral(plain: string, pattern: string, s: string)
    requires (forall c :: c in plain ==> Plain(c)) && Like(plain + pattern, s)
    ensures |s| >= |plain| && forall i :: 0 <= i < |plain| ==> Fold(plain[i]) == Fold(s[i])
  {
    if plain != "" {
      assert plain[0] in plain;
      assert (plain + pattern)[1..] == plain[1..] + pattern;
      LikeLiteral(plain[1..], pattern, s[1..]);
      forall i | 0 <= i < |plain| ensures Fold(plain[i]) == Fold(s[i]) {
        if i > 0 { assert plain[i] == plain[1..][i - 1] && s[i] == s[1..][i - 1]; }
      }
    }
  }

  // Everything that starts with the root and a slash is listed.
  lemma FamilyIsUnder(root: string, l: Locator)
    requires root + "/" <= l
    ensures Under(root, l)
  {
    LikePointwise(root + "/", root + "/", l[|root| + 1..]);
    assert root + "/" + "%" == root + "/%";
    assert l == root + "/" + l[|root| + 1..];
  }

  // For a root without wildcards the listing is what starts with it up to case.
  lemma UnderIsFolded(root: string, l: Locator)
    requires forall c :: c in root ==> Plain(c)
    ensures Under(root, l) <==>
      |l| > |root| && l[|root|] == '/' && forall i :: 0 <= i < |root| ==> Fold(root[i]) == Fold(l[i])
  {
    var start := root + "/";
    assert start + "%" == root + "/%";
    if Under(root, l) {
      LikeLiteral(start, "%", l);
      forall i | 0 <= i < |root| ensures Fold(root[i]) == Fold(l[i]) { assert start[i] == root[i]; }
      assert start[|root|] == '/';
    }
    if |l| > |root| && l[|root|] == '/' && forall i :: 0 <= i < |root| ==> Fold(root[i]) == Fold(l[i]) {
      LikePointwise(start, l[..|root| + 1], l[|root| + 1..]);
      assert l == l[..|root| + 1] + l[|root| + 1..];
    }
  }

  predicate Letter(c: char) {
    'a' <= c <= 'z' || 'A' <= c <= 'Z'
  }

  // A character that c stands for in a pattern, other than c.
  function Another(c: char): (d: char)
    ensures Letter(c) || !Plain(c) ==> Stands(c, d) && c != d
  {
    if 'A' <= c <= 'Z' then (c as int + 32) as char
    else if 'a' <= c <= 'z' then (c as int - 32) as char
    else 'x'
  }

  // Only a root without wildcards and letters lists nothing but its own.  Legacy roots hold
  // letters, so a root's pattern lists the files of the roots that differ from it in case.
  lemma ListsOwnOnly(root: string)
    ensures (forall l :: Under(root, l) ==> root + "/" <= l) <==> forall c :: c in root ==> Plain(c) && !Letter(c)
  {
    if forall c :: c in root ==> Plain(c) && !Letter(c) {
      forall l | Under(root, l) ensures root + "/" <= l {
        UnderIsFolded(root, l);
        forall i | 0 <= i < |root| ensures l[i] == root[i] { assert root[i] in root; }
      }
    } else {
      var c :| c in root && !(Plain(c) && !Letter(c));
      var i :| 0 <= i < |root| && root[i] == c;
      var other := root[i := Another(c)];
      LikePointwise(root + "/", other + "/", "");
      assert root + "/" + "%" == root + "/%" && other + "/" + "" == other + "/";
      assert (other + "/")[i] != (root + "/")[i];
      assert Under(root, other + "/");
    }
  }

  // The files of a root that differs only in case are listed too, and so migrated with the
  // version tag of the wrong family.
  lemma OtherCaseIsUnder(root: string, other: string, rest: string)
    requires forall c :: c in root ==> Plain(c)
    requires |other| == |root| && forall i :: 0 <= i < |root| ==> Fold(root[i]) == Fold(other[i])
    ensures Under(root, other + "/" + rest)
  {
    UnderIsFolded(root, other + "/" + rest);
  }

  // A pattern for the legacy namespace lists no canonical locator, whatever the case.
  lemma LegacyPatternMisses(root: string, tail: string)
    requires LEGACY_PREFIX <= root
    ensures !Under(root, SCHEME + Slash(CANONICAL, tail))
  {
    var l := SCHEME + Slash(CANONICAL, tail);
    var more := root[|LEGACY_PREFIX|..] + "/%";
    assert l[16] == '/' && LEGACY_PREFIX[16] == '-';
    assert root + "/%" == LEGACY_PREFIX + more;
    if Under(root, l) { LikeLiteral(LEGACY_PREFIX, more, l); }
  }
}
