// Section amendment chains and later-touch flags of scripts/build_publication_db.py.

module AmendmentChains {
  import opened Ordering
  import opened Sequences
  import opened StatuteKeys
  import opened Text

  datatype Entry = Entry(amendment: string, title: string)

  // A supporting amendment with the sections it is blamed for.
  datatype Support = Support(amendment: string, title: string, sections: seq<string>)

  // A surviving section error: the section, and the amendment blamed for it ("" for none).
  datatype Finding = Finding(section: string, blame: string)

  datatype ErrorRow = ErrorRow(section: string, blame: string, isLastTouch: nat, laterTouches: seq<string>)

  // title is "" where the script writes NULL.
  datatype ChainRow = ChainRow(statute: string, section: string, amendment: string, ord: nat, title: string,
                               isBlameSource: bool, isLaterTouch: bool)

  type Key = (string, string)

  predicate VersionLt(a: string, b: string) {
    RankLt(VersionSortKey(a), VersionSortKey(b))
  }

  // ---------------------------------------------------------------- later touches

  predicate Later(sa: Support, section: string, blame: string) {
    blame != "" && section in sa.sections && VersionLt(blame, sa.amendment)
  }

  function LaterTouches(supporting: seq<Support>, section: string, blame: string): seq<string> {
    if supporting == [] then []
    else
      var last := supporting[|supporting| - 1];
      LaterTouches(supporting[..|supporting| - 1], section, blame) +
      (if Later(last, section, blame) then [last.amendment] else [])
  }

  lemma {:induction false} LaterTouchesAre(supporting: seq<Support>, section: string, blame: string, a: string)
    ensures a in LaterTouches(supporting, section, blame) <==>
      blame != "" && exists sa :: sa in supporting && sa.amendment == a && section in sa.sections && VersionLt(blame, a)
  {
    if supporting != [] {
      var front, last := supporting[..|supporting| - 1], supporting[|supporting| - 1];
      assert supporting == front + [last];
      LaterTouchesAre(front, section, blame, a);
    }
  }

  // The amendments with a property, in order.
  ghost function Chosen(p: Support -> bool, s: seq<Support>): seq<string> {
    if s == [] then [] else Chosen(p, s[..|s| - 1]) + (if p(s[|s| - 1]) then [s[|s| - 1].amendment] else [])
  }

  lemma {:induction false} ChosenConcat(p: Support -> bool, s: seq<Support>, t: seq<Support>)
    ensures Chosen(p, s + t) == Chosen(p, s) + Chosen(p, t)
  {
    if t == [] {
      assert s + t == s;
    } else {
      var front, last := t[..|t| - 1], t[|t| - 1];
      ChosenConcat(p, s, front);
      assert (s + t)[..|s + t| - 1] == s + front;
      Assoc(Chosen(p, s), Chosen(p, front), if p(last) then [last.amendment] else []);
    }
  }

  ghost function LaterIn(section: string, blame: string): Support -> bool {
    (sa: Support) => Later(sa, section, blame)
  }

  lemma {:induction false} LaterAreChosen(supporting: seq<Support>, section: string, blame: string)
    ensures LaterTouches(supporting, section, blame) == Chosen(LaterIn(section, blame), supporting)
  {
    if supporting != [] { LaterAreChosen(supporting[..|supporting| - 1], section, blame); }
  }

  lemma ChosenAround(p: Support -> bool, front: seq<Support>, sa: Support, rest: seq<Support>)
    ensures Chosen(p, front + [sa] + rest) == Chosen(p, front) + (if p(sa) then [sa.amendment] else []) + Chosen(p, rest)
  {
    ChosenConcat(p, front + [sa], rest);
    assert (front + [sa])[..|front|] == front;
  }

  // They are listed in bundle order, once for every amendment of the kind.
  lemma LaterTouchesInOrder(front: seq<Support>, sa: Support, rest: seq<Support>, section: string, blame: string)
    ensures LaterTouches(front + [sa] + rest, section, blame) ==
      LaterTouches(front, section, blame) +
      (if blame != "" && section in sa.sections && VersionLt(blame, sa.amendment) then [sa.amendment] else []) +
      LaterTouches(rest, section, blame)
  {
    LaterAreChosen(front + [sa] + rest, section, blame);
    LaterAreChosen(front, section, blame);
    LaterAreChosen(rest, section, blame);
    ChosenAround(LaterIn(section, blame), front, sa, rest);
  }

  function RowOf(supporting: seq<Support>, f: Finding): ErrorRow {
    var later := LaterTouches(supporting, f.section, f.blame);
    ErrorRow(f.section, f.blame, if later == [] then 1 else 0, later)
  }

  // The error rows of one bundle.
  method SectionRows(supporting: seq<Support>, findings: seq<Finding>) returns (rows: seq<ErrorRow>)
    ensures |rows| == |findings| && forall i :: 0 <= i < |rows| ==> rows[i] == RowOf(supporting, findings[i])
  {
    rows := [];
    for i := 0 to |findings|
      invariant |rows| == i && forall j :: 0 <= j < i ==> rows[j] == RowOf(supporting, findings[j])
    {
      var f := findings[i];
      var later := CollectLater(supporting, f.section, f.blame);
      rows := rows + [ErrorRow(f.section, f.blame, if later == [] then 1 else 0, later)];
    }
  }

  // The later touches of one error row.
  method CollectLater(supporting: seq<Support>, section: string, blame: string) returns (later: seq<string>)
    ensures later == LaterTouches(supporting, section, blame)
  {
    later := [];
    if blame == "" {
      NoBlameNoLater(supporting, section);
      return;
    }
    for j := 0 to |supporting|
      invariant later == LaterTouches(supporting[..j], section, blame)
    {
      Longer(supporting, j);
      var sa := supporting[j];
      if section in sa.sections {
        if VersionLt(blame, sa.amendment) {
          later := later + [sa.amendment];
        }
      }
    }
    Whole(supporting);
  }

  lemma {:induction false} NoBlameNoLater(supporting: seq<Support>, section: string)
    ensures LaterTouches(supporting, section, "") == []
  {
    if supporting != [] { NoBlameNoLater(supporting[..|supporting| - 1], section); }
  }

  // ---------------------------------------------------------------- collecting chains

  function Repeated(sections: seq<string>, e: Entry, section: string): seq<Entry> {
    if sections == [] then []
    else Repeated(sections[..|sections| - 1], e, section) + (if sections[|sections| - 1] == section then [e] else [])
  }

  // What a bundle adds to the chain of a section, in bundle order.
  function Touches(supporting: seq<Support>, section: string): seq<Entry> {
    if supporting == [] then []
    else
      var last := supporting[|supporting| - 1];
      Touches(supporting[..|supporting| - 1], section) +
      EntriesOf(last, section)
  }

  function EntriesOf(sa: Support, section: string): seq<Entry> {
    if sa.amendment == "" then [] else Repeated(sa.sections, Entry(sa.amendment, sa.title), section)
  }

  // The later touches of all blamed rows of the section.
  function LaterUnion(rows: seq<ErrorRow>, section: string): set<string> {
    if rows == [] then {} else LaterUnion(rows[..|rows| - 1], section) + LaterOf(rows[|rows| - 1], section)
  }

  // The blame of the last row of the section that has one.
  function LastBlame(rows: seq<ErrorRow>, section: string): Option<string> {
    if rows == [] then None
    else
      var last := rows[|rows| - 1];
      if last.section == section && last.blame != "" then Some(last.blame)
      else LastBlame(rows[..|rows| - 1], section)
  }

  function GetOr<V>(m: map<Key, V>, k: Key, default: V): V {
    if k in m then m[k] else default
  }

  // section_chains, section_blame and section_later.
  class ChainBuilder {
    var chains: map<Key, seq<Entry>>
    var blame: map<Key, string>
    var later: map<Key, set<string>>

    // Every chain there is has an entry.
    ghost predicate Full()
      reads this
    {
      forall k: Key :: k in chains ==> chains[k] != []
    }

    constructor ()
      ensures chains == map[] && blame == map[] && later == map[]
    {
      chains, blame, later := map[], map[], map[];
    }

    // section_chains.setdefault(key, []).append(e)
    method Append(key: Key, e: Entry)
      modifies this`chains
      ensures old(Full()) ==> Full()
      ensures forall k: Key :: GetOr(chains, k, []) == GetOr(old(chains), k, []) + (if k == key then [e] else [])
    {
      chains := chains[key := GetOr(chains, key, []) + [e]];
    }

    // "Collect per-section amendment chains", for one supporting amendment.
    method CollectOne(statute: string, sa: Support)
      modifies this`chains
      ensures old(Full()) ==> Full()
      ensures forall k: Key :: GetOr(chains, k, []) == GetOr(old(chains), k, []) + Added(statute, k, EntriesOf(sa, k.1))
    {
      if sa.amendment == "" {
        return;
      }
      var e := Entry(sa.amendment, sa.title);
      for i := 0 to |sa.sections|
        invariant old(Full()) ==> Full()
        invariant forall k: Key ::
          GetOr(chains, k, []) == GetOr(old(chains), k, []) + Added(statute, k, Repeated(sa.sections[..i], e, k.1))
      {
        if sa.sections[i] != "" {
          Append((statute, sa.sections[i]), e);
        }
        forall k: Key ensures
          GetOr(chains, k, []) == GetOr(old(chains), k, []) + Added(statute, k, Repeated(sa.sections[..i + 1], e, k.1))
        {
          RepeatedSnoc(statute, k, sa.sections, i, e);
        }
      }
      assert sa.sections[..|sa.sections|] == sa.sections;
    }

    method Collect(statute: string, supporting: seq<Support>)
      modifies this`chains
      ensures old(Full()) ==> Full()
      ensures forall k: Key :: GetOr(chains, k, []) == GetOr(old(chains), k, []) + Added(statute, k, Touches(supporting, k.1))
    {
      for i := 0 to |supporting|
        invariant old(Full()) ==> Full()
        invariant forall k: Key ::
          GetOr(chains, k, []) == GetOr(old(chains), k, []) + Added(statute, k, Touches(supporting[..i], k.1))
      {
        ghost var before := chains;
        CollectOne(statute, supporting[i]);
        forall k: Key ensures
          GetOr(chains, k, []) == GetOr(old(chains), k, []) + Added(statute, k, Touches(supporting[..i + 1], k.1))
        {
          TouchesSnoc(statute, k, supporting, i);
          Assoc(GetOr(old(chains), k, []), Added(statute, k, Touches(supporting[..i], k.1)), Added(statute, k, EntriesOf(supporting[i], k.1)));
          assert GetOr(chains, k, []) == GetOr(before, k, []) + Added(statute, k, EntriesOf(supporting[i], k.1));
        }
      }
      Whole(supporting);
    }

    // "Record blame sources for later marking".
    method Record(statute: string, rows: seq<ErrorRow>)
      modifies this`blame, this`later
      ensures forall k: Key :: GetOr(blame, k, "") == BlameAfter(GetOr(old(blame), k, ""), statute, rows, k)
      ensures forall k: Key :: GetOr(later, k, {}) == LaterAfter(GetOr(old(later), k, {}), statute, rows, k)
    {
      for i := 0 to |rows|
        invariant forall k: Key :: GetOr(blame, k, "") == BlameAfter(GetOr(old(blame), k, ""), statute, rows[..i], k)
        invariant forall k: Key :: GetOr(later, k, {}) == LaterAfter(GetOr(old(later), k, {}), statute, rows[..i], k)
      {
        RecordOne(statute, rows[i]);
        forall k: Key ensures GetOr(blame, k, "") == BlameAfter(GetOr(old(blame), k, ""), statute, rows[..i + 1], k) {
          BlameSnoc(GetOr(old(blame), k, ""), statute, rows, i, k);
        }
        forall k: Key ensures GetOr(later, k, {}) == LaterAfter(GetOr(old(later), k, {}), statute, rows[..i + 1], k) {
          LaterSnoc(GetOr(old(later), k, {}), statute, rows, i, k);
        }
      }
      Whole(rows);
    }

    // The loop body for one row.
    method RecordOne(statute: string, row: ErrorRow)
      modifies this`blame, this`later
      ensures forall k: Key :: GetOr(blame, k, "") == BlameOne(GetOr(old(blame), k, ""), statute, row, k)
      ensures forall k: Key :: GetOr(later, k, {}) == LaterOne(GetOr(old(later), k, {}), statute, row, k)
    {
      if row.section != "" && row.blame != "" {
        var key := (statute, row.section);
        blame := blame[key := row.blame];
        if row.laterTouches != [] {
          later := later[key := GetOr(later, key, {}) + set a | a in row.laterTouches];
        }
      }
    }
  }

  lemma TouchesSnoc(statute: string, k: Key, supporting: seq<Support>, i: nat)
    requires i < |supporting|
    ensures Added(statute, k, Touches(supporting[..i + 1], k.1)) ==
      Added(statute, k, Touches(supporting[..i], k.1)) + Added(statute, k, EntriesOf(supporting[i], k.1))
  {
    Longer(supporting, i);
  }

  lemma RepeatedSnoc(statute: string, k: Key, sections: seq<string>, i: nat, e: Entry)
    requires i < |sections|
    ensures Added(statute, k, Repeated(sections[..i + 1], e, k.1)) ==
      Added(statute, k, Repeated(sections[..i], e, k.1)) +
      (if sections[i] != "" && k == (statute, sections[i]) then [e] else [])
  {
    assert sections[..i + 1][..i] == sections[..i];
  }

  // What a bundle of the statute adds under key k.
  function Added(statute: string, k: Key, entries: seq<Entry>): seq<Entry> {
    if k.0 == statute && k.1 != "" then entries else []
  }

  function BlameAfter(before: string, statute: string, rows: seq<ErrorRow>, k: Key): string {
    if k.0 == statute && k.1 != "" && LastBlame(rows, k.1).Some? then LastBlame(rows, k.1).value else before
  }

  function BlameOne(before: string, statute: string, row: ErrorRow, k: Key): string {
    if k == (statute, row.section) && k.1 != "" && row.blame != "" then row.blame else before
  }

  function LaterOne(before: set<string>, statute: string, row: ErrorRow, k: Key): set<string> {
    if k.0 == statute && k.1 != "" then before + LaterOf(row, k.1) else before
  }

  lemma BlameSnoc(before: string, statute: string, rows: seq<ErrorRow>, i: nat, k: Key)
    requires i < |rows|
    ensures BlameAfter(before, statute, rows[..i + 1], k) ==
      BlameOne(BlameAfter(before, statute, rows[..i], k), statute, rows[i], k)
  {
    Longer(rows, i);
  }

  lemma LaterSnoc(before: set<string>, statute: string, rows: seq<ErrorRow>, i: nat, k: Key)
    requires i < |rows|
    ensures LaterAfter(before, statute, rows[..i + 1], k) ==
      LaterOne(LaterAfter(before, statute, rows[..i], k), statute, rows[i], k)
  {
    Longer(rows, i);
  }

  function LaterAfter(before: set<string>, statute: string, rows: seq<ErrorRow>, k: Key): set<string> {
    if k.0 == statute && k.1 != "" then before + LaterUnion(rows, k.1) else before
  }

  function LaterOf(row: ErrorRow, section: string): set<string> {
    if row.section == section && row.blame != "" then set a | a in row.laterTouches else {}
  }

  // ---------------------------------------------------------------- writing chains

  // First occurrence of every amendment.
  function Unique(entries: seq<Entry>): seq<Entry> {
    if entries == [] then []
    else
      var front := Unique(entries[..|entries| - 1]);
      var last := entries[|entries| - 1];
      if last.amendment in Amendments(front) then front else front + [last]
  }

  function Amendments(s: seq<Entry>): set<string> {
    set e | e in s :: e.amendment
  }

  // unique.sort(key=_version_sort_key)
  function SortByVersion(entries: seq<Entry>): seq<Entry> {
    SortBy(VersionOf, entries)
  }

  function VersionOf(e: Entry): (nat, nat) {
    VersionSortKey(e.amendment)
  }

  ghost predicate OncePerAmendment(s: seq<Entry>) {
    forall i, j :: 0 <= i < j < |s| ==> s[i].amendment != s[j].amendment
  }

  lemma AmendmentsSnoc(s: seq<Entry>, e: Entry)
    ensures Amendments(s + [e]) == Amendments(s) + {e.amendment}
  {
    forall a ensures a in Amendments(s + [e]) <==> a in Amendments(s) + {e.amendment} {
      if a in Amendments(s) { var x :| x in s && x.amendment == a; assert x in s + [e]; }
      if a == e.amendment { assert e in s + [e]; }
    }
  }

  lemma OnceSnoc(s: seq<Entry>, e: Entry)
    requires OncePerAmendment(s) && e.amendment !in Amendments(s)
    ensures OncePerAmendment(s + [e])
  {
    forall i | 0 <= i < |s| ensures s[i].amendment != e.amendment { assert s[i] in s; }
  }

  // Every amendment once, and none lost.
  lemma {:induction false} UniqueOnce(entries: seq<Entry>)
    ensures OncePerAmendment(Unique(entries))
    ensures forall e :: e in Unique(entries) ==> e in entries
    ensures Amendments(Unique(entries)) == Amendments(entries)
  {
    if entries != [] {
      var front, last := entries[..|entries| - 1], entries[|entries| - 1];
      Front(entries);
      UniqueOnce(front);
      AmendmentsSnoc(front, last);
      if last.amendment !in Amendments(Unique(front)) {
        AmendmentsSnoc(Unique(front), last);
        OnceSnoc(Unique(front), last);
      }
    }
  }

  lemma CountedTwice(t: seq<Entry>, i: nat, j: nat)
    requires i < j < |t| && t[i] == t[j]
    ensures multiset(t)[t[i]] >= 2
  {
    assert t == t[..i] + [t[i]] + t[i + 1..j] + [t[j]] + t[j + 1..];
  }

  lemma OnceIsKept(s: seq<Entry>, t: seq<Entry>)
    requires multiset(s) == multiset(t) && OncePerAmendment(s)
    ensures OncePerAmendment(t)
  {
    forall i, j | 0 <= i < j < |t| ensures t[i].amendment != t[j].amendment {
      assert t[i] in multiset(t) && t[j] in multiset(t);
      var p :| 0 <= p < |s| && s[p] == t[i];
      var q :| 0 <= q < |s| && s[q] == t[j];
      if p == q {
        CountedTwice(t, i, j);
        OnceCounts(s, t[i]);
      }
    }
  }

  lemma {:induction false} OnceCounts(s: seq<Entry>, e: Entry)
    requires OncePerAmendment(s)
    ensures multiset(s)[e] <= 1
  {
    if s != [] {
      var front, last := s[..|s| - 1], s[|s| - 1];
      assert s == front + [last];
      OnceCounts(front, e);
      if last == e {
        assert forall k :: 0 <= k < |front| ==> s[k] == front[k];
        assert e !in front;
      }
    }
  }

  // The rows of one chain, numbered from 1.
  function RowsFor(k: Key, chain: seq<Entry>, blame: string, later: set<string>): seq<ChainRow> {
    if chain == [] then []
    else
      var last := chain[|chain| - 1];
      RowsFor(k, chain[..|chain| - 1], blame, later) +
      [ChainRow(k.0, k.1, last.amendment, |chain|, last.title, last.amendment == blame, last.amendment in later)]
  }

  lemma {:induction false} RowAt(k: Key, chain: seq<Entry>, blame: string, later: set<string>, i: nat)
    requires i < |chain|
    ensures |RowsFor(k, chain, blame, later)| == |chain|
    ensures RowsFor(k, chain, blame, later)[i] ==
      ChainRow(k.0, k.1, chain[i].amendment, i + 1, chain[i].title, chain[i].amendment == blame, chain[i].amendment in later)
  {
    var front := chain[..|chain| - 1];
    if front != [] { RowAt(k, front, blame, later, if i < |front| then i else 0); }
  }

  function WrittenRows(b: map<Key, seq<Entry>>, blame: map<Key, string>, later: map<Key, set<string>>, k: Key): seq<ChainRow> {
    RowsFor(k, SortByVersion(Unique(GetOr(b, k, []))), GetOr(blame, k, ""), GetOr(later, k, {}))
  }

  function AllRows(b: map<Key, seq<Entry>>, blame: map<Key, string>, later: map<Key, set<string>>, keys: seq<Key>): seq<ChainRow> {
    if keys == [] then []
    else AllRows(b, blame, later, keys[..|keys| - 1]) + WrittenRows(b, blame, later, keys[|keys| - 1])
  }

  // "Write section amendment chains": one chain a section, sections in order.
  method WriteChains(b: ChainBuilder) returns (rows: seq<ChainRow>, keys: seq<Key>)
    ensures Increasing(PairLt, keys) && Lists(keys, b.chains.Keys)
    ensures rows == AllRows(b.chains, b.blame, b.later, keys)
  {
    PairIsOrder();
    keys := SortKeys(b.chains.Keys, PairLt);
    rows := [];
    for n := 0 to |keys|
      invariant rows == AllRows(b.chains, b.blame, b.later, keys[..n])
    {
      assert keys[..n + 1][..n] == keys[..n];
      var k := keys[n];
      assert k in keys;
      var unique := Deduplicate(b.chains[k]);
      unique := SortByVersion(unique);
      var blame, later := GetOr(b.blame, k, ""), GetOr(b.later, k, {});
      var chain := NumberRows(k, unique, blame, later);
      rows := rows + chain;
    }
    assert keys[..|keys|] == keys;
  }

  // The innermost loop: `enumerate(unique, 1)`.
  method NumberRows(k: Key, unique: seq<Entry>, blame: string, later: set<string>) returns (chain: seq<ChainRow>)
    ensures chain == RowsFor(k, unique, blame, later)
  {
    chain := [];
    for i := 0 to |unique|
      invariant chain == RowsFor(k, unique[..i], blame, later)
    {
      Longer(unique, i);
      var a := unique[i].amendment;
      chain := chain + [ChainRow(k.0, k.1, a, i + 1, unique[i].title, a == blame, a in later)];
    }
    Whole(unique);
  }

  method Deduplicate(entries: seq<Entry>) returns (unique: seq<Entry>)
    ensures unique == Unique(entries)
  {
    unique := [];
    var seen: set<string> := {};
    for i := 0 to |entries|
      invariant unique == Unique(entries[..i])
      invariant seen == Amendments(unique)
    {
      Longer(entries, i);
      var e := entries[i];
      if e.amendment !in seen {
        AmendmentsSnoc(unique, e);
        seen := seen + {e.amendment};
        unique := unique + [e];
      }
    }
    Whole(entries);
  }

  // ---------------------------------------------------------------- one section's chain

  function RowsOf(supporting: seq<Support>, findings: seq<Finding>): seq<ErrorRow> {
    if findings == [] then []
    else RowsOf(supporting, findings[..|findings| - 1]) + [RowOf(supporting, findings[|findings| - 1])]
  }

  function RecordedBlame(rows: seq<ErrorRow>, section: string): string {
    match LastBlame(rows, section)
    case None => ""
    case Some(b) => b
  }

  // What is written for a section of a statute with one bundle.
  function SectionChain(statute: string, supporting: seq<Support>, findings: seq<Finding>, section: string): seq<ChainRow> {
    var rows := RowsOf(supporting, findings);
    RowsFor((statute, section), SortByVersion(Unique(Touches(supporting, section))),
            RecordedBlame(rows, section), LaterUnion(rows, section))
  }

  ghost predicate TouchedBy(supporting: seq<Support>, section: string, a: string) {
    a != "" && exists sa :: sa in supporting && sa.amendment == a && section in sa.sections
  }

  ghost predicate Blamed(findings: seq<Finding>, section: string, blame: string) {
    blame != "" && Finding(section, blame) in findings
  }

  lemma {:induction false} RepeatedAre(sections: seq<string>, e: Entry, section: string)
    ensures forall x :: x in Repeated(sections, e, section) ==> x == e
    ensures e in Repeated(sections, e, section) <==> section in sections
  {
    if sections != [] {
      assert sections == sections[..|sections| - 1] + [sections[|sections| - 1]];
      RepeatedAre(sections[..|sections| - 1], e, section);
    }
  }

  lemma {:induction false} TouchesAre(supporting: seq<Support>, section: string, a: string)
    ensures (exists e :: e in Touches(supporting, section) && e.amendment == a) <==> TouchedBy(supporting, section, a)
  {
    if supporting != [] {
      var front, last := supporting[..|supporting| - 1], supporting[|supporting| - 1];
      assert supporting == front + [last];
      TouchesAre(front, section, a);
      RepeatedAre(last.sections, Entry(last.amendment, last.title), section);
      if TouchedBy(supporting, section, a) && !TouchedBy(front, section, a) {
        assert Entry(last.amendment, last.title) in EntriesOf(last, section);
      }
    }
  }

  // Duplicate-free, exactly the amendments touching the section, numbered from 1, oldest first.
  lemma ChainIsOrdered(statute: string, supporting: seq<Support>, findings: seq<Finding>, section: string)
    ensures
      var rows := SectionChain(statute, supporting, findings, section);
      && (forall i :: 0 <= i < |rows| ==> rows[i].ord == i + 1 && rows[i].statute == statute && rows[i].section == section)
      && (forall i, j :: 0 <= i < j < |rows| ==>
           rows[i].amendment != rows[j].amendment && !VersionLt(rows[j].amendment, rows[i].amendment))
    ensures forall a :: TouchedBy(supporting, section, a) <==> InChain(SectionChain(statute, supporting, findings, section), a)
  {
    var rows := SectionChain(statute, supporting, findings, section);
    var all := Touches(supporting, section);
    var chain := SortByVersion(Unique(all));
    ChainKeepsAmendments(all);
    ChainRowsAt(statute, supporting, findings, section);
    forall i, j | 0 <= i < j < |rows|
      ensures rows[i].amendment != rows[j].amendment && !VersionLt(rows[j].amendment, rows[i].amendment)
    {
      assert !RankLt(VersionOf(chain[j]), VersionOf(chain[i]));
    }
    forall a ensures TouchedBy(supporting, section, a) <==> InChain(rows, a) {
      TouchesAre(supporting, section, a);
      AmendmentsAt(chain, a);
      AmendmentsAt(all, a);
      InChainAt(chain, rows, a);
    }
  }

  ghost predicate InChain(rows: seq<ChainRow>, a: string) {
    exists i :: 0 <= i < |rows| && rows[i].amendment == a
  }

  lemma AmendmentsAt(s: seq<Entry>, a: string)
    ensures a in Amendments(s) <==> exists e :: e in s && e.amendment == a
  {
  }

  lemma InChainAt(chain: seq<Entry>, rows: seq<ChainRow>, a: string)
    requires |chain| == |rows| && forall i :: 0 <= i < |rows| ==> rows[i].amendment == chain[i].amendment
    ensures InChain(rows, a) <==> a in Amendments(chain)
  {
    if InChain(rows, a) {
      var i :| 0 <= i < |rows| && rows[i].amendment == a;
      assert chain[i] in chain;
    }
    if a in Amendments(chain) {
      var e :| e in chain && e.amendment == a;
      var i :| 0 <= i < |chain| && chain[i] == e;
      assert rows[i].amendment == a;
    }
  }

  lemma ChainKeepsAmendments(all: seq<Entry>)
    ensures var chain := SortByVersion(Unique(all));
      OncePerAmendment(chain) && Ascending(VersionOf, chain) && Amendments(chain) == Amendments(all)
  {
    var unique, chain := Unique(all), SortByVersion(Unique(all));
    UniqueOnce(all);
    SortBySorts(VersionOf, unique, (0, 0));
    OnceIsKept(unique, chain);
    SameMembers(unique, chain);
    assert Amendments(chain) == Amendments(unique);
  }

  lemma SameMembers(s: seq<Entry>, t: seq<Entry>)
    requires multiset(s) == multiset(t)
    ensures forall x :: x in s <==> x in t
  {
    forall x ensures x in s <==> x in t {
      assert x in s <==> x in multiset(s);
      assert x in t <==> x in multiset(t);
    }
  }

  lemma ChainRowsAt(statute: string, supporting: seq<Support>, findings: seq<Finding>, section: string)
    ensures
      var rows := SectionChain(statute, supporting, findings, section);
      var chain := SortByVersion(Unique(Touches(supporting, section)));
      var errors := RowsOf(supporting, findings);
      && |rows| == |chain|
      && forall i :: 0 <= i < |rows| ==>
           && rows[i].statute == statute && rows[i].section == section
           && rows[i].amendment == chain[i].amendment && rows[i].ord == i + 1 && rows[i].title == chain[i].title
           && (rows[i].isBlameSource <==> chain[i].amendment == RecordedBlame(errors, section))
           && (rows[i].isLaterTouch <==> chain[i].amendment in LaterUnion(errors, section))
  {
    var chain := SortByVersion(Unique(Touches(supporting, section)));
    var errors := RowsOf(supporting, findings);
    var rows := SectionChain(statute, supporting, findings, section);
    var k, blame, later := (statute, section), RecordedBlame(errors, section), LaterUnion(errors, section);
    assert rows == RowsFor(k, chain, blame, later);
    if chain != [] { RowAt(k, chain, blame, later, 0); }
    forall i | 0 <= i < |chain|
      ensures rows[i] ==
        ChainRow(statute, section, chain[i].amendment, i + 1, chain[i].title, chain[i].amendment == blame, chain[i].amendment in later)
    {
      RowAt(k, chain, blame, later, i);
    }
  }

  // The first entry of an amendment.
  function FirstOf(entries: seq<Entry>, a: string): Option<Entry> {
    if entries == [] then None
    else
      var earlier, last := FirstOf(entries[..|entries| - 1], a), entries[|entries| - 1];
      if earlier.None? && last.amendment == a then Some(last) else earlier
  }

  lemma {:induction false} UniqueIsFirst(entries: seq<Entry>, a: string)
    ensures FirstOf(entries, a).Some? <==> a in Amendments(entries)
    ensures forall e :: e in Unique(entries) && e.amendment == a ==> FirstOf(entries, a) == Some(e)
  {
    if entries != [] {
      var front, last := entries[..|entries| - 1], entries[|entries| - 1];
      Front(entries);
      UniqueIsFirst(front, a);
      AmendmentsSnoc(front, last);
      UniqueOnce(front);
    }
  }

  // Supporting amendment m is the first with this id that touches the section.
  ghost predicate FirstTouch(supporting: seq<Support>, section: string, a: string, m: int) {
    && 0 <= m < |supporting| && TouchesAt(supporting[m], section, a)
    && forall j :: 0 <= j < m ==> !TouchesAt(supporting[j], section, a)
  }

  ghost predicate TouchesAt(sa: Support, section: string, a: string) {
    a != "" && sa.amendment == a && section in sa.sections
  }

  lemma {:induction false} FirstOfConcat(s: seq<Entry>, t: seq<Entry>, a: string)
    ensures FirstOf(s + t, a) == if FirstOf(s, a).Some? then FirstOf(s, a) else FirstOf(t, a)
  {
    if t == [] {
      assert s + t == s;
    } else {
      var front := t[..|t| - 1];
      FirstOfConcat(s, front, a);
      assert (s + t)[..|s + t| - 1] == s + front;
    }
  }

  lemma {:induction false} FirstOfOne(s: seq<Entry>, e: Entry, a: string)
    requires forall x :: x in s ==> x == e
    ensures FirstOf(s, a) == if e in s && e.amendment == a then Some(e) else None
  {
    if s != [] {
      var front, last := s[..|s| - 1], s[|s| - 1];
      Front(s);
      assert last in s;
      forall x | x in front ensures x == e { assert x in s; }
      FirstOfOne(front, e, a);
    }
  }

  lemma FirstOfEntries(sa: Support, section: string, a: string)
    ensures FirstOf(EntriesOf(sa, section), a) == if TouchesAt(sa, section, a) then Some(Entry(a, sa.title)) else None
  {
    var e := Entry(sa.amendment, sa.title);
    RepeatedAre(sa.sections, e, section);
    if sa.amendment != "" { FirstOfOne(EntriesOf(sa, section), e, a); }
  }

  // The first entry collected for an amendment has the title of its first touch.
  lemma {:induction false} FirstTouchTitle(supporting: seq<Support>, section: string, a: string) returns (m: int)
    ensures FirstOf(Touches(supporting, section), a).Some? ==>
      FirstTouch(supporting, section, a, m) && FirstOf(Touches(supporting, section), a).value == Entry(a, supporting[m].title)
    ensures FirstOf(Touches(supporting, section), a).None? ==> forall sa :: sa in supporting ==> !TouchesAt(sa, section, a)
  {
    m := 0;
    if supporting != [] {
      var front, last := supporting[..|supporting| - 1], supporting[|supporting| - 1];
      assert supporting == front + [last];
      m := FirstTouchTitle(front, section, a);
      FirstOfConcat(Touches(front, section), EntriesOf(last, section), a);
      FirstOfEntries(last, section, a);
      if FirstOf(Touches(front, section), a).None? {
        m := |front|;
        forall j | 0 <= j < m ensures !TouchesAt(supporting[j], section, a) { assert supporting[j] == front[j] && front[j] in front; }
      }
    }
  }

  // A chain row carries the title of the first supporting amendment with its id that touches
  // the section.
  lemma ChainTitles(statute: string, supporting: seq<Support>, findings: seq<Finding>, section: string, i: nat)
    requires i < |SectionChain(statute, supporting, findings, section)|
    ensures
      var row := SectionChain(statute, supporting, findings, section)[i];
      exists m :: FirstTouch(supporting, section, row.amendment, m) && row.title == supporting[m].title
  {
    var all := Touches(supporting, section);
    ChainRowsAt(statute, supporting, findings, section);
    RowIsFirst(all, i);
    var m := FirstTouchTitle(supporting, section, SortByVersion(Unique(all))[i].amendment);
  }

  lemma RowIsFirst(all: seq<Entry>, i: nat)
    requires i < |SortByVersion(Unique(all))|
    ensures FirstOf(all, SortByVersion(Unique(all))[i].amendment) == Some(SortByVersion(Unique(all))[i])
  {
    var chain := SortByVersion(Unique(all));
    SortBySorts(VersionOf, Unique(all), (0, 0));
    SameMembers(Unique(all), chain);
    assert chain[i] in chain;
    UniqueIsFirst(all, chain[i].amendment);
  }

  // ---------------------------------------------------------------- the flags

  lemma {:induction false} LaterUnionAre(supporting: seq<Support>, findings: seq<Finding>, section: string, a: string)
    ensures a in LaterUnion(RowsOf(supporting, findings), section) <==>
      exists b :: Blamed(findings, section, b) && a in LaterTouches(supporting, section, b)
  {
    if findings != [] {
      var front, last := findings[..|findings| - 1], findings[|findings| - 1];
      assert findings == front + [last];
      LaterUnionAre(supporting, front, section, a);
      var rows := RowsOf(supporting, front);
      assert RowsOf(supporting, findings)[..|rows|] == rows;
      assert RowsOf(supporting, findings)[|rows|] == RowOf(supporting, last);
      if a in LaterUnion(rows, section) {
        var b :| Blamed(front, section, b) && a in LaterTouches(supporting, section, b);
        assert Blamed(findings, section, b);
      }
      if a in LaterOf(RowOf(supporting, last), section) {
        assert Blamed(findings, section, last.blame);
      }
    }
  }

  // An amendment of the chain is a later touch exactly when it is strictly newer than the
  // blame of some error row of the section, whatever the number of rows; so the flagged
  // rows are a suffix of the chain.
  lemma LaterTouchIsNewer(statute: string, supporting: seq<Support>, findings: seq<Finding>, section: string)
    ensures
      var rows := SectionChain(statute, supporting, findings, section);
      && (forall i :: 0 <= i < |rows| ==>
           (rows[i].isLaterTouch <==> exists b :: Blamed(findings, section, b) && VersionLt(b, rows[i].amendment)))
      && (forall i, j :: 0 <= i < j < |rows| && rows[i].isLaterTouch ==> rows[j].isLaterTouch)
  {
    var rows := SectionChain(statute, supporting, findings, section);
    ChainIsOrdered(statute, supporting, findings, section);
    ChainRowsAt(statute, supporting, findings, section);
    forall i | 0 <= i < |rows|
      ensures rows[i].isLaterTouch <==> exists b :: Blamed(findings, section, b) && VersionLt(b, rows[i].amendment)
    {
      var a := rows[i].amendment;
      assert InChain(rows, a) && TouchedBy(supporting, section, a);
      LaterUnionAre(supporting, findings, section, a);
      forall b | Blamed(findings, section, b) ensures a in LaterTouches(supporting, section, b) <==> VersionLt(b, a) {
        LaterTouchesAre(supporting, section, b, a);
      }
    }
    forall i, j | 0 <= i < j < |rows| && rows[i].isLaterTouch ensures rows[j].isLaterTouch {
      var b :| Blamed(findings, section, b) && VersionLt(b, rows[i].amendment);
      assert VersionLt(b, rows[j].amendment);
    }
  }

  // With one blamed error row the flagged rows are exactly those strictly newer than the
  // blamed amendment, and there are none exactly when the row is marked the last touch.
  lemma OneRowPerSection(statute: string, supporting: seq<Support>, findings: seq<Finding>, section: string, blame: string)
    requires section != "" && blame != ""
    requires forall b :: Blamed(findings, section, b) <==> b == blame
    ensures
      var rows := SectionChain(statute, supporting, findings, section);
      && (forall i :: 0 <= i < |rows| ==> (rows[i].isLaterTouch <==> VersionLt(blame, rows[i].amendment)))
      && (forall i :: 0 <= i < |rows| ==> (rows[i].isBlameSource <==> rows[i].amendment == blame))
      && ((forall i :: 0 <= i < |rows| ==> !rows[i].isLaterTouch) <==>
           RowOf(supporting, Finding(section, blame)).isLastTouch == 1)
  {
    var rows := SectionChain(statute, supporting, findings, section);
    LaterTouchIsNewer(statute, supporting, findings, section);
    ChainRowsAt(statute, supporting, findings, section);
    LastBlameIsBlamed(supporting, findings, section);
    assert Blamed(findings, section, blame);
    var later := LaterTouches(supporting, section, blame);
    if later != [] {
      var a := later[0];
      LaterTouchesAre(supporting, section, blame, a);
      NewerIsNamed(blame, a);
      ChainIsOrdered(statute, supporting, findings, section);
      assert TouchedBy(supporting, section, a);
      assert InChain(rows, a);
      var i :| 0 <= i < |rows| && rows[i].amendment == a;
      assert rows[i].isLaterTouch;
    } else {
      ChainIsOrdered(statute, supporting, findings, section);
      forall i | 0 <= i < |rows| ensures !rows[i].isLaterTouch {
        LaterTouchesAre(supporting, section, blame, rows[i].amendment);
        assert InChain(rows, rows[i].amendment) && TouchedBy(supporting, section, rows[i].amendment);
      }
    }
  }

  lemma NewerIsNamed(a: string, b: string)
    ensures VersionLt(a, b) ==> b != ""
  {
  }

  lemma {:induction false} LastBlameIsBlamed(supporting: seq<Support>, findings: seq<Finding>, section: string)
    ensures LastBlame(RowsOf(supporting, findings), section).Some? ==>
      Blamed(findings, section, LastBlame(RowsOf(supporting, findings), section).value)
    ensures LastBlame(RowsOf(supporting, findings), section).None? ==> forall b :: !Blamed(findings, section, b)
  {
    if findings != [] {
      var front, last := findings[..|findings| - 1], findings[|findings| - 1];
      assert findings == front + [last];
      LastBlameIsBlamed(supporting, front, section);
      forall b ensures Blamed(findings, section, b) <==>
        Blamed(front, section, b) || (b != "" && last == Finding(section, b)) { }
      var rows := RowsOf(supporting, front);
      assert RowsOf(supporting, findings)[..|rows|] == rows;
      assert RowsOf(supporting, findings)[|rows|] == RowOf(supporting, last);
    }
  }

  // With several rows, the flags still are "newer than the recorded blame" exactly when no
  // amendment of the chain is newer than some row's blame without being newer than the
  // recorded one.
  lemma FlagsAgainstRecordedBlame(statute: string, supporting: seq<Support>, findings: seq<Finding>, section: string)
    ensures
      var rows := SectionChain(statute, supporting, findings, section);
      var recorded := RecordedBlame(RowsOf(supporting, findings), section);
      (forall i :: 0 <= i < |rows| ==> (rows[i].isLaterTouch <==> recorded != "" && VersionLt(recorded, rows[i].amendment)))
      <==>
      !exists a, b :: TouchedBy(supporting, section, a) && Blamed(findings, section, b) && VersionLt(b, a) && !VersionLt(recorded, a)
  {
    var rows := SectionChain(statute, supporting, findings, section);
    LaterTouchIsNewer(statute, supporting, findings, section);
    ChainIsOrdered(statute, supporting, findings, section);
    LastBlameIsBlamed(supporting, findings, section);
    var recorded := RecordedBlame(RowsOf(supporting, findings), section);
    if a, b :| TouchedBy(supporting, section, a) && Blamed(findings, section, b) && VersionLt(b, a) && !VersionLt(recorded, a) {
      assert InChain(rows, a);
      var i :| 0 <= i < |rows| && rows[i].amendment == a;
      assert rows[i].isLaterTouch;
    } else {
      forall i | 0 <= i < |rows|
        ensures rows[i].isLaterTouch <==> recorded != "" && VersionLt(recorded, rows[i].amendment)
      {
        assert InChain(rows, rows[i].amendment) && TouchedBy(supporting, section, rows[i].amendment);
      }
    }
  }

  // No row of a section is flagged exactly when every blamed error row of it is marked the
  // last touch.
  lemma NoFlagIsLastTouch(statute: string, supporting: seq<Support>, findings: seq<Finding>, section: string)
    ensures
      (forall i :: 0 <= i < |SectionChain(statute, supporting, findings, section)| ==>
        !SectionChain(statute, supporting, findings, section)[i].isLaterTouch) <==>
      forall b :: Blamed(findings, section, b) ==> RowOf(supporting, Finding(section, b)).isLastTouch == 1
  {
    var rows := SectionChain(statute, supporting, findings, section);
    LaterTouchIsNewer(statute, supporting, findings, section);
    ChainIsOrdered(statute, supporting, findings, section);
    if b :| Blamed(findings, section, b) && RowOf(supporting, Finding(section, b)).isLastTouch != 1 {
      var a := LaterTouches(supporting, section, b)[0];
      LaterTouchesAre(supporting, section, b, a);
      NewerIsNamed(b, a);
      assert TouchedBy(supporting, section, a);
      assert InChain(rows, a);
      var i :| 0 <= i < |rows| && rows[i].amendment == a;
      assert rows[i].isLaterTouch;
    }
    if i :| 0 <= i < |rows| && rows[i].isLaterTouch {
      var a := rows[i].amendment;
      var b :| Blamed(findings, section, b) && VersionLt(b, a);
      assert InChain(rows, a) && TouchedBy(supporting, section, a);
      LaterTouchesAre(supporting, section, b, a);
    }
  }

  ghost predicate Flagged(rows: seq<ChainRow>, a: string) {
    exists i :: 0 <= i < |rows| && rows[i].amendment == a && rows[i].isLaterTouch
  }

  // Any touch newer than some blame of the section is flagged.
  lemma NewerIsFlagged(statute: string, supporting: seq<Support>, findings: seq<Finding>, section: string, a: string, b: string)
    requires TouchedBy(supporting, section, a) && Blamed(findings, section, b)
    ensures VersionLt(b, a) ==> Flagged(SectionChain(statute, supporting, findings, section), a)
  {
    var rows := SectionChain(statute, supporting, findings, section);
    LaterTouchIsNewer(statute, supporting, findings, section);
    ChainIsOrdered(statute, supporting, findings, section);
    assert InChain(rows, a);
    var i :| 0 <= i < |rows| && rows[i].amendment == a;
    assert VersionLt(b, a) ==> rows[i].isLaterTouch;
  }

  // Two error rows of one section, blamed on an older and then on a newer amendment, and a
  // touch between them: it is flagged though older than the recorded blame.
  lemma FlagOlderThanBlame(statute: string, supporting: seq<Support>, findings: seq<Finding>, section: string,
                           older: string, between: string, newer: string)
    requires older != "" && between != "" && newer != ""
    requires supporting == [Support(between, "", [section])]
    requires findings == [Finding(section, older), Finding(section, newer)]
    ensures RecordedBlame(RowsOf(supporting, findings), section) == newer
    ensures VersionLt(older, between) && VersionLt(between, newer) ==>
      Flagged(SectionChain(statute, supporting, findings, section), between) && !VersionLt(newer, between)
  {
    assert supporting[0] in supporting && section in supporting[0].sections;
    assert TouchedBy(supporting, section, between);
    assert findings[0] in findings && Blamed(findings, section, older);
    NewerIsFlagged(statute, supporting, findings, section, between, older);
    TwoRows(supporting, findings, section);
  }

  lemma TwoRows(supporting: seq<Support>, findings: seq<Finding>, section: string)
    requires findings != []
    requires findings[|findings| - 1].section == section && findings[|findings| - 1].blame != ""
    ensures RecordedBlame(RowsOf(supporting, findings), section) == findings[|findings| - 1].blame
  {
    var rows := RowsOf(supporting, findings);
    assert rows[|rows| - 1] == RowOf(supporting, findings[|findings| - 1]);
  }

  // ---------------------------------------------------------------- all bundles

  datatype Bundle = Bundle(statute: string, supporting: seq<Support>, findings: seq<Finding>)

  // What all bundles together collect under a key, in bundle order.
  function AllTouches(bundles: seq<Bundle>, k: Key): seq<Entry> {
    if bundles == [] then []
    else
      var u := bundles[|bundles| - 1];
      AllTouches(bundles[..|bundles| - 1], k) + Added(u.statute, k, Touches(u.supporting, k.1))
  }

  function AllBlame(bundles: seq<Bundle>, k: Key): string {
    if bundles == [] then ""
    else
      var u := bundles[|bundles| - 1];
      BlameAfter(AllBlame(bundles[..|bundles| - 1], k), u.statute, RowsOf(u.supporting, u.findings), k)
  }

  function AllLater(bundles: seq<Bundle>, k: Key): set<string> {
    if bundles == [] then {}
    else
      var u := bundles[|bundles| - 1];
      LaterAfter(AllLater(bundles[..|bundles| - 1], k), u.statute, RowsOf(u.supporting, u.findings), k)
  }

  // The chain written under a key.
  function ChainOf(bundles: seq<Bundle>, k: Key): seq<ChainRow> {
    RowsFor(k, SortByVersion(Unique(AllTouches(bundles, k))), AllBlame(bundles, k), AllLater(bundles, k))
  }

  function ChainsOf(bundles: seq<Bundle>, keys: seq<Key>): seq<ChainRow> {
    if keys == [] then [] else ChainsOf(bundles, keys[..|keys| - 1]) + ChainOf(bundles, keys[|keys| - 1])
  }

  ghost predicate Holds(b: ChainBuilder, bundles: seq<Bundle>)
    reads b
  {
    && b.Full()
    && (forall k: Key :: GetOr(b.chains, k, []) == AllTouches(bundles, k))
    && (forall k: Key :: GetOr(b.blame, k, "") == AllBlame(bundles, k))
    && (forall k: Key :: GetOr(b.later, k, {}) == AllLater(bundles, k))
  }

  lemma {:induction false} RowsAreRowsOf(supporting: seq<Support>, findings: seq<Finding>, rows: seq<ErrorRow>)
    requires |rows| == |findings| && forall i :: 0 <= i < |rows| ==> rows[i] == RowOf(supporting, findings[i])
    ensures rows == RowsOf(supporting, findings)
  {
    if rows != [] {
      var n := |rows| - 1;
      var rest, some := rows[..n], findings[..n];
      forall i | 0 <= i < n ensures rest[i] == RowOf(supporting, some[i]) {
        assert rest[i] == rows[i] && some[i] == findings[i];
      }
      RowsAreRowsOf(supporting, some, rest);
      Front(rows);
      assert rows[n] == RowOf(supporting, findings[n]);
    }
  }

  // One more bundle.
  method AddBundle(b: ChainBuilder, u: Bundle, ghost done: seq<Bundle>)
    requires Holds(b, done)
    modifies b
    ensures Holds(b, done + [u])
  {
    var rows := SectionRows(u.supporting, u.findings);
    RowsAreRowsOf(u.supporting, u.findings, rows);
    b.Collect(u.statute, u.supporting);
    b.Record(u.statute, rows);
    assert (done + [u])[..|done|] == done;
  }

  lemma {:induction false} RowsWritten(chains: map<Key, seq<Entry>>, blame: map<Key, string>, later: map<Key, set<string>>,
                                       bundles: seq<Bundle>, keys: seq<Key>)
    requires forall k: Key :: WrittenRows(chains, blame, later, k) == ChainOf(bundles, k)
    ensures AllRows(chains, blame, later, keys) == ChainsOf(bundles, keys)
  {
    if keys != [] { RowsWritten(chains, blame, later, bundles, keys[..|keys| - 1]); }
  }

  // The bundle loop and the final write, for any bundles, several of one statute included.
  method Publish(bundles: seq<Bundle>) returns (rows: seq<ChainRow>, keys: seq<Key>)
    ensures Increasing(PairLt, keys) && forall k: Key :: k in keys <==> AllTouches(bundles, k) != []
    ensures rows == ChainsOf(bundles, keys)
  {
    var b := new ChainBuilder();
    for n := 0 to |bundles|
      invariant fresh(b) && Holds(b, bundles[..n])
    {
      AddBundle(b, bundles[n], bundles[..n]);
      Longer(bundles, n);
    }
    Whole(bundles);
    rows, keys := WriteChains(b);
    forall k: Key ensures WrittenRows(b.chains, b.blame, b.later, k) == ChainOf(bundles, k) {
      assert GetOr(b.chains, k, []) == AllTouches(bundles, k);
      assert GetOr(b.blame, k, "") == AllBlame(bundles, k) && GetOr(b.later, k, {}) == AllLater(bundles, k);
    }
    RowsWritten(b.chains, b.blame, b.later, bundles, keys);
    forall k: Key ensures k in keys <==> AllTouches(bundles, k) != [] {
      assert GetOr(b.chains, k, []) == AllTouches(bundles, k);
    }
  }

  // Bundle n is the only one of its statute.
  ghost predicate OnlyBundle(bundles: seq<Bundle>, n: nat) {
    n < |bundles| && forall i :: 0 <= i < |bundles| && i != n ==> bundles[i].statute != bundles[n].statute
  }

  // Then the chains of its sections are its own.
  lemma OnlyBundleChain(bundles: seq<Bundle>, n: nat, section: string)
    requires OnlyBundle(bundles, n) && section != ""
    ensures ChainOf(bundles, (bundles[n].statute, section)) ==
      SectionChain(bundles[n].statute, bundles[n].supporting, bundles[n].findings, section)
  {
    OnlyBundleCollects(bundles, n, (bundles[n].statute, section));
  }

  lemma {:induction false} OnlyBundleCollects(bundles: seq<Bundle>, n: nat, k: Key)
    requires OnlyBundle(bundles, n) && k.0 == bundles[n].statute && k.1 != ""
    ensures AllTouches(bundles, k) == Touches(bundles[n].supporting, k.1)
    ensures AllBlame(bundles, k) == RecordedBlame(RowsOf(bundles[n].supporting, bundles[n].findings), k.1)
    ensures AllLater(bundles, k) == LaterUnion(RowsOf(bundles[n].supporting, bundles[n].findings), k.1)
    decreases |bundles|
  {
    var front, u := bundles[..|bundles| - 1], bundles[|bundles| - 1];
    if n < |front| {
      assert front[n] == bundles[n] && u.statute != k.0;
      OnlyBundleCollects(front, n, k);
      OtherStatute(bundles, k);
    } else {
      NothingCollected(front, k);
      LoneBundle(u, k);
    }
  }

  lemma OtherStatute(bundles: seq<Bundle>, k: Key)
    requires bundles != [] && bundles[|bundles| - 1].statute != k.0
    ensures
      var front := bundles[..|bundles| - 1];
      && AllTouches(bundles, k) == AllTouches(front, k)
      && AllBlame(bundles, k) == AllBlame(front, k)
      && AllLater(bundles, k) == AllLater(front, k)
  {
    NoneAdded(AllTouches(bundles[..|bundles| - 1], k));
  }

  lemma LoneBundle(u: Bundle, k: Key)
    requires k.0 == u.statute && k.1 != ""
    ensures
      var rows := RowsOf(u.supporting, u.findings);
      && [] + Added(u.statute, k, Touches(u.supporting, k.1)) == Touches(u.supporting, k.1)
      && BlameAfter("", u.statute, rows, k) == RecordedBlame(rows, k.1)
      && LaterAfter({}, u.statute, rows, k) == LaterUnion(rows, k.1)
  {
  }

  lemma {:induction false} NothingCollected(bundles: seq<Bundle>, k: Key)
    requires forall i :: 0 <= i < |bundles| ==> bundles[i].statute != k.0
    ensures AllTouches(bundles, k) == [] && AllBlame(bundles, k) == "" && AllLater(bundles, k) == {}
  {
    if bundles != [] {
      NothingCollected(bundles[..|bundles| - 1], k);
      assert bundles[|bundles| - 1].statute != k.0;
    }
  }

  // ---------------------------------------------------------------- several bundles of one statute

  ghost predicate TouchedIn(bundles: seq<Bundle>, k: Key, a: string) {
    k.1 != "" && exists u :: u in bundles && u.statute == k.0 && TouchedBy(u.supporting, k.1, a)
  }

  // Some bundle of the statute blames an older amendment for the section and has a touching it.
  ghost predicate NewerIn(bundles: seq<Bundle>, k: Key, a: string) {
    k.1 != "" && exists u, b ::
      u in bundles && u.statute == k.0 && TouchedBy(u.supporting, k.1, a) && Blamed(u.findings, k.1, b) && VersionLt(b, a)
  }

  lemma {:induction false} AllTouchesAre(bundles: seq<Bundle>, k: Key, a: string)
    ensures a in Amendments(AllTouches(bundles, k)) <==> TouchedIn(bundles, k, a)
  {
    if bundles != [] {
      var front, u := bundles[..|bundles| - 1], bundles[|bundles| - 1];
      Front(bundles);
      AllTouchesAre(front, k, a);
      TouchesAre(u.supporting, k.1, a);
      AmendmentsAt(Touches(u.supporting, k.1), a);
      AmendmentsConcat(AllTouches(front, k), Added(u.statute, k, Touches(u.supporting, k.1)));
    }
  }

  lemma AmendmentsConcat(s: seq<Entry>, t: seq<Entry>)
    ensures Amendments(s + t) == Amendments(s) + Amendments(t)
  {
    forall a ensures a in Amendments(s + t) <==> a in Amendments(s) + Amendments(t) {
      AmendmentsAt(s, a);
      AmendmentsAt(t, a);
      AmendmentsAt(s + t, a);
      if a in Amendments(s) { var e :| e in s && e.amendment == a; assert e in s + t; }
      if a in Amendments(t) { var e :| e in t && e.amendment == a; assert e in s + t; }
    }
  }

  lemma LaterInBundle(u: Bundle, section: string, a: string)
    ensures a in LaterUnion(RowsOf(u.supporting, u.findings), section) <==>
      exists b :: TouchedBy(u.supporting, section, a) && Blamed(u.findings, section, b) && VersionLt(b, a)
  {
    LaterUnionAre(u.supporting, u.findings, section, a);
    forall b | Blamed(u.findings, section, b)
      ensures a in LaterTouches(u.supporting, section, b) <==> TouchedBy(u.supporting, section, a) && VersionLt(b, a)
    {
      LaterTouchesAre(u.supporting, section, b, a);
      if VersionLt(b, a) { NewerIsNamed(b, a); }
    }
  }

  lemma {:induction false} AllLaterAre(bundles: seq<Bundle>, k: Key, a: string)
    ensures a in AllLater(bundles, k) <==> NewerIn(bundles, k, a)
  {
    if bundles != [] {
      var front, u := bundles[..|bundles| - 1], bundles[|bundles| - 1];
      Front(bundles);
      AllLaterAre(front, k, a);
      LaterInBundle(u, k.1, a);
      if u.statute == k.0 && k.1 != "" && a in LaterUnion(RowsOf(u.supporting, u.findings), k.1) {
        var b :| TouchedBy(u.supporting, k.1, a) && Blamed(u.findings, k.1, b) && VersionLt(b, a);
        assert u in bundles;
      }
    }
  }

  // Over any bundles: a chain is duplicate-free, numbered and in version order, holds exactly
  // the amendments by which some bundle of the statute touches the section, and flags exactly
  // those newer than a blame of a bundle that has them.
  lemma ChainOverBundles(bundles: seq<Bundle>, k: Key)
    ensures
      var rows := ChainOf(bundles, k);
      && (forall i :: 0 <= i < |rows| ==> rows[i].ord == i + 1 && rows[i].statute == k.0 && rows[i].section == k.1)
      && (forall i, j :: 0 <= i < j < |rows| ==>
           rows[i].amendment != rows[j].amendment && !VersionLt(rows[j].amendment, rows[i].amendment))
      && (forall i :: 0 <= i < |rows| ==> (rows[i].isLaterTouch <==> NewerIn(bundles, k, rows[i].amendment)))
    ensures forall a :: TouchedIn(bundles, k, a) <==> InChain(ChainOf(bundles, k), a)
  {
    var rows, all := ChainOf(bundles, k), AllTouches(bundles, k);
    var blame, later := AllBlame(bundles, k), AllLater(bundles, k);
    var chain := SortByVersion(Unique(all));
    ChainKeepsAmendments(all);
    if chain != [] { RowAt(k, chain, blame, later, 0); }
    forall i | 0 <= i < |rows|
      ensures rows[i] == ChainRow(k.0, k.1, chain[i].amendment, i + 1, chain[i].title,
                                  chain[i].amendment == blame, chain[i].amendment in later)
      ensures rows[i].isLaterTouch <==> NewerIn(bundles, k, rows[i].amendment)
    {
      RowAt(k, chain, blame, later, i);
      AllLaterAre(bundles, k, chain[i].amendment);
    }
    forall i, j | 0 <= i < j < |rows| ensures !VersionLt(rows[j].amendment, rows[i].amendment) {
      assert !RankLt(VersionOf(chain[j]), VersionOf(chain[i]));
    }
    forall a ensures TouchedIn(bundles, k, a) <==> InChain(rows, a) {
      AllTouchesAre(bundles, k, a);
      InChainAt(chain, rows, a);
    }
  }

  // ---------------------------------------------------------------- titles and recorded blame

  // Its first touch over all bundles: supporting amendment m of bundle n.
  ghost predicate FirstTouchIn(bundles: seq<Bundle>, k: Key, a: string, n: int, m: int) {
    && k.1 != "" && 0 <= n < |bundles| && bundles[n].statute == k.0 && FirstTouch(bundles[n].supporting, k.1, a, m)
    && forall i :: 0 <= i < n && bundles[i].statute == k.0 ==> !Touching(bundles[i], k.1, a)
  }

  ghost predicate Touching(u: Bundle, section: string, a: string) {
    exists sa :: sa in u.supporting && TouchesAt(sa, section, a)
  }

  lemma {:induction false} FirstInTitle(bundles: seq<Bundle>, k: Key, a: string) returns (n: int, m: int)
    ensures FirstOf(AllTouches(bundles, k), a).Some? ==>
      FirstTouchIn(bundles, k, a, n, m) && FirstOf(AllTouches(bundles, k), a).value == Entry(a, bundles[n].supporting[m].title)
    ensures FirstOf(AllTouches(bundles, k), a).None? && k.1 != "" ==>
      forall i :: 0 <= i < |bundles| && bundles[i].statute == k.0 ==> !Touching(bundles[i], k.1, a)
  {
    n, m := 0, 0;
    if bundles != [] {
      var front, u := bundles[..|bundles| - 1], bundles[|bundles| - 1];
      Front(bundles);
      n, m := FirstInTitle(front, k, a);
      var here := Added(u.statute, k, Touches(u.supporting, k.1));
      FirstOfConcat(AllTouches(front, k), here, a);
      if FirstOf(AllTouches(front, k), a).None? {
        var at := FirstTouchTitle(u.supporting, k.1, a);
        n, m := |front|, at;
        forall i | 0 <= i < n && bundles[i].statute == k.0 && k.1 != "" ensures !Touching(bundles[i], k.1, a) {
          assert bundles[i] == front[i];
        }
      }
    }
  }

  // Finding m is the last of the section that has a blame.
  ghost predicate LastBlamed(findings: seq<Finding>, section: string, m: int) {
    && 0 <= m < |findings| && BlamesFor(findings[m], section)
    && forall j :: m < j < |findings| ==> !BlamesFor(findings[j], section)
  }

  ghost predicate BlamesFor(f: Finding, section: string) {
    f.section == section && f.blame != ""
  }

  ghost predicate Blaming(u: Bundle, section: string) {
    exists f :: f in u.findings && BlamesFor(f, section)
  }

  lemma {:induction false} LastBlameAt(supporting: seq<Support>, findings: seq<Finding>, section: string) returns (m: int)
    ensures LastBlame(RowsOf(supporting, findings), section).Some? ==>
      LastBlamed(findings, section, m) && LastBlame(RowsOf(supporting, findings), section).value == findings[m].blame
    ensures LastBlame(RowsOf(supporting, findings), section).None? ==> forall f :: f in findings ==> !BlamesFor(f, section)
  {
    m := 0;
    if findings != [] {
      var front, last := findings[..|findings| - 1], findings[|findings| - 1];
      assert findings == front + [last];
      m := LastBlameAt(supporting, front, section);
      var rows := RowsOf(supporting, front);
      assert RowsOf(supporting, findings)[..|rows|] == rows;
      assert RowsOf(supporting, findings)[|rows|] == RowOf(supporting, last);
      if BlamesFor(last, section) { m := |front|; }
    }
  }

  // The last blame over all bundles: finding m of bundle n.
  ghost predicate LastBlamedIn(bundles: seq<Bundle>, k: Key, n: int, m: int) {
    && k.1 != "" && 0 <= n < |bundles| && bundles[n].statute == k.0 && LastBlamed(bundles[n].findings, k.1, m)
    && forall i :: n < i < |bundles| && bundles[i].statute == k.0 ==> !Blaming(bundles[i], k.1)
  }

  lemma {:induction false} AllBlameAt(bundles: seq<Bundle>, k: Key) returns (n: int, m: int)
    ensures AllBlame(bundles, k) != "" ==> LastBlamedIn(bundles, k, n, m) && AllBlame(bundles, k) == bundles[n].findings[m].blame
    ensures AllBlame(bundles, k) == "" ==> forall i, j :: !LastBlamedIn(bundles, k, i, j)
  {
    n, m := 0, 0;
    if bundles != [] {
      var front, u := bundles[..|bundles| - 1], bundles[|bundles| - 1];
      Front(bundles);
      n, m := AllBlameAt(front, k);
      var at := LastBlameAt(u.supporting, u.findings, k.1);
      if u.statute == k.0 && k.1 != "" && LastBlame(RowsOf(u.supporting, u.findings), k.1).Some? {
        n, m := |front|, at;
      } else if AllBlame(bundles, k) == "" {
        forall i, j ensures !LastBlamedIn(bundles, k, i, j) {
          assert !LastBlamedIn(front, k, i, j);
          if i == |front| && 0 <= j < |u.findings| { assert u.findings[j] in u.findings; }
        }
      }
    }
  }

  // Over any bundles: a row carries the title of its amendment's first touch, and is the blame
  // source exactly when its amendment is the last blame of the section.
  lemma RowDetails(bundles: seq<Bundle>, k: Key, i: nat)
    requires i < |ChainOf(bundles, k)|
    ensures
      var row := ChainOf(bundles, k)[i];
      && (exists n, m :: FirstTouchIn(bundles, k, row.amendment, n, m) && row.title == bundles[n].supporting[m].title)
      && (row.isBlameSource <==> exists n, m :: LastBlamedIn(bundles, k, n, m) && bundles[n].findings[m].blame == row.amendment)
  {
    var all := AllTouches(bundles, k);
    var chain := SortByVersion(Unique(all));
    RowsAt(bundles, k);
    RowAt(k, chain, AllBlame(bundles, k), AllLater(bundles, k), i);
    RowIsFirst(all, i);
    var a := chain[i].amendment;
    var n, m := FirstInTitle(bundles, k, a);
    assert FirstTouchIn(bundles, k, a, n, m);
    RowBlame(bundles, k, a);
  }

  lemma RowBlame(bundles: seq<Bundle>, k: Key, a: string)
    requires a != ""
    ensures a == AllBlame(bundles, k) <==> exists n, m :: LastBlamedIn(bundles, k, n, m) && bundles[n].findings[m].blame == a
  {
    var n, m := AllBlameAt(bundles, k);
    if i, j :| LastBlamedIn(bundles, k, i, j) && bundles[i].findings[j].blame == a {
      OneLastBlame(bundles, k, n, m, i, j);
    }
  }

  lemma OneLastBlame(bundles: seq<Bundle>, k: Key, n: int, m: int, i: int, j: int)
    requires LastBlamedIn(bundles, k, n, m) && LastBlamedIn(bundles, k, i, j)
    ensures n == i && m == j
  {
    assert bundles[n].findings[m] in bundles[n].findings && bundles[i].findings[j] in bundles[i].findings;
    assert Blaming(bundles[n], k.1) && Blaming(bundles[i], k.1);
  }

  // ---------------------------------------------------------------- when the flags form a suffix

  ghost predicate Suffix(rows: seq<ChainRow>) {
    forall i, j :: 0 <= i < j < |rows| && rows[i].isLaterTouch ==> rows[j].isLaterTouch
  }

  // Among the first touches of a section, c is newer than a, or of its version and collected later.
  ghost predicate Comes(bundles: seq<Bundle>, k: Key, a: string, c: string) {
    var unique := Unique(AllTouches(bundles, k));
    exists e, f :: e in unique && f in unique && e.amendment == a && f.amendment == c && ComesEntry(unique, e, f)
  }

  ghost predicate ComesEntry(unique: seq<Entry>, e: Entry, f: Entry) {
    RankLt(VersionOf(e), VersionOf(f)) || (VersionOf(e) == VersionOf(f) && Before(unique, e, f))
  }

  lemma OneEntryEach(s: seq<Entry>, e: Entry, f: Entry)
    requires OncePerAmendment(s) && e in s && f in s && e.amendment == f.amendment
    ensures e == f && !Before(s, e, f)
  {
    var p :| 0 <= p < |s| && s[p] == e;
    var q :| 0 <= q < |s| && s[q] == f;
  }

  lemma NotBoth(s: seq<Entry>, e: Entry, f: Entry)
    requires OncePerAmendment(s) && ComesEntry(s, e, f)
    ensures !ComesEntry(s, f, e)
  {
  }

  // The order of a chain's rows.
  lemma RowsCome(bundles: seq<Bundle>, k: Key, i: nat, j: nat)
    requires i < |ChainOf(bundles, k)| && j < |ChainOf(bundles, k)| && i != j
    ensures i < j <==> Comes(bundles, k, ChainOf(bundles, k)[i].amendment, ChainOf(bundles, k)[j].amendment)
  {
    var unique := Unique(AllTouches(bundles, k));
    var chain := SortByVersion(unique);
    UniqueOnce(AllTouches(bundles, k));
    SortBySorts(VersionOf, unique, (0, 0));
    SameMembers(unique, chain);
    RowsAt(bundles, k);
    assert chain[i] in chain && chain[j] in chain;
    if i < j {
      SortByOrder(VersionOf, unique, i, j);
      assert ComesEntry(unique, chain[i], chain[j]);
    } else {
      SortByOrder(VersionOf, unique, j, i);
      NotBoth(unique, chain[j], chain[i]);
      forall e, f | e in unique && f in unique && e.amendment == chain[i].amendment && f.amendment == chain[j].amendment
        ensures !ComesEntry(unique, e, f)
      {
        OneEntryEach(unique, e, chain[i]);
        OneEntryEach(unique, f, chain[j]);
      }
    }
  }

  lemma RowsAt(bundles: seq<Bundle>, k: Key)
    ensures
      var rows, chain := ChainOf(bundles, k), SortByVersion(Unique(AllTouches(bundles, k)));
      |rows| == |chain| && forall i :: 0 <= i < |rows| ==> rows[i].amendment == chain[i].amendment
  {
    var chain := SortByVersion(Unique(AllTouches(bundles, k)));
    var blame, later := AllBlame(bundles, k), AllLater(bundles, k);
    if chain != [] { RowAt(k, chain, blame, later, 0); }
    forall i | 0 <= i < |chain| ensures RowsFor(k, chain, blame, later)[i].amendment == chain[i].amendment {
      RowAt(k, chain, blame, later, i);
    }
  }

  lemma RowOfEntry(bundles: seq<Bundle>, k: Key, e: Entry) returns (i: nat)
    requires e in Unique(AllTouches(bundles, k))
    ensures i < |ChainOf(bundles, k)| && ChainOf(bundles, k)[i].amendment == e.amendment
  {
    var unique := Unique(AllTouches(bundles, k));
    SortBySorts(VersionOf, unique, (0, 0));
    SameMembers(unique, SortByVersion(unique));
    RowsAt(bundles, k);
    i :| 0 <= i < |SortByVersion(unique)| && SortByVersion(unique)[i] == e;
  }

  // Over any bundles the flagged rows form a suffix exactly when whatever comes after an
  // amendment newer than a blame of its bundle is itself newer than a blame of a bundle of its own.
  lemma FlagsFormSuffix(bundles: seq<Bundle>, k: Key)
    ensures Suffix(ChainOf(bundles, k)) <==>
      forall a, c :: Comes(bundles, k, a, c) && NewerIn(bundles, k, a) ==> NewerIn(bundles, k, c)
  {
    var rows := ChainOf(bundles, k);
    ChainOverBundles(bundles, k);
    if Suffix(rows) {
      forall a, c | Comes(bundles, k, a, c) && NewerIn(bundles, k, a) ensures NewerIn(bundles, k, c) {
        var unique := Unique(AllTouches(bundles, k));
        var e, f :| e in unique && f in unique && e.amendment == a && f.amendment == c && ComesEntry(unique, e, f);
        var i := RowOfEntry(bundles, k, e);
        var j := RowOfEntry(bundles, k, f);
        if i != j { RowsCome(bundles, k, i, j); }
      }
    } else {
      var i, j :| 0 <= i < j < |rows| && rows[i].isLaterTouch && !rows[j].isLaterTouch;
      RowsCome(bundles, k, i, j);
    }
  }

  // Two bundles of one statute, each with one touch of the section, the second newer and
  // without blame: the older row is flagged, the newer one is not.
  lemma FlagsWithoutSuffix(bundles: seq<Bundle>, k: Key, blame: string, a: string, c: string)
    requires k.1 != "" && blame != "" && a != "" && c != "" && a != c
    requires bundles == [Bundle(k.0, [Support(a, "", [k.1])], [Finding(k.1, blame)]), Bundle(k.0, [Support(c, "", [k.1])], [])]
    ensures VersionLt(blame, a) && VersionLt(a, c) ==> !Suffix(ChainOf(bundles, k))
  {
    if VersionLt(blame, a) && VersionLt(a, c) {
      OlderOnly(bundles, k, blame, a, c);
      NewerComes(bundles, k, a, c);
      FlagsFormSuffix(bundles, k);
    }
  }

  lemma OlderOnly(bundles: seq<Bundle>, k: Key, blame: string, a: string, c: string)
    requires k.1 != "" && blame != "" && a != "" && c != "" && a != c && VersionLt(blame, a)
    requires bundles == [Bundle(k.0, [Support(a, "", [k.1])], [Finding(k.1, blame)]), Bundle(k.0, [Support(c, "", [k.1])], [])]
    ensures TouchedIn(bundles, k, a) && TouchedIn(bundles, k, c)
    ensures NewerIn(bundles, k, a) && !NewerIn(bundles, k, c)
  {
    var u, v := bundles[0], bundles[1];
    OneTouch(u, k.1, a);
    OneTouch(v, k.1, c);
    assert u in bundles && v in bundles;
    assert u.findings[0] in u.findings && Blamed(u.findings, k.1, blame);
    assert forall b :: !Blamed(v.findings, k.1, b);
  }

  lemma OneTouch(u: Bundle, section: string, a: string)
    requires a != "" && u.supporting == [Support(a, "", [section])]
    ensures forall x :: TouchedBy(u.supporting, section, x) <==> x == a
  {
    assert u.supporting[0] in u.supporting && section in u.supporting[0].sections;
  }

  lemma NewerComes(bundles: seq<Bundle>, k: Key, a: string, c: string)
    requires TouchedIn(bundles, k, a) && TouchedIn(bundles, k, c)
    ensures VersionLt(a, c) ==> Comes(bundles, k, a, c)
  {
    var e := EntryOf(bundles, k, a);
    var f := EntryOf(bundles, k, c);
    assert VersionOf(e) == VersionSortKey(a) && VersionOf(f) == VersionSortKey(c);
    assert VersionLt(a, c) ==> ComesEntry(Unique(AllTouches(bundles, k)), e, f);
  }

  lemma EntryOf(bundles: seq<Bundle>, k: Key, a: string) returns (e: Entry)
    requires TouchedIn(bundles, k, a)
    ensures e in Unique(AllTouches(bundles, k)) && e.amendment == a
  {
    AllTouchesAre(bundles, k, a);
    UniqueOnce(AllTouches(bundles, k));
    AmendmentsAt(Unique(AllTouches(bundles, k)), a);
    e :| e in Unique(AllTouches(bundles, k)) && e.amendment == a;
  }

  // ---------------------------------------------------------------- ids that do it

  // Amendment n of year y, such as 2001/1.
  function IdOf(y: nat, n: nat): string {
    Decimal(y) + "/" + Decimal(n)
  }

  lemma IdVersion(y: nat, n: nat)
    ensures VersionSortKey(IdOf(y, n)) == (y, n)
  {
    DecimalValue(y);
    DecimalValue(n);
    PlainVersion(Decimal(y), Decimal(n), "");
    assert Decimal(y) + "/" + Decimal(n) + "" == IdOf(y, n);
  }

  lemma Years(y: nat, n: nat)
    ensures VersionLt(IdOf(y, n), IdOf(y + 1, n)) && IdOf(y, n) != ""
    ensures IdOf(y, n) != IdOf(y + 1, n)
  {
    IdVersion(y, n);
    IdVersion(y + 1, n);
  }

  // So with amendments of any three years in a row, such as 2001/1, 2002/1 and 2003/1.
  lemma FlagOlderThanBlameHappens(statute: string, supporting: seq<Support>, findings: seq<Finding>, section: string, y: nat, n: nat)
    requires supporting == [Support(IdOf(y + 1, n), "", [section])]
    requires findings == [Finding(section, IdOf(y, n)), Finding(section, IdOf(y + 2, n))]
    ensures RecordedBlame(RowsOf(supporting, findings), section) == IdOf(y + 2, n)
    ensures Flagged(SectionChain(statute, supporting, findings, section), IdOf(y + 1, n))
    ensures !VersionLt(IdOf(y + 2, n), IdOf(y + 1, n))
  {
    Years(y, n);
    Years(y + 1, n);
    Years(y + 2, n);
    FlagOlderThanBlame(statute, supporting, findings, section, IdOf(y, n), IdOf(y + 1, n), IdOf(y + 2, n));
  }

  lemma FlagsWithoutSuffixHappens(bundles: seq<Bundle>, k: Key, y: nat, n: nat)
    requires k.1 != ""
    requires bundles == [Bundle(k.0, [Support(IdOf(y + 1, n), "", [k.1])], [Finding(k.1, IdOf(y, n))]),
                         Bundle(k.0, [Support(IdOf(y + 2, n), "", [k.1])], [])]
    ensures !Suffix(ChainOf(bundles, k))
  {
    Years(y, n);
    Years(y + 1, n);
    Years(y + 2, n);
    FlagsWithoutSuffix(bundles, k, IdOf(y, n), IdOf(y + 1, n), IdOf(y + 2, n));
  }
}
