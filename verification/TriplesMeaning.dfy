/** What the export keeps of which entry, said of the extraction records alone. */
module TriplesMeaning {
  import opened Options
  import opened Triples

  // ---- names and properties ----

  /** The ASCII white space that Python strips. */
  lemma IsSpaceMeans(c: char)
    ensures IsSpace(c)
       <==> c in {' ', '\t', '\n', '\U{0b}', '\U{0c}', '\r', '\U{1c}', '\U{1d}', '\U{1e}', '\U{1f}'}
  {
  }

  /** Stripping takes all white space off either end, and nothing else. */
  lemma StripMeans(s: string) returns (before: string, after: string)
    ensures s == before + Strip(s) + after
    ensures (forall c :: c in before ==> IsSpace(c)) && forall c :: c in after ==> IsSpace(c)
    ensures Strip(s) != "" ==> !IsSpace(Strip(s)[0]) && !IsSpace(Strip(s)[|Strip(s)| - 1])
  {
    before := Left(s);
    after := Right(StripLeft(s));
  }

  lemma {:induction false} Left(s: string) returns (before: string)
    ensures s == before + StripLeft(s) && forall c :: c in before ==> IsSpace(c)
    ensures StripLeft(s) != "" ==> !IsSpace(StripLeft(s)[0])
  {
    before := "";
    if s != "" && IsSpace(s[0]) {
      before := Left(s[1..]);
      before := [s[0]] + before;
    }
  }

  lemma {:induction false} Right(s: string) returns (after: string)
    ensures s == StripRight(s) + after && forall c :: c in after ==> IsSpace(c)
    ensures StripRight(s) != "" ==> !IsSpace(StripRight(s)[|StripRight(s)| - 1]) && StripRight(s)[0] == s[0]
  {
    after := "";
    if s != "" && IsSpace(s[|s| - 1]) {
      after := Right(s[..|s| - 1]);
      after := after + [s[|s| - 1]];
    }
  }

  ghost predicate Given(x: Option<string>) {
    x.Some? && x.value != ""
  }

  /** A plain text is a name; of a dictionary the name, or the skill if there is no name, stripped. */
  lemma NameMeans(e: Entry)
    ensures e.Text? ==> SkillName(e) == Strip(e.text)
    ensures e.Fields? && Given(e.name) ==> SkillName(e) == Strip(e.name.value)
    ensures e.Fields? && !Given(e.name) && Given(e.skill) ==> SkillName(e) == Strip(e.skill.value)
    ensures e.Fields? && !Given(e.name) && !Given(e.skill) ==> SkillName(e) == ""
  {
  }

  function ListOf(r: Record, list: List): seq<Entry> {
    match list
    case RequiredSkills => r.required
    case PreferredSkills => r.preferred
    case Tools => r.tools
  }

  /** What is written of an entry: the properties of a tool are its record's confidence alone. */
  lemma PropsMean(r: Record, list: List, e: Entry)
    ensures var p := PropsOf(list, e, Confidence(r));
      && "confidence" in p && p["confidence"] == Number(if r.confidence.Some? then r.confidence.value else 0.85)
      && (list == Tools ==> p.Keys == {"confidence"})
      && (list != Tools ==>
            p.Keys == {"required", "level", "confidence", "category"} && p["required"] == Flag(list == RequiredSkills)
            && p["level"] == Str(if e.Fields? && e.level.Some? then e.level.value else "intermediate")
            && p["category"] == Str(if e.Fields? && Given(e.category) then e.category.value else "general"))
  {
  }

  // ---- who mentions what ----

  function Relationship(list: List): string {
    if list == Tools then "USES" else "REQUIRES"
  }

  function KeyOf(r: Record, list: List, e: Entry): Key {
    Key(r.title, Relationship(list), SkillName(e))
  }

  ghost predicate Names(entries: seq<Entry>, name: string) {
    name != "" && exists e :: e in entries && SkillName(e) == name
  }

  /** The record asks for the relationship in the list. */
  ghost predicate Mentions(r: Record, list: List, k: Key) {
    r.title != "" && k.position == r.title && k.relationship == Relationship(list) && Names(ListOf(r, list), k.target)
  }

  ghost predicate MentionedBy(r: Record, k: Key) {
    Mentions(r, RequiredSkills, k) || Mentions(r, PreferredSkills, k) || Mentions(r, Tools, k)
  }

  /** The n-th entry of the list is the list's first of its name. */
  ghost predicate FirstInList(entries: seq<Entry>, n: nat) {
    && n < |entries| && SkillName(entries[n]) != ""
    && forall m :: 0 <= m < n ==> SkillName(entries[m]) != SkillName(entries[n])
  }

  ghost predicate EarlierListMentions(r: Record, list: List, k: Key) {
    list == PreferredSkills && Mentions(r, RequiredSkills, k)
  }

  /**
   * In the order of scanning - record by record, the required skills before the preferred before the tools, and each
   * list from its start - the entry is the first of its key.
   */
  ghost predicate FirstMention(records: seq<Record>, i: nat, list: List, n: nat) {
    && i < |records| && records[i].title != "" && FirstInList(ListOf(records[i], list), n)
    && var k := KeyOf(records[i], list, ListOf(records[i], list)[n]);
    && !EarlierListMentions(records[i], list, k)
    && forall j :: 0 <= j < i ==> !MentionedBy(records[j], k)
  }

  /** What is kept of a record when nothing came before it. */
  ghost predicate FromEntry(r: Record, list: List, n: nat, t: Triple) {
    && r.title != "" && FirstInList(ListOf(r, list), n) && !EarlierListMentions(r, list, t.key)
    && t == Triple(KeyOf(r, list, ListOf(r, list)[n]), PropsOf(list, ListOf(r, list)[n], Confidence(r)))
  }

  // ---- lists ----

  lemma {:induction false} KeysFromList(title: string, list: List, entries: seq<Entry>, confidence: real, k: Key)
    ensures k in Keys(FromList(title, list, entries, confidence))
       <==> k.position == title && k.relationship == Relationship(list) && Names(entries, k.target)
  {
    if entries != [] {
      var init, e := entries[..|entries| - 1], entries[|entries| - 1];
      KeysFromList(title, list, init, confidence, k);
      assert entries == init + [e];
      assert Names(entries, k.target) <==> Names(init, k.target) || (k.target != "" && SkillName(e) == k.target);
      if SkillName(e) != "" {
        KeysAppend(FromList(title, list, init, confidence), TripleOf(title, list, e, confidence));
      }
    }
  }

  lemma FirstInMore(init: seq<Entry>, e: Entry, n: nat)
    ensures n < |init| ==> (FirstInList(init + [e], n) <==> FirstInList(init, n))
    ensures FirstInList(init + [e], |init|) <==> SkillName(e) != "" && !Names(init, SkillName(e))
  {
    var all := init + [e];
    assert forall m :: 0 <= m < |init| ==> all[m] == init[m] && init[m] in init;
    if Names(init, SkillName(e)) {
      var x :| x in init && SkillName(x) == SkillName(e);
      var m :| 0 <= m < |init| && init[m] == x;
      assert SkillName(all[m]) == SkillName(all[|init|]);
    }
  }

  ghost predicate KeptFromList(title: string, list: List, entries: seq<Entry>, confidence: real, t: Triple) {
    exists n: nat :: FirstInList(entries, n) && t == TripleOf(title, list, entries[n], confidence)
  }

  lemma KeptFromMore(title: string, list: List, init: seq<Entry>, e: Entry, confidence: real, t: Triple)
    ensures KeptFromList(title, list, init + [e], confidence, t)
       <==> KeptFromList(title, list, init, confidence, t)
            || (SkillName(e) != "" && !Names(init, SkillName(e)) && t == TripleOf(title, list, e, confidence))
  {
    var all := init + [e];
    forall n: nat
      ensures n < |init| ==> (FirstInList(all, n) <==> FirstInList(init, n)) && all[n] == init[n]
    {
      FirstInMore(init, e, n);
    }
    FirstInMore(init, e, |init|);
    assert all[|init|] == e;
    if KeptFromList(title, list, init, confidence, t) {
      var n: nat :| FirstInList(init, n) && t == TripleOf(title, list, init[n], confidence);
      assert FirstInList(all, n) && all[n] == init[n];
    }
  }

  lemma FromListNext(title: string, list: List, init: seq<Entry>, e: Entry, confidence: real)
    ensures FromList(title, list, init + [e], confidence) == FromList(title, list, init, confidence)
            + if SkillName(e) == "" then [] else [TripleOf(title, list, e, confidence)]
  {
    assert (init + [e])[..|init|] == init;
  }

  lemma FirstsNext(before: seq<Triple>, last: Triple, t: Triple)
    ensures t in Firsts(before + [last]) <==> t in Firsts(before) || (last.key !in Keys(before) && t == last)
  {
    FirstsAppend(before, last);
    KeysOfFirsts(before);
  }

  lemma {:induction false} FirstsFromList(title: string, list: List, entries: seq<Entry>, confidence: real, t: Triple)
    ensures t in Firsts(FromList(title, list, entries, confidence))
       <==> KeptFromList(title, list, entries, confidence, t)
  {
    if entries == [] {
      assert FromList(title, list, entries, confidence) == [];
    } else {
      var init, e := entries[..|entries| - 1], entries[|entries| - 1];
      assert entries == init + [e];
      FirstsFromList(title, list, init, confidence, t);
      FirstsFromMore(title, list, init, e, confidence, t);
    }
  }

  lemma FirstsFromMore(title: string, list: List, init: seq<Entry>, e: Entry, confidence: real, t: Triple)
    requires t in Firsts(FromList(title, list, init, confidence)) <==> KeptFromList(title, list, init, confidence, t)
    ensures t in Firsts(FromList(title, list, init + [e], confidence))
       <==> KeptFromList(title, list, init + [e], confidence, t)
  {
    KeptFromMore(title, list, init, e, confidence, t);
    FromListNext(title, list, init, e, confidence);
    var before := FromList(title, list, init, confidence);
    if SkillName(e) == "" {
      assert before + [] == before;
    } else {
      LastOfList(title, list, init, e, confidence, t);
    }
  }

  lemma LastOfList(title: string, list: List, init: seq<Entry>, e: Entry, confidence: real, t: Triple)
    requires SkillName(e) != ""
    ensures var before, last := FromList(title, list, init, confidence), TripleOf(title, list, e, confidence);
      t in Firsts(before + [last]) <==> t in Firsts(before) || (!Names(init, SkillName(e)) && t == last)
  {
    var last := TripleOf(title, list, e, confidence);
    FirstsNext(FromList(title, list, init, confidence), last, t);
    KeysFromList(title, list, init, confidence, last.key);
  }

  // ---- lists one after the other ----

  lemma KeysConcat(a: seq<Triple>, b: seq<Triple>)
    ensures Keys(a + b) == Keys(a) + Keys(b)
  {
    assert forall t :: t in a + b <==> t in a || t in b;
  }

  /** The first of each key in a and then b: those of a, and those of b that a does not mention. */
  lemma {:induction false} FirstsConcat(a: seq<Triple>, b: seq<Triple>, t: Triple)
    ensures t in Firsts(a + b) <==> t in Firsts(a) || (t in Firsts(b) && t.key !in Keys(a))
  {
    if b == [] {
      assert a + b == a;
    } else {
      var init, last := b[..|b| - 1], b[|b| - 1];
      FirstsConcat(a, init, t);
      assert a + b == (a + init) + [last] && b == init + [last];
      FirstsAppend(a + init, last);
      FirstsAppend(init, last);
      KeysOfFirsts(a + init);
      KeysOfFirsts(init);
      KeysConcat(a, init);
    }
  }

  lemma KeysFromRecord(r: Record, k: Key)
    ensures k in Keys(FromRecord(r)) <==> MentionedBy(r, k)
  {
    var c := Confidence(r);
    var a, b := FromList(r.title, RequiredSkills, r.required, c), FromList(r.title, PreferredSkills, r.preferred, c);
    KeysConcat(a, b);
    KeysConcat(a + b, FromList(r.title, Tools, r.tools, c));
    KeysFromList(r.title, RequiredSkills, r.required, c, k);
    KeysFromList(r.title, PreferredSkills, r.preferred, c, k);
    KeysFromList(r.title, Tools, r.tools, c, k);
  }

  ghost predicate KeptFrom(r: Record, list: List, t: Triple) {
    exists n: nat :: FromEntry(r, list, n, t)
  }

  lemma FirstsFromRecord(r: Record, t: Triple)
    ensures t in Firsts(FromRecord(r)) <==> exists list :: KeptFrom(r, list, t)
  {
    if r.title != "" {
      FirstsOfLists(r, t);
      ListIff(r, RequiredSkills, t);
      ListIff(r, PreferredSkills, t);
      ListIff(r, Tools, t);
    }
  }

  function TriplesOf(r: Record, list: List): seq<Triple> {
    FromList(r.title, list, ListOf(r, list), Confidence(r))
  }

  lemma FirstsOfLists(r: Record, t: Triple)
    requires r.title != ""
    ensures t in Firsts(FromRecord(r))
       <==> t in Firsts(TriplesOf(r, RequiredSkills))
            || (t in Firsts(TriplesOf(r, PreferredSkills)) && !Mentions(r, RequiredSkills, t.key))
            || (t in Firsts(TriplesOf(r, Tools)) && !Mentions(r, RequiredSkills, t.key)
                && !Mentions(r, PreferredSkills, t.key))
  {
    var a, b, c := TriplesOf(r, RequiredSkills), TriplesOf(r, PreferredSkills), TriplesOf(r, Tools);
    FirstsConcat(a, b, t);
    FirstsConcat(a + b, c, t);
    KeysConcat(a, b);
    KeysFromList(r.title, RequiredSkills, r.required, Confidence(r), t.key);
    KeysFromList(r.title, PreferredSkills, r.preferred, Confidence(r), t.key);
  }

  lemma ListIff(r: Record, list: List, t: Triple)
    requires r.title != ""
    ensures KeptFrom(r, list, t) <==> t in Firsts(TriplesOf(r, list)) && !EarlierListMentions(r, list, t.key)
    ensures t in Firsts(TriplesOf(r, list)) ==> t.key.relationship == Relationship(list)
  {
    var entries := ListOf(r, list);
    FirstsFromList(r.title, list, entries, Confidence(r), t);
    if t in Firsts(TriplesOf(r, list)) && !EarlierListMentions(r, list, t.key) {
      var n: nat :| FirstInList(entries, n) && t == TripleOf(r.title, list, entries[n], Confidence(r));
      assert FromEntry(r, list, n, t);
    }
  }

  // ---- the whole scan ----

  ghost predicate MentionedIn(records: seq<Record>, k: Key) {
    exists j :: 0 <= j < |records| && MentionedBy(records[j], k)
  }

  lemma MentionedInMore(init: seq<Record>, r: Record, k: Key)
    ensures MentionedIn(init + [r], k) <==> MentionedIn(init, k) || MentionedBy(r, k)
  {
    var all := init + [r];
    assert all[|init|] == r && forall j :: 0 <= j < |init| ==> all[j] == init[j];
  }

  lemma MentionedNext(init: seq<Record>, r: Record)
    ensures Mentioned(init + [r]) == Mentioned(init) + FromRecord(r)
  {
    assert (init + [r])[..|init|] == init;
  }

  lemma {:induction false} KeysMentioned(records: seq<Record>, k: Key)
    ensures k in Keys(Mentioned(records)) <==> MentionedIn(records, k)
  {
    if records != [] {
      var init, r := records[..|records| - 1], records[|records| - 1];
      assert records == init + [r];
      KeysMentioned(init, k);
      MentionedInMore(init, r, k);
      MentionedNext(init, r);
      KeysConcat(Mentioned(init), FromRecord(r));
      KeysFromRecord(r, k);
    }
  }

  ghost predicate KeptAt(records: seq<Record>, i: nat, list: List, n: nat, t: Triple) {
    i < |records| && FromEntry(records[i], list, n, t) && !MentionedIn(records[..i], t.key)
  }

  ghost predicate Kept(records: seq<Record>, t: Triple) {
    exists i: nat, list, n: nat :: KeptAt(records, i, list, n, t)
  }

  lemma KeptMore(init: seq<Record>, r: Record, t: Triple)
    ensures Kept(init + [r], t)
       <==> Kept(init, t) || (!MentionedIn(init, t.key) && exists list :: KeptFrom(r, list, t))
  {
    var all := init + [r];
    forall i: nat, list, n: nat | i < |init|
      ensures KeptAt(all, i, list, n, t) <==> KeptAt(init, i, list, n, t)
    {
      assert all[..i] == init[..i];
    }
    assert all[..|init|] == init && all[|init|] == r;
    if i: nat, list, n: nat :| KeptAt(all, i, list, n, t) {
      assert i < |init| ==> KeptAt(init, i, list, n, t);
      assert i == |init| ==> KeptFrom(r, list, t);
    }
    if Kept(init, t) {
      var i: nat, list, n: nat :| KeptAt(init, i, list, n, t);
      assert KeptAt(all, i, list, n, t);
    }
    if !MentionedIn(init, t.key) && exists list :: KeptFrom(r, list, t) {
      var list :| KeptFrom(r, list, t);
      var n: nat :| FromEntry(r, list, n, t);
      assert KeptAt(all, |init|, list, n, t);
    }
  }

  lemma {:induction false} FirstsMentioned(records: seq<Record>, t: Triple)
    ensures t in Firsts(Mentioned(records)) <==> Kept(records, t)
  {
    if records == [] {
      assert Mentioned(records) == [];
    } else {
      var init, r := records[..|records| - 1], records[|records| - 1];
      assert records == init + [r];
      FirstsMentioned(init, t);
      MentionedNext(init, r);
      FirstsConcat(Mentioned(init), FromRecord(r), t);
      FirstsFromRecord(r, t);
      KeysMentioned(init, t.key);
      KeptMore(init, r, t);
    }
  }

  /** The triple says what the entry, a first mention, says. */
  ghost predicate Says(records: seq<Record>, i: nat, list: List, n: nat, t: Triple) {
    && FirstMention(records, i, list, n)
    && var e := ListOf(records[i], list)[n];
       t == Triple(KeyOf(records[i], list, e), PropsOf(list, e, Confidence(records[i])))
  }

  lemma KeptAtIff(records: seq<Record>, i: nat, list: List, n: nat, t: Triple)
    ensures KeptAt(records, i, list, n, t) <==> Says(records, i, list, n, t)
  {
    if i < |records| {
      MentionedInPrefix(records, i, t.key);
    }
  }

  lemma MentionedInPrefix(records: seq<Record>, i: nat, k: Key)
    requires i <= |records|
    ensures MentionedIn(records[..i], k) <==> exists j :: 0 <= j < i && MentionedBy(records[j], k)
  {
    if j :| 0 <= j < i && MentionedBy(records[j], k) {
      assert MentionedBy(records[..i][j], k);
    }
  }

  /** The export keeps, of each first mention in the order of scanning, what it says, and keeps nothing else. */
  lemma ExportKeepsFirstMentions(records: seq<Record>, t: Triple)
    ensures t in Firsts(Mentioned(records)) <==> exists i: nat, list, n: nat :: Says(records, i, list, n, t)
  {
    FirstsMentioned(records, t);
    forall i: nat, list, n: nat
      ensures KeptAt(records, i, list, n, t) <==> Says(records, i, list, n, t)
    {
      KeptAtIff(records, i, list, n, t);
    }
  }

  /** The nodes of the exported graph: positions, and skills or tools by the relationship. */
  lemma ExportedNodes(g: Graph, records: seq<Record>, kind: string, name: string)
    ensures (kind, name) in ExecuteAll(g, Firsts(Mentioned(records))).nodes
       <==> (kind, name) in g.nodes
            || exists k :: k in Keys(Mentioned(records))
                 && ((kind, name) == ("Position", k.position)
                     || (kind, name) == (if k.relationship == "USES" then "Tool" else "Skill", k.target))
  {
    NodesAfter(g, Firsts(Mentioned(records)));
    KeysOfFirsts(Mentioned(records));
  }
}
