/**
 * Extraction records turned into triples, and the triples into MERGE statements
 * (crawler/scripts/export_triples.py).
 */
module Triples {
  import opened Options

  /** A listed skill or tool: a plain text or a dictionary. */
  datatype Entry =
    | Text(text: string)
    | Fields(name: Option<string>, skill: Option<string>, category: Option<string>, level: Option<string>)

  datatype Record = Record(title: string, required: seq<Entry>, preferred: seq<Entry>, tools: seq<Entry>,
                           confidence: Option<real>)

  datatype Value = Flag(b: bool) | Number(x: real) | Str(s: string)

  type Props = map<string, Value>

  datatype Key = Key(position: string, relationship: string, target: string)

  datatype Triple = Triple(key: Key, props: Props)

  const REQUIRES := "REQUIRES"
  const USES := "USES"

  // ---- names ----

  predicate IsSpace(c: char) {
    c == ' ' || '\t' <= c <= '\r' || '\U{1c}' <= c <= '\U{1f}'
  }

  function StripLeft(s: string): string {
    if s != "" && IsSpace(s[0]) then StripLeft(s[1..]) else s
  }

  function StripRight(s: string): string {
    if s != "" && IsSpace(s[|s| - 1]) then StripRight(s[..|s| - 1]) else s
  }

  function Strip(s: string): string {
    StripRight(StripLeft(s))
  }

  /** `x or default` on strings */
  function Or(x: Option<string>, default: string): string {
    if x.Some? && x.value != "" then x.value else default
  }

  function SkillName(e: Entry): string {
    match e
    case Text(text) => Strip(text)
    case Fields(name, skill, _, _) => Strip(Or(name, Or(skill, "")))
  }

  function SkillCategory(e: Entry): string {
    if e.Fields? then Or(e.category, "general") else "general"
  }

  function Level(e: Entry): string {
    if e.Fields? && e.level.Some? then e.level.value else "intermediate"
  }

  // ---- all triples, in the order in which they are come across ----

  datatype List = RequiredSkills | PreferredSkills | Tools

  function PropsOf(list: List, e: Entry, confidence: real): Props {
    if list.Tools? then map["confidence" := Number(confidence)]
    else map["required" := Flag(list.RequiredSkills?), "level" := Str(Level(e)), "confidence" := Number(confidence),
             "category" := Str(SkillCategory(e))]
  }

  function TripleOf(title: string, list: List, e: Entry, confidence: real): Triple {
    Triple(Key(title, if list.Tools? then USES else REQUIRES, SkillName(e)), PropsOf(list, e, confidence))
  }

  function FromList(title: string, list: List, entries: seq<Entry>, confidence: real): seq<Triple> {
    if entries == [] then []
    else
      var last := entries[|entries| - 1];
      FromList(title, list, entries[..|entries| - 1], confidence)
        + if SkillName(last) == "" then [] else [TripleOf(title, list, last, confidence)]
  }

  function Confidence(r: Record): real {
    if r.confidence.Some? then r.confidence.value else 0.85
  }

  function FromRecord(r: Record): seq<Triple> {
    if r.title == "" then []
    else
      var confidence := Confidence(r);
      FromList(r.title, RequiredSkills, r.required, confidence)
        + FromList(r.title, PreferredSkills, r.preferred, confidence)
        + FromList(r.title, Tools, r.tools, confidence)
  }

  function Mentioned(records: seq<Record>): seq<Triple> {
    if records == [] then [] else Mentioned(records[..|records| - 1]) + FromRecord(records[|records| - 1])
  }

  // ---- keeping the first of each key ----

  function Keys(triples: seq<Triple>): set<Key> {
    set t | t in triples :: t.key
  }

  function Firsts(all: seq<Triple>): seq<Triple> {
    if all == [] then []
    else
      var kept, last := Firsts(all[..|all| - 1]), all[|all| - 1];
      kept + if last.key in Keys(kept) then [] else [last]
  }

  /** The i-th triple is the first with its key. */
  ghost predicate IsFirst(all: seq<Triple>, i: nat)
    requires i < |all|
  {
    forall j :: 0 <= j < i ==> all[j].key != all[i].key
  }

  lemma {:induction false} KeysOfFirsts(all: seq<Triple>)
    ensures Keys(Firsts(all)) == Keys(all)
  {
    if all != [] {
      var init, last := all[..|all| - 1], all[|all| - 1];
      KeysOfFirsts(init);
      KeysAppend(init, last);
      KeysAppend(Firsts(init), last);
      assert all == init + [last];
    }
  }

  lemma KeysAppend(triples: seq<Triple>, t: Triple)
    ensures Keys(triples + [t]) == Keys(triples) + {t.key}
  {
    assert t in triples + [t];
  }

  /** `kept` are the mentions at increasing positions, each the first of its key. */
  ghost predicate Picks(all: seq<Triple>, at: seq<nat>, kept: seq<Triple>) {
    && |at| == |kept|
    && (forall i :: 0 <= i < |at| ==> at[i] < |all| && kept[i] == all[at[i]] && IsFirst(all, at[i]))
    && (forall i, j :: 0 <= i < j < |at| ==> at[i] < at[j])
  }

  lemma PicksOfMore(all: seq<Triple>, n: nat, at: seq<nat>, kept: seq<Triple>)
    requires n <= |all| && Picks(all[..n], at, kept)
    ensures Picks(all, at, kept)
  {
    forall i | 0 <= i < |at|
      ensures at[i] < |all| && kept[i] == all[at[i]] && IsFirst(all, at[i])
    {
      assert IsFirst(all[..n], at[i]);
    }
  }

  lemma PicksLast(all: seq<Triple>, at: seq<nat>, kept: seq<Triple>)
    requires all != [] && IsFirst(all, |all| - 1)
    requires Picks(all, at, kept) && forall i :: 0 <= i < |at| ==> at[i] < |all| - 1
    ensures Picks(all, at + [|all| - 1], kept + [all[|all| - 1]])
  {
  }

  /** With KeysOfFirsts: every key is kept exactly once, with the properties of its first mention. */
  lemma {:induction false} FirstsAreFirsts(all: seq<Triple>) returns (at: seq<nat>)
    ensures Picks(all, at, Firsts(all))
  {
    if all == [] {
      at := [];
    } else {
      var n := |all| - 1;
      at := FirstsAreFirsts(all[..n]);
      PicksOfMore(all, n, at, Firsts(all[..n]));
      if all[n].key !in Keys(Firsts(all[..n])) {
        LastIsFirst(all);
        PicksLast(all, at, Firsts(all[..n]));
        at := at + [n];
      }
    }
  }

  lemma LastIsFirst(all: seq<Triple>)
    requires all != [] && all[|all| - 1].key !in Keys(Firsts(all[..|all| - 1]))
    ensures IsFirst(all, |all| - 1)
  {
    var init := all[..|all| - 1];
    KeysOfFirsts(init);
    assert forall j :: 0 <= j < |init| ==> all[j] == init[j] && init[j] in init && init[j].key in Keys(init);
  }

  // ---- the export loop ----

  lemma FirstsAppend(all: seq<Triple>, t: Triple)
    ensures Firsts(all + [t]) == if t.key in Keys(Firsts(all)) then Firsts(all) else Firsts(all) + [t]
  {
    assert (all + [t])[..|all|] == all;
  }

  lemma FromListAppend(all: seq<Triple>, title: string, list: List, entries: seq<Entry>, n: nat, confidence: real)
    requires n < |entries|
    ensures all + FromList(title, list, entries[..n + 1], confidence)
         == all + FromList(title, list, entries[..n], confidence)
            + if SkillName(entries[n]) == "" then [] else [TripleOf(title, list, entries[n], confidence)]
  {
    assert entries[..n + 1][..n] == entries[..n];
  }

  method AddEntries(title: string, list: List, entries: seq<Entry>, confidence: real, seen: set<Key>,
                    triples: seq<Triple>,
                    ghost all: seq<Triple>) returns (seen': set<Key>, triples': seq<Triple>)
    requires triples == Firsts(all) && seen == Keys(triples)
    ensures triples' == Firsts(all + FromList(title, list, entries, confidence)) && seen' == Keys(triples')
  {
    seen', triples' := seen, triples;
    ghost var mentioned := all;
    assert all + [] == all;
    for n := 0 to |entries|
      invariant mentioned == all + FromList(title, list, entries[..n], confidence)
      invariant triples' == Firsts(mentioned) && seen' == Keys(triples')
    {
      FromListAppend(all, title, list, entries, n, confidence);
      var name := SkillName(entries[n]);
      if name == "" {
        continue;
      }
      var triple := TripleOf(title, list, entries[n], confidence);
      FirstsAppend(mentioned, triple);
      mentioned := mentioned + [triple];
      if triple.key in seen' {
        continue;
      }
      KeysAppend(triples', triple);
      seen', triples' := seen' + {triple.key}, triples' + [triple];
    }
    assert entries[..|entries|] == entries;
  }

  /** The triples of one more record, list by list. */
  function WithRecord(all: seq<Triple>, r: Record): seq<Triple> {
    if r.title == "" then all
    else
      all + FromList(r.title, RequiredSkills, r.required, Confidence(r))
      + FromList(r.title, PreferredSkills, r.preferred, Confidence(r))
      + FromList(r.title, Tools, r.tools, Confidence(r))
  }

  lemma WithRecordAppends(all: seq<Triple>, r: Record)
    ensures WithRecord(all, r) == all + FromRecord(r)
  {
  }

  lemma MentionedAppend(records: seq<Record>, n: nat)
    requires n < |records|
    ensures Mentioned(records[..n + 1]) == WithRecord(Mentioned(records[..n]), records[n])
  {
    WithRecordAppends(Mentioned(records[..n]), records[n]);
    assert records[..n + 1][..n] == records[..n];
  }

  method ExtractTriples(records: seq<Record>) returns (triples: seq<Triple>)
    ensures triples == Firsts(Mentioned(records))
  {
    triples := [];
    var seen: set<Key> := {};
    for n := 0 to |records|
      invariant triples == Firsts(Mentioned(records[..n])) && seen == Keys(triples)
    {
      var rec := records[n];
      MentionedAppend(records, n);
      if rec.title == "" {
        continue;
      }
      ghost var all := Mentioned(records[..n]);
      var confidence := Confidence(rec);
      seen, triples := AddEntries(rec.title, RequiredSkills, rec.required, confidence, seen, triples, all);
      all := all + FromList(rec.title, RequiredSkills, rec.required, confidence);
      seen, triples := AddEntries(rec.title, PreferredSkills, rec.preferred, confidence, seen, triples, all);
      all := all + FromList(rec.title, PreferredSkills, rec.preferred, confidence);
      seen, triples := AddEntries(rec.title, Tools, rec.tools, confidence, seen, triples, all);
    }
    assert records[..|records|] == records;
  }

  // ---- executing the statements ----

  /** A graph in which a label and a name determine a node; relationships carry properties. */
  datatype Graph = Graph(nodes: set<(string, string)>, edges: map<Key, Props>)

  function Source(k: Key): (string, string) {
    ("Position", k.position)
  }

  function Target(k: Key): (string, string) {
    (if k.relationship == USES then "Tool" else "Skill", k.target)
  }

  function Stored(g: Graph, k: Key): Props {
    if k in g.edges then g.edges[k] else map[]
  }

  /** MERGE the two nodes and the relationship, then `SET r += props`. */
  function Execute(g: Graph, t: Triple): Graph {
    Graph(g.nodes + {Source(t.key), Target(t.key)}, g.edges[t.key := Stored(g, t.key) + t.props])
  }

  function ExecuteAll(g: Graph, script: seq<Triple>): Graph {
    if script == [] then g else Execute(ExecuteAll(g, script[..|script| - 1]), script[|script| - 1])
  }

  ghost predicate OnePerKey(triples: seq<Triple>) {
    forall a, b :: a in triples && b in triples && a.key == b.key ==> a == b
  }

  /** The properties that a script gives to a relationship last. */
  function PropsFor(script: seq<Triple>, k: Key): Option<Props> {
    if script == [] then None
    else
      var last := script[|script| - 1];
      if last.key == k then Some(last.props) else PropsFor(script[..|script| - 1], k)
  }

  lemma {:induction false} PropsForIs(script: seq<Triple>, k: Key)
    ensures PropsFor(script, k).Some? <==> exists t :: t in script && t.key == k
    ensures PropsFor(script, k).Some? ==> Triple(k, PropsFor(script, k).value) in script
  {
    if script != [] {
      var init, last := script[..|script| - 1], script[|script| - 1];
      assert script == init + [last];
      PropsForIs(init, k);
    }
  }

  /** What executing does to a relationship: its properties are added once, however often its statement comes. */
  lemma {:induction false} EdgeAfter(g: Graph, script: seq<Triple>, k: Key)
    requires OnePerKey(script)
    ensures var g', p := ExecuteAll(g, script), PropsFor(script, k);
      && (k in g'.edges <==> k in g.edges || p.Some?)
      && Stored(g', k) == if p.Some? then Stored(g, k) + p.value else Stored(g, k)
  {
    if script != [] {
      var init, last := script[..|script| - 1], script[|script| - 1];
      assert script == init + [last];
      EdgeAfter(g, init, k);
      PropsForIs(init, k);
      if last.key == k && PropsFor(init, k).Some? {
        assert Triple(k, PropsFor(init, k).value) in script && last in script;
      }
    }
  }

  lemma {:induction false} NodesAfter(g: Graph, script: seq<Triple>)
    ensures ExecuteAll(g, script).nodes
         == g.nodes + (set k | k in Keys(script) :: Source(k)) + (set k | k in Keys(script) :: Target(k))
  {
    if script != [] {
      var init, last := script[..|script| - 1], script[|script| - 1];
      assert script == init + [last];
      NodesAfter(g, init);
      KeysAppend(init, last);
    }
  }

  /** Two scripts of the same statements do the same. */
  lemma SameStatementsSameGraph(g: Graph, a: seq<Triple>, b: seq<Triple>)
    requires OnePerKey(a) && OnePerKey(b)
    requires forall t :: t in a <==> t in b
    ensures ExecuteAll(g, a) == ExecuteAll(g, b)
  {
    NodesAfter(g, a);
    NodesAfter(g, b);
    assert Keys(a) == Keys(b);
    var ga, gb := ExecuteAll(g, a), ExecuteAll(g, b);
    forall k: Key
      ensures k in ga.edges <==> k in gb.edges
      ensures Stored(ga, k) == Stored(gb, k)
    {
      EdgeAfter(g, a, k);
      EdgeAfter(g, b, k);
      PropsForIs(a, k);
      PropsForIs(b, k);
    }
    assert forall k :: k in ga.edges ==> ga.edges[k] == Stored(ga, k) == Stored(gb, k) == gb.edges[k];
    assert ga.edges == gb.edges;
  }

  lemma {:induction false} FirstsHaveOnePerKey(all: seq<Triple>)
    ensures OnePerKey(Firsts(all))
  {
    if all != [] {
      FirstsHaveOnePerKey(all[..|all| - 1]);
      var kept := Firsts(all[..|all| - 1]);
      assert forall t :: t in kept ==> t.key in Keys(kept);
    }
  }

  /**
   * The exported statements are confluent: executed in any order, each any positive number of times, they bring any
   * graph to the same state.
   */
  lemma ExportIsConfluent(g: Graph, records: seq<Record>, script: seq<Triple>)
    requires forall t :: t in script <==> t in Firsts(Mentioned(records))
    ensures ExecuteAll(g, script) == ExecuteAll(g, Firsts(Mentioned(records)))
  {
    FirstsHaveOnePerKey(Mentioned(records));
    SameStatementsSameGraph(g, script, Firsts(Mentioned(records)));
  }

  /** The first mention of a key is kept. */
  lemma FirstIsKept(all: seq<Triple>, i: nat)
    requires i < |all| && IsFirst(all, i)
    ensures all[i] in Firsts(all)
  {
    KeysOfFirsts(all);
    assert all[i] in all && all[i].key in Keys(all);
    var t :| t in Firsts(all) && t.key == all[i].key;
    var at := FirstsAreFirsts(all);
    var j :| 0 <= j < |at| && Firsts(all)[j] == t;
    assert at[j] == i;
  }

  /**
   * What the export does: every relationship mentioned gets the properties of its first mention on top of those it had,
   * and no other relationship is touched.
   */
  lemma ExportEffect(g: Graph, records: seq<Record>, k: Key)
    ensures var all, g' := Mentioned(records), ExecuteAll(g, Firsts(Mentioned(records)));
      && (k in g'.edges <==> k in g.edges || k in Keys(all))
      && (k !in Keys(all) ==> Stored(g', k) == Stored(g, k))
      && forall i :: 0 <= i < |all| && IsFirst(all, i) && all[i].key == k
           ==> Stored(g', k) == Stored(g, k) + all[i].props
  {
    var all := Mentioned(records);
    FirstsHaveOnePerKey(all);
    EdgeAfter(g, Firsts(all), k);
    PropsForIs(Firsts(all), k);
    KeysOfFirsts(all);
    forall i | 0 <= i < |all| && IsFirst(all, i) && all[i].key == k
      ensures PropsFor(Firsts(all), k) == Some(all[i].props)
    {
      FirstIsKept(all, i);
    }
  }
}
