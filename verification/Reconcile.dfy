/** Bringing the graph in line with the relational tables (scripts/reconcile_graph.py). */
module Reconcile {
  import opened Options
  import opened Sets

  const POSITION := "Position"
  const SKILL := "Skill"
  const LEGACY_LIMIT: nat := 5000

  datatype Node = Node(labels: set<string>, canonicalId: Option<string>, name: Option<string>,
                       props: map<string, string>)

  datatype Edge = Edge(source: nat, relationship: string, target: nat)

  /** Nodes by their internal number; the next number is not yet taken. */
  datatype Graph = Graph(nodes: map<nat, Node>, edges: set<Edge>, next: nat)

  /** A row: its id, its name and those of its further columns that are not null. */
  datatype Record = Record(id: string, name: string, props: map<string, string>)

  /** What the relational side holds: positions, skills, and which position requires which skill. */
  datatype Tables = Tables(positions: seq<Record>, skills: seq<Record>, relations: set<(string, string)>)

  ghost predicate WellFormed(g: Graph) {
    && (forall n :: n in g.nodes ==> n < g.next)
    && (forall e :: e in g.edges ==> e.source in g.nodes && e.target in g.nodes)
  }

  // ---- the queries ----

  predicate Has(g: Graph, n: nat, kind: string, cid: string) {
    n in g.nodes && kind in g.nodes[n].labels && g.nodes[n].canonicalId == Some(cid)
  }

  /** The canonical ids of a kind; empty ones are passed over. */
  function Ids(g: Graph, kind: string): set<string> {
    set n | n in g.nodes && kind in g.nodes[n].labels && g.nodes[n].canonicalId.Some?
      && g.nodes[n].canonicalId.value != ""
      :: g.nodes[n].canonicalId.value
  }

  function Legacy(g: Graph, kind: string): set<nat> {
    set n | n in g.nodes && kind in g.nodes[n].labels && g.nodes[n].canonicalId.None?
  }

  function RecordIds(rows: seq<Record>): set<string> {
    set r | r in rows :: r.id
  }

  predicate Named(node: Node) {
    node.name.Some? && node.name.value != ""
  }

  /** Any of the nodes without canonical id, but no more than the query's limit. */
  ghost predicate Sample(g: Graph, kind: string, sample: set<nat>) {
    sample <= Legacy(g, kind) && (|sample| == LEGACY_LIMIT || sample == Legacy(g, kind)) && |sample| <= LEGACY_LIMIT
  }

  function NamesOf(g: Graph, sample: set<nat>): set<string> {
    set n | n in sample && n in g.nodes && Named(g.nodes[n]) :: g.nodes[n].name.value
  }

  // ---- the updates ----

  function DetachDelete(g: Graph, doomed: set<nat>): Graph {
    g.(nodes := g.nodes - doomed, edges := set e | e in g.edges && e.source !in doomed && e.target !in doomed)
  }

  function WithIds(g: Graph, kind: string, cids: set<string>): set<nat> {
    set n | n in g.nodes && kind in g.nodes[n].labels && g.nodes[n].canonicalId.Some?
      && g.nodes[n].canonicalId.value in cids
  }

  function LegacyNamed(g: Graph, kind: string, names: set<string>): set<nat> {
    set n | n in Legacy(g, kind) && g.nodes[n].name.Some? && g.nodes[n].name.value in names
  }

  function NodeOf(kind: string, r: Record): Node {
    Node({kind}, Some(r.id), Some(r.name), r.props)
  }

  /** MERGE on the canonical id, then SET the properties; a row without an id is passed over. */
  function Merge(g: Graph, kind: string, r: Record): Graph {
    if r.id == "" then g
    else if r.id in Ids(g, kind) then
      g.(nodes := map n | n in g.nodes :: if Has(g, n, kind, r.id) then Overwritten(g.nodes[n], r) else g.nodes[n])
    else
      g.(nodes := g.nodes[g.next := NodeOf(kind, r)], next := g.next + 1)
  }

  function Overwritten(node: Node, r: Record): Node {
    node.(name := Some(r.name), props := node.props + r.props)
  }

  function MergeAll(g: Graph, kind: string, rows: seq<Record>): Graph {
    if rows == [] then g else Merge(MergeAll(g, kind, rows[..|rows| - 1]), kind, rows[|rows| - 1])
  }

  function Missing(rows: seq<Record>, ids: set<string>): seq<Record> {
    if rows == [] then []
    else Missing(rows[..|rows| - 1], ids) + if rows[|rows| - 1].id in ids then [] else [rows[|rows| - 1]]
  }

  // ---- one run ----

  /** The nodes that a run deletes: orphans by canonical id, and sampled legacy nodes by name. */
  function Doomed(g: Graph, t: Tables, samplePositions: set<nat>, sampleSkills: set<nat>): set<nat> {
    WithIds(g, POSITION, Ids(g, POSITION) - RecordIds(t.positions))
      + WithIds(g, SKILL, Ids(g, SKILL) - RecordIds(t.skills))
      + LegacyNamed(g, POSITION, NamesOf(g, samplePositions)) + LegacyNamed(g, SKILL, NamesOf(g, sampleSkills))
  }

  function Pruned(g: Graph, t: Tables, samplePositions: set<nat>, sampleSkills: set<nat>): Graph {
    DetachDelete(g, Doomed(g, t, samplePositions, sampleSkills))
  }

  /**
   * Pruning and back-filling. What is missing is taken from the snapshot before pruning. The edges stay as they are:
   * the projector has no operation of the name the script calls for them, and the script catches that error.
   */
  function Run(g: Graph, t: Tables, samplePositions: set<nat>, sampleSkills: set<nat>): Graph {
    MergeAll(MergeAll(Pruned(g, t, samplePositions, sampleSkills), POSITION, Missing(t.positions, Ids(g, POSITION))),
             SKILL, Missing(t.skills, Ids(g, SKILL)))
  }

  // ---- what a run deletes, said of the nodes ----

  /** The node carries the label and an id that no row has. */
  ghost predicate Orphan(node: Node, kind: string, rows: seq<Record>) {
    && kind in node.labels && node.canonicalId.Some? && node.canonicalId.value != ""
    && forall r :: r in rows ==> r.id != node.canonicalId.value
  }

  /** The node carries the label and no id, and has the name of a sampled node. */
  ghost predicate SharesName(g: Graph, node: Node, kind: string, sample: set<nat>) {
    && kind in node.labels && node.canonicalId.None?
    && exists m :: m in sample && m in g.nodes && g.nodes[m].name.Some? && g.nodes[m].name.value != ""
                   && node.name == g.nodes[m].name
  }

  /** Deleted are the orphans of either label and the legacy nodes that share a sampled name, and no others. */
  lemma DoomedMeans(g: Graph, t: Tables, sp: set<nat>, ss: set<nat>, n: nat)
    requires n in g.nodes
    ensures n in Doomed(g, t, sp, ss)
       <==> Orphan(g.nodes[n], "Position", t.positions) || Orphan(g.nodes[n], "Skill", t.skills)
            || SharesName(g, g.nodes[n], "Position", sp) || SharesName(g, g.nodes[n], "Skill", ss)
  {
    OrphanIff(g, "Position", t.positions, n);
    OrphanIff(g, "Skill", t.skills, n);
    SharesNameIff(g, "Position", sp, n);
    SharesNameIff(g, "Skill", ss, n);
  }

  lemma OrphanIff(g: Graph, kind: string, rows: seq<Record>, n: nat)
    requires n in g.nodes
    ensures n in WithIds(g, kind, Ids(g, kind) - RecordIds(rows)) <==> Orphan(g.nodes[n], kind, rows)
  {
    var node := g.nodes[n];
    if node.canonicalId.Some? {
      assert node.canonicalId.value in RecordIds(rows) <==> exists r :: r in rows && r.id == node.canonicalId.value;
    }
  }

  lemma SharesNameIff(g: Graph, kind: string, sample: set<nat>, n: nat)
    requires n in g.nodes
    ensures n in LegacyNamed(g, kind, NamesOf(g, sample)) <==> SharesName(g, g.nodes[n], kind, sample)
  {
    var node := g.nodes[n];
    if SharesName(g, node, kind, sample) {
      var m :| m in sample && m in g.nodes && g.nodes[m].name.Some? && g.nodes[m].name.value != ""
               && node.name == g.nodes[m].name;
      assert g.nodes[m].name.value in NamesOf(g, sample);
    }
  }

  /** The legacy nodes of a kind, and what a query for them may return. */
  lemma SampleMeans(g: Graph, kind: string, sample: set<nat>)
    ensures forall n :: n in Legacy(g, kind) <==>
      n in g.nodes && kind in g.nodes[n].labels && g.nodes[n].canonicalId.None?
    ensures Sample(g, kind, sample) ==> sample <= Legacy(g, kind) && |sample| <= 5000
    ensures Sample(g, kind, sample) && |sample| < 5000 ==> sample == Legacy(g, kind)
  {
  }

  // ---- what merging does ----

  /** On a node with the row's id its data win over those there were; without one, a node with just its data appears. */
  lemma MergeMeans(g: Graph, kind: string, r: Record)
    ensures r.id == "" ==> Merge(g, kind, r) == g
    ensures r.id != "" ==> var g' := Merge(g, kind, r);
      && g'.edges == g.edges
      && (forall n :: n in g.nodes && n != g.next && !Has(g, n, kind, r.id) ==>
            n in g'.nodes && g'.nodes[n] == g.nodes[n])
      && (forall n :: n in g.nodes && Has(g, n, kind, r.id) ==> n in g'.nodes && Rewritten(g.nodes[n], g'.nodes[n], r))
      && ((exists n :: Has(g, n, kind, r.id)) ==> g'.nodes.Keys == g.nodes.Keys)
      && ((forall n :: !Has(g, n, kind, r.id)) ==>
            g'.nodes == g.nodes[g.next := Node({kind}, Some(r.id), Some(r.name), r.props)])
  {
    InIds(g, kind, r.id);
  }

  ghost predicate Rewritten(node: Node, node': Node, r: Record) {
    && node'.labels == node.labels && node'.canonicalId == node.canonicalId && node'.name == Some(r.name)
    && (forall k :: k in r.props ==> k in node'.props && node'.props[k] == r.props[k])
    && (forall k :: k in node.props && k !in r.props ==> k in node'.props && node'.props[k] == node.props[k])
    && (forall k :: k in node'.props ==> k in node.props || k in r.props)
  }

  /** The rows have ids, all different. */
  ghost predicate KeysOk(rows: seq<Record>) {
    && (forall i :: 0 <= i < |rows| ==> rows[i].id != "")
    && forall i, j :: 0 <= i < j < |rows| ==> rows[i].id != rows[j].id
  }

  /** g' is g with new nodes of the kind, one for each of the ids; old nodes and all edges are untouched. */
  ghost predicate Extends(g: Graph, g': Graph, kind: string, cids: set<string>) {
    && WellFormed(g') && g'.edges == g.edges && g.next <= g'.next
    && (forall n :: n in g.nodes ==> n in g'.nodes && g'.nodes[n] == g.nodes[n])
    && (forall n :: n in g'.nodes && n !in g.nodes ==>
          n >= g.next && g'.nodes[n].labels == {kind} && g'.nodes[n].canonicalId.Some?
          && g'.nodes[n].canonicalId.value in cids)
    && Ids(g', kind) == Ids(g, kind) + cids
  }

  lemma InIds(g: Graph, kind: string, c: string)
    ensures c in Ids(g, kind) <==> c != "" && exists n :: Has(g, n, kind, c)
  {
    if c in Ids(g, kind) {
      var n :| n in g.nodes && kind in g.nodes[n].labels && g.nodes[n].canonicalId == Some(c);
      assert Has(g, n, kind, c);
    }
  }

  lemma MergeNew(g: Graph, kind: string, r: Record)
    requires WellFormed(g) && r.id !in Ids(g, kind) && r.id != ""
    ensures Extends(g, Merge(g, kind, r), kind, {r.id})
  {
    var g' := Merge(g, kind, r);
    assert forall n :: n in g.nodes ==> n < g.next && g'.nodes[n] == g.nodes[n];
    forall c: string
      ensures c in Ids(g', kind) <==> c in Ids(g, kind) + {r.id}
    {
      InIds(g, kind, c);
      InIds(g', kind, c);
      if c in Ids(g', kind) {
        var n :| Has(g', n, kind, c);
        assert n == g.next || Has(g, n, kind, c);
      }
      if c in Ids(g, kind) {
        var n :| Has(g, n, kind, c);
        assert Has(g', n, kind, c);
      }
      assert Has(g', g.next, kind, r.id);
    }
  }

  /** Each of the rows has a new node with its name and its properties, and there are no other new nodes. */
  ghost predicate Carries(g: Graph, g': Graph, kind: string, rows: seq<Record>) {
    && g.nodes.Keys <= g'.nodes.Keys && |g'.nodes| == |g.nodes| + |rows|
    && forall r :: r in rows ==> HasNew(g, g', NodeOf(kind, r))
  }

  ghost predicate HasNew(g: Graph, g': Graph, node: Node) {
    exists n :: n in g'.nodes && n !in g.nodes && g'.nodes[n] == node
  }

  lemma {:induction false} MergeAllCarries(g: Graph, kind: string, rows: seq<Record>)
    requires WellFormed(g) && KeysOk(rows) && Ids(g, kind) !! RecordIds(rows)
    ensures Carries(g, MergeAll(g, kind, rows), kind, rows)
  {
    if rows != [] {
      var init, r := rows[..|rows| - 1], rows[|rows| - 1];
      assert rows == init + [r];
      RecordIdsLast(rows);
      MergeAllCarries(g, kind, init);
      MergeAllExtends(g, kind, init);
      CarriesOne(g, MergeAll(g, kind, init), kind, init, r);
    }
  }

  lemma CarriesOne(g: Graph, before: Graph, kind: string, rows: seq<Record>, r: Record)
    requires WellFormed(before) && Carries(g, before, kind, rows)
    requires r.id != "" && r.id !in Ids(before, kind)
    ensures Carries(g, Merge(before, kind, r), kind, rows + [r])
  {
    var after := Merge(before, kind, r);
    assert after.nodes == before.nodes[before.next := NodeOf(kind, r)] && before.next !in before.nodes;
    OneMoreKey(before.nodes, before.next, NodeOf(kind, r));
    forall x | x in rows + [r]
      ensures HasNew(g, after, NodeOf(kind, x))
    {
      if x in rows {
        NewStays(g, before, after, NodeOf(kind, x));
      } else {
        assert after.nodes[before.next] == NodeOf(kind, r);
      }
    }
  }

  lemma OneMoreKey(m: map<nat, Node>, k: nat, v: Node)
    requires k !in m
    ensures |m[k := v]| == |m| + 1 && m[k := v].Keys == m.Keys + {k}
  {
    var m' := m[k := v];
    assert m'.Keys == m.Keys + {k};
    assert |m'.Keys| == |m.Keys| + 1;
  }

  lemma NewStays(g: Graph, before: Graph, after: Graph, node: Node)
    requires HasNew(g, before, node)
    requires forall n :: n in before.nodes ==> n in after.nodes && after.nodes[n] == before.nodes[n]
    ensures HasNew(g, after, node)
  {
    var n :| n in before.nodes && n !in g.nodes && before.nodes[n] == node;
    assert after.nodes[n] == node;
  }

  lemma ExtendsTransitive(g: Graph, g1: Graph, g2: Graph, kind: string, cids: set<string>, more: set<string>)
    requires Extends(g, g1, kind, cids) && Extends(g1, g2, kind, more)
    ensures Extends(g, g2, kind, cids + more)
  {
  }

  lemma RecordIdsLast(rows: seq<Record>)
    requires rows != [] && KeysOk(rows)
    ensures var init, r := rows[..|rows| - 1], rows[|rows| - 1];
      KeysOk(init) && RecordIds(rows) == RecordIds(init) + {r.id} && r.id !in RecordIds(init) && r.id != ""
  {
    var init, r := rows[..|rows| - 1], rows[|rows| - 1];
    assert rows == init + [r];
    assert forall x :: x in rows <==> x in init || x == r;
  }

  lemma {:induction false} MergeAllExtends(g: Graph, kind: string, rows: seq<Record>)
    requires WellFormed(g) && KeysOk(rows) && Ids(g, kind) !! RecordIds(rows)
    ensures Extends(g, MergeAll(g, kind, rows), kind, RecordIds(rows))
  {
    if rows != [] {
      var init, r := rows[..|rows| - 1], rows[|rows| - 1];
      RecordIdsLast(rows);
      MergeAllExtends(g, kind, init);
      MergeNew(MergeAll(g, kind, init), kind, r);
      ExtendsTransitive(g, MergeAll(g, kind, init), MergeAll(g, kind, rows), kind, RecordIds(init), {r.id});
    }
  }

  lemma {:induction false} MissingRows(rows: seq<Record>, ids: set<string>)
    requires KeysOk(rows)
    ensures KeysOk(Missing(rows, ids)) && RecordIds(Missing(rows, ids)) == RecordIds(rows) - ids
  {
    if rows != [] {
      var init, r := rows[..|rows| - 1], rows[|rows| - 1];
      RecordIdsLast(rows);
      MissingRows(init, ids);
      var missing := Missing(init, ids);
      if r.id in ids {
        assert Missing(rows, ids) == missing;
      } else {
        assert Missing(rows, ids) == missing + [r];
        assert RecordIds(missing + [r]) == RecordIds(missing) + {r.id};
        assert forall x :: x in missing + [r] <==> x in missing || x == r;
        forall i | 0 <= i < |missing|
          ensures missing[i].id != r.id
        {
          assert missing[i] in missing && missing[i].id in RecordIds(missing);
        }
      }
    }
  }

  // ---- what a run does ----

  ghost predicate TablesOk(t: Tables) {
    KeysOk(t.positions) && KeysOk(t.skills)
  }

  /**
   * Each wanted id in the graph has a node that is not deleted for the sake of the other kind: one that is not of the
   * other kind as well, or whose id is wanted there too. This holds of course when no node is of both kinds.
   */
  ghost predicate Unshadowed(g: Graph, kind: string, wanted: set<string>, other: string, wantedThere: set<string>) {
    forall c :: c in Ids(g, kind) * wanted ==>
      exists n :: Has(g, n, kind, c) && (other in g.nodes[n].labels ==> c in wantedThere)
  }

  lemma PrunedIds(g: Graph, t: Tables, sp: set<nat>, ss: set<nat>, kind: string, wanted: set<string>, other: string,
                  wantedThere: set<string>)
    requires (kind, other, wanted, wantedThere) == (POSITION, SKILL, RecordIds(t.positions), RecordIds(t.skills))
          || (kind, other, wanted, wantedThere) == (SKILL, POSITION, RecordIds(t.skills), RecordIds(t.positions))
    ensures Ids(Pruned(g, t, sp, ss), kind) <= Ids(g, kind) * wanted
    ensures Ids(Pruned(g, t, sp, ss), kind) == Ids(g, kind) * wanted
       <==> Unshadowed(g, kind, wanted, other, wantedThere)
  {
    var g' := Pruned(g, t, sp, ss);
    var doomed := Doomed(g, t, sp, ss);
    forall c: string | c in Ids(g', kind)
      ensures c in Ids(g, kind) * wanted
    {
      InIds(g', kind, c);
      InIds(g, kind, c);
      var n :| Has(g', n, kind, c);
      assert Has(g, n, kind, c) && n !in doomed;
    }
    forall c: string | c in Ids(g, kind) * wanted
      ensures c in Ids(g', kind)
         <==> exists n :: Has(g, n, kind, c) && (other in g.nodes[n].labels ==> c in wantedThere)
    {
      InIds(g', kind, c);
      InIds(g, kind, c);
      InIds(g, other, c);
      forall n | Has(g, n, kind, c)
        ensures n in doomed <==> other in g.nodes[n].labels && c !in wantedThere
      {
        assert other in g.nodes[n].labels ==> Has(g, n, other, c);
      }
      forall n
        ensures Has(g', n, kind, c) <==> Has(g, n, kind, c) && n !in doomed
      {
      }
    }
  }

  /** Adding nodes of one kind leaves the ids of the other kind as they are. */
  lemma OtherKindKept(g: Graph, g': Graph, kind: string, cids: set<string>, other: string)
    requires Extends(g, g', kind, cids) && other != kind
    ensures Ids(g', other) == Ids(g, other)
  {
    forall c: string
      ensures c in Ids(g', other) <==> c in Ids(g, other)
    {
      InIds(g, other, c);
      InIds(g', other, c);
      forall n
        ensures Has(g', n, other, c) <==> Has(g, n, other, c)
      {
      }
    }
  }

  /** At either stage of back-filling, none of the rows merged has a node already. */
  lemma RunInStages(g: Graph, t: Tables, sp: set<nat>, ss: set<nat>)
    requires WellFormed(g) && TablesOk(t)
    ensures var pruned, positions := Pruned(g, t, sp, ss), Missing(t.positions, Ids(g, POSITION));
      var middle, skills := MergeAll(pruned, POSITION, positions), Missing(t.skills, Ids(g, SKILL));
      && WellFormed(pruned) && KeysOk(positions) && Ids(pruned, POSITION) !! RecordIds(positions)
      && WellFormed(middle) && KeysOk(skills) && Ids(middle, SKILL) !! RecordIds(skills)
      && RecordIds(positions) == RecordIds(t.positions) - Ids(g, POSITION)
      && RecordIds(skills) == RecordIds(t.skills) - Ids(g, SKILL)
  {
    var pruned, positions := Pruned(g, t, sp, ss), Missing(t.positions, Ids(g, POSITION));
    PrunedIds(g, t, sp, ss, POSITION, RecordIds(t.positions), SKILL, RecordIds(t.skills));
    PrunedIds(g, t, sp, ss, SKILL, RecordIds(t.skills), POSITION, RecordIds(t.positions));
    MissingRows(t.positions, Ids(g, POSITION));
    MissingRows(t.skills, Ids(g, SKILL));
    MergeAllExtends(pruned, POSITION, positions);
    OtherKindKept(pruned, MergeAll(pruned, POSITION, positions), POSITION, RecordIds(positions), SKILL);
  }

  /** A run is pruning followed by new nodes for what was missing; it adds no edge. */
  lemma RunExtendsPruned(g: Graph, t: Tables, sp: set<nat>, ss: set<nat>) returns (middle: Graph)
    requires WellFormed(g) && TablesOk(t)
    ensures Extends(Pruned(g, t, sp, ss), middle, POSITION, RecordIds(t.positions) - Ids(g, POSITION))
    ensures Extends(middle, Run(g, t, sp, ss), SKILL, RecordIds(t.skills) - Ids(g, SKILL))
  {
    var pruned := Pruned(g, t, sp, ss);
    RunInStages(g, t, sp, ss);
    MergeAllExtends(pruned, POSITION, Missing(t.positions, Ids(g, POSITION)));
    middle := MergeAll(pruned, POSITION, Missing(t.positions, Ids(g, POSITION)));
    MergeAllExtends(middle, SKILL, Missing(t.skills, Ids(g, SKILL)));
  }

  /** g' is g with new nodes that give it the additional ids; old nodes and all edges are untouched. */
  ghost predicate Grown(g: Graph, g': Graph, positions: set<string>, skills: set<string>) {
    && WellFormed(g') && g'.edges == g.edges
    && (forall n :: n in g.nodes ==> n in g'.nodes && g'.nodes[n] == g.nodes[n])
    && (forall n :: n in g'.nodes && n !in g.nodes ==> n >= g.next && g'.nodes[n].canonicalId.Some?)
    && Ids(g', POSITION) == Ids(g, POSITION) + positions
    && Ids(g', SKILL) == Ids(g, SKILL) + skills
  }

  lemma ExtendsTwice(g: Graph, g1: Graph, g2: Graph, positions: set<string>, skills: set<string>)
    requires Extends(g, g1, POSITION, positions) && Extends(g1, g2, SKILL, skills)
    ensures Grown(g, g2, positions, skills)
  {
    OtherKindKept(g, g1, POSITION, positions, SKILL);
    OtherKindKept(g1, g2, SKILL, skills, POSITION);
  }

  lemma RunGrows(g: Graph, t: Tables, sp: set<nat>, ss: set<nat>)
    requires WellFormed(g) && TablesOk(t)
    ensures Grown(Pruned(g, t, sp, ss), Run(g, t, sp, ss),
                  RecordIds(t.positions) - Ids(g, POSITION), RecordIds(t.skills) - Ids(g, SKILL))
  {
    var middle := RunExtendsPruned(g, t, sp, ss);
    ExtendsTwice(Pruned(g, t, sp, ss), middle, Run(g, t, sp, ss),
                 RecordIds(t.positions) - Ids(g, POSITION), RecordIds(t.skills) - Ids(g, SKILL));
  }

  /**
   * After a run the graph's positions and skills are exactly those of the tables, if and only if no wanted node was
   * shadowed by being of the other kind as well.
   */
  lemma RunMatchesTables(g: Graph, t: Tables, sp: set<nat>, ss: set<nat>)
    requires WellFormed(g) && TablesOk(t)
    ensures var g', positions, skills := Run(g, t, sp, ss), RecordIds(t.positions), RecordIds(t.skills);
      && (Ids(g', POSITION) == positions <==> Unshadowed(g, POSITION, positions, SKILL, skills))
      && (Ids(g', SKILL) == skills <==> Unshadowed(g, SKILL, skills, POSITION, positions))
  {
    var positions, skills := RecordIds(t.positions), RecordIds(t.skills);
    RunGrows(g, t, sp, ss);
    PrunedIds(g, t, sp, ss, POSITION, positions, SKILL, skills);
    PrunedIds(g, t, sp, ss, SKILL, skills, POSITION, positions);
    var pruned := Pruned(g, t, sp, ss);
    OnlyWanted(Ids(g, POSITION), Ids(pruned, POSITION), positions);
    OnlyWanted(Ids(g, SKILL), Ids(pruned, SKILL), skills);
  }

  /** A position that is taken for a skill and is no skill of the tables is deleted, and not filled in again. */
  lemma ShadowedIdIsLost()
    ensures var node := Node({POSITION, SKILL}, Some("p"), None, map[]);
      var g, t := Graph(map[0 := node], {}, 1), Tables([Record("p", "P", map[])], [], {});
      && WellFormed(g) && TablesOk(t) && Sample(g, POSITION, {}) && Sample(g, SKILL, {})
      && Ids(g, POSITION) == RecordIds(t.positions) && Ids(Run(g, t, {}, {}), POSITION) != RecordIds(t.positions)
  {
    var node := Node({POSITION, SKILL}, Some("p"), None, map[]);
    var g, t := Graph(map[0 := node], {}, 1), Tables([Record("p", "P", map[])], [], {});
    assert RecordIds(t.positions) == {"p"} by {
      assert t.positions[0] in t.positions;
    }
    assert RecordIds(t.skills) == {};
    assert Has(g, 0, POSITION, "p");
    InIds(g, POSITION, "p");
    assert Ids(g, POSITION) == {"p"};
    assert Legacy(g, POSITION) == {} && Legacy(g, SKILL) == {};
    RunMatchesTables(g, t, {}, {});
  }

  lemma {:induction false} MissingMembers(rows: seq<Record>, ids: set<string>)
    ensures forall r :: r in Missing(rows, ids) <==> r in rows && r.id !in ids
  {
    if rows != [] {
      var init := rows[..|rows| - 1];
      MissingMembers(init, ids);
      assert rows == init + [rows[|rows| - 1]];
    }
  }

  /** Each row that was missing has a new node with its data, and there are no other new nodes. */
  lemma MissingRowsAreCarried(g: Graph, t: Tables, sp: set<nat>, ss: set<nat>)
    requires WellFormed(g) && TablesOk(t)
    ensures var g', pruned := Run(g, t, sp, ss), Pruned(g, t, sp, ss);
      var positions, skills := Missing(t.positions, Ids(g, POSITION)), Missing(t.skills, Ids(g, SKILL));
      && |g'.nodes| == |pruned.nodes| + |positions| + |skills|
      && (forall r :: r in t.positions && r.id !in Ids(g, POSITION) ==>
            HasNew(pruned, g', Node({POSITION}, Some(r.id), Some(r.name), r.props)))
      && (forall r :: r in t.skills && r.id !in Ids(g, SKILL) ==>
            HasNew(pruned, g', Node({SKILL}, Some(r.id), Some(r.name), r.props)))
  {
    MissingMembers(t.positions, Ids(g, POSITION));
    MissingMembers(t.skills, Ids(g, SKILL));
    var pruned, g' := Pruned(g, t, sp, ss), Run(g, t, sp, ss);
    var positions, skills := Missing(t.positions, Ids(g, POSITION)), Missing(t.skills, Ids(g, SKILL));
    var middle := MergeAll(pruned, POSITION, positions);
    RunInStages(g, t, sp, ss);
    MergeAllCarries(pruned, POSITION, positions);
    MergeAllExtends(pruned, POSITION, positions);
    MergeAllCarries(middle, SKILL, skills);
    MergeAllExtends(middle, SKILL, skills);
    forall r | r in positions
      ensures HasNew(pruned, g', NodeOf(POSITION, r))
    {
      NewStays(pruned, middle, g', NodeOf(POSITION, r));
    }
    forall r | r in skills
      ensures HasNew(pruned, g', NodeOf(SKILL, r))
    {
      assert HasNew(middle, g', NodeOf(SKILL, r));
      var n :| n in g'.nodes && n !in middle.nodes && g'.nodes[n] == NodeOf(SKILL, r);
    }
  }

  lemma OnlyWanted(ids: set<string>, kept: set<string>, wanted: set<string>)
    requires kept <= ids * wanted
    ensures kept + (wanted - ids) == wanted <==> kept == ids * wanted
  {
    if kept + (wanted - ids) == wanted {
      assert forall c :: c in ids * wanted ==> c in kept + (wanted - ids);
    }
  }

  lemma PrunedWellFormed(g: Graph, t: Tables, sp: set<nat>, ss: set<nat>)
    requires WellFormed(g)
    ensures var g', doomed := Pruned(g, t, sp, ss), Doomed(g, t, sp, ss);
      && WellFormed(g') && g'.next == g.next
      && (forall n :: n in g'.nodes <==> n in g.nodes && n !in doomed)
      && (forall n :: n in g'.nodes ==> g'.nodes[n] == g.nodes[n])
      && g'.edges == set e | e in g.edges && e.source in g'.nodes && e.target in g'.nodes
  {
  }

  /** Surviving nodes are untouched, no edge dangles, and the edges are the old ones between surviving nodes. */
  lemma RunKeepsSurvivors(g: Graph, t: Tables, sp: set<nat>, ss: set<nat>)
    requires WellFormed(g) && TablesOk(t)
    ensures var g', doomed := Run(g, t, sp, ss), Doomed(g, t, sp, ss);
      && WellFormed(g')
      && (forall n :: n in g.nodes && n !in doomed ==> n in g'.nodes && g'.nodes[n] == g.nodes[n])
      && (forall n :: n in g'.nodes && n !in g.nodes ==> n >= g.next && g'.nodes[n].canonicalId.Some?)
      && (forall n :: n in g.nodes && n in doomed ==> n !in g'.nodes)
      && g'.edges == set e | e in g.edges && e.source !in doomed && e.target !in doomed
  {
    PrunedWellFormed(g, t, sp, ss);
    RunGrows(g, t, sp, ss);
  }

  // ---- legacy nodes ----

  /** What is left of the nodes without canonical id are those without a name and those whose name was not sampled. */
  lemma LegacyAfterRun(g: Graph, t: Tables, sp: set<nat>, ss: set<nat>, kind: string)
    requires WellFormed(g) && TablesOk(t)
    ensures Legacy(Run(g, t, sp, ss), kind)
         == Legacy(g, kind) - LegacyNamed(g, POSITION, NamesOf(g, sp)) - LegacyNamed(g, SKILL, NamesOf(g, ss))
  {
    RunKeepsSurvivors(g, t, sp, ss);
  }

  ghost predicate AllNamed(g: Graph, kind: string) {
    forall n :: n in Legacy(g, kind) ==> Named(g.nodes[n])
  }

  /** The legacy nodes of a kind that have no name, which no run ever deletes, and the others. */
  function Unnamed(g: Graph, kind: string): set<nat> {
    set n | n in Legacy(g, kind) && !Named(g.nodes[n])
  }

  function NamedLegacy(g: Graph, kind: string): set<nat> {
    Legacy(g, kind) - Unnamed(g, kind)
  }

  lemma UnnamedAfterRun(g: Graph, t: Tables, sp: set<nat>, ss: set<nat>, kind: string)
    requires WellFormed(g) && TablesOk(t)
    ensures Unnamed(Run(g, t, sp, ss), kind) == Unnamed(g, kind)
  {
    LegacyAfterRun(g, t, sp, ss, kind);
    RunKeepsSurvivors(g, t, sp, ss);
    assert forall n :: n in Unnamed(g, kind) ==>
      n !in LegacyNamed(g, POSITION, NamesOf(g, sp)) && n !in LegacyNamed(g, SKILL, NamesOf(g, ss));
  }

  /** What the nameless nodes leave of the query's limit is how many named ones a run removes at least. */
  lemma NamedShrink(g: Graph, t: Tables, sp: set<nat>, ss: set<nat>, kind: string)
    requires WellFormed(g) && TablesOk(t) && (kind == POSITION || kind == SKILL)
    requires Sample(g, kind, if kind == POSITION then sp else ss)
    ensures |NamedLegacy(Run(g, t, sp, ss), kind)|
         <= Minus(|NamedLegacy(g, kind)|, Minus(LEGACY_LIMIT, |Unnamed(g, kind)|))
  {
    var sample := if kind == POSITION then sp else ss;
    var named, taken := NamedLegacy(g, kind), sample - Unnamed(g, kind);
    SampledAreRemoved(g, t, sp, ss, kind);
    SubsetSize(taken, named);
    SubsetSize(NamedLegacy(Run(g, t, sp, ss), kind), named - taken);
    TakenAtLeast(sample, Unnamed(g, kind));
    if sample == Legacy(g, kind) {
      assert named - taken == {};
    }
  }

  lemma TakenAtLeast(sample: set<nat>, unnamed: set<nat>)
    ensures |sample - unnamed| >= Minus(|sample|, |unnamed|)
  {
    SubsetSize(sample * unnamed, unnamed);
    SubsetSize(sample * unnamed, sample);
    assert sample - sample * unnamed == sample - unnamed;
  }

  lemma SampledAreRemoved(g: Graph, t: Tables, sp: set<nat>, ss: set<nat>, kind: string)
    requires WellFormed(g) && TablesOk(t) && (kind == POSITION || kind == SKILL)
    requires Sample(g, kind, if kind == POSITION then sp else ss)
    ensures NamedLegacy(Run(g, t, sp, ss), kind)
         <= NamedLegacy(g, kind) - ((if kind == POSITION then sp else ss) - Unnamed(g, kind))
  {
    var sample := if kind == POSITION then sp else ss;
    LegacyAfterRun(g, t, sp, ss, kind);
    UnnamedAfterRun(g, t, sp, ss, kind);
    assert forall n :: n in sample - Unnamed(g, kind) ==>
      g.nodes[n].name.value in NamesOf(g, sample) && n in LegacyNamed(g, kind, NamesOf(g, sample));
  }

  lemma AllNamedIff(g: Graph, kind: string)
    ensures AllNamed(g, kind) <==> Unnamed(g, kind) == {}
    ensures AllNamed(g, kind) ==> NamedLegacy(g, kind) == Legacy(g, kind)
  {
    assert forall n :: n in Legacy(g, kind) && !Named(g.nodes[n]) ==> n in Unnamed(g, kind);
  }

  /** A run with a sample of named nodes removes at least the sample. */
  lemma LegacyShrinks(g: Graph, t: Tables, sp: set<nat>, ss: set<nat>, kind: string)
    requires WellFormed(g) && TablesOk(t) && (kind == POSITION || kind == SKILL)
    requires Sample(g, kind, if kind == POSITION then sp else ss) && AllNamed(g, kind)
    ensures var g' := Run(g, t, sp, ss);
      && AllNamed(g', kind)
      && |Legacy(g', kind)| <= Minus(|Legacy(g, kind)|, LEGACY_LIMIT)
  {
    AllNamedIff(g, kind);
    AllNamedIff(Run(g, t, sp, ss), kind);
    UnnamedAfterRun(g, t, sp, ss, kind);
    NamedShrink(g, t, sp, ss, kind);
  }

  /** g' comes of a run on g, with some samples. */
  ghost predicate Reaches(g: Graph, t: Tables, g': Graph) {
    exists sp, ss :: Sample(g, POSITION, sp) && Sample(g, SKILL, ss) && g' == Run(g, t, sp, ss)
  }

  /** Successive graphs of repeated runs, each with samples of its own. */
  ghost predicate Chain(gs: seq<Graph>, t: Tables) {
    gs != [] && forall i, j :: 0 <= i < j < |gs| && j == i + 1 ==> Reaches(gs[i], t, gs[j])
  }

  function Minus(n: nat, m: nat): nat {
    if n > m then n - m else 0
  }

  lemma ReachedShrinks(g: Graph, t: Tables, g': Graph, kind: string)
    requires WellFormed(g) && TablesOk(t) && (kind == POSITION || kind == SKILL) && Reaches(g, t, g')
    ensures WellFormed(g') && Unnamed(g', kind) == Unnamed(g, kind)
    ensures |NamedLegacy(g', kind)| <= Minus(|NamedLegacy(g, kind)|, Minus(LEGACY_LIMIT, |Unnamed(g, kind)|))
  {
    var sp, ss :| Sample(g, POSITION, sp) && Sample(g, SKILL, ss) && g' == Run(g, t, sp, ss);
    NamedShrink(g, t, sp, ss, kind);
    UnnamedAfterRun(g, t, sp, ss, kind);
    RunKeepsSurvivors(g, t, sp, ss);
  }

  /** What is left of a number that is lowered n times, down to 0. */
  function Lowered(size: nat, n: nat, share: nat): nat {
    if n == 0 then size else Minus(Lowered(size, n - 1, share), share)
  }

  lemma {:induction false} LoweredIs(size: nat, n: nat, share: nat)
    ensures Lowered(size, n, share) == Minus(size, Product(n, share))
  {
    if n > 0 {
      LoweredIs(size, n - 1, share);
      assert n * share == (n - 1) * share + share;
    }
  }

  function Product(n: nat, m: nat): (p: nat)
    ensures p == n * m
  {
    n * m
  }

  /** Of a graph after n runs: the nameless are as they were, and what is left of the named is at most this. */
  ghost predicate IsLowered(g: Graph, kind: string, unnamed: set<nat>, size: nat, n: nat) {
    && WellFormed(g) && Unnamed(g, kind) == unnamed
    && |NamedLegacy(g, kind)| <= Lowered(size, n, Minus(LEGACY_LIMIT, |unnamed|))
  }

  lemma LoweredOnce(g: Graph, t: Tables, g': Graph, kind: string, unnamed: set<nat>, size: nat, n: nat)
    requires TablesOk(t) && (kind == POSITION || kind == SKILL) && Reaches(g, t, g')
    requires IsLowered(g, kind, unnamed, size, n)
    ensures IsLowered(g', kind, unnamed, size, n + 1)
  {
    ReachedShrinks(g, t, g', kind);
  }

  lemma ChainInit(gs: seq<Graph>, t: Tables)
    requires Chain(gs, t) && |gs| > 1
    ensures Chain(gs[..|gs| - 1], t) && Reaches(gs[|gs| - 2], t, gs[|gs| - 1])
  {
  }

  lemma {:induction false} RepeatedRunsLower(gs: seq<Graph>, t: Tables, kind: string, unnamed: set<nat>, size: nat)
    requires Chain(gs, t) && TablesOk(t) && (kind == POSITION || kind == SKILL)
    requires IsLowered(gs[0], kind, unnamed, size, 0)
    ensures IsLowered(gs[|gs| - 1], kind, unnamed, size, |gs| - 1)
  {
    var n := |gs| - 1;
    if n > 0 {
      ChainInit(gs, t);
      RepeatedRunsLower(gs[..n], t, kind, unnamed, size);
      LoweredOnce(gs[n - 1], t, gs[n], kind, unnamed, size, n - 1);
    }
  }

  /** n runs remove n times what the nameless nodes leave of the query's limit, down to none. */
  lemma RepeatedRunsClearNamed(gs: seq<Graph>, t: Tables, kind: string)
    requires Chain(gs, t) && TablesOk(t) && WellFormed(gs[0]) && (kind == POSITION || kind == SKILL)
    ensures WellFormed(gs[|gs| - 1]) && Unnamed(gs[|gs| - 1], kind) == Unnamed(gs[0], kind)
    ensures |NamedLegacy(gs[|gs| - 1], kind)|
         <= Minus(|NamedLegacy(gs[0], kind)|, Product(|gs| - 1, Minus(LEGACY_LIMIT, |Unnamed(gs[0], kind)|)))
  {
    var unnamed, size := Unnamed(gs[0], kind), |NamedLegacy(gs[0], kind)|;
    RepeatedRunsLower(gs, t, kind, unnamed, size);
    LoweredIs(size, |gs| - 1, Minus(LEGACY_LIMIT, |unnamed|));
  }

  /** Named legacy nodes of a kind are gone after as many runs as it takes the query's limit to cover them. */
  lemma RepeatedRunsClear(gs: seq<Graph>, t: Tables, kind: string)
    requires Chain(gs, t) && TablesOk(t) && WellFormed(gs[0]) && (kind == POSITION || kind == SKILL)
    requires AllNamed(gs[0], kind)
    ensures |Legacy(gs[|gs| - 1], kind)| <= Minus(|Legacy(gs[0], kind)|, (|gs| - 1) * LEGACY_LIMIT)
  {
    AllNamedIff(gs[0], kind);
    AllNamedIff(gs[|gs| - 1], kind);
    RepeatedRunsClearNamed(gs, t, kind);
  }

  lemma {:induction false} SubsetOfSize(s: set<nat>, k: nat) returns (t: set<nat>)
    requires k <= |s|
    ensures t <= s && |t| == k
  {
    if k == |s| {
      t := s;
    } else {
      var x :| x in s;
      t := SubsetOfSize(s - {x}, k);
    }
  }

  lemma NamelessSample(g: Graph, kind: string, sample: set<nat>)
    requires sample <= Legacy(g, kind)
    ensures NamesOf(g, sample) == {} <==> sample <= Unnamed(g, kind)
  {
    assert forall n :: n in sample && Named(g.nodes[n]) ==> g.nodes[n].name.value in NamesOf(g, sample);
  }

  /** A sample may hold no name at all, so that a run clears nothing, just when nameless nodes can fill it. */
  lemma SampleMayBeNamelessIff(g: Graph, kind: string)
    ensures (exists sample :: Sample(g, kind, sample) && NamesOf(g, sample) == {})
       <==> |Unnamed(g, kind)| >= LEGACY_LIMIT || Unnamed(g, kind) == Legacy(g, kind)
  {
    var unnamed, legacy := Unnamed(g, kind), Legacy(g, kind);
    if sample :| Sample(g, kind, sample) && NamesOf(g, sample) == {} {
      NamelessSample(g, kind, sample);
      SubsetSize(sample, unnamed);
    }
    if |unnamed| >= LEGACY_LIMIT || unnamed == legacy {
      var sample := SubsetOfSize(unnamed, if |unnamed| >= LEGACY_LIMIT then LEGACY_LIMIT else |unnamed|);
      SubsetSize(sample, unnamed);
      NamelessSample(g, kind, sample);
      assert Sample(g, kind, sample);
    }
  }

  ghost predicate MayBeNameless(g: Graph, kind: string) {
    |Unnamed(g, kind)| >= LEGACY_LIMIT || NamedLegacy(g, kind) == {}
  }

  /** A whole run may clear no legacy node, of either kind, just when that holds of both kinds. */
  lemma RunMayClearNoneIff(g: Graph, t: Tables)
    requires WellFormed(g) && TablesOk(t)
    ensures (exists sp, ss :: Sample(g, POSITION, sp) && Sample(g, SKILL, ss) && ClearsNone(g, t, sp, ss))
       <==> MayBeNameless(g, POSITION) && MayBeNameless(g, SKILL)
  {
    SampleMayBeNamelessIff(g, POSITION);
    SampleMayBeNamelessIff(g, SKILL);
    if sp, ss :| Sample(g, POSITION, sp) && Sample(g, SKILL, ss) && ClearsNone(g, t, sp, ss) {
      ClearsNoneIff(g, t, sp, ss);
    }
    if MayBeNameless(g, POSITION) && MayBeNameless(g, SKILL) {
      var sp :| Sample(g, POSITION, sp) && NamesOf(g, sp) == {};
      var ss :| Sample(g, SKILL, ss) && NamesOf(g, ss) == {};
      ClearsNoneIff(g, t, sp, ss);
    }
  }

  ghost predicate ClearsNone(g: Graph, t: Tables, sp: set<nat>, ss: set<nat>) {
    && Legacy(Run(g, t, sp, ss), POSITION) == Legacy(g, POSITION)
    && Legacy(Run(g, t, sp, ss), SKILL) == Legacy(g, SKILL)
  }

  lemma ClearsNoneIff(g: Graph, t: Tables, sp: set<nat>, ss: set<nat>)
    requires WellFormed(g) && TablesOk(t) && Sample(g, POSITION, sp) && Sample(g, SKILL, ss)
    ensures ClearsNone(g, t, sp, ss) <==> NamesOf(g, sp) == {} && NamesOf(g, ss) == {}
  {
    LegacyAfterRun(g, t, sp, ss, POSITION);
    LegacyAfterRun(g, t, sp, ss, SKILL);
    assert forall n :: n in sp && Named(g.nodes[n]) ==> n in LegacyNamed(g, POSITION, NamesOf(g, sp));
    assert forall n :: n in ss && Named(g.nodes[n]) ==> n in LegacyNamed(g, SKILL, NamesOf(g, ss));
  }

  // ---- fixed points ----

  lemma EmptyMissing(rows: seq<Record>, ids: set<string>)
    requires KeysOk(rows) && RecordIds(rows) <= ids
    ensures Missing(rows, ids) == []
  {
    MissingRows(rows, ids);
    var missing := Missing(rows, ids);
    assert missing == [] || missing[0].id in RecordIds(missing);
  }

  /** A run changes nothing exactly when the ids agree with the tables and no sampled legacy node has a name. */
  lemma FixedPointIff(g: Graph, t: Tables, sp: set<nat>, ss: set<nat>)
    requires WellFormed(g) && TablesOk(t) && Sample(g, POSITION, sp) && Sample(g, SKILL, ss)
    ensures Run(g, t, sp, ss) == g <==>
      Ids(g, POSITION) == RecordIds(t.positions) && Ids(g, SKILL) == RecordIds(t.skills)
      && NamesOf(g, sp) == {} && NamesOf(g, ss) == {}
  {
    var positions, skills := RecordIds(t.positions), RecordIds(t.skills);
    if Run(g, t, sp, ss) == g {
      FixedPointMatches(g, t, sp, ss);
    }
    if Ids(g, POSITION) == positions && Ids(g, SKILL) == skills && NamesOf(g, sp) == {} && NamesOf(g, ss) == {} {
      MatchingIsFixedPoint(g, t, sp, ss);
    }
  }

  lemma FixedPointMatches(g: Graph, t: Tables, sp: set<nat>, ss: set<nat>)
    requires WellFormed(g) && TablesOk(t) && Sample(g, POSITION, sp) && Sample(g, SKILL, ss)
    requires Run(g, t, sp, ss) == g
    ensures Ids(g, POSITION) == RecordIds(t.positions) && Ids(g, SKILL) == RecordIds(t.skills)
    ensures NamesOf(g, sp) == {} && NamesOf(g, ss) == {}
  {
    FixedPointDoomsNone(g, t, sp, ss);
    NothingDoomed(g, t, sp, ss);
    RunGrows(g, t, sp, ss);
  }

  lemma FixedPointDoomsNone(g: Graph, t: Tables, sp: set<nat>, ss: set<nat>)
    requires WellFormed(g) && TablesOk(t) && Run(g, t, sp, ss) == g
    ensures Doomed(g, t, sp, ss) == {}
  {
    RunKeepsSurvivors(g, t, sp, ss);
    assert forall n :: n in Doomed(g, t, sp, ss) ==> n in g.nodes;
  }

  lemma MatchingIsFixedPoint(g: Graph, t: Tables, sp: set<nat>, ss: set<nat>)
    requires TablesOk(t) && Ids(g, POSITION) == RecordIds(t.positions) && Ids(g, SKILL) == RecordIds(t.skills)
    requires WellFormed(g) && NamesOf(g, sp) == {} && NamesOf(g, ss) == {}
    ensures Run(g, t, sp, ss) == g
  {
    assert Ids(g, POSITION) - RecordIds(t.positions) == {} && Ids(g, SKILL) - RecordIds(t.skills) == {};
    assert Doomed(g, t, sp, ss) == {};
    assert Pruned(g, t, sp, ss) == g;
    EmptyMissing(t.positions, Ids(g, POSITION));
    EmptyMissing(t.skills, Ids(g, SKILL));
  }

  lemma NothingDoomed(g: Graph, t: Tables, sp: set<nat>, ss: set<nat>)
    requires Doomed(g, t, sp, ss) == {} && Sample(g, POSITION, sp) && Sample(g, SKILL, ss)
    ensures Ids(g, POSITION) <= RecordIds(t.positions) && Ids(g, SKILL) <= RecordIds(t.skills)
    ensures NamesOf(g, sp) == {} && NamesOf(g, ss) == {}
  {
    forall c | c in Ids(g, POSITION)
      ensures c in RecordIds(t.positions)
    {
      InIds(g, POSITION, c);
      var n :| Has(g, n, POSITION, c);
      assert n !in WithIds(g, POSITION, Ids(g, POSITION) - RecordIds(t.positions));
    }
    forall c | c in Ids(g, SKILL)
      ensures c in RecordIds(t.skills)
    {
      InIds(g, SKILL, c);
      var n :| Has(g, n, SKILL, c);
      assert n !in WithIds(g, SKILL, Ids(g, SKILL) - RecordIds(t.skills));
    }
    assert forall n :: n in sp && Named(g.nodes[n]) ==> n in LegacyNamed(g, POSITION, NamesOf(g, sp));
    assert forall n :: n in ss && Named(g.nodes[n]) ==> n in LegacyNamed(g, SKILL, NamesOf(g, ss));
  }

  /**
   * With named legacy nodes, few enough for the query, one run is enough: it leaves no node without canonical id, and
   * another run, whatever it samples, changes nothing.
   */
  lemma SecondRunChangesNothing(g: Graph, t: Tables, sp: set<nat>, ss: set<nat>, sp': set<nat>, ss': set<nat>)
    requires WellFormed(g) && TablesOk(t) && Sample(g, POSITION, sp) && Sample(g, SKILL, ss)
    requires Unshadowed(g, POSITION, RecordIds(t.positions), SKILL, RecordIds(t.skills))
    requires Unshadowed(g, SKILL, RecordIds(t.skills), POSITION, RecordIds(t.positions))
    requires AllNamed(g, POSITION) && |Legacy(g, POSITION)| <= LEGACY_LIMIT
    requires AllNamed(g, SKILL) && |Legacy(g, SKILL)| <= LEGACY_LIMIT
    requires Sample(Run(g, t, sp, ss), POSITION, sp') && Sample(Run(g, t, sp, ss), SKILL, ss')
    ensures var g' := Run(g, t, sp, ss);
      Legacy(g', POSITION) == {} && Legacy(g', SKILL) == {} && Run(g', t, sp', ss') == g'
  {
    var g' := Run(g, t, sp, ss);
    LegacyShrinks(g, t, sp, ss, POSITION);
    LegacyShrinks(g, t, sp, ss, SKILL);
    RunMatchesTables(g, t, sp, ss);
    RunKeepsSurvivors(g, t, sp, ss);
    FixedPointIff(g', t, sp', ss');
  }

  /** The ids agree with the tables. */
  ghost predicate Matches(g: Graph, t: Tables) {
    Ids(g, POSITION) == RecordIds(t.positions) && Ids(g, SKILL) == RecordIds(t.skills)
  }

  ghost predicate NothingShadowed(g: Graph, t: Tables) {
    && Unshadowed(g, POSITION, RecordIds(t.positions), SKILL, RecordIds(t.skills))
    && Unshadowed(g, SKILL, RecordIds(t.skills), POSITION, RecordIds(t.positions))
  }

  lemma MatchingIsUnshadowed(g: Graph, t: Tables)
    requires Matches(g, t)
    ensures NothingShadowed(g, t)
  {
    UnshadowedWhenWanted(g, POSITION, RecordIds(t.positions), SKILL, RecordIds(t.skills));
    UnshadowedWhenWanted(g, SKILL, RecordIds(t.skills), POSITION, RecordIds(t.positions));
  }

  lemma UnshadowedWhenWanted(g: Graph, kind: string, wanted: set<string>, other: string, wantedThere: set<string>)
    requires Ids(g, other) <= wantedThere
    ensures Unshadowed(g, kind, wanted, other, wantedThere)
  {
    forall c | c in Ids(g, kind) * wanted
      ensures exists n :: Has(g, n, kind, c) && (other in g.nodes[n].labels ==> c in wantedThere)
    {
      InIds(g, kind, c);
      InIds(g, other, c);
      var n :| Has(g, n, kind, c);
      assert other in g.nodes[n].labels ==> Has(g, n, other, c);
    }
  }

  /** A run leaves no node that the next would delete for the sake of its other label. */
  lemma RunUnshadows(g: Graph, t: Tables, sp: set<nat>, ss: set<nat>)
    requires WellFormed(g) && TablesOk(t)
    ensures NothingShadowed(Run(g, t, sp, ss), t)
  {
    var g', positions, skills := Run(g, t, sp, ss), RecordIds(t.positions), RecordIds(t.skills);
    RunGrows(g, t, sp, ss);
    PrunedIds(g, t, sp, ss, POSITION, positions, SKILL, skills);
    PrunedIds(g, t, sp, ss, SKILL, skills, POSITION, positions);
    UnshadowedWhenWanted(g', POSITION, positions, SKILL, skills);
    UnshadowedWhenWanted(g', SKILL, skills, POSITION, positions);
  }

  lemma ReachedMatches(g: Graph, t: Tables, g': Graph)
    requires WellFormed(g) && TablesOk(t) && Reaches(g, t, g')
    ensures WellFormed(g') && NothingShadowed(g', t) && (NothingShadowed(g, t) ==> Matches(g', t))
  {
    var sp, ss :| Sample(g, POSITION, sp) && Sample(g, SKILL, ss) && g' == Run(g, t, sp, ss);
    RunUnshadows(g, t, sp, ss);
    RunMatchesTables(g, t, sp, ss);
    RunKeepsSurvivors(g, t, sp, ss);
  }

  /** From the second run on the ids agree in any case, from the first if nothing was shadowed. */
  lemma {:induction false} RepeatedRunsMatch(gs: seq<Graph>, t: Tables)
    requires Chain(gs, t) && TablesOk(t) && WellFormed(gs[0])
    requires |gs| >= 3 || (|gs| == 2 && NothingShadowed(gs[0], t))
    ensures WellFormed(gs[|gs| - 1]) && NothingShadowed(gs[|gs| - 1], t) && Matches(gs[|gs| - 1], t)
  {
    var n := |gs| - 1;
    assert Reaches(gs[n - 1], t, gs[n]);
    if n == 2 {
      assert Reaches(gs[0], t, gs[1]);
      ReachedMatches(gs[0], t, gs[1]);
    } else if n > 2 {
      RepeatedRunsMatch(gs[..n], t);
    }
    ReachedMatches(gs[n - 1], t, gs[n]);
  }

  /** So many runs that what nameless nodes leave of the query's limit covers the named ones. */
  ghost predicate Enough(gs: seq<Graph>, kind: string)
    requires gs != []
  {
    |NamedLegacy(gs[0], kind)| <= (|gs| - 1) * Minus(LEGACY_LIMIT, |Unnamed(gs[0], kind)|)
  }

  /**
   * After enough runs, and two at least (one if nothing is shadowed), any further run changes nothing: the ids agree
   * and of the legacy nodes just the nameless are left.
   */
  lemma RepeatedRunsReachFixedPoint(gs: seq<Graph>, t: Tables, g': Graph)
    requires Chain(gs, t) && TablesOk(t) && WellFormed(gs[0])
    requires |gs| >= 3 || (|gs| == 2 && NothingShadowed(gs[0], t))
    requires Enough(gs, POSITION) && Enough(gs, SKILL) && Reaches(gs[|gs| - 1], t, g')
    ensures g' == gs[|gs| - 1] && Matches(g', t)
    ensures Legacy(g', POSITION) == Unnamed(gs[0], POSITION) && Legacy(g', SKILL) == Unnamed(gs[0], SKILL)
  {
    var last := gs[|gs| - 1];
    RepeatedRunsMatch(gs, t);
    RepeatedRunsClearNamed(gs, t, POSITION);
    RepeatedRunsClearNamed(gs, t, SKILL);
    var sp, ss :| Sample(last, POSITION, sp) && Sample(last, SKILL, ss) && g' == Run(last, t, sp, ss);
    OnlyUnnamedLeft(last, POSITION, sp);
    OnlyUnnamedLeft(last, SKILL, ss);
    FixedPointIff(last, t, sp, ss);
  }

  lemma OnlyUnnamedLeft(g: Graph, kind: string, sample: set<nat>)
    requires |NamedLegacy(g, kind)| == 0 && Sample(g, kind, sample)
    ensures Legacy(g, kind) == Unnamed(g, kind) && NamesOf(g, sample) == {}
  {
    assert NamedLegacy(g, kind) == {};
    NamelessSample(g, kind, sample);
  }

  // ---- relations ----

  ghost predicate Connects(g: Graph, e: Edge, p: string, s: string) {
    && e in g.edges && e.relationship == "REQUIRES"
    && Has(g, e.source, POSITION, p) && Has(g, e.target, SKILL, s)
  }

  /** The graph says that position p requires skill s. */
  ghost predicate Requires(g: Graph, p: string, s: string) {
    exists e :: Connects(g, e, p, s)
  }

  /** Neither end of the edge is an orphan on account of the other label. */
  ghost predicate Endures(g: Graph, e: Edge, p: string, s: string, t: Tables)
    requires e.source in g.nodes && e.target in g.nodes
  {
    && (SKILL in g.nodes[e.source].labels ==> p in RecordIds(t.skills))
    && (POSITION in g.nodes[e.target].labels ==> s in RecordIds(t.positions))
  }

  /**
   * For a wanted position and a wanted skill a run never adds a REQUIRES edge, although filling in what the tables hold
   * is announced; and it keeps one if and only if neither end also carries the other label with an id unwanted there.
   */
  lemma RequiresAfterRunIff(g: Graph, t: Tables, sp: set<nat>, ss: set<nat>, p: string, s: string)
    requires WellFormed(g) && TablesOk(t)
    requires p in RecordIds(t.positions) && s in RecordIds(t.skills)
    ensures Requires(Run(g, t, sp, ss), p, s) <==> exists e :: Connects(g, e, p, s) && Endures(g, e, p, s, t)
  {
    var g' := Run(g, t, sp, ss);
    RunKeepsSurvivors(g, t, sp, ss);
    if e :| Connects(g, e, p, s) && Endures(g, e, p, s, t) {
      WantedSurvivesIff(g, t, sp, ss, e.source, POSITION, p, RecordIds(t.positions), SKILL, RecordIds(t.skills));
      WantedSurvivesIff(g, t, sp, ss, e.target, SKILL, s, RecordIds(t.skills), POSITION, RecordIds(t.positions));
      assert Connects(g', e, p, s);
    }
    if Requires(g', p, s) {
      var e :| Connects(g', e, p, s);
      EdgeWasThere(g, t, sp, ss, e);
      WantedSurvivesIff(g, t, sp, ss, e.source, POSITION, p, RecordIds(t.positions), SKILL, RecordIds(t.skills));
      WantedSurvivesIff(g, t, sp, ss, e.target, SKILL, s, RecordIds(t.skills), POSITION, RecordIds(t.positions));
      assert Connects(g, e, p, s) && Endures(g, e, p, s, t);
    }
  }

  lemma WantedSurvivesIff(g: Graph, t: Tables, sp: set<nat>, ss: set<nat>, n: nat, kind: string, cid: string,
                          wanted: set<string>, other: string, wantedThere: set<string>)
    requires TablesOk(t) && Has(g, n, kind, cid) && cid in wanted
    requires (kind, wanted, other, wantedThere) == (POSITION, RecordIds(t.positions), SKILL, RecordIds(t.skills))
          || (kind, wanted, other, wantedThere) == (SKILL, RecordIds(t.skills), POSITION, RecordIds(t.positions))
    ensures n !in Doomed(g, t, sp, ss) <==> (other in g.nodes[n].labels ==> cid in wantedThere)
  {
    InIds(g, other, cid);
    assert other in g.nodes[n].labels ==> Has(g, n, other, cid);
  }

  /** No node is both a position and a skill. */
  ghost predicate OneKind(g: Graph) {
    forall n :: n in g.nodes ==> !(POSITION in g.nodes[n].labels && SKILL in g.nodes[n].labels)
  }

  /** While no node is of both kinds, wanted positions and skills keep their REQUIRES edges and gain none. */
  lemma RequiresUnchanged(g: Graph, t: Tables, sp: set<nat>, ss: set<nat>, p: string, s: string)
    requires WellFormed(g) && TablesOk(t) && OneKind(g)
    requires p in RecordIds(t.positions) && s in RecordIds(t.skills)
    ensures Requires(Run(g, t, sp, ss), p, s) <==> Requires(g, p, s)
  {
    RequiresAfterRunIff(g, t, sp, ss, p, s);
    if Requires(g, p, s) {
      var e :| Connects(g, e, p, s);
      assert Endures(g, e, p, s, t);
    }
  }

  const ONE_RELATION: Tables := Tables([Record("p", "P", map[])], [Record("s", "S", map[])], {("p", "s")})

  lemma OneRelationIds()
    ensures TablesOk(ONE_RELATION)
    ensures RecordIds(ONE_RELATION.positions) == {"p"} && RecordIds(ONE_RELATION.skills) == {"s"}
  {
    assert ONE_RELATION.positions[0] in ONE_RELATION.positions && ONE_RELATION.skills[0] in ONE_RELATION.skills;
  }

  /** Position p is labelled a skill, too, and requires skill s. */
  const MISLABELLED: Graph :=
    Graph(map[0 := Node({POSITION, SKILL}, Some("p"), None, map[]), 1 := Node({SKILL}, Some("s"), None, map[])],
          {Edge(0, "REQUIRES", 1)}, 2)

  lemma MislabelledEdge(e: Edge)
    ensures WellFormed(MISLABELLED) && Connects(MISLABELLED, Edge(0, "REQUIRES", 1), "p", "s")
    ensures Connects(MISLABELLED, e, "p", "s") ==> e == Edge(0, "REQUIRES", 1)
    ensures SKILL in MISLABELLED.nodes[0].labels
  {
  }

  /** As p is no skill of the tables, its node is deleted together with the edge that the tables ask for. */
  lemma RelationMayBeLost()
    ensures WellFormed(MISLABELLED) && TablesOk(ONE_RELATION) && Requires(MISLABELLED, "p", "s")
    ensures !Requires(Run(MISLABELLED, ONE_RELATION, {}, {}), "p", "s")
  {
    OneRelationIds();
    MislabelledEdge(Edge(0, "REQUIRES", 1));
    RequiresAfterRunIff(MISLABELLED, ONE_RELATION, {}, {}, "p", "s");
    forall e | Connects(MISLABELLED, e, "p", "s")
      ensures !Endures(MISLABELLED, e, "p", "s", ONE_RELATION)
    {
      MislabelledEdge(e);
    }
  }

  lemma EdgeWasThere(g: Graph, t: Tables, sp: set<nat>, ss: set<nat>, e: Edge)
    requires WellFormed(g) && TablesOk(t) && e in Run(g, t, sp, ss).edges
    ensures var g' := Run(g, t, sp, ss);
      && e in g.edges && e.source in g.nodes && e.target in g.nodes && e.source in g'.nodes && e.target in g'.nodes
      && g'.nodes[e.source] == g.nodes[e.source] && g'.nodes[e.target] == g.nodes[e.target]
  {
    RunKeepsSurvivors(g, t, sp, ss);
  }

  /** An empty graph and one relation: the nodes are filled in and the edge is not. */
  lemma RelationNotFilledIn()
    ensures var g := Graph(map[], {}, 0);
      && WellFormed(g) && TablesOk(ONE_RELATION)
      && var g' := Run(g, ONE_RELATION, {}, {});
         Ids(g', POSITION) == {"p"} && Ids(g', SKILL) == {"s"} && !Requires(g', "p", "s")
  {
    var g := Graph(map[], {}, 0);
    OneRelationIds();
    RunMatchesTables(g, ONE_RELATION, {}, {});
    RequiresUnchanged(g, ONE_RELATION, {}, {}, "p", "s");
  }

  // ---- relations, had the script called the operation that the projector has ----

  type Relation = (string, string)

  /** `MATCH` both ends by canonical id, then `MERGE` the edge between each pair found. */
  function MergeRelation(g: Graph, r: Relation): Graph {
    if r.0 == "" || r.1 == "" then g else g.(edges := g.edges + Between(g, r))
  }

  function Between(g: Graph, r: Relation): set<Edge> {
    set p, s | p in g.nodes && s in g.nodes && Has(g, p, POSITION, r.0) && Has(g, s, SKILL, r.1)
      :: Edge(p, "REQUIRES", s)
  }

  function MergeRelations(g: Graph, rels: seq<Relation>): Graph {
    if rels == [] then g else MergeRelation(MergeRelations(g, rels[..|rels| - 1]), rels[|rels| - 1])
  }

  /** The edge is one that some of the relations ask for. */
  ghost predicate Asked(g: Graph, rels: seq<Relation>, e: Edge) {
    e.relationship == "REQUIRES" && exists r :: r in rels && Asks(g, r, e)
  }

  /** The relation names both ends of the edge. */
  ghost predicate Asks(g: Graph, r: Relation, e: Edge) {
    r.0 != "" && r.1 != "" && Has(g, e.source, POSITION, r.0) && Has(g, e.target, SKILL, r.1)
  }

  /** Exactly the edges asked for are added, in whatever order the relations come; nothing else changes. */
  lemma {:induction false} MergeRelationsEffect(g: Graph, rels: seq<Relation>)
    ensures var g' := MergeRelations(g, rels);
      && g'.nodes == g.nodes && g'.next == g.next
      && forall e :: e in g'.edges <==> e in g.edges || Asked(g, rels, e)
  {
    if rels != [] {
      var init, last := rels[..|rels| - 1], rels[|rels| - 1];
      MergeRelationsEffect(g, init);
      var before := MergeRelations(g, init);
      assert Between(before, last) == Between(g, last);
      assert rels == init + [last];
      forall e
        ensures Asked(g, rels, e) <==> Asked(g, init, e) || (last.0 != "" && last.1 != "" && e in Between(g, last))
      {
        assert last.0 != "" && last.1 != "" ==>
          (e in Between(g, last) <==> e.relationship == "REQUIRES" && Asks(g, last, e));
      }
    }
  }

  /** So a relation is an edge afterwards just when it was one before or is asked for and both its ends exist. */
  lemma RelationFilledInIff(g: Graph, rels: seq<Relation>, p: string, s: string)
    requires p != "" && s != ""
    ensures Requires(MergeRelations(g, rels), p, s)
       <==> Requires(g, p, s) || ((p, s) in rels && p in Ids(g, POSITION) && s in Ids(g, SKILL))
  {
    var g' := MergeRelations(g, rels);
    MergeRelationsEffect(g, rels);
    InIds(g, POSITION, p);
    InIds(g, SKILL, s);
    if Requires(g', p, s) && !Requires(g, p, s) {
      var e :| Connects(g', e, p, s);
      assert !Connects(g, e, p, s) && Asked(g, rels, e);
      var r :| r in rels && Asks(g, r, e);
      assert r == (p, s) && Has(g, e.source, POSITION, p) && Has(g, e.target, SKILL, s);
    }
    if (p, s) in rels && p in Ids(g, POSITION) && s in Ids(g, SKILL) {
      var a :| Has(g, a, POSITION, p);
      var b :| Has(g, b, SKILL, s);
      var e := Edge(a, "REQUIRES", b);
      assert Asks(g, (p, s), e) && Asked(g, rels, e);
      assert Connects(g', e, p, s);
    }
    if Requires(g, p, s) {
      var e :| Connects(g, e, p, s);
      assert Connects(g', e, p, s);
    }
  }

  /** The rows of the relation table, whose ends are rows of the other tables. */
  ghost predicate RelationRows(t: Tables, rels: seq<Relation>) {
    && (forall r :: r in rels <==> r in t.relations)
    && forall r :: r in rels ==> r.0 in RecordIds(t.positions) && r.1 in RecordIds(t.skills)
  }

  /**
   * A run that went on to merge the relations would make each of them an edge and add no other between wanted nodes;
   * another such run would change nothing if its samples hold no name, as they do not when the legacy nodes had names
   * and were few enough for one query.
   */
  lemma RelationsWouldBeFilledIn(g: Graph, t: Tables, sp: set<nat>, ss: set<nat>, rels: seq<Relation>,
                                 sp': set<nat>, ss': set<nat>)
    requires WellFormed(g) && TablesOk(t) && NothingShadowed(g, t) && RelationRows(t, rels)
    ensures var g1 := Run(g, t, sp, ss);
      var g2 := MergeRelations(g1, rels);
      && Matches(g2, t)
      && (forall p, s :: p in RecordIds(t.positions) && s in RecordIds(t.skills) ==>
            (Requires(g2, p, s) <==> Requires(g1, p, s) || (p, s) in t.relations))
      && (Sample(g2, POSITION, sp') && Sample(g2, SKILL, ss') && NamesOf(g2, sp') == {} && NamesOf(g2, ss') == {} ==>
            MergeRelations(Run(g2, t, sp', ss'), rels) == g2)
      && (Sample(g, POSITION, sp) && AllNamed(g, POSITION) && |Legacy(g, POSITION)| <= LEGACY_LIMIT ==>
            Legacy(g2, POSITION) == {} && (Sample(g2, POSITION, sp') ==> NamesOf(g2, sp') == {}))
      && (Sample(g, SKILL, ss) && AllNamed(g, SKILL) && |Legacy(g, SKILL)| <= LEGACY_LIMIT ==>
            Legacy(g2, SKILL) == {} && (Sample(g2, SKILL, ss') ==> NamesOf(g2, ss') == {}))
  {
    var g1 := Run(g, t, sp, ss);
    var g2 := MergeRelations(g1, rels);
    RunMatchesTables(g, t, sp, ss);
    RunKeepsSurvivors(g, t, sp, ss);
    MergeRelationsEffect(g1, rels);
    RelationsOfMatching(g1, t, rels);
    MergeRelationsTwice(g1, rels);
    if Sample(g2, POSITION, sp') && Sample(g2, SKILL, ss') && NamesOf(g2, sp') == {} && NamesOf(g2, ss') == {} {
      MergedWellFormed(g1, rels);
      FixedPointIff(g2, t, sp', ss');
    }
    LegacyGone(g, t, sp, ss, POSITION, rels, sp');
    LegacyGone(g, t, sp, ss, SKILL, rels, ss');
  }

  lemma LegacyGone(g: Graph, t: Tables, sp: set<nat>, ss: set<nat>, kind: string, rels: seq<Relation>, again: set<nat>)
    requires WellFormed(g) && TablesOk(t) && (kind == POSITION || kind == SKILL)
    ensures var g2 := MergeRelations(Run(g, t, sp, ss), rels);
      Sample(g, kind, if kind == POSITION then sp else ss) && AllNamed(g, kind) && |Legacy(g, kind)| <= LEGACY_LIMIT ==>
        Legacy(g2, kind) == {} && (Sample(g2, kind, again) ==> NamesOf(g2, again) == {})
  {
    var g1 := Run(g, t, sp, ss);
    MergeRelationsEffect(g1, rels);
    assert Legacy(MergeRelations(g1, rels), kind) == Legacy(g1, kind);
    if Sample(g, kind, if kind == POSITION then sp else ss) && AllNamed(g, kind) && |Legacy(g, kind)| <= LEGACY_LIMIT {
      LegacyShrinks(g, t, sp, ss, kind);
    }
  }

  lemma RelationsOfMatching(g: Graph, t: Tables, rels: seq<Relation>)
    requires Matches(g, t) && RelationRows(t, rels)
    ensures forall p, s :: p in RecordIds(t.positions) && s in RecordIds(t.skills) ==>
      (Requires(MergeRelations(g, rels), p, s) <==> Requires(g, p, s) || (p, s) in t.relations)
  {
    forall p, s | p in RecordIds(t.positions) && s in RecordIds(t.skills)
      ensures Requires(MergeRelations(g, rels), p, s) <==> Requires(g, p, s) || (p, s) in t.relations
    {
      InIds(g, POSITION, p);
      InIds(g, SKILL, s);
      RelationFilledInIff(g, rels, p, s);
    }
  }

  lemma MergedWellFormed(g: Graph, rels: seq<Relation>)
    requires WellFormed(g)
    ensures WellFormed(MergeRelations(g, rels))
  {
    MergeRelationsEffect(g, rels);
  }

  lemma MergeRelationsTwice(g: Graph, rels: seq<Relation>)
    ensures MergeRelations(MergeRelations(g, rels), rels) == MergeRelations(g, rels)
  {
    var g1 := MergeRelations(g, rels);
    var g2 := MergeRelations(g1, rels);
    MergeRelationsEffect(g, rels);
    MergeRelationsEffect(g1, rels);
    assert forall r :: Between(g1, r) == Between(g, r);
    assert forall e :: Asked(g1, rels, e) <==> Asked(g, rels, e);
    assert g2.edges == g1.edges;
  }

  // ---- the script as it runs ----

  function NameSet(names: seq<Option<string>>): set<string> {
    if names == [] then {}
    else
      var last := names[|names| - 1];
      NameSet(names[..|names| - 1]) + if last.Some? && last.value != "" then {last.value} else {}
  }

  lemma DetachTwice(g: Graph, a: set<nat>, b: set<nat>)
    ensures DetachDelete(DetachDelete(g, a), b - a) == DetachDelete(g, a + b)
  {
    assert g.nodes - a - (b - a) == g.nodes - (a + b);
  }

  lemma DeletedIds(g: Graph, g': Graph, kind: string, done: set<string>, more: set<string>)
    requires g' == DetachDelete(g, WithIds(g, kind, done))
    ensures DetachDelete(g', WithIds(g', kind, more)) == DetachDelete(g, WithIds(g, kind, done + more))
  {
    DetachTwice(g, WithIds(g, kind, done), WithIds(g, kind, more));
    assert WithIds(g', kind, more) == WithIds(g, kind, more) - WithIds(g, kind, done);
    assert WithIds(g, kind, done + more) == WithIds(g, kind, done) + WithIds(g, kind, more);
  }

  lemma DeletedNames(g: Graph, g': Graph, kind: string, done: set<string>, name: string)
    requires g' == DetachDelete(g, LegacyNamed(g, kind, done))
    ensures DetachDelete(g', LegacyNamed(g', kind, {name})) == DetachDelete(g, LegacyNamed(g, kind, done + {name}))
  {
    DetachTwice(g, LegacyNamed(g, kind, done), LegacyNamed(g, kind, {name}));
    assert LegacyNamed(g', kind, {name}) == LegacyNamed(g, kind, {name}) - LegacyNamed(g, kind, done);
    assert LegacyNamed(g, kind, done + {name}) == LegacyNamed(g, kind, done) + LegacyNamed(g, kind, {name});
  }

  /** Deleting further nodes, found in the graph that is left, comes to deleting them all at once. */
  lemma DeletedFurther(g: Graph, doomed: set<nat>, kind: string, cids: set<string>, names: set<string>)
    ensures var g' := DetachDelete(g, doomed);
      && DetachDelete(g', WithIds(g', kind, cids)) == DetachDelete(g, doomed + WithIds(g, kind, cids))
      && DetachDelete(g', LegacyNamed(g', kind, names)) == DetachDelete(g, doomed + LegacyNamed(g, kind, names))
  {
    var g' := DetachDelete(g, doomed);
    DetachTwice(g, doomed, WithIds(g, kind, cids));
    DetachTwice(g, doomed, LegacyNamed(g, kind, names));
    assert WithIds(g', kind, cids) == WithIds(g, kind, cids) - doomed;
    assert LegacyNamed(g', kind, names) == LegacyNamed(g, kind, names) - doomed;
  }

  function MissingId(kind: string): string {
    if kind == POSITION then "position missing canonical_id" else "skill missing canonical_id"
  }

  function WithId(rows: seq<Record>): set<nat> {
    set i: nat | i < |rows| && rows[i].id != ""
  }

  lemma WithIdNext(rows: seq<Record>, i: nat)
    requires i < |rows|
    ensures |WithId(rows[..i + 1])| == |WithId(rows[..i])| + if rows[i].id == "" then 0 else 1
  {
    assert WithId(rows[..i + 1]) == if rows[i].id == "" then WithId(rows[..i]) else WithId(rows[..i]) + {i};
  }

  /** The relations with both ends in the graph. */
  function Complete(g: Graph, rels: seq<Relation>): set<nat> {
    set i: nat | i < |rels| && Found(g, rels[i])
  }

  predicate Found(g: Graph, r: Relation) {
    r.0 in Ids(g, POSITION) && r.1 in Ids(g, SKILL)
  }

  lemma CompleteNext(g: Graph, rels: seq<Relation>, i: nat)
    requires i < |rels|
    ensures |Complete(g, rels[..i + 1])| == |Complete(g, rels[..i])|
         + if Found(g, rels[i]) then 1 else 0
  {
    var before, after := Complete(g, rels[..i]), Complete(g, rels[..i + 1]);
    assert after == if Found(g, rels[i]) then before + {i} else before;
  }

  lemma BetweenFinds(g: Graph, r: Relation)
    requires r.0 != "" && r.1 != ""
    ensures Between(g, r) != {} <==> r.0 in Ids(g, POSITION) && r.1 in Ids(g, SKILL)
  {
    InIds(g, POSITION, r.0);
    InIds(g, SKILL, r.1);
    if r.0 in Ids(g, POSITION) && r.1 in Ids(g, SKILL) {
      var p :| Has(g, p, POSITION, r.0);
      var s :| Has(g, s, SKILL, r.1);
      assert Edge(p, "REQUIRES", s) in Between(g, r);
    }
  }

  /**
   * With keys in order, the number reported as back-filled is that of the new positions: it is that of all new nodes
   * just when no skill was missing.
   */
  lemma BackfillReportIff(g: Graph, t: Tables, sp: set<nat>, ss: set<nat>)
    requires WellFormed(g) && TablesOk(t)
    ensures |Run(g, t, sp, ss).nodes| - |Pruned(g, t, sp, ss).nodes| == |WithId(Missing(t.positions, Ids(g, POSITION)))|
       <==> RecordIds(t.skills) <= Ids(g, SKILL)
  {
    var positions, skills := Missing(t.positions, Ids(g, POSITION)), Missing(t.skills, Ids(g, SKILL));
    MissingRowsAreCarried(g, t, sp, ss);
    NoneMissingIff(t.skills, Ids(g, SKILL));
    MissingRows(t.positions, Ids(g, POSITION));
    AllWithId(positions);
    assert |WithId(positions)| == |positions|;
    assert |skills| == 0 <==> skills == [];
  }

  lemma NoneMissingIff(rows: seq<Record>, ids: set<string>)
    requires KeysOk(rows)
    ensures Missing(rows, ids) == [] <==> RecordIds(rows) <= ids
  {
    MissingRows(rows, ids);
    if Missing(rows, ids) == [] {
      assert RecordIds(rows) - ids == {};
    } else if RecordIds(rows) <= ids {
      EmptyMissing(rows, ids);
    }
  }

  lemma {:induction false} AllWithId(rows: seq<Record>)
    requires forall i :: 0 <= i < |rows| ==> rows[i].id != ""
    ensures |WithId(rows)| == |rows|
  {
    if rows == [] {
      assert WithId(rows) == {};
    } else {
      var last := |rows| - 1;
      AllWithId(rows[..last]);
      WithIdNext(rows, last);
      assert rows[..last + 1] == rows;
    }
  }

  /** The graph database; the script's statements update it in place. */
  class Neo4j {
    var g: Graph

    constructor (g: Graph)
      ensures this.g == g
    {
      this.g := g;
    }

    /** DETACH DELETE of the nodes of a kind with one canonical id. */
    method DeleteById(kind: string, cid: string)
      modifies this
      ensures g == DetachDelete(old(g), WithIds(old(g), kind, {cid}))
    {
      g := DetachDelete(g, WithIds(g, kind, {cid}));
    }

    /** DETACH DELETE of the nodes of a kind with a name and no canonical id. */
    method DeleteLegacy(kind: string, name: string)
      modifies this
      ensures g == DetachDelete(old(g), LegacyNamed(old(g), kind, {name}))
    {
      g := DetachDelete(g, LegacyNamed(g, kind, {name}));
    }

    method PruneOrphans(kind: string, orphans: set<string>)
      modifies this
      ensures g == DetachDelete(old(g), WithIds(old(g), kind, orphans))
    {
      var left := orphans;
      ghost var done: set<string> := {};
      assert WithIds(g, kind, {}) == {};
      while left != {}
        invariant done + left == orphans
        invariant g == DetachDelete(old(g), WithIds(old(g), kind, done))
        decreases left
      {
        var cid :| cid in left;
        ghost var before := g;
        DeleteById(kind, cid);
        DeletedIds(old(g), before, kind, done, {cid});
        left, done := left - {cid}, done + {cid};
      }
    }

    /** The names are those of the snapshot; nodes without a name are passed over. */
    method PruneLegacy(kind: string, names: seq<Option<string>>)
      modifies this
      ensures g == DetachDelete(old(g), LegacyNamed(old(g), kind, NameSet(names)))
    {
      assert LegacyNamed(g, kind, {}) == {};
      for i := 0 to |names|
        invariant g == DetachDelete(old(g), LegacyNamed(old(g), kind, NameSet(names[..i])))
      {
        assert names[..i + 1][..i] == names[..i];
        if names[i].Some? && names[i].value != "" {
          ghost var before := g;
          DeleteLegacy(kind, names[i].value);
          DeletedNames(old(g), before, kind, NameSet(names[..i]), names[i].value);
        }
      }
      assert names[..|names|] == names;
    }

    /** The projector's batch: rows with an id are merged and counted, the others reported as errors. */
    method MergeRows(kind: string, rows: seq<Record>) returns (upserted: nat, errors: seq<string>)
      modifies this
      ensures g == MergeAll(old(g), kind, rows)
      ensures upserted == |WithId(rows)| && |errors| == |rows| - |WithId(rows)|
      ensures forall e :: e in errors ==> e == MissingId(kind)
    {
      upserted, errors := 0, [];
      for i := 0 to |rows|
        invariant g == MergeAll(old(g), kind, rows[..i])
        invariant upserted == |WithId(rows[..i])| && |errors| == i - |WithId(rows[..i])|
        invariant forall e :: e in errors ==> e == MissingId(kind)
      {
        assert rows[..i + 1][..i] == rows[..i];
        WithIdNext(rows, i);
        if rows[i].id == "" {
          errors := errors + [MissingId(kind)];
          continue;
        }
        g := Merge(g, kind, rows[i]);
        upserted := upserted + 1;
      }
      assert rows[..|rows|] == rows;
    }

    /** The projector's relations: an edge is counted when both ends were found, and reported as an error otherwise. */
    method MergeEdges(rels: seq<Relation>) returns (upserted: nat, errors: nat)
      modifies this
      ensures g == MergeRelations(old(g), rels)
      ensures upserted == |Complete(old(g), rels)| && errors == |rels| - |Complete(old(g), rels)|
    {
      upserted, errors := 0, 0;
      for i := 0 to |rels|
        invariant g == MergeRelations(old(g), rels[..i])
        invariant upserted == |Complete(old(g), rels[..i])| && errors == i - |Complete(old(g), rels[..i])|
      {
        assert rels[..i + 1][..i] == rels[..i];
        CompleteNext(old(g), rels, i);
        MergeRelationsEffect(old(g), rels[..i]);
        if rels[i].0 == "" || rels[i].1 == "" {
          errors := errors + 1;
          continue;
        }
        var edges := Between(g, rels[i]);
        assert edges == Between(old(g), rels[i]);
        BetweenFinds(old(g), rels[i]);
        g := g.(edges := g.edges + edges);
        if edges != {} {
          upserted := upserted + 1;
        } else {
          errors := errors + 1;
        }
      }
      assert rels[..|rels|] == rels;
    }

    /**
     * The script without its dry-run: the legacy names are what the two limited queries returned, for some samples.
     */
    method Reconcile(t: Tables, positionNames: seq<Option<string>>, skillNames: seq<Option<string>>, backfill: bool,
                     ghost sp: set<nat>, ghost ss: set<nat>)
      returns (prunedReported: nat, backfilledReported: nat)
      requires Sample(g, POSITION, sp) && NameSet(positionNames) == NamesOf(g, sp)
      requires Sample(g, SKILL, ss) && NameSet(skillNames) == NamesOf(g, ss)
      modifies this
      ensures g == if backfill then Run(old(g), t, sp, ss) else Pruned(old(g), t, sp, ss)
      ensures prunedReported == |Ids(old(g), POSITION) - RecordIds(t.positions)|
        + |Ids(old(g), SKILL) - RecordIds(t.skills)| + |positionNames| + |skillNames|
      ensures backfilledReported == if backfill then |WithId(Missing(t.positions, Ids(old(g), POSITION)))| else 0
    {
      var positionIds, skillIds := Ids(g, POSITION), Ids(g, SKILL);
      var orphanPositions, orphanSkills := positionIds - RecordIds(t.positions), skillIds - RecordIds(t.skills);
      ghost var d1, d2 := WithIds(g, POSITION, orphanPositions), WithIds(g, SKILL, orphanSkills);
      ghost var d3 := LegacyNamed(g, POSITION, NamesOf(g, sp));
      PruneOrphans(POSITION, orphanPositions);
      PruneOrphans(SKILL, orphanSkills);
      DeletedFurther(old(g), d1, SKILL, orphanSkills, {});
      PruneLegacy(POSITION, positionNames);
      DeletedFurther(old(g), d1 + d2, POSITION, {}, NamesOf(old(g), sp));
      PruneLegacy(SKILL, skillNames);
      DeletedFurther(old(g), d1 + d2 + d3, SKILL, {}, NamesOf(old(g), ss));
      prunedReported := |orphanPositions| + |orphanSkills| + |positionNames| + |skillNames|;
      backfilledReported := 0;
      if backfill {
        var errors, upsertedSkills, moreErrors;
        backfilledReported, errors := MergeRows(POSITION, Missing(t.positions, positionIds));
        upsertedSkills, moreErrors := MergeRows(SKILL, Missing(t.skills, skillIds));
      }
    }
  }
}
