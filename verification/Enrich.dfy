/** Applying enrichment deltas (`run_enrichment` in src/hdl_kgraph/enrich/runner.py and
    `ensure_node`/`add_or_upgrade_edge` in src/hdl_kgraph/graph/builder.py). */
module Enrich {
  type Id = string
  type Attrs = map<string, string>

  datatype Key = Key(src: Id, dst: Id, kind: string)
  datatype Edge = Edge(key: Key, confidence: real, attrs: Attrs)
  datatype Node = Node(kind: string, name: string, file: string, attrs: Attrs)
  datatype NewNode = NewNode(id: Id, node: Node)
  datatype Annotation = Annotation(id: Id, extra: Attrs)

  type Nodes = map<Id, Node>

  /** What a backend returns. */
  datatype Delta = Delta(
    newNodes: seq<NewNode>,
    newEdges: seq<Edge>,
    upgrades: seq<Edge>,
    annotations: seq<Annotation>)

  // -------------------------------------------------------------------- edges

  function Max(a: real, b: real): real {
    if a < b then b else a
  }

  ghost predicate IsFirst(edges: seq<Edge>, key: Key, i: nat) {
    i < |edges| && edges[i].key == key && forall j :: 0 <= j < i ==> edges[j].key != key
  }

  ghost predicate Absent(edges: seq<Edge>, key: Key) {
    forall j :: 0 <= j < |edges| ==> edges[j].key != key
  }

  function Upgraded(old_: Edge, e: Edge): Edge {
    old_.(confidence := Max(old_.confidence, e.confidence), attrs := old_.attrs + e.attrs)
  }

  /** `edges'` is `edges` with `e` added, or with the first edge of its key upgraded. */
  ghost predicate Merged(edges: seq<Edge>, e: Edge, edges': seq<Edge>) {
    || (Absent(edges, e.key) && edges' == edges + [e])
    || exists i: nat :: IsFirst(edges, e.key, i) && edges' == edges[i := Upgraded(edges[i], e)]
  }

  function Find(edges: seq<Edge>, key: Key, from: nat): (i: nat)
    requires from <= |edges|
    ensures from <= i <= |edges|
    decreases |edges| - from
  {
    if from == |edges| || edges[from].key == key then from else Find(edges, key, from + 1)
  }

  lemma {:induction false} FindIsFirst(edges: seq<Edge>, key: Key, from: nat)
    requires from <= |edges| && forall j :: 0 <= j < from ==> edges[j].key != key
    ensures var i := Find(edges, key, from); if i < |edges| then IsFirst(edges, key, i) else Absent(edges, key)
    decreases |edges| - from
  {
    if from < |edges| && edges[from].key != key {
      FindIsFirst(edges, key, from + 1);
    }
  }

  function WithEdge(edges: seq<Edge>, e: Edge): seq<Edge> {
    var i := Find(edges, e.key, 0);
    if i < |edges| then edges[i := Upgraded(edges[i], e)] else edges + [e]
  }

  lemma WithEdgeMerges(edges: seq<Edge>, e: Edge)
    ensures Merged(edges, e, WithEdge(edges, e))
    ensures |WithEdge(edges, e)| == |edges| + (if Find(edges, e.key, 0) < |edges| then 0 else 1)
  {
    FindIsFirst(edges, e.key, 0);
  }

  function WithEdges(edges: seq<Edge>, list: seq<Edge>): seq<Edge> {
    if list == [] then edges
    else WithEdge(WithEdges(edges, list[..|list| - 1]), list[|list| - 1])
  }

  /** The attributes that `list` sets on the edge of `key`, later entries winning. */
  function AttrsOf(list: seq<Edge>, key: Key): Attrs {
    if list == [] then map[]
    else
      var e := list[|list| - 1];
      AttrsOf(list[..|list| - 1], key) + (if e.key == key then e.attrs else map[])
  }

  function ConfidenceOf(base: real, list: seq<Edge>, key: Key): real {
    if list == [] then base
    else
      var e := list[|list| - 1];
      var c := ConfidenceOf(base, list[..|list| - 1], key);
      if e.key == key then Max(c, e.confidence) else c
  }

  lemma {:induction false} ConfidenceAbove(c: real, d: real, list: seq<Edge>, key: Key)
    requires ConfidenceOf(c, list, key) == c && c <= d
    ensures ConfidenceOf(d, list, key) == d
  {
    if list != [] {
      ConfidenceRises(c, list[..|list| - 1], key);
      ConfidenceAbove(c, d, list[..|list| - 1], key);
    }
  }

  lemma {:induction false} ConfidenceRises(c: real, list: seq<Edge>, key: Key)
    ensures ConfidenceOf(c, list, key) >= c
  {
    if list != [] {
      ConfidenceRises(c, list[..|list| - 1], key);
    }
  }

  /** All that `list` says about the edge's key, the edge already says. */
  ghost predicate Absorbs(e: Edge, list: seq<Edge>) {
    e.attrs + AttrsOf(list, e.key) == e.attrs && ConfidenceOf(e.confidence, list, e.key) == e.confidence
  }

  lemma FirstIsUnique(edges: seq<Edge>, key: Key, i: nat, j: nat)
    requires IsFirst(edges, key, i) && IsFirst(edges, key, j)
    ensures i == j
  {
  }

  /** One merge keeps every edge in its place, with its key. */
  lemma MergeKeepsKeys(edges: seq<Edge>, e: Edge)
    ensures |edges| <= |WithEdge(edges, e)|
    ensures forall i :: 0 <= i < |edges| ==> WithEdge(edges, e)[i].key == edges[i].key
    ensures !Absent(WithEdge(edges, e), e.key)
  {
    FindIsFirst(edges, e.key, 0);
    var i := Find(edges, e.key, 0);
    assert WithEdge(edges, e)[i].key == e.key;
  }

  /** Keys mentioned by `list` are all present after it has been applied. */
  lemma {:induction false} KeysPresent(edges: seq<Edge>, list: seq<Edge>, key: Key)
    ensures Absent(WithEdges(edges, list), key) ==> Absent(edges, key) && Absent(list, key)
  {
    if list != [] {
      var n := |list| - 1;
      KeysPresent(edges, list[..n], key);
      MergeKeepsKeys(WithEdges(edges, list[..n]), list[n]);
      assert list == list[..n] + [list[n]];
      if Absent(WithEdges(edges, list), key) {
        var before, after := WithEdges(edges, list[..n]), WithEdges(edges, list);
        forall j | 0 <= j < |before| ensures before[j].key != key {
          assert after[j].key == before[j].key;
        }
      }
    }
  }

  lemma {:induction false} AbsentSaysNothing(list: seq<Edge>, key: Key, c: real)
    requires Absent(list, key)
    ensures AttrsOf(list, key) == map[] && ConfidenceOf(c, list, key) == c
  {
    if list != [] {
      AbsentSaysNothing(list[..|list| - 1], key, c);
    }
  }

  lemma SaysMore(list: seq<Edge>, e: Edge, key: Key, c: real)
    ensures AttrsOf(list + [e], key) == AttrsOf(list, key) + (if e.key == key then e.attrs else map[])
    ensures ConfidenceOf(c, list + [e], key) ==
      if e.key == key then Max(ConfidenceOf(c, list, key), e.confidence) else ConfidenceOf(c, list, key)
  {
    assert (list + [e])[..|list|] == list;
  }

  lemma AbsorbMore(old_: Edge, list: seq<Edge>, e: Edge)
    requires Absorbs(old_, list)
    ensures Absorbs(if e.key == old_.key then Upgraded(old_, e) else old_, list + [e])
  {
    SaysMore(list, e, old_.key, Max(old_.confidence, e.confidence));
    SaysMore(list, e, old_.key, old_.confidence);
    if e.key == old_.key {
      ConfidenceAbove(old_.confidence, Max(old_.confidence, e.confidence), list, e.key);
    }
  }

  lemma AbsorbNew(list: seq<Edge>, e: Edge)
    requires Absent(list, e.key)
    ensures Absorbs(e, list + [e])
  {
    AbsentSaysNothing(list, e.key, e.confidence);
    SaysMore(list, e, e.key, e.confidence);
  }

  /** What one merge does to the edge at `i`. */
  lemma MergedAt(edges: seq<Edge>, e: Edge, i: nat)
    requires i < |WithEdge(edges, e)|
    ensures i >= |edges| ==> Absent(edges, e.key) && i == |edges| && WithEdge(edges, e)[i] == e
    ensures i < |edges| && IsFirst(edges, edges[i].key, i) ==>
      WithEdge(edges, e)[i] == if e.key == edges[i].key then Upgraded(edges[i], e) else edges[i]
    ensures i < |edges| && !IsFirst(edges, edges[i].key, i) ==> WithEdge(edges, e)[i] == edges[i]
  {
    FindIsFirst(edges, e.key, 0);
    if i < |edges| && IsFirst(edges, edges[i].key, i) && e.key == edges[i].key {
      FirstIsUnique(edges, e.key, i, Find(edges, e.key, 0));
    }
  }

  /** After `list` has been applied, the first edge of each key absorbs it. */
  lemma {:induction false} AppliedAbsorbs(edges: seq<Edge>, list: seq<Edge>, i: nat)
    requires i < |WithEdges(edges, list)| && IsFirst(WithEdges(edges, list), WithEdges(edges, list)[i].key, i)
    ensures Absorbs(WithEdges(edges, list)[i], list)
  {
    if list == [] {
      assert WithEdges(edges, list)[i].attrs + map[] == WithEdges(edges, list)[i].attrs;
    } else {
      var n := |list| - 1;
      var before, e := WithEdges(edges, list[..n]), list[n];
      assert list == list[..n] + [e];
      MergeKeepsKeys(before, e);
      MergedAt(before, e, i);
      if i < |before| {
        FirstBefore(before, WithEdge(before, e), i);
        AppliedAbsorbs(edges, list[..n], i);
        AbsorbMore(before[i], list[..n], e);
      } else {
        KeysPresent(edges, list[..n], e.key);
        AbsorbNew(list[..n], e);
      }
    }
  }

  lemma FirstBefore(before: seq<Edge>, after: seq<Edge>, i: nat)
    requires i < |before| <= |after| && forall j :: 0 <= j < |before| ==> after[j].key == before[j].key
    requires IsFirst(after, after[i].key, i)
    ensures IsFirst(before, before[i].key, i)
  {
    forall j | 0 <= j < i ensures before[j].key != before[i].key {
      assert after[j].key == before[j].key;
    }
  }

  lemma NoneAddedOnce(edges: seq<Edge>, e: Edge)
    requires !Absent(edges, e.key)
    ensures |WithEdge(edges, e)| == |edges|
    ensures forall j :: 0 <= j < |edges| ==> WithEdge(edges, e)[j].key == edges[j].key
  {
    FindIsFirst(edges, e.key, 0);
  }

  /** Applied where all its keys are present, a list adds no edge. */
  lemma {:induction false} NoneAdded(edges: seq<Edge>, list: seq<Edge>)
    requires forall x :: 0 <= x < |list| ==> !Absent(edges, list[x].key)
    ensures |WithEdges(edges, list)| == |edges|
    ensures forall j :: 0 <= j < |edges| ==> WithEdges(edges, list)[j].key == edges[j].key
  {
    if list != [] {
      var n := |list| - 1;
      NoneAdded(edges, list[..n]);
      var before := WithEdges(edges, list[..n]);
      SameFirst(edges, before, list[n].key);
      NoneAddedOnce(before, list[n]);
    }
  }

  function Told(e: Edge, list: seq<Edge>): Edge {
    Edge(e.key, ConfidenceOf(e.confidence, list, e.key), e.attrs + AttrsOf(list, e.key))
  }

  lemma TellMore(old_: Edge, list: seq<Edge>, e: Edge)
    ensures Told(old_, list + [e]) == if e.key == old_.key then Upgraded(Told(old_, list), e) else Told(old_, list)
  {
    SaysMore(list, e, old_.key, old_.confidence);
    UnionAssociates(old_.attrs, AttrsOf(list, old_.key), if e.key == old_.key then e.attrs else map[]);
  }

  lemma UnionAssociates(a: Attrs, b: Attrs, c: Attrs)
    ensures a + (b + c) == (a + b) + c
    ensures c == map[] ==> a + (b + c) == a + b
  {
    if c == map[] {
      assert b + c == b;
    }
  }

  /** It changes only the first edge of each key, by all it says about that key. */
  lemma {:induction false} AppliedToPresent(edges: seq<Edge>, list: seq<Edge>, i: nat)
    requires forall x :: 0 <= x < |list| ==> !Absent(edges, list[x].key)
    requires i < |edges|
    ensures |WithEdges(edges, list)| == |edges|
    ensures WithEdges(edges, list)[i] == if IsFirst(edges, edges[i].key, i) then Told(edges[i], list) else edges[i]
  {
    NoneAdded(edges, list);
    if list == [] {
      assert edges[i].attrs + map[] == edges[i].attrs;
    } else {
      var n := |list| - 1;
      assert list == list[..n] + [list[n]];
      NoneAdded(edges, list[..n]);
      AppliedToPresent(edges, list[..n], i);
      SameFirst(edges, WithEdges(edges, list[..n]), edges[i].key);
      MergedAt(WithEdges(edges, list[..n]), list[n], i);
      TellMore(edges[i], list[..n], list[n]);
    }
  }

  lemma SameFirst(edges: seq<Edge>, edges': seq<Edge>, key: Key)
    requires |edges| == |edges'| && forall j :: 0 <= j < |edges| ==> edges'[j].key == edges[j].key
    ensures forall i :: IsFirst(edges, key, i) <==> IsFirst(edges', key, i)
    ensures Absent(edges, key) <==> Absent(edges', key)
  {
  }

  /** Merging the same edges again changes nothing. */
  lemma EdgesIdempotent(edges: seq<Edge>, list: seq<Edge>)
    ensures WithEdges(WithEdges(edges, list), list) == WithEdges(edges, list)
  {
    var once := WithEdges(edges, list);
    var twice := WithEdges(once, list);
    forall x | 0 <= x < |list| ensures !Absent(once, list[x].key) {
      KeysPresent(edges, list, list[x].key);
    }
    NoneAdded(once, list);
    forall i | 0 <= i < |once| ensures twice[i] == once[i] {
      AppliedToPresent(once, list, i);
      if IsFirst(once, once[i].key, i) {
        AppliedAbsorbs(edges, list, i);
      }
    }
  }

  // -------------------------------------------------------------------- nodes

  function WithNode(nodes: Nodes, n: NewNode): Nodes {
    if n.id in nodes then nodes else nodes[n.id := n.node]
  }

  function WithNodes(nodes: Nodes, list: seq<NewNode>): Nodes {
    if list == [] then nodes else WithNode(WithNodes(nodes, list[..|list| - 1]), list[|list| - 1])
  }

  function Annotated(nodes: Nodes, a: Annotation): Nodes {
    if a.id in nodes then nodes[a.id := nodes[a.id].(attrs := nodes[a.id].attrs + a.extra)] else nodes
  }

  function AnnotateAll(nodes: Nodes, list: seq<Annotation>): Nodes {
    if list == [] then nodes else Annotated(AnnotateAll(nodes, list[..|list| - 1]), list[|list| - 1])
  }

  function ExtraOf(list: seq<Annotation>, id: Id): Attrs {
    if list == [] then map[]
    else
      var a := list[|list| - 1];
      ExtraOf(list[..|list| - 1], id) + (if a.id == id then a.extra else map[])
  }

  lemma {:induction false} NodesKept(nodes: Nodes, list: seq<NewNode>)
    ensures forall id :: id in nodes ==> id in WithNodes(nodes, list) && WithNodes(nodes, list)[id] == nodes[id]
    ensures forall x :: 0 <= x < |list| ==> list[x].id in WithNodes(nodes, list)
  {
    if list != [] {
      NodesKept(nodes, list[..|list| - 1]);
      assert forall x :: 0 <= x < |list| - 1 ==> list[..|list| - 1][x] == list[x];
    }
  }

  lemma {:induction false} NodesKnown(nodes: Nodes, list: seq<NewNode>)
    requires forall x :: 0 <= x < |list| ==> list[x].id in nodes
    ensures WithNodes(nodes, list) == nodes
  {
    if list != [] {
      NodesKnown(nodes, list[..|list| - 1]);
    }
  }

  lemma {:induction false} AnnotateKeepsIds(nodes: Nodes, list: seq<Annotation>)
    ensures AnnotateAll(nodes, list).Keys == nodes.Keys
  {
    if list != [] {
      AnnotateKeepsIds(nodes, list[..|list| - 1]);
    }
  }

  /** Annotating merges into each present node all that is said about it. */
  lemma {:induction false} AnnotatedNode(nodes: Nodes, list: seq<Annotation>, id: Id)
    ensures AnnotateAll(nodes, list).Keys == nodes.Keys
    ensures id in nodes ==>
      AnnotateAll(nodes, list)[id] == nodes[id].(attrs := nodes[id].attrs + ExtraOf(list, id))
  {
    AnnotateKeepsIds(nodes, list);
    if list == [] {
      assert id in nodes ==> nodes[id].attrs + map[] == nodes[id].attrs;
    } else {
      var n := |list| - 1;
      AnnotatedNode(nodes, list[..n], id);
      if id in nodes {
        UnionAssociates(nodes[id].attrs, ExtraOf(list[..n], id), if list[n].id == id then list[n].extra else map[]);
      }
    }
  }

  lemma AnnotateIdempotent(nodes: Nodes, list: seq<Annotation>)
    ensures AnnotateAll(AnnotateAll(nodes, list), list) == AnnotateAll(nodes, list)
  {
    var once := AnnotateAll(nodes, list);
    AnnotateKeepsIds(nodes, list);
    AnnotateKeepsIds(once, list);
    forall id | id in nodes ensures AnnotateAll(once, list)[id] == once[id] {
      AnnotatedNode(nodes, list, id);
      AnnotatedNode(once, list, id);
      UnionAssociates(nodes[id].attrs, ExtraOf(list, id), ExtraOf(list, id));
      assert ExtraOf(list, id) + ExtraOf(list, id) == ExtraOf(list, id);
    }
  }

  // ------------------------------------------------------------------- deltas

  datatype Graph = Graph(nodes: Nodes, edges: seq<Edge>)

  predicate Live(ids: set<Id>, e: Edge) {
    e.key.src in ids && e.key.dst in ids
  }

  /** The upgrades whose endpoints both exist. */
  function LiveUpgrades(ids: set<Id>, upgrades: seq<Edge>): seq<Edge> {
    if upgrades == [] then []
    else
      var n := |upgrades| - 1;
      LiveUpgrades(ids, upgrades[..n]) + (if Live(ids, upgrades[n]) then [upgrades[n]] else [])
  }

  function MergedEdges(ids: set<Id>, d: Delta): seq<Edge> {
    d.newEdges + LiveUpgrades(ids, d.upgrades)
  }

  function Applied(g: Graph, d: Delta): Graph {
    var nodes := WithNodes(g.nodes, d.newNodes);
    Graph(AnnotateAll(nodes, d.annotations), WithEdges(g.edges, MergedEdges(nodes.Keys, d)))
  }

  /** Applying a delta again changes nothing. */
  lemma ApplyTwice(g: Graph, d: Delta)
    ensures Applied(Applied(g, d), d) == Applied(g, d)
  {
    var nodes := WithNodes(g.nodes, d.newNodes);
    var once := AnnotateAll(nodes, d.annotations);
    NodesKept(g.nodes, d.newNodes);
    AnnotateKeepsIds(nodes, d.annotations);
    NodesKnown(once, d.newNodes);
    AnnotateIdempotent(nodes, d.annotations);
    EdgesIdempotent(g.edges, MergedEdges(nodes.Keys, d));
  }

  /** `e'` is `e`, possibly better known. */
  ghost predicate Improves(e: Edge, e': Edge) {
    e'.key == e.key && e'.confidence >= e.confidence && e'.attrs.Keys >= e.attrs.Keys
  }

  lemma {:induction false} EdgesImprove(edges: seq<Edge>, list: seq<Edge>)
    ensures |WithEdges(edges, list)| >= |edges|
    ensures forall i :: 0 <= i < |edges| ==> Improves(edges[i], WithEdges(edges, list)[i])
  {
    if list != [] {
      EdgesImprove(edges, list[..|list| - 1]);
      WithEdgeMerges(WithEdges(edges, list[..|list| - 1]), list[|list| - 1]);
    }
  }

  /** Nothing is removed, and no confidence is lowered. */
  lemma ApplyOnlyGrows(g: Graph, d: Delta)
    ensures |Applied(g, d).edges| >= |g.edges|
    ensures forall i :: 0 <= i < |g.edges| ==> Improves(g.edges[i], Applied(g, d).edges[i])
    ensures forall id :: id in g.nodes ==> id in Applied(g, d).nodes
    ensures forall id :: id in g.nodes ==>
      var n, n' := g.nodes[id], Applied(g, d).nodes[id];
      n' == n.(attrs := n'.attrs) && n.attrs.Keys <= n'.attrs.Keys
  {
    var nodes := WithNodes(g.nodes, d.newNodes);
    EdgesImprove(g.edges, MergedEdges(nodes.Keys, d));
    NodesKept(g.nodes, d.newNodes);
    AnnotateKeepsIds(nodes, d.annotations);
    forall id | id in nodes
      ensures AnnotateAll(nodes, d.annotations)[id] == nodes[id].(attrs := nodes[id].attrs + ExtraOf(d.annotations, id))
    {
      AnnotatedNode(nodes, d.annotations, id);
    }
  }

  lemma {:induction false} MergeMore(edges: seq<Edge>, list: seq<Edge>, e: Edge)
    ensures WithEdges(edges, list + [e]) == WithEdge(WithEdges(edges, list), e)
  {
    assert (list + [e])[..|list|] == list;
  }

  lemma LiveMore(ids: set<Id>, list: seq<Edge>, x: nat)
    requires x < |list|
    ensures LiveUpgrades(ids, list[..x + 1]) ==
      if Live(ids, list[x]) then LiveUpgrades(ids, list[..x]) + [list[x]] else LiveUpgrades(ids, list[..x])
  {
    assert list[..x + 1][..x] == list[..x];
  }

  lemma {:induction false} MergeBoth(edges: seq<Edge>, a: seq<Edge>, b: seq<Edge>)
    ensures WithEdges(WithEdges(edges, a), b) == WithEdges(edges, a + b)
  {
    if b == [] {
      assert a + b == a;
    } else {
      MergeBoth(edges, a, b[..|b| - 1]);
      assert a + b == (a + b[..|b| - 1]) + [b[|b| - 1]];
      MergeMore(edges, a + b[..|b| - 1], b[|b| - 1]);
    }
  }

  // ------------------------------------------------------------ the live graph

  class LiveGraph {
    var nodes: Nodes
    var edges: seq<Edge>

    constructor (nodes: Nodes, edges: seq<Edge>)
      ensures Value() == Graph(nodes, edges)
    {
      this.nodes, this.edges := nodes, edges;
    }

    function Value(): Graph
      reads this
    {
      Graph(nodes, edges)
    }

    method EnsureNode(n: NewNode)
      modifies this`nodes
      ensures nodes == WithNode(old(nodes), n)
    {
      if n.id !in nodes {
        nodes := nodes[n.id := n.node];
      }
    }

    /** Upgrade the first edge of the same key, or add `e`. */
    method AddOrUpgradeEdge(e: Edge, upgrade: bool) returns (upgraded: bool)
      modifies this`edges
      ensures upgrade ==> edges == WithEdge(old(edges), e)
      ensures upgraded <==> upgrade && !Absent(old(edges), e.key)
      ensures !upgrade ==> edges == old(edges) + [e]
      ensures |edges| == |old(edges)| + (if upgraded then 0 else 1)
    {
      if upgrade {
        FindIsFirst(edges, e.key, 0);
        for i := 0 to |edges|
          invariant edges == old(edges)
          invariant forall j :: 0 <= j < i ==> edges[j].key != e.key
        {
          if edges[i].key == e.key {
            FirstIsUnique(edges, e.key, i, Find(edges, e.key, 0));
            edges := edges[i := Upgraded(edges[i], e)];
            return true;
          }
        }
      }
      edges := edges + [e];
      return false;
    }

    method AddNodes(list: seq<NewNode>) returns (added: nat)
      modifies this`nodes
      ensures nodes == WithNodes(old(nodes), list)
      ensures added == |nodes| - |old(nodes)|
    {
      added := 0;
      for x := 0 to |list|
        invariant nodes == WithNodes(old(nodes), list[..x])
        invariant added == |nodes| - |old(nodes)|
      {
        assert list[..x + 1][..x] == list[..x];
        var before := |nodes|;
        EnsureNode(list[x]);
        added := added + |nodes| - before;
      }
      assert list[..|list|] == list;
    }

    method AddEdges(list: seq<Edge>)
      modifies this`edges
      ensures edges == WithEdges(old(edges), list)
    {
      for x := 0 to |list|
        invariant edges == WithEdges(old(edges), list[..x])
      {
        assert list[..x + 1][..x] == list[..x];
        var _ := AddOrUpgradeEdge(list[x], true);
      }
      assert list[..|list|] == list;
    }

    /** Upgrades with a missing endpoint are skipped. */
    method ApplyUpgrades(list: seq<Edge>) returns (count: nat)
      modifies this`edges
      ensures edges == WithEdges(old(edges), LiveUpgrades(nodes.Keys, list))
      ensures |edges| + count == |old(edges)| + |LiveUpgrades(nodes.Keys, list)|
    {
      count := 0;
      for x := 0 to |list|
        invariant edges == WithEdges(old(edges), LiveUpgrades(nodes.Keys, list[..x]))
        invariant |edges| + count == |old(edges)| + |LiveUpgrades(nodes.Keys, list[..x])|
      {
        LiveMore(nodes.Keys, list, x);
        if list[x].key.src in nodes && list[x].key.dst in nodes {
          MergeMore(old(edges), LiveUpgrades(nodes.Keys, list[..x]), list[x]);
          var upgraded := AddOrUpgradeEdge(list[x], true);
          if upgraded {
            count := count + 1;
          }
        }
      }
      assert list[..|list|] == list;
    }

    method AnnotateNodes(list: seq<Annotation>)
      modifies this`nodes
      ensures nodes == AnnotateAll(old(nodes), list)
    {
      for x := 0 to |list|
        invariant nodes == AnnotateAll(old(nodes), list[..x])
      {
        assert list[..x + 1][..x] == list[..x];
        var a := list[x];
        if a.id in nodes {
          nodes := nodes[a.id := nodes[a.id].(attrs := nodes[a.id].attrs + a.extra)];
        }
      }
      assert list[..|list|] == list;
    }

    /** One backend's delta: nodes, then edges, then live upgrades, then annotations. */
    method ApplyDelta(d: Delta) returns (nodesAdded: nat, edgesUpgraded: nat)
      modifies this
      ensures Value() == Applied(old(Value()), d)
      ensures nodesAdded == |nodes| - |old(nodes)|
      ensures |edges| + edgesUpgraded ==
        |WithEdges(old(edges), d.newEdges)| + |LiveUpgrades(nodes.Keys, d.upgrades)|
    {
      nodesAdded := AddNodes(d.newNodes);
      AddEdges(d.newEdges);
      edgesUpgraded := ApplyUpgrades(d.upgrades);
      MergeBoth(old(edges), d.newEdges, LiveUpgrades(nodes.Keys, d.upgrades));
      AnnotateKeepsIds(nodes, d.annotations);
      AnnotateNodes(d.annotations);
      assert |nodes| == |nodes.Keys|;
    }
  }
}
