/** What a graph says after a delta was applied, in terms of the graph and the delta alone:
    who is in it, how sure, and with which attributes (src/hdl_kgraph/enrich/runner.py:67-100,
    src/hdl_kgraph/graph/builder.py:325-354). */
module Enriched {
  import opened Enrich

  // -- which upgrades count -----------------------------------------------------------------------

  /** The node is in the graph, or the delta adds it. */
  predicate Known(g: Graph, d: Delta, id: Id) {
    id in g.nodes || exists x :: 0 <= x < |d.newNodes| && d.newNodes[x].id == id
  }

  lemma {:induction false} KnownIff(nodes: Nodes, list: seq<NewNode>, id: Id)
    ensures id in WithNodes(nodes, list) <==> id in nodes || exists x :: 0 <= x < |list| && list[x].id == id
  {
    if list != [] {
      var n := |list| - 1;
      KnownIff(nodes, list[..n], id);
      if x :| 0 <= x < |list| && list[x].id == id {
        assert x < n ==> list[..n][x].id == id;
      }
    }
  }

  lemma {:induction false} Drops(ids: set<Id>, list: seq<Edge>, x: nat)
    requires x < |list| && !(list[x].key.src in ids && list[x].key.dst in ids)
    ensures LiveUpgrades(ids, list) == LiveUpgrades(ids, list[..x] + list[x + 1..])
  {
    var n, rest := |list| - 1, list[..x] + list[x + 1..];
    if x < n {
      var shorter := list[..n][..x] + list[..n][x + 1..];
      Drops(ids, list[..n], x);
      assert rest == shorter + [list[n]] && rest[..n - 1] == shorter;
    } else {
      assert rest == list[..n];
    }
  }

  lemma {:induction false} KeepsAll(ids: set<Id>, list: seq<Edge>)
    requires forall x :: 0 <= x < |list| ==> list[x].key.src in ids && list[x].key.dst in ids
    ensures LiveUpgrades(ids, list) == list
  {
    if list != [] {
      KeepsAll(ids, list[..|list| - 1]);
      assert list == list[..|list| - 1] + [list[|list| - 1]];
    }
  }

  /** An upgrade with a missing endpoint might as well not be in the delta. */
  lemma MissingEndpoint(g: Graph, d: Delta, x: nat)
    requires x < |d.upgrades| && (!Known(g, d, d.upgrades[x].key.src) || !Known(g, d, d.upgrades[x].key.dst))
    ensures Applied(g, d) == Applied(g, d.(upgrades := d.upgrades[..x] + d.upgrades[x + 1..]))
  {
    KnownIff(g.nodes, d.newNodes, d.upgrades[x].key.src);
    KnownIff(g.nodes, d.newNodes, d.upgrades[x].key.dst);
    Drops(WithNodes(g.nodes, d.newNodes).Keys, d.upgrades, x);
  }

  /** When all endpoints exist, the new edges and then all upgrades are merged into the edges. */
  lemma AllKnown(g: Graph, d: Delta)
    requires forall x :: 0 <= x < |d.upgrades| ==>
      Known(g, d, d.upgrades[x].key.src) && Known(g, d, d.upgrades[x].key.dst)
    ensures Applied(g, d).edges == WithEdges(g.edges, d.newEdges + d.upgrades)
  {
    forall x | 0 <= x < |d.upgrades|
      ensures d.upgrades[x].key.src in WithNodes(g.nodes, d.newNodes)
      ensures d.upgrades[x].key.dst in WithNodes(g.nodes, d.newNodes)
    {
      KnownIff(g.nodes, d.newNodes, d.upgrades[x].key.src);
      KnownIff(g.nodes, d.newNodes, d.upgrades[x].key.dst);
    }
    KeepsAll(WithNodes(g.nodes, d.newNodes).Keys, d.upgrades);
  }

  /** A lone upgrade with a missing endpoint leaves the graph as it is. */
  lemma LoneMissing(g: Graph, e: Edge)
    requires e.key.src !in g.nodes || e.key.dst !in g.nodes
    ensures Applied(g, Delta([], [], [e], [])) == g
  {
    MissingEndpoint(g, Delta([], [], [e], []), 0);
    assert [e][..0] + [e][0 + 1..] == [];
  }

  // -- what is said about an edge -----------------------------------------------------------------

  predicate SaidSure(list: seq<Edge>, key: Key, confidence: real) {
    exists x :: 0 <= x < |list| && list[x].key == key && list[x].confidence == confidence
  }

  /** The greatest of `base` and the confidences that `list` gives the edge of `key`. */
  predicate Greatest(base: real, list: seq<Edge>, key: Key, confidence: real) {
    && base <= confidence && (confidence == base || SaidSure(list, key, confidence))
    && forall x :: 0 <= x < |list| && list[x].key == key ==> list[x].confidence <= confidence
  }

  /** The last entry of `list` that gives the edge of `key` an attribute `name`. */
  predicate LastNaming(list: seq<Edge>, key: Key, name: string, x: nat) {
    && x < |list| && list[x].key == key && name in list[x].attrs
    && forall y :: x < y < |list| && list[y].key == key ==> name !in list[y].attrs
  }

  lemma {:induction false} ConfidenceIs(base: real, list: seq<Edge>, key: Key)
    ensures Greatest(base, list, key, ConfidenceOf(base, list, key))
  {
    if list != [] {
      var n := |list| - 1;
      ConfidenceIs(base, list[..n], key);
      var before := ConfidenceOf(base, list[..n], key);
      if SaidSure(list[..n], key, before) {
        var x :| 0 <= x < n && list[..n][x].key == key && list[..n][x].confidence == before;
        assert list[x].confidence == before;
      }
      if list[n].key == key { assert SaidSure(list, key, list[n].confidence); }
      assert forall x :: 0 <= x < n ==> list[..n][x] == list[x];
    }
  }

  lemma {:induction false} AttrIs(list: seq<Edge>, key: Key, name: string, x: nat)
    requires LastNaming(list, key, name, x)
    ensures name in AttrsOf(list, key) && AttrsOf(list, key)[name] == list[x].attrs[name]
  {
    var n := |list| - 1;
    if x < n {
      assert LastNaming(list[..n], key, name, x) by { assert list[..n][x] == list[x]; }
      AttrIs(list[..n], key, name, x);
    }
  }

  lemma {:induction false} NoAttr(list: seq<Edge>, key: Key, name: string)
    requires forall x: nat :: !LastNaming(list, key, name, x)
    ensures name !in AttrsOf(list, key)
  {
    if list != [] {
      var n := |list| - 1;
      assert !LastNaming(list, key, name, n);
      forall x: nat ensures !LastNaming(list[..n], key, name, x) {
        assert !LastNaming(list, key, name, x);
        assert x < n ==> list[..n][x] == list[x];
      }
      NoAttr(list[..n], key, name);
    }
  }

  /** `e` is what `old` becomes when told `list`: as sure as the surest says, each attribute as the
      last to name it says, and otherwise as it was. */
  ghost predicate Becomes(before: Edge, list: seq<Edge>, e: Edge) {
    && e.key == before.key && Greatest(before.confidence, list, before.key, e.confidence)
    && (forall name, x: nat :: LastNaming(list, before.key, name, x) ==>
          name in e.attrs && e.attrs[name] == list[x].attrs[name])
    && (forall name :: (forall x: nat :: !LastNaming(list, before.key, name, x)) ==>
          (name in e.attrs <==> name in before.attrs) &&
          (name in before.attrs ==> e.attrs[name] == before.attrs[name]))
  }

  lemma ToldBecomes(before: Edge, list: seq<Edge>)
    ensures Becomes(before, list, Told(before, list))
  {
    ConfidenceIs(before.confidence, list, before.key);
    forall name, x: nat | LastNaming(list, before.key, name, x)
      ensures name in AttrsOf(list, before.key) && AttrsOf(list, before.key)[name] == list[x].attrs[name]
    {
      AttrIs(list, before.key, name, x);
    }
    forall name | forall x: nat :: !LastNaming(list, before.key, name, x) ensures name !in AttrsOf(list, before.key) {
      NoAttr(list, before.key, name);
    }
  }

  // -- the merged edges -----------------------------------------------------------------------------

  lemma {:induction false} Keeps(edges: seq<Edge>, list: seq<Edge>)
    ensures |edges| <= |WithEdges(edges, list)|
    ensures forall i :: 0 <= i < |edges| ==> WithEdges(edges, list)[i].key == edges[i].key
  {
    if list != [] {
      Keeps(edges, list[..|list| - 1]);
      MergeKeepsKeys(WithEdges(edges, list[..|list| - 1]), list[|list| - 1]);
    }
  }

  lemma {:induction false} FirstIsTold(edges: seq<Edge>, list: seq<Edge>, i: nat)
    requires i < |edges|
    ensures i < |WithEdges(edges, list)|
    ensures WithEdges(edges, list)[i] == if IsFirst(edges, edges[i].key, i) then Told(edges[i], list) else edges[i]
  {
    Keeps(edges, list);
    if list == [] {
      assert edges[i].attrs + map[] == edges[i].attrs;
    } else {
      var n := |list| - 1;
      Keeps(edges, list[..n]);
      FirstIsTold(edges, list[..n], i);
      MergedAt(WithEdges(edges, list[..n]), list[n], i);
      TellMore(edges[i], list[..n], list[n]);
      assert list == list[..n] + [list[n]];
    }
  }

  /** The first edge of its key becomes what the list says; any later edge of the key stays. */
  lemma FirstBecomes(edges: seq<Edge>, list: seq<Edge>, i: nat)
    requires i < |edges|
    ensures i < |WithEdges(edges, list)|
    ensures if IsFirst(edges, edges[i].key, i) then Becomes(edges[i], list, WithEdges(edges, list)[i])
            else WithEdges(edges, list)[i] == edges[i]
  {
    FirstIsTold(edges, list, i);
    ToldBecomes(edges[i], list);
  }

  /** `list[x]` is the first entry for a key that `edges` lacks. */
  ghost predicate Brings(edges: seq<Edge>, list: seq<Edge>, x: nat) {
    x < |list| && Absent(edges, list[x].key) && IsFirst(list, list[x].key, x)
  }

  ghost predicate BroughtBy(edges: seq<Edge>, list: seq<Edge>, i: nat, x: nat)
    requires |edges| <= i < |WithEdges(edges, list)|
  {
    && Brings(edges, list, x) && WithEdges(edges, list)[i] == Told(list[x], list)
    && IsFirst(WithEdges(edges, list), list[x].key, i)
  }

  lemma {:induction false} NewIsTold(edges: seq<Edge>, list: seq<Edge>, i: nat) returns (x: nat)
    requires |edges| <= i < |WithEdges(edges, list)|
    ensures BroughtBy(edges, list, i, x)
  {
    var n := |list| - 1;
    var before, after, e := WithEdges(edges, list[..n]), WithEdges(edges, list), list[n];
    assert list == list[..n] + [e];
    Keeps(edges, list[..n]);
    MergeKeepsKeys(before, e);
    MergedAt(before, e, i);
    if i < |before| {
      x := NewIsTold(edges, list[..n], i);
      TellMore(list[x], list[..n], e);
      assert list[..n][x] == list[x];
      assert forall j :: 0 <= j < n ==> list[..n][j] == list[j];
    } else {
      x := n;
      KeysPresent(edges, list[..n], e.key);
      AbsentSaysNothing(list[..n], e.key, e.confidence);
      assert Absent(list[..n], e.key) && forall j :: 0 <= j < n ==> list[..n][j] == list[j];
      assert Told(e, list) == e;
    }
  }

  /** Every edge beyond the old ones is the only new one of its key, and is what the list says about
      a key that was missing. */
  lemma NewBecomes(edges: seq<Edge>, list: seq<Edge>, i: nat) returns (x: nat)
    requires |edges| <= i < |WithEdges(edges, list)|
    ensures Brings(edges, list, x) && Becomes(list[x], list, WithEdges(edges, list)[i])
    ensures IsFirst(WithEdges(edges, list), list[x].key, i)
  {
    x := NewIsTold(edges, list, i);
    ToldBecomes(list[x], list);
  }

  /** Every missing key that the list names gets an edge. */
  lemma NewAppears(edges: seq<Edge>, list: seq<Edge>, x: nat) returns (i: nat)
    requires x < |list| && Absent(edges, list[x].key)
    ensures |edges| <= i < |WithEdges(edges, list)| && WithEdges(edges, list)[i].key == list[x].key
  {
    KeysPresent(edges, list, list[x].key);
    Keeps(edges, list);
    i :| i < |WithEdges(edges, list)| && WithEdges(edges, list)[i].key == list[x].key;
    assert forall j :: 0 <= j < |edges| ==> WithEdges(edges, list)[j].key == edges[j].key != list[x].key;
  }

  // -- the nodes ------------------------------------------------------------------------------------

  /** The first new node of its id. */
  predicate FirstNew(list: seq<NewNode>, x: nat) {
    x < |list| && forall y :: 0 <= y < x ==> list[y].id != list[x].id
  }

  /** A missing node comes in as the first entry for it says, a present one is kept. */
  lemma {:induction false} NewNodeIs(nodes: Nodes, list: seq<NewNode>, x: nat)
    requires FirstNew(list, x)
    ensures list[x].id in WithNodes(nodes, list)
    ensures WithNodes(nodes, list)[list[x].id] == if list[x].id in nodes then nodes[list[x].id] else list[x].node
  {
    var n := |list| - 1;
    if x < n {
      assert FirstNew(list[..n], x);
      NewNodeIs(nodes, list[..n], x);
    } else {
      KnownIff(nodes, list[..n], list[n].id);
      NodesKept(nodes, list[..n]);
      assert forall y :: 0 <= y < n ==> list[..n][y] == list[y] && list[y].id != list[n].id;
    }
  }

  predicate LastNoting(list: seq<Annotation>, id: Id, name: string, x: nat) {
    && x < |list| && list[x].id == id && name in list[x].extra
    && forall y :: x < y < |list| && list[y].id == id ==> name !in list[y].extra
  }

  /** Annotating overrides the attributes it names, the last entry winning, and keeps all else. */
  lemma {:induction false} ExtraIs(list: seq<Annotation>, id: Id, name: string)
    ensures forall x: nat :: LastNoting(list, id, name, x) ==>
      name in ExtraOf(list, id) && ExtraOf(list, id)[name] == list[x].extra[name]
    ensures (forall x: nat :: !LastNoting(list, id, name, x)) ==> name !in ExtraOf(list, id)
  {
    if list != [] {
      var n := |list| - 1;
      ExtraIs(list[..n], id, name);
      forall x: nat | x < n && !(list[n].id == id && name in list[n].extra)
        ensures LastNoting(list, id, name, x) <==> LastNoting(list[..n], id, name, x)
      {
        assert forall y :: 0 <= y < n ==> list[..n][y] == list[y];
      }
      if list[n].id == id && name in list[n].extra {
        assert LastNoting(list, id, name, n);
      }
    }
  }

  lemma AnnotatedIs(nodes: Nodes, list: seq<Annotation>, id: Id, name: string)
    requires id in nodes
    ensures id in AnnotateAll(nodes, list)
    ensures var before, after := nodes[id], AnnotateAll(nodes, list)[id];
      && after.kind == before.kind && after.name == before.name && after.file == before.file
      && (forall x: nat :: LastNoting(list, id, name, x) ==>
            name in after.attrs && after.attrs[name] == list[x].extra[name])
      && ((forall x: nat :: !LastNoting(list, id, name, x)) ==>
            (name in after.attrs <==> name in before.attrs) &&
            (name in before.attrs ==> after.attrs[name] == before.attrs[name]))
  {
    AnnotatedNode(nodes, list, id);
    ExtraIs(list, id, name);
  }
}
