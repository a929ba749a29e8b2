/** The incremental re-link as a function on graphs, and when it equals a full
    link (src/hdl_kgraph/incremental.py, link_incremental in graph/builder.py). */
module Incremental {
  import opened Schema
  import opened LinkSpec

  // -- the resolution neighbourhood ------------------------------------------------

  ghost function Records(u: Units): set<RefRecord> {
    set r | r in RefsOf(u) && r.src.Declared? :: RefRecord(r.src.file, r.src, r.kind, r.target)
  }

  /** Definitions touched by a dirty or removed file, on the prior or the new side. */
  ghost function ChangedNames(prior: set<Node>, u: Units, dirty: set<string>): set<DefKey> {
    (set n | n in prior && IsDefinitionKind(n.kind) && n.file in dirty :: (n.kind, n.name)) +
    (set p, n | p in u && n in u[p].nodes && IsDefinitionKind(n.kind) && n.file in dirty :: (n.kind, n.name))
  }

  predicate MayTarget(k: EdgeKind, n: NodeKind) {
    n in SameKinds(k) || n in CrossKinds(k)
  }

  predicate Touches(rec: RefRecord, key: DefKey) {
    key.1 == rec.target && MayTarget(rec.kind, key.0)
  }

  /** Sources owning a reference whose target name changed. */
  ghost function AffectedSrcs(records: set<RefRecord>, changed: set<DefKey>): set<NodeId> {
    set rec | rec in records && (exists key :: key in changed && Touches(rec, key)) :: rec.src
  }

  // -- stub garbage collection --------------------------------------------------------

  ghost function StubIds(nodes: set<Node>): set<NodeId> {
    set n | n in nodes && n.unresolved :: n.id
  }

  predicate Touching(e: Edge, id: NodeId) {
    e.src == id || e.dst == id
  }

  /** Some non-DECLARES edge still points at or from `id`. */
  ghost predicate Anchored(edges: set<Edge>, id: NodeId) {
    exists e :: e in edges && !e.kind.Declares? && Touching(e, id)
  }

  /** `keep` holds every anchored stub and, with a stub, its DECLARES neighbours among the stubs. */
  ghost predicate ClosedKeep(g: Graph, keep: set<NodeId>) {
    && (forall id :: id in StubIds(g.nodes) && Anchored(g.edges, id) ==> id in keep)
    && (forall e :: e in g.edges && e.kind.Declares? && e.src in StubIds(g.nodes) && e.dst in StubIds(g.nodes) ==>
          (e.src in keep <==> e.dst in keep))
  }

  /** The least such set of stubs. */
  ghost function KeptStubs(g: Graph): set<NodeId> {
    set id | id in StubIds(g.nodes) && forall keep: set<NodeId> :: ClosedKeep(g, keep) ==> id in keep
  }

  ghost function Restrict(g: Graph, ids: set<NodeId>): Graph {
    Graph(set n | n in g.nodes && n.id in ids :: n, set e | e in g.edges && e.src in ids && e.dst in ids :: e)
  }

  ghost function CollectOrphans(g: Graph): Graph {
    Restrict(g, (Ids(g.nodes) - StubIds(g.nodes)) + KeptStubs(g))
  }

  // -- the incremental link -------------------------------------------------------------

  ghost function DirtyUnits(u: Units, dirty: set<string>): Units {
    map p | p in u && p in dirty :: u[p]
  }

  ghost function CleanNodes(nodes: set<Node>, dirty: set<string>): set<Node> {
    set n | n in nodes && n.file !in dirty
  }

  ghost function LiveRefs(u: Units, dirty: set<string>, affected: set<NodeId>): set<Ref> {
    set r | r in RefsOf(u) && r.src.Declared? && (r.src.file in dirty || r.src in affected)
  }

  /** Step 1: drop the dirty files' nodes with their edges, and the affected sources' pass-2 edges. */
  ghost function Dropped(g: Graph, dirty: set<string>, affected: set<NodeId>): Graph {
    var kept := Restrict(g, Ids(CleanNodes(g.nodes, dirty)));
    Graph(kept.nodes, set e | e in kept.edges && !(IsPass2(e.kind) && e.src in affected))
  }

  /** The definitions the indexes hold after step 2: surviving parsed nodes and the dirty units' fresh ones. */
  ghost function Indexed(g: Graph, u: Units, dirty: set<string>): set<Node> {
    (set n | n in CleanNodes(g.nodes, dirty) && !n.unresolved) + Decls(DirtyUnits(u, dirty))
  }

  /** Steps 2 and 3: splice the dirty units back in and re-resolve the live references. */
  ghost function Relinked(g: Graph, u: Units, dirty: set<string>, affected: set<NodeId>): Graph {
    var d := Indexed(g, u, dirty);
    var live := LiveRefs(u, dirty, affected);
    var base := Dropped(g, dirty, affected);
    Graph(base.nodes + Decls(DirtyUnits(u, dirty)) + StubsOf(d, live),
          base.edges + LocalEdges(DirtyUnits(u, dirty)) + EdgesOf(d, live))
  }

  ghost function AffectedBy(g: Graph, records: set<RefRecord>, u: Units, dirty: set<string>): set<NodeId> {
    AffectedSrcs(records, ChangedNames(g.nodes, u, dirty))
  }

  ghost function IncrementalLink(g: Graph, records: set<RefRecord>, u: Units, dirty: set<string>): Graph {
    CollectOrphans(Relinked(g, u, dirty, AffectedBy(g, records, u, dirty)))
  }

  /** `dirty` names every path whose unit changed, appeared or disappeared. */
  ghost predicate Covers(u: Units, v: Units, dirty: set<string>) {
    && "" !in dirty
    && (forall p :: p !in dirty ==> (p in u <==> p in v))
    && (forall p :: p !in dirty && p in u && p in v ==> u[p] == v[p])
  }

  /** The prior graph binds an untouched SV instance to a VHDL entity. */
  ghost predicate StaleCrossLanguage(g: Graph, dirty: set<string>, affected: set<NodeId>) {
    exists e, n :: e in g.edges && n in g.nodes && IsStaleCross(e, n, dirty, affected)
  }

  predicate IsStaleCross(e: Edge, n: Node, dirty: set<string>, affected: set<NodeId>) {
    && e.kind.Instantiates? && e.dst == n.id && n.kind.Entity? && !n.unresolved
    && e.src.Declared? && e.src.file !in dirty && e.src !in affected
  }

  // -- what the units say about membership ---------------------------------------------

  lemma InDecls(u: Units, n: Node)
    requires WellFormed(u)
    ensures n in Decls(u) <==> n.id.Declared? && n.id.file in u && n in UnitNodes(u[n.id.file])
    ensures n in Decls(u) ==> n.file == n.id.file && !n.unresolved
  {
    if n in Decls(u) {
      var p :| p in u && n in UnitNodes(u[p]);
      assert u[p].path == p;
    }
  }

  lemma DeclsDistinct(u: Units, m: Node, n: Node)
    requires WellFormed(u) && m in Decls(u) && n in Decls(u) && m.id == n.id
    ensures m == n
  {
    InDecls(u, m);
    InDecls(u, n);
  }

  lemma OwnedId(u: Units, p: string, id: NodeId)
    requires WellFormed(u) && p in u && OwnsId(u[p], id)
    ensures id.Declared? && id.file == p
    ensures exists n :: n in UnitNodes(u[p]) && n.id == id
  {
    FirstWithId(u[p], id);
  }

  lemma FirstWithId(ir: IR, id: NodeId)
    requires OwnsId(ir, id)
    ensures exists n :: n in UnitNodes(ir) && n.id == id
  {
    var i: nat :| i < |ir.nodes| && ir.nodes[i].id == id;
    while !FirstNode(ir, i)
      invariant i < |ir.nodes| && ir.nodes[i].id == id
      decreases i
    {
      var j: nat :| j < i && ir.nodes[j].id == ir.nodes[i].id;
      i := j;
    }
    assert ir.nodes[i] in UnitNodes(ir);
  }

  lemma LocalEdgeOwned(u: Units, e: Edge)
    requires WellFormed(u) && e in LocalEdges(u)
    ensures !IsPass2(e.kind) && e.src.Declared? && e.dst.Declared? && e.src.file == e.dst.file
    ensures e.src.file in u && e in UnitEdges(u[e.src.file])
    ensures e.src in Ids(Decls(u)) && e.dst in Ids(Decls(u))
  {
    var p :| p in u && e in UnitEdges(u[p]);
    OwnedId(u, p, e.src);
    OwnedId(u, p, e.dst);
  }
}
