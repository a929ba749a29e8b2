/** The eager indexes that the lazy ones stand in for are the ones that `link_incremental` builds
    (src/hdl_kgraph/graph/builder.py). */
module EagerIndex {
  import opened Collections
  import opened Schema
  import opened LinkSpec
  import Linking
  import LazyIndex

  /** The splice of one unit's first `k` nodes. */
  function UnitOps(ir: IR, k: nat): (ops: seq<LazyIndex.Op>)
    requires k <= |ir.nodes|
    ensures |ops| == k
  {
    seq(k, i requires 0 <= i < k => LazyIndex.NodeOp(ir.nodes[i]))
  }

  /** The splice of every node of these units, in order. */
  function NodeOps(irs: seq<IR>): seq<LazyIndex.Op> {
    if irs == [] then []
    else NodeOps(irs[..|irs| - 1]) + UnitOps(irs[|irs| - 1], |irs[|irs| - 1].nodes|)
  }

  lemma NodeAdded(nodes: map<NodeId, Node>, n: Node)
    requires Linking.KeyedMap(nodes) && n.id !in nodes
    ensures Linking.KeyedMap(nodes[n.id := n])
    ensures Linking.NodeSetOf(nodes[n.id := n]) == Linking.NodeSetOf(nodes) + {n}
  {
    Linking.KeyedSets(nodes);
    Linking.KeyedSets(nodes[n.id := n]);
  }

  lemma SameNodes(a: map<NodeId, Node>, b: map<NodeId, Node>)
    requires Linking.KeyedMap(a) && Linking.KeyedMap(b) && Linking.NodeSetOf(a) == Linking.NodeSetOf(b)
    ensures a == b
  {
    Linking.KeyedSets(a);
    Linking.KeyedSets(b);
    forall id | id in a ensures id in b && b[id] == a[id] {
      assert a[id] in Linking.NodeSetOf(a);
    }
    forall id | id in b ensures id in a {
      assert b[id] in Linking.NodeSetOf(b);
    }
  }

  lemma UnitOpsStep(ops: seq<LazyIndex.Op>, ir: IR, j: nat)
    requires j < |ir.nodes|
    ensures ops + UnitOps(ir, j + 1) == (ops + UnitOps(ir, j)) + [LazyIndex.NodeOp(ir.nodes[j])]
  {
    assert UnitOps(ir, j + 1) == UnitOps(ir, j) + [LazyIndex.NodeOp(ir.nodes[j])];
  }

  /** `after` is `before` with the nodes of `d` added. */
  ghost predicate Joined(before: map<NodeId, Node>, after: map<NodeId, Node>, d: set<Node>) {
    Linking.KeyedMap(after) && Linking.NodeSetOf(after) == Linking.NodeSetOf(before) + d
  }

  /** No node of `nodes` belongs to the unit. */
  ghost predicate Outside(nodes: map<NodeId, Node>, ir: IR) {
    forall id :: id in nodes && id.Declared? ==> id.file != ir.path
  }

  lemma {:induction false} UnitKnown(clean: map<NodeId, Node>, ops: seq<LazyIndex.Op>, before: map<NodeId, Node>,
                                     ir: IR, k: nat)
    requires k <= |ir.nodes| && before == LazyIndex.Known(clean, ops) && Linking.KeyedMap(before)
    requires Outside(before, ir) && WellFormedUnit(ir)
    ensures Joined(before, LazyIndex.Known(clean, ops + UnitOps(ir, k)), Linking.NodesUpTo(ir, k))
  {
    if k == 0 {
      assert ops + UnitOps(ir, 0) == ops;
    } else {
      UnitKnown(clean, ops, before, ir, k - 1);
      OneMoreKnown(clean, ops + UnitOps(ir, k - 1), before, ir, k - 1);
      UnitOpsStep(ops, ir, k - 1);
    }
  }

  lemma OneMoreKnown(clean: map<NodeId, Node>, ops: seq<LazyIndex.Op>, before: map<NodeId, Node>, ir: IR, j: nat)
    requires j < |ir.nodes| && Linking.KeyedMap(before) && Outside(before, ir) && WellFormedUnit(ir)
    requires Joined(before, LazyIndex.Known(clean, ops), Linking.NodesUpTo(ir, j))
    ensures Joined(before, LazyIndex.Known(clean, ops + [LazyIndex.NodeOp(ir.nodes[j])]), Linking.NodesUpTo(ir, j + 1))
  {
    OneMore(before, LazyIndex.Known(clean, ops), ir, j);
    LazyIndex.KnownStep(clean, ops, LazyIndex.NodeOp(ir.nodes[j]));
  }

  /** A node joins unless its id is known, which is when the unit has it before. */
  lemma OneMore(before: map<NodeId, Node>, now: map<NodeId, Node>, ir: IR, j: nat)
    requires j < |ir.nodes| && Linking.KeyedMap(before) && Outside(before, ir) && WellFormedUnit(ir)
    requires Joined(before, now, Linking.NodesUpTo(ir, j))
    ensures Joined(before, if ir.nodes[j].id in now then now else now[ir.nodes[j].id := ir.nodes[j]],
                   Linking.NodesUpTo(ir, j + 1))
  {
    Linking.AddedKeys(before, now, Linking.NodesUpTo(ir, j));
    Linking.FirstBefore(ir, j);
    Linking.NodesUpToStep(ir, j);
    if ir.nodes[j].id !in now {
      NodeAdded(now, ir.nodes[j]);
    }
  }

  lemma {:induction false} AllKnown(clean: map<NodeId, Node>, irs: seq<IR>)
    requires Linking.KeyedMap(clean) && Linking.DistinctPaths(irs) && WellFormed(Linking.UnitsOf(irs))
    requires forall id, ir :: id in clean && ir in irs && id.Declared? ==> id.file != ir.path
    ensures var known := LazyIndex.Known(clean, NodeOps(irs));
      && Linking.KeyedMap(known)
      && Linking.NodeSetOf(known) == Linking.NodeSetOf(clean) + Decls(Linking.UnitsOf(irs))
  {
    if irs != [] {
      var i := |irs| - 1;
      var ir, ops, d := irs[i], NodeOps(irs[..i]), Decls(Linking.UnitsOf(irs[..i]));
      Linking.PrefixUnits(irs, i);
      AllKnown(clean, irs[..i]);
      Linking.StillApart(clean, d, LazyIndex.Known(clean, ops), irs, i);
      UnitKnown(clean, ops, LazyIndex.Known(clean, ops), ir, |ir.nodes|);
      assert irs[..i + 1] == irs;
      assert Linking.NodesUpTo(ir, |ir.nodes|) == UnitNodes(ir);
    } else {
      assert Decls(Linking.UnitsOf(irs)) == {};
    }
  }

  lemma {:induction false} OpsAreParsed(irs: seq<IR>)
    requires Linking.DistinctPaths(irs) && WellFormed(Linking.UnitsOf(irs))
    ensures LazyIndex.ParsedSplices(NodeOps(irs))
  {
    if irs != [] {
      var i := |irs| - 1;
      Linking.PrefixUnits(irs, i);
      Linking.UnitsStep(irs, i);
      OpsAreParsed(irs[..i]);
    }
  }

  /** Dropping the dirty files, reindexing and splicing leave the nodes that the lazy indexes know
      after the same splices, and both name indexes as this specification has them. */
  method EagerDefsAreTheLinkers(linker: Linking.Linker, s: LazyIndex.Store, dirty: set<string>,
                                affected: set<NodeId>, irs: seq<IR>)
    requires linker.Keyed() && LazyIndex.Stored(s) && linker.nodes == LazyIndex.CleanRows(s.rows, {})
    requires Linking.DistinctPaths(irs) && WellFormed(Linking.UnitsOf(irs))
    requires forall ir :: ir in irs ==> ir.path in dirty
    modifies linker
    ensures linker.Valid()
    ensures linker.nodes == LazyIndex.Known(LazyIndex.CleanRows(s.rows, dirty), NodeOps(irs))
    ensures forall k: LazyIndex.DefKey ::
      var index := if k.folded then linker.definitionsCi else linker.definitions;
      multiset(Get(index, (k.kind, k.name))) == multiset(LazyIndex.EagerDefs(s, dirty, NodeOps(irs), k))
  {
    ghost var clean := LazyIndex.CleanRows(s.rows, dirty);
    linker.DropChanged(dirty, affected);
    DroppedIsClean(s, dirty, linker.nodes);
    linker.Reindex();
    linker.Splice(irs);
    AllKnown(clean, irs);
    SameNodes(linker.nodes, LazyIndex.Known(clean, NodeOps(irs)));
    OpsAreParsed(irs);
    forall k: LazyIndex.DefKey
      ensures var index := if k.folded then linker.definitionsCi else linker.definitions;
        multiset(Get(index, (k.kind, k.name))) == multiset(LazyIndex.EagerDefs(s, dirty, NodeOps(irs), k))
    {
      LazyIndex.DefsOfKnown(linker, s, dirty, NodeOps(irs), k);
    }
  }

  lemma DroppedIsClean(s: LazyIndex.Store, dirty: set<string>, nodes: map<NodeId, Node>)
    requires LazyIndex.Stored(s)
    requires var all := LazyIndex.CleanRows(s.rows, {});
      nodes == map id | id in all && all[id].file !in dirty :: all[id]
    ensures nodes == LazyIndex.CleanRows(s.rows, dirty)
  {
    forall id ensures id in nodes <==> id in LazyIndex.CleanRows(s.rows, dirty)
      ensures id in nodes ==>
        id in LazyIndex.CleanRows(s.rows, dirty) && LazyIndex.CleanRows(s.rows, dirty)[id] == nodes[id]
    {
      LazyIndex.CleanRowsExact(s.rows, {}, id);
      LazyIndex.CleanRowsExact(s.rows, dirty, id);
    }
  }
}
