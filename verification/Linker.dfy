/** The mutable pass-2 linker (`_Linker`, `link_graph`, `link_incremental` in
    src/hdl_kgraph/graph/builder.py), proved against LinkSpec and Incremental. */
module Linking {
  import opened Collections
  import opened Schema
  import opened LinkSpec
  import opened Incremental

  function Filter<T(!new)>(s: seq<T>, p: T -> bool): (r: seq<T>)
    ensures forall x :: x in r <==> x in s && p(x)
  {
    if s == [] then []
    else if p(s[0]) then [s[0]] + Filter(s[1..], p) else Filter(s[1..], p)
  }

  lemma {:induction false} FilterNoDup<T(!new)>(s: seq<T>, p: T -> bool)
    requires NoDup(s)
    ensures NoDup(Filter(s, p))
  {
    if s != [] {
      FilterNoDup(s[1..], p);
      assert s[0] !in s[1..];
    }
  }

  function IdSet(s: seq<NodeId>): set<NodeId> {
    set id | id in s
  }

  /** The candidate list `s` names each node of `c` once. */
  ghost predicate Lists(nodes: map<NodeId, Node>, s: seq<NodeId>, c: set<Node>) {
    && NoDup(s)
    && (forall id :: id in s ==> id in nodes && nodes[id].id == id && nodes[id] in c)
    && (forall n :: n in c ==> n.id in s && n.id in nodes && nodes[n.id] == n)
  }

  lemma {:induction false} ListsCount(nodes: map<NodeId, Node>, s: seq<NodeId>, c: set<Node>)
    requires Lists(nodes, s, c)
    ensures |s| == |c|
    ensures IdSet(s) == Ids(c)
  {
    if s == [] {
      assert c == {};
    } else {
      var rest := c - {nodes[s[0]]};
      forall n | n in rest ensures n.id in s[1..] {
        assert n.id != s[0];
      }
      ListsCount(nodes, s[1..], rest);
      assert c == rest + {nodes[s[0]]};
    }
  }

  lemma ListsFiltered(nodes: map<NodeId, Node>, s: seq<NodeId>, c: set<Node>, p: NodeId -> bool, d: set<Node>)
    requires Lists(nodes, s, c)
    requires d == set n | n in c && p(n.id)
    ensures Lists(nodes, Filter(s, p), d)
  {
    FilterNoDup(s, p);
  }

  lemma ListsOne(nodes: map<NodeId, Node>, s: seq<NodeId>, c: set<Node>, file: string)
    requires Lists(nodes, s, c) && |s| == 1
    ensures s[0] in nodes && c == {nodes[s[0]]} && Ids(c) == IdSet(s) && |c| == 1
    ensures InFile(c, file) == c <==> nodes[s[0]].file == file
  {
    ListsCount(nodes, s, c);
    assert s[0] in s;
    forall n | n in c ensures n == nodes[s[0]] {
      assert n.id in s;
    }
    assert c == {nodes[s[0]]};
    if nodes[s[0]].file != file { assert nodes[s[0]] !in InFile(c, file); }
  }

  datatype EdgeKey = EdgeKey(src: NodeId, dst: NodeId, kind: EdgeKind)

  function KeyOf(e: Edge): EdgeKey {
    EdgeKey(e.src, e.dst, e.kind)
  }

  /** Keys of the edges that come straight from a unit's IR. */
  function LocalKeys(edges: set<Edge>): set<EdgeKey> {
    set e | e in edges && !IsPass2(e.kind) :: KeyOf(e)
  }

  ghost function UnitIds(ir: IR): set<NodeId> {
    set n | n in ir.nodes :: n.id
  }

  /** `owned` has the nodes of the first `n` units. */
  ghost predicate AllOwned(irs: seq<IR>, n: nat, owned: set<NodeId>)
    requires n <= |irs|
  {
    forall j :: 0 <= j < n ==> UnitIds(irs[j]) <= owned
  }

  lemma OwnedStep(irs: seq<IR>, i: nat, before: set<NodeId>, after: set<NodeId>)
    requires i < |irs| && AllOwned(irs, i, before) && before <= after && UnitIds(irs[i]) <= after
    ensures AllOwned(irs, i + 1, after)
  {
  }

  ghost predicate DistinctPaths(irs: seq<IR>) {
    forall i, j :: 0 <= i < j < |irs| ==> irs[i].path != irs[j].path
  }

  ghost function UnitsOf(irs: seq<IR>): Units
    requires DistinctPaths(irs)
  {
    map ir | ir in irs :: ir.path := ir
  }

  /** The index key of a definition: its kind and its (possibly case-folded) name. */
  function NameKey(n: Node, folded: bool): DefKey {
    (n.kind, if folded then Lower(n.name) else n.name)
  }

  ghost function Matching(d: set<Node>, k: DefKey, folded: bool): set<Node> {
    set n | n in d && NameKey(n, folded) == k
  }

  /** `m` maps every key to the list of the definitions in `d` with that key. */
  ghost predicate IndexedBy(nodes: map<NodeId, Node>, m: map<DefKey, seq<NodeId>>, d: set<Node>, folded: bool) {
    forall k :: Lists(nodes, Get(m, k), Matching(d, k, folded))
  }

  function Append(m: map<DefKey, seq<NodeId>>, k: DefKey, id: NodeId): map<DefKey, seq<NodeId>> {
    m[k := Get(m, k) + [id]]
  }

  lemma AppendIndexes(before: map<NodeId, Node>, nodes: map<NodeId, Node>, m: map<DefKey, seq<NodeId>>,
                      d: set<Node>, n: Node, folded: bool)
    requires IndexedBy(before, m, d, folded) && n !in d
    requires forall id :: id in before ==> id in nodes && nodes[id] == before[id]
    requires n.id in nodes && nodes[n.id] == n
    ensures IndexedBy(nodes, Append(m, NameKey(n, folded), n.id), d + {n}, folded)
  {
    var key := NameKey(n, folded);
    forall k ensures Lists(nodes, Get(Append(m, key, n.id), k), Matching(d + {n}, k, folded)) {
      assert Lists(before, Get(m, k), Matching(d, k, folded));
      if k == key {
        assert n.id !in Get(m, k);
      } else {
        assert Matching(d + {n}, k, folded) == Matching(d, k, folded);
      }
    }
  }

  lemma IndexedMore(before: map<NodeId, Node>, nodes: map<NodeId, Node>, m: map<DefKey, seq<NodeId>>,
                    d: set<Node>, folded: bool)
    requires IndexedBy(before, m, d, folded)
    requires forall id :: id in before ==> id in nodes && nodes[id] == before[id]
    ensures IndexedBy(nodes, m, d, folded)
  {
    forall k ensures Lists(nodes, Get(m, k), Matching(d, k, folded)) {
      assert Lists(before, Get(m, k), Matching(d, k, folded));
    }
  }

  /** The nodes of one of `kinds` whose (possibly folded) name is `name`. */
  ghost function OfKinds(d: set<Node>, kinds: seq<NodeKind>, name: string, folded: bool): set<Node> {
    set n | n in d && n.kind in kinds && NameKey(n, folded).1 == name
  }

  lemma ListsConcat(nodes: map<NodeId, Node>, s: seq<NodeId>, t: seq<NodeId>, c: set<Node>, d: set<Node>)
    requires Lists(nodes, s, c) && Lists(nodes, t, d) && c !! d
    ensures Lists(nodes, s + t, c + d)
  {
    forall i, j | 0 <= i < |s| && 0 <= j < |t| ensures s[i] != t[j] {
      assert s[i] in s && t[j] in t;
    }
  }

  ghost function NodeSetOf(nodes: map<NodeId, Node>): set<Node> {
    set id | id in nodes :: nodes[id]
  }

  /** `known` holds the parsed nodes but those still `pending`. */
  ghost predicate SeededBut(nodes: map<NodeId, Node>, known: set<Node>, pending: set<NodeId>) {
    && known <= ParsedOf(nodes)
    && (forall id :: id in pending ==> id in nodes && !nodes[id].unresolved)
    && (forall id :: id in nodes && !nodes[id].unresolved ==> (nodes[id] in known <==> id !in pending))
  }

  lemma SeedStep(nodes: map<NodeId, Node>, known: set<Node>, pending: set<NodeId>, id: NodeId)
    requires KeyedMap(nodes) && SeededBut(nodes, known, pending) && id in pending
    ensures nodes[id] !in known && SeededBut(nodes, known + {nodes[id]}, pending - {id})
  {
    assert nodes[id] in ParsedOf(nodes);
  }

  ghost function ParsedOf(nodes: map<NodeId, Node>): set<Node> {
    set id | id in nodes && !nodes[id].unresolved :: nodes[id]
  }

  lemma AddStubNode(nodes: map<NodeId, Node>, n: Node)
    requires n.id !in nodes && n.unresolved
    ensures NodeSetOf(nodes[n.id := n]) == NodeSetOf(nodes) + {n}
    ensures ParsedOf(nodes[n.id := n]) == ParsedOf(nodes)
  {
    var after := nodes[n.id := n];
    forall m ensures m in NodeSetOf(after) <==> m in NodeSetOf(nodes) + {n} {
      if m in NodeSetOf(nodes) {
        var id :| id in nodes && nodes[id] == m;
        assert after[id] == m;
      }
      assert after[n.id] == n;
    }
    forall m ensures m in ParsedOf(after) <==> m in ParsedOf(nodes) {
      if m in ParsedOf(nodes) {
        var id :| id in nodes && nodes[id] == m;
        assert after[id] == m;
      }
    }
  }

  ghost function EdgesTo(r: Ref, targets: seq<NodeId>, confidence: real): set<Edge> {
    set t | t in targets :: EdgeTo(r, t, confidence)
  }

  lemma EdgesToStep(r: Ref, targets: seq<NodeId>, i: nat, confidence: real)
    requires i < |targets|
    ensures EdgesTo(r, targets[..i + 1], confidence) ==
            EdgesTo(r, targets[..i], confidence) + {EdgeTo(r, targets[i], confidence)}
  {
    assert targets[..i + 1] == targets[..i] + [targets[i]];
  }

  lemma EdgesToAll(d: set<Node>, r: Ref, targets: seq<NodeId>, confidence: real)
    requires r.src.Declared? && Resolution(IdSet(targets), confidence) == Resolve(d, r)
    ensures EdgesTo(r, targets, confidence) == RefEdges(d, r)
  {
    assert forall t :: t in targets <==> t in Resolve(d, r).targets by {
      assert forall t :: t in targets <==> t in IdSet(targets);
    }
  }

  lemma NoStubs(d: set<Node>, r: Ref)
    requires !Unresolved(d, r)
    ensures StubsOf(d, {r}) == {}
  {
  }

  lemma OneStub(d: set<Node>, r: Ref)
    requires Unresolved(d, r) && r.src.Declared?
    ensures StubsOf(d, {r}) == {StubNode(StubOf(r))}
    ensures Resolve(d, r) == Resolution(IdSet([StubOf(r)]), CONFIDENCE_RESOLVED)
  {
    assert IdSet([StubOf(r)]) == {StubOf(r)};
  }

  // -- prefixes of a unit's nodes, edges and references ---------------------------------

  ghost function NodesUpTo(ir: IR, k: nat): set<Node> {
    set i: nat | i < |ir.nodes| && i < k && FirstNode(ir, i) :: ir.nodes[i]
  }

  lemma {:induction false} FirstIndex(ir: IR, i: nat) returns (k: nat)
    requires i < |ir.nodes|
    ensures k <= i && FirstNode(ir, k) && ir.nodes[k].id == ir.nodes[i].id
  {
    k := i;
    if !FirstNode(ir, i) {
      var j: nat :| j < i && ir.nodes[j].id == ir.nodes[i].id;
      k := FirstIndex(ir, j);
    }
  }

  lemma FirstBefore(ir: IR, k: nat)
    requires k < |ir.nodes|
    ensures FirstNode(ir, k) <==> ir.nodes[k].id !in Ids(NodesUpTo(ir, k))
  {
    if !FirstNode(ir, k) {
      var j: nat :| j < k && ir.nodes[j].id == ir.nodes[k].id;
      var i := FirstIndex(ir, j);
      assert ir.nodes[i] in NodesUpTo(ir, k);
    }
  }

  lemma NodesUpToStep(ir: IR, k: nat)
    requires k < |ir.nodes|
    ensures NodesUpTo(ir, k + 1) == NodesUpTo(ir, k) + if FirstNode(ir, k) then {ir.nodes[k]} else {}
  {
    forall n ensures n in NodesUpTo(ir, k + 1) <==> n in NodesUpTo(ir, k) || (FirstNode(ir, k) && n == ir.nodes[k]) {
      NodeUpToStep(ir, k, n);
    }
  }

  lemma NodeUpToStep(ir: IR, k: nat, n: Node)
    requires k < |ir.nodes|
    ensures n in NodesUpTo(ir, k + 1) <==> n in NodesUpTo(ir, k) || (FirstNode(ir, k) && n == ir.nodes[k])
  {
    if n in NodesUpTo(ir, k + 1) {
      var i: nat :| i < |ir.nodes| && i < k + 1 && FirstNode(ir, i) && n == ir.nodes[i];
    }
    if n in NodesUpTo(ir, k) {
      var i: nat :| i < |ir.nodes| && i < k && FirstNode(ir, i) && n == ir.nodes[i];
      assert i < k + 1;
    }
  }

  ghost function EdgesUpTo(ir: IR, k: nat): set<Edge> {
    set i: nat | i < |ir.edges| && i < k && FirstEdge(ir, i) :: ir.edges[i]
  }

  lemma {:induction false} FirstEdgeIndex(ir: IR, i: nat) returns (k: nat)
    requires i < |ir.edges|
    ensures k <= i && FirstEdge(ir, k) && SameKey(ir.edges[k], ir.edges[i])
  {
    k := i;
    if !FirstEdge(ir, i) {
      var j: nat :| j < i && SameKey(ir.edges[j], ir.edges[i]);
      k := FirstEdgeIndex(ir, j);
    }
  }

  lemma FirstEdgeBefore(ir: IR, k: nat)
    requires k < |ir.edges|
    ensures FirstEdge(ir, k) <==> forall e :: e in EdgesUpTo(ir, k) ==> KeyOf(e) != KeyOf(ir.edges[k])
  {
    if !FirstEdge(ir, k) {
      var j: nat :| j < k && SameKey(ir.edges[j], ir.edges[k]);
      var i := FirstEdgeIndex(ir, j);
      assert ir.edges[i] in EdgesUpTo(ir, k) && KeyOf(ir.edges[i]) == KeyOf(ir.edges[k]);
    }
  }

  lemma EdgesUpToStep(ir: IR, k: nat)
    requires k < |ir.edges|
    ensures EdgesUpTo(ir, k + 1) == EdgesUpTo(ir, k) + if FirstEdge(ir, k) then {ir.edges[k]} else {}
  {
    forall e ensures e in EdgesUpTo(ir, k + 1) <==> e in EdgesUpTo(ir, k) || (FirstEdge(ir, k) && e == ir.edges[k]) {
      EdgeUpToStep(ir, k, e);
    }
  }

  lemma EdgeUpToStep(ir: IR, k: nat, e: Edge)
    requires k < |ir.edges|
    ensures e in EdgesUpTo(ir, k + 1) <==> e in EdgesUpTo(ir, k) || (FirstEdge(ir, k) && e == ir.edges[k])
  {
    if e in EdgesUpTo(ir, k + 1) {
      var i: nat :| i < |ir.edges| && i < k + 1 && FirstEdge(ir, i) && e == ir.edges[i];
    }
    if e in EdgesUpTo(ir, k) {
      var i: nat :| i < |ir.edges| && i < k && FirstEdge(ir, i) && e == ir.edges[i];
      assert i < k + 1;
    }
  }

  function UnitRecords(ir: IR): seq<RefRecord> {
    seq(|ir.refs|, i requires 0 <= i < |ir.refs| =>
      RefRecord(ir.path, ir.refs[i].src, ir.refs[i].kind, ir.refs[i].target))
  }

  /** The persisted reference index, in unit order. */
  function RecordList(irs: seq<IR>): seq<RefRecord> {
    if irs == [] then [] else RecordList(irs[..|irs| - 1]) + UnitRecords(irs[|irs| - 1])
  }

  lemma UnitsStep(irs: seq<IR>, i: nat)
    requires DistinctPaths(irs) && i < |irs|
    ensures irs[i].path !in UnitsOf(irs[..i])
    ensures UnitsOf(irs[..i + 1]) == UnitsOf(irs[..i])[irs[i].path := irs[i]]
    ensures irs[i].path in UnitsOf(irs) && UnitsOf(irs)[irs[i].path] == irs[i]
  {
    assert irs[..i + 1] == irs[..i] + [irs[i]];
  }

  lemma UnitAdds(u: Units, ir: IR)
    requires ir.path !in u
    ensures Decls(u[ir.path := ir]) == Decls(u) + UnitNodes(ir)
    ensures LocalEdges(u[ir.path := ir]) == LocalEdges(u) + UnitEdges(ir)
    ensures RefsOf(u[ir.path := ir]) == RefsOf(u) + set r | r in ir.refs
  {
    var w := u[ir.path := ir];
    assert forall p :: p in u ==> p in w && w[p] == u[p];
    assert w[ir.path] == ir;
  }

  lemma FilteredUnits(irs: seq<IR>, dirty: set<string>, p: IR -> bool)
    requires DistinctPaths(irs) && forall ir :: p(ir) <==> ir.path in dirty
    ensures DistinctPaths(Filter(irs, p))
    ensures UnitsOf(Filter(irs, p)) == DirtyUnits(UnitsOf(irs), dirty)
  {
    FilteredDistinct(irs, p);
    var picked := Filter(irs, p);
    forall q ensures q in UnitsOf(picked) <==> q in DirtyUnits(UnitsOf(irs), dirty) {
      if q in DirtyUnits(UnitsOf(irs), dirty) {
        var ir :| ir in irs && ir.path == q;
        assert ir in picked;
      }
    }
  }

  lemma {:induction false} FilteredDistinct(irs: seq<IR>, p: IR -> bool)
    requires DistinctPaths(irs)
    ensures DistinctPaths(Filter(irs, p))
  {
    if irs != [] {
      FilteredDistinct(irs[1..], p);
      forall ir | ir in irs[1..] ensures ir.path != irs[0].path {
        var j :| 0 <= j < |irs[1..]| && irs[1..][j] == ir;
        assert irs[j + 1] == ir;
      }
    }
  }

  /** The references of one unit that an incremental link re-resolves. */
  ghost function UnitLive(ir: IR, dirty: set<string>, affected: set<NodeId>): set<Ref> {
    set r | r in ir.refs && (ir.path in dirty || r.src in affected)
  }

  lemma LiveStep(u: Units, ir: IR, dirty: set<string>, affected: set<NodeId>)
    requires WellFormed(u) && WellFormedUnit(ir) && ir.path !in u
    ensures LiveRefs(u[ir.path := ir], dirty, affected) == LiveRefs(u, dirty, affected) + UnitLive(ir, dirty, affected)
  {
    UnitAdds(u, ir);
    forall r | r in ir.refs ensures r.src.Declared? && r.src.file == ir.path {}
  }

  lemma EdgesOfAdd(d: set<Node>, done: set<Ref>, r: Ref)
    requires AllDeclared(done) && r.src.Declared?
    ensures EdgesOf(d, done + {r}) == EdgesOf(d, done) + RefEdges(d, r)
    ensures StubsOf(d, done + {r}) == StubsOf(d, done) + StubsOf(d, {r})
  {
  }

  class Linker {
    // The graph. Edges form a set: AddEdge is only ever called with a new one,
    // so the multigraph never holds two equal parallel edges.
    var nodes: map<NodeId, Node>
    var edges: set<Edge>
    // The resolution indexes.
    var definitions: map<DefKey, seq<NodeId>>
    var definitionsCi: map<DefKey, seq<NodeId>>
    var nodeFile: map<NodeId, string>
    var emitted: set<Edge>
    var refRecords: seq<RefRecord>
    // The edges this linker did not emit: local ones and those of the prior graph.
    ghost var inherited: set<Edge>

    constructor ()
      ensures Valid() && inherited == {}
      ensures nodes == map[] && edges == {} && definitions == map[] && definitionsCi == map[]
      ensures nodeFile == map[] && emitted == {} && refRecords == []
    {
      nodes, edges := map[], {};
      definitions, definitionsCi := map[], map[];
      nodeFile, emitted, refRecords := map[], {}, [];
      inherited := {};
    }

    ghost function NodeSet(): set<Node>
      reads this`nodes
    {
      NodeSetOf(nodes)
    }

    ghost function AsGraph(): Graph
      reads this`nodes, this`edges
    {
      Graph(NodeSet(), edges)
    }

    /** The parsed (not stub) nodes: what references can resolve to. */
    ghost function Parsed(): set<Node>
      reads this`nodes
    {
      ParsedOf(nodes)
    }

    ghost predicate Keyed()
      reads this`nodes, this`edges
    {
      && (forall id :: id in nodes ==> nodes[id].id == id)
      && (forall id :: id in nodes && nodes[id].unresolved ==> id.StubId? && nodes[id] == StubNode(id))
      && (forall id :: id in nodes && !nodes[id].unresolved ==>
            id.Declared? && nodes[id].file == id.file && id.file != "")
      && (forall e :: e in edges ==> e.src in nodes && e.dst in nodes)
    }

    ghost predicate Valid()
      reads this`nodes, this`edges, this`definitions, this`definitionsCi, this`nodeFile, this`emitted, this`inherited
    {
      && Keyed()
      && IndexedBy(nodes, definitions, Parsed(), false)
      && IndexedBy(nodes, definitionsCi, Parsed(), true)
      && (forall id :: id in nodeFile ==> id.Declared? && nodeFile[id] == id.file)
      && edges == inherited + emitted
    }

    method AddLocalEdge(e: Edge)
      requires Valid() && e !in edges && e.src in nodes && e.dst in nodes
      modifies this`edges, this`inherited
      ensures Valid() && edges == old(edges) + {e} && inherited == old(inherited) + {e}
    {
      edges := edges + {e};
      inherited := inherited + {e};
    }

    /** Register a parsed node in the graph and in the definition indexes. */
    method AddDefinition(n: Node)
      requires Valid() && n.id !in nodes
      requires !n.unresolved && n.id.Declared? && n.file == n.id.file && n.file != ""
      modifies this`nodes, this`definitions, this`definitionsCi
      ensures Valid() && nodes == old(nodes)[n.id := n]
      ensures NodeSet() == old(NodeSet()) + {n} && Parsed() == old(Parsed()) + {n}
    {
      ghost var known := Parsed();
      AppendIndexes(nodes, nodes[n.id := n], definitions, known, n, false);
      AppendIndexes(nodes, nodes[n.id := n], definitionsCi, known, n, true);
      nodes := nodes[n.id := n];
      definitions := Append(definitions, NameKey(n, false), n.id);
      definitionsCi := Append(definitionsCi, NameKey(n, true), n.id);
      assert Parsed() == known + {n};
    }
  
    /** The definitions of the given kinds and name, kind by kind. */
    method Lookup(kinds: seq<NodeKind>, name: string, folded: bool) returns (candidates: seq<NodeId>)
      requires Valid() && NoDup(kinds)
      ensures Lists(nodes, candidates, OfKinds(Parsed(), kinds, name, folded))
    {
      candidates := [];
      for i := 0 to |kinds|
        invariant Lists(nodes, candidates, OfKinds(Parsed(), kinds[..i], name, folded))
      {
        var key := (kinds[i], name);
        var found := Get(if folded then definitionsCi else definitions, key);
        assert Lists(nodes, found, Matching(Parsed(), key, folded));
        ghost var before := OfKinds(Parsed(), kinds[..i], name, folded);
        ListsConcat(nodes, candidates, found, before, Matching(Parsed(), key, folded));
        assert kinds[..i + 1] == kinds[..i] + [kinds[i]];
        assert OfKinds(Parsed(), kinds[..i + 1], name, folded) ==
               OfKinds(Parsed(), kinds[..i], name, folded) + Matching(Parsed(), key, folded);
        candidates := candidates + found;
      }
      assert kinds[..|kinds|] == kinds;
    }

    /** `_score`: the confidence rules over the candidate list. */
    method ScoreList(candidates: seq<NodeId>, src: NodeId, ghost c: set<Node>)
      returns (targets: seq<NodeId>, confidence: real)
      requires Valid() && src in nodeFile && Lists(nodes, candidates, c) && c != {}
      ensures NoDup(targets) && IdSet(targets) <= IdSet(candidates)
      ensures Resolution(IdSet(targets), confidence) == Score(c, src.file)
    {
      var refFile := nodeFile[src];
      var table := nodes;
      ListsCount(nodes, candidates, c);
      if |candidates| == 1 {
        ListsOne(nodes, candidates, c, refFile);
        return candidates, FileConfidence(nodes[candidates[0]].file == refFile);
      }
      ghost var hereNodes := InFile(c, refFile);
      var here := (id: NodeId) => id in table && table[id].file == refFile;
      var local := Filter(candidates, here);
      ListsFiltered(nodes, candidates, c, here, hereNodes);
      ListsCount(nodes, local, hereNodes);
      FilterNoDup(candidates, here);
      if |local| == 1 {
        return local, CONFIDENCE_RESOLVED;
      }
      targets, confidence := ScoreMany(candidates, local, refFile, c, hereNodes);
    }

    /** Several candidates, none of them the only local one: an unconditional one may still win. */
    method ScoreMany(candidates: seq<NodeId>, local: seq<NodeId>, refFile: string,
                     ghost c: set<Node>, ghost here: set<Node>)
      returns (targets: seq<NodeId>, confidence: real)
      requires Lists(nodes, candidates, c) && Lists(nodes, local, here)
      requires IdSet(local) <= IdSet(candidates)
      requires here == InFile(c, refFile) && |c| != 1 && |here| != 1
      ensures NoDup(targets) && IdSet(targets) <= IdSet(candidates)
      ensures Resolution(IdSet(targets), confidence) == Score(c, refFile)
    {
      var table := nodes;
      ListsCount(nodes, local, here);
      ListsCount(nodes, candidates, c);
      var pool := if |local| != 0 then local else candidates;
      ghost var poolNodes := if here != {} then here else c;
      ghost var plainNodes := Unconditional(poolNodes);
      var plain := (id: NodeId) => id in table && !table[id].conditional;
      var selected := Filter(pool, plain);
      ListsFiltered(nodes, pool, poolNodes, plain, plainNodes);
      ListsCount(nodes, selected, plainNodes);
      if |selected| == 1 {
        ListsOne(nodes, selected, plainNodes, refFile);
        return selected, FileConfidence(nodes[selected[0]].file == refFile);
      }
      return candidates, CONFIDENCE_AMBIGUOUS;
    }

    /** `_ensure_stub` */
    method EnsureStub(kind: NodeKind, name: string) returns (id: NodeId)
      requires Valid()
      modifies this`nodes
      ensures Valid() && id == StubId(kind, name) && id in nodes
      ensures NodeSet() == old(NodeSet()) + {StubNode(id)} && Parsed() == old(Parsed())
      ensures old(nodes.Keys) <= nodes.Keys
    {
      id := StubId(kind, name);
      if id !in nodes {
        AddStubNode(nodes, StubNode(id));
        IndexedMore(nodes, nodes[id := StubNode(id)], definitions, Parsed(), false);
        IndexedMore(nodes, nodes[id := StubNode(id)], definitionsCi, Parsed(), true);
        nodes := nodes[id := StubNode(id)];
      }
    }
  
    /** `_resolve_target` for an SV reference: exact name, cross-language fallback, stub. */
    method ResolveTarget(r: Ref) returns (targets: seq<NodeId>, confidence: real)
      requires Valid() && IsPass2(r.kind) && r.src.Declared? && r.src in nodeFile
      modifies this`nodes
      ensures Valid() && Parsed() == old(Parsed()) && old(nodes.Keys) <= nodes.Keys
      ensures NoDup(targets) && forall t :: t in targets ==> t in nodes
      ensures Resolution(IdSet(targets), confidence) == Resolve(Parsed(), r)
      ensures NodeSet() == old(NodeSet()) + StubsOf(Parsed(), {r})
    {
      ghost var d := Parsed();
      var candidates := ExactCandidates(r);
      ListsCount(nodes, candidates, Candidates(d, r));
      if |candidates| != 0 {
        targets, confidence := ScoreList(candidates, r.src, Candidates(d, r));
        assert forall t :: t in targets ==> t in IdSet(candidates);
        NoStubs(d, r);
        return;
      }
      targets, confidence := ResolveFallback(r);
    }

    /** No candidate by exact name: the case-folded entities, else the stub. */
    method ResolveFallback(r: Ref) returns (targets: seq<NodeId>, confidence: real)
      requires Valid() && r.src.Declared? && Candidates(Parsed(), r) == {}
      modifies this`nodes
      ensures Valid() && Parsed() == old(Parsed()) && old(nodes.Keys) <= nodes.Keys
      ensures NoDup(targets) && forall t :: t in targets ==> t in nodes
      ensures Resolution(IdSet(targets), confidence) == Resolve(Parsed(), r)
      ensures NodeSet() == old(NodeSet()) + StubsOf(Parsed(), {r})
    {
      ghost var d := Parsed();
      var cross := FoldedCandidates(r);
      ListsCount(nodes, cross, CrossCandidates(d, r));
      if |cross| != 0 {
        NoStubs(d, r);
        return cross, if |cross| == 1 then CONFIDENCE_UNIQUE_MATCH else CONFIDENCE_AMBIGUOUS;
      }
      var stub := EnsureStub(StubKind(r.kind), r.target);
      OneStub(d, r);
      return [stub], CONFIDENCE_RESOLVED;
    }

    method ExactCandidates(r: Ref) returns (candidates: seq<NodeId>)
      requires Valid()
      ensures Lists(nodes, candidates, Candidates(Parsed(), r))
    {
      candidates := Lookup(SameKinds(r.kind), r.target, false);
      assert OfKinds(Parsed(), SameKinds(r.kind), r.target, false) == Named(Parsed(), r);
      candidates := Narrow(candidates, r);
    }

    method FoldedCandidates(r: Ref) returns (candidates: seq<NodeId>)
      requires Valid()
      ensures Lists(nodes, candidates, CrossCandidates(Parsed(), r))
    {
      candidates := Lookup(CrossKinds(r.kind), Lower(r.target), true);
      assert OfKinds(Parsed(), CrossKinds(r.kind), Lower(r.target), true) == CrossCandidates(Parsed(), r);
    }

    /** An EXTENDS reference prefers classes of the package it names. */
    method Narrow(candidates: seq<NodeId>, r: Ref) returns (narrowed: seq<NodeId>)
      requires Valid() && Lists(nodes, candidates, Named(Parsed(), r))
      ensures Lists(nodes, narrowed, Candidates(Parsed(), r))
    {
      narrowed := candidates;
      var package := PackageOf(r);
      if package != "" {
        var table := nodes;
        var inside := (id: NodeId) => id in table && InPackage(table[id], package);
        var scoped := Filter(candidates, inside);
        ghost var scopedNodes := set n | n in Named(Parsed(), r) && InPackage(n, package);
        ListsFiltered(nodes, candidates, Named(Parsed(), r), inside, scopedNodes);
        ListsCount(nodes, scoped, scopedNodes);
        if |scoped| != 0 {
          narrowed := scoped;
        }
      }
    }

    /** `_emit`: one edge per distinct (src, dst, kind, confidence, attrs). */
    method Emit(r: Ref, dst: NodeId, confidence: real)
      requires Valid() && r.src in nodes && dst in nodes && IsPass2(r.kind) && Fresh(inherited, r.src)
      modifies this`edges, this`emitted
      ensures Valid() && emitted == old(emitted) + {EdgeTo(r, dst, confidence)}
    {
      var edge := EdgeTo(r, dst, confidence);
      if edge in emitted {
        return;
      }
      assert edge !in edges;
      edges := edges + {edge};
      emitted := emitted + {edge};
    }

    method ResolveRef(r: Ref)
      requires Valid() && IsPass2(r.kind) && r.src.Declared? && r.src in nodeFile && r.src in nodes
      requires Fresh(inherited, r.src)
      modifies this`nodes, this`edges, this`emitted
      ensures Valid() && Parsed() == old(Parsed()) && old(nodes.Keys) <= nodes.Keys
      ensures emitted == old(emitted) + RefEdges(Parsed(), r)
      ensures NodeSet() == old(NodeSet()) + StubsOf(Parsed(), {r})
    {
      var targets, confidence := ResolveTarget(r);
      EdgesToAll(Parsed(), r, targets, confidence);
      EmitAll(r, targets, confidence);
    }

    method EmitAll(r: Ref, targets: seq<NodeId>, confidence: real)
      requires Valid() && r.src in nodes && IsPass2(r.kind) && Fresh(inherited, r.src)
      requires forall t :: t in targets ==> t in nodes
      modifies this`edges, this`emitted
      ensures Valid() && emitted == old(emitted) + EdgesTo(r, targets, confidence)
    {
      for i := 0 to |targets|
        invariant Valid() && emitted == old(emitted) + EdgesTo(r, targets[..i], confidence)
      {
        EdgesToStep(r, targets, i, confidence);
        Emit(r, targets[i], confidence);
      }
      assert targets[..|targets|] == targets;
    }

    /** Register a unit's nodes; a repeated id keeps its first node. */
    method LoadNodes(ir: IR)
      requires Valid() && WellFormedUnit(ir)
      requires forall id :: id in nodes && id.Declared? ==> id.file != ir.path
      modifies this`nodes, this`definitions, this`definitionsCi
      ensures Valid()
      ensures NodeSet() == old(NodeSet()) + UnitNodes(ir)
    {
      for i := 0 to |ir.nodes|
        invariant Valid()
        invariant NodeSet() == old(NodeSet()) + NodesUpTo(ir, i)
      {
        FirstBefore(ir, i);
        AddedKeys(old(nodes), nodes, NodesUpTo(ir, i));
        NodesUpToStep(ir, i);
        if ir.nodes[i].id !in nodes {
          AddDefinition(ir.nodes[i]);
        }
      }
      assert NodesUpTo(ir, |ir.nodes|) == UnitNodes(ir);
    }

    /** `node_file`: the unit that first declares each node. */
    method OwnNodes(ir: IR)
      requires Valid() && WellFormedUnit(ir)
      modifies this`nodeFile
      ensures Valid()
      ensures nodeFile.Keys == old(nodeFile.Keys) + UnitIds(ir)
    {
      for i := 0 to |ir.nodes|
        invariant Valid()
        invariant nodeFile.Keys == old(nodeFile.Keys) + set n | n in ir.nodes[..i] :: n.id
      {
        assert ir.nodes[..i + 1] == ir.nodes[..i] + [ir.nodes[i]];
        if ir.nodes[i].id !in nodeFile {
          nodeFile := nodeFile[ir.nodes[i].id := ir.path];
        }
      }
      assert ir.nodes[..|ir.nodes|] == ir.nodes;
    }

    /** Add a unit's local edges, the first of each (src, dst, kind). */
    method LoadEdges(ir: IR, seen: set<EdgeKey>) returns (seenAfter: set<EdgeKey>)
      requires Valid() && WellFormedUnit(ir) && seen == LocalKeys(edges)
      requires forall i :: 0 <= i < |ir.nodes| ==> ir.nodes[i].id in nodes
      requires forall e :: e in edges && !IsPass2(e.kind) ==> !OwnsId(ir, e.src)
      modifies this`edges, this`inherited
      ensures Valid() && inherited == old(inherited) + UnitEdges(ir) && edges == old(edges) + UnitEdges(ir)
      ensures seenAfter == LocalKeys(edges)
    {
      seenAfter := seen;
      for i := 0 to |ir.edges|
        invariant Valid() && inherited == old(inherited) + EdgesUpTo(ir, i) && edges == old(edges) + EdgesUpTo(ir, i)
        invariant seenAfter == LocalKeys(edges)
      {
        var edge := ir.edges[i];
        FirstEdgeBefore(ir, i);
        EdgesUpToStep(ir, i);
        assert KeyOf(edge) in seenAfter <==> !FirstEdge(ir, i) by {
          assert OwnsId(ir, edge.src);
          if KeyOf(edge) in seenAfter {
            var e :| e in edges && !IsPass2(e.kind) && KeyOf(e) == KeyOf(edge);
            assert e in EdgesUpTo(ir, i);
          }
        }
        if KeyOf(edge) !in seenAfter {
          assert OwnsId(ir, edge.dst);
          assert edge in edges ==> KeyOf(edge) in LocalKeys(edges);
          seenAfter := seenAfter + {KeyOf(edge)};
          AddLocalEdge(edge);
        }
      }
      assert EdgesUpTo(ir, |ir.edges|) == UnitEdges(ir);
    }
  
    ghost predicate Apart(irs: seq<IR>)
      reads this`nodes
    {
      forall id, ir :: id in nodes && ir in irs && id.Declared? ==> id.file != ir.path
    }

    /** Register the nodes, then the local edges, of every unit given. */
    method Splice(irs: seq<IR>)
      requires Valid() && Apart(irs) && DistinctPaths(irs) && WellFormed(UnitsOf(irs))
      modifies this`nodes, this`definitions, this`definitionsCi, this`edges, this`inherited
      ensures Valid()
      ensures NodeSet() == old(NodeSet()) + Decls(UnitsOf(irs))
      ensures Parsed() == old(Parsed()) + Decls(UnitsOf(irs))
      ensures edges == old(edges) + LocalEdges(UnitsOf(irs))
      ensures inherited == old(inherited) + LocalEdges(UnitsOf(irs))
      ensures nodes.Keys == old(nodes.Keys) + Ids(Decls(UnitsOf(irs)))
    {
      SpliceNodes(irs);
      SplicedSets(old(nodes), nodes, irs);
      SpliceEdges(irs, old(nodes.Keys));
    }

    method SpliceNodes(irs: seq<IR>)
      requires Valid() && Apart(irs) && DistinctPaths(irs) && WellFormed(UnitsOf(irs))
      modifies this`nodes, this`definitions, this`definitionsCi
      ensures Valid()
      ensures NodeSet() == old(NodeSet()) + Decls(UnitsOf(irs))
    {
      for i := 0 to |irs|
        invariant Valid()
        invariant NodeSet() == old(NodeSet()) + Decls(UnitsOf(irs[..i]))
      {
        ghost var d := Decls(UnitsOf(irs[..i]));
        KeyedSets(nodes);
        StillApart(old(nodes), d, nodes, irs, i);
        LoadNodes(irs[i]);
        Assoc(old(NodeSet()), d, UnitNodes(irs[i]));
      }
      assert irs[..|irs|] == irs;
    }

    method SpliceEdges(irs: seq<IR>, ghost before: set<NodeId>)
      requires Valid() && DistinctPaths(irs) && WellFormed(UnitsOf(irs))
      requires forall e :: e in edges ==> e.src in before
      requires forall id, ir :: id in before && ir in irs && id.Declared? ==> id.file != ir.path
      requires Ids(Decls(UnitsOf(irs))) <= nodes.Keys
      modifies this`edges, this`inherited
      ensures Valid() && edges == old(edges) + LocalEdges(UnitsOf(irs))
      ensures inherited == old(inherited) + LocalEdges(UnitsOf(irs))
    {
      var seen := LocalKeys(edges);
      for i := 0 to |irs|
        invariant Valid() && seen == LocalKeys(edges)
        invariant edges == old(edges) + LocalEdges(UnitsOf(irs[..i]))
        invariant inherited == old(inherited) + LocalEdges(UnitsOf(irs[..i]))
      {
        ghost var local := LocalEdges(UnitsOf(irs[..i]));
        EdgesApart(before, nodes.Keys, old(edges), local, irs, i);
        seen := LoadEdges(irs[i], seen);
        Assoc(old(edges), local, UnitEdges(irs[i]));
        Assoc(old(inherited), local, UnitEdges(irs[i]));
      }
      assert irs[..|irs|] == irs;
    }
  
    /** The sources of these references have no pass-2 edge of another origin. */
    ghost predicate Ready(rs: set<Ref>)
      reads this`nodes, this`nodeFile, this`inherited
    {
      ReadyIn(nodes.Keys, nodeFile.Keys, inherited, rs)
    }

    /** Second loop of `link`: resolve the deferred references in order. */
    method ResolveAll(refs: seq<Ref>)
      requires Valid() && Ready(RefSet(refs)) && emitted == {}
      modifies this`nodes, this`edges, this`emitted
      ensures Valid() && Parsed() == old(Parsed())
      ensures emitted == EdgesOf(Parsed(), RefSet(refs))
      ensures NodeSet() == old(NodeSet()) + StubsOf(Parsed(), RefSet(refs))
    {
      ghost var d := Parsed();
      for i := 0 to |refs|
        invariant Valid() && Parsed() == d && Ready(RefSet(refs)) && AllDeclared(RefSet(refs[..i]))
        invariant emitted == EdgesOf(d, RefSet(refs[..i]))
        invariant NodeSet() == old(NodeSet()) + StubsOf(d, RefSet(refs[..i]))
      {
        RefSetStep(d, refs, i);
        ghost var n := StubsOf(d, RefSet(refs[..i]));
        assert refs[i] in RefSet(refs);
        ResolveRef(refs[i]);
        Assoc(old(NodeSet()), n, StubsOf(d, {refs[i]}));
      }
      assert refs[..|refs|] == refs;
    }

    /** The reference index of a run: one record per reference, in unit order. */
    method RecordRefs(irs: seq<IR>)
      modifies this`refRecords
      ensures refRecords == old(refRecords) + RecordList(irs)
    {
      for i := 0 to |irs|
        invariant refRecords == old(refRecords) + RecordList(irs[..i])
      {
        RecordListStep(irs, i);
        refRecords := refRecords + UnitRecords(irs[i]);
      }
      assert irs[..|irs|] == irs;
    }

    method OwnAll(irs: seq<IR>)
      requires Valid() && DistinctPaths(irs) && WellFormed(UnitsOf(irs))
      modifies this`nodeFile
      ensures Valid()
      ensures AllOwned(irs, |irs|, nodeFile.Keys)
    {
      for i := 0 to |irs|
        invariant Valid()
        invariant AllOwned(irs, i, nodeFile.Keys)
      {
        ghost var before := nodeFile.Keys;
        UnitsStep(irs, i);
        OwnNodes(irs[i]);
        OwnedStep(irs, i, before, nodeFile.Keys);
      }
    }

    /** First loop of `link`: own the nodes of every unit, load those given, record all references. */
    method IndexUnits(irs: seq<IR>, loaded: seq<IR>)
      requires Valid() && DistinctPaths(irs) && WellFormed(UnitsOf(irs))
      requires Apart(loaded) && DistinctPaths(loaded) && WellFormed(UnitsOf(loaded))
      modifies this`nodes, this`edges, this`definitions, this`definitionsCi, this`nodeFile
      modifies this`inherited, this`refRecords
      ensures Valid() && refRecords == old(refRecords) + RecordList(irs)
      ensures NodeSet() == old(NodeSet()) + Decls(UnitsOf(loaded))
      ensures Parsed() == old(Parsed()) + Decls(UnitsOf(loaded))
      ensures inherited == old(inherited) + LocalEdges(UnitsOf(loaded))
      ensures nodes.Keys == old(nodes.Keys) + Ids(Decls(UnitsOf(loaded)))
      ensures AllOwned(irs, |irs|, nodeFile.Keys)
    {
      OwnAll(irs);
      ghost var owners := nodeFile;
      Splice(loaded);
      RecordRefs(irs);
      assert nodeFile == owners;
    }

    /** `link_graph`: index every unit, then resolve every reference. */
    method LinkFull(irs: seq<IR>)
      requires Valid() && nodes == map[] && edges == {} && emitted == {} && refRecords == []
      requires DistinctPaths(irs) && WellFormed(UnitsOf(irs))
      modifies this
      ensures Keyed() && AsGraph() == Full(UnitsOf(irs)) && refRecords == RecordList(irs)
    {
      IndexAll(irs);
      RefListSet(irs);
      ResolveAll(RefList(irs));
    }

    method IndexAll(irs: seq<IR>)
      requires Valid() && nodes == map[] && edges == {} && emitted == {} && refRecords == []
      requires DistinctPaths(irs) && WellFormed(UnitsOf(irs))
      modifies this`nodes, this`edges, this`definitions, this`definitionsCi, this`nodeFile
      modifies this`inherited, this`refRecords
      ensures var u := UnitsOf(irs);
              && Valid() && NodeSet() == Decls(u) && Parsed() == Decls(u) && inherited == LocalEdges(u)
              && Ready(RefsOf(u)) && refRecords == RecordList(irs)
    {
      assert NodeSet() == {} && Parsed() == {};
      IndexUnits(irs, irs);
      RefsReady(UnitsOf(irs), irs, nodes.Keys, nodeFile.Keys, inherited);
    }

    /** Step 1 of `link_incremental`: drop the changed surface from the graph in place. */
    method DropChanged(dirty: set<string>, affected: set<NodeId>)
      requires Keyed()
      modifies this`nodes, this`edges
      ensures Keyed() && AsGraph() == Dropped(old(AsGraph()), dirty, affected)
      ensures nodes == map id | id in old(nodes) && old(nodes)[id].file !in dirty :: old(nodes)[id]
      ensures Parsed() == set n | n in CleanNodes(old(NodeSet()), dirty) && !n.unresolved
      ensures forall id :: id in nodes && id.Declared? ==> id.file !in dirty
      ensures forall e :: e in edges && IsPass2(e.kind) ==> e.src !in affected
    {
      nodes := map id | id in nodes && nodes[id].file !in dirty :: nodes[id];
      edges := set e | e in edges && e.src in nodes && e.dst in nodes;
      edges := set e | e in edges && !(IsPass2(e.kind) && e.src in affected);
      DroppedSets(old(nodes), nodes, dirty);
      DroppedGraph(old(nodes), old(edges), nodes, edges, dirty, affected);
    }

    /** Step 2a: seed the indexes from the surviving parsed nodes. */
    method Reindex()
      requires Keyed()
      modifies this`definitions, this`definitionsCi, this`nodeFile, this`emitted, this`inherited, this`refRecords
      ensures Valid() && emitted == {} && inherited == edges && refRecords == []
    {
      definitions, definitionsCi, nodeFile, emitted, refRecords := map[], map[], map[], {}, [];
      inherited := edges;
      ghost var known: set<Node> := {};
      var pending := set id | id in nodes && !nodes[id].unresolved;
      while pending != {}
        invariant emitted == {} && inherited == edges && refRecords == [] && nodeFile == map[]
        invariant SeededBut(nodes, known, pending)
        invariant IndexedBy(nodes, definitions, known, false) && IndexedBy(nodes, definitionsCi, known, true)
        decreases pending
      {
        var id :| id in pending;
        var n := nodes[id];
        AppendIndexes(nodes, nodes, definitions, known, n, false);
        AppendIndexes(nodes, nodes, definitionsCi, known, n, true);
        definitions := Append(definitions, NameKey(n, false), n.id);
        definitionsCi := Append(definitionsCi, NameKey(n, true), n.id);
        SeedStep(nodes, known, pending, id);
        pending := pending - {id};
        known := known + {n};
      }
      assert known == Parsed();
    }

    /** Steps 2 and 3: splice the dirty units back in and re-resolve the live references. */
    method Respliced(irs: seq<IR>, dirty: set<string>, affected: set<NodeId>)
      requires Valid() && emitted == {} && inherited == edges && refRecords == []
      requires DistinctPaths(irs) && WellFormed(UnitsOf(irs))
      requires forall id :: id in nodes && id.Declared? ==> id.file !in dirty
      requires forall e :: e in edges && IsPass2(e.kind) ==> e.src !in affected
      requires forall n :: n in Decls(UnitsOf(irs)) && n.file !in dirty ==> n in NodeSet()
      modifies this
      ensures Keyed() && refRecords == RecordList(irs)
      ensures var u := UnitsOf(irs);
              var d := old(Parsed()) + Decls(DirtyUnits(u, dirty));
              var live := LiveRefs(u, dirty, affected);
              && AllDeclared(live)
              && NodeSet() == old(NodeSet()) + Decls(DirtyUnits(u, dirty)) + StubsOf(d, live)
              && edges == old(edges) + LocalEdges(DirtyUnits(u, dirty)) + EdgesOf(d, live)
    {
      ghost var u := UnitsOf(irs);
      var isDirty := (ir: IR) => ir.path in dirty;
      var dirtyIrs := Filter(irs, isDirty);
      FilteredUnits(irs, dirty, isDirty);
      IndexUnits(irs, dirtyIrs);
      LiveListSet(irs, dirty, affected);
      LiveReady(irs, dirty, affected, old(nodes.Keys), nodeFile.Keys, old(edges));
      ResolveAll(LiveList(irs, dirty, affected));
    }

    /** The stub worklist of `_gc_orphan_stubs`. */
    method MarkStubs(stubs: set<NodeId>) returns (keep: set<NodeId>)
      requires stubs == StubIds(NodeSet())
      ensures keep == KeptStubs(AsGraph())
    {
      ghost var g := AsGraph();
      keep := {};
      var anchored := set e, id | e in edges && !e.kind.Declares? && id in {e.src, e.dst} && id in stubs :: id;
      var pending := ToSeq(anchored);
      GcStart(g, anchored);
      while pending != []
        invariant GcInv(g, keep, IdSet(pending))
        decreases stubs - keep, |pending|
      {
        var id := pending[|pending| - 1];
        IdSetSplit(pending);
        pending := pending[..|pending| - 1];
        if id in keep {
          GcSkip(g, keep, IdSet(pending), id);
        } else {
          var others := Neighbours(edges, id);
          var more := ToSeq(set other | other in others && other in stubs && other !in keep + {id});
          StubNeighbourSet(g, id, keep + {id});
          GcAdd(g, keep, IdSet(pending), id, IdSet(more));
          IdSetConcat(pending, more);
          assert id in stubs - keep;
          keep := keep + {id};
          pending := pending + more;
        }
      }
      GcDone(g, keep);
    }

    /** `_gc_orphan_stubs`: keep the anchored stubs and what DECLARES edges join to them. */
    method CollectStubs()
      requires Keyed()
      modifies this`nodes, this`edges
      ensures Keyed() && AsGraph() == CollectOrphans(old(AsGraph()))
    {
      var stubs := set id | id in nodes && nodes[id].unresolved;
      KeyedSets(nodes);
      assert stubs == StubIds(NodeSet());
      var keep := MarkStubs(stubs);
      ghost var before := nodes;
      nodes := map id | id in nodes && (id !in stubs || id in keep) :: nodes[id];
      edges := set e | e in edges && e.src in nodes && e.dst in nodes;
      CollectedSets(before, nodes, stubs, keep);
      assert NodeSet() == CollectOrphans(old(AsGraph())).nodes;
      assert edges == CollectOrphans(old(AsGraph())).edges;
    }

    /** `link_incremental` on the prior graph, in place. */
    method LinkIncremental(irs: seq<IR>, dirty: set<string>, affected: set<NodeId>)
      requires Keyed() && DistinctPaths(irs) && WellFormed(UnitsOf(irs))
      requires forall n :: n in Decls(UnitsOf(irs)) && n.file !in dirty ==> n in NodeSet()
      modifies this
      ensures Keyed() && AsGraph() == CollectOrphans(Relinked(old(AsGraph()), UnitsOf(irs), dirty, affected))
      ensures refRecords == RecordList(irs)
    {
      DropChanged(dirty, affected);
      Reindex();
      Respliced(irs, dirty, affected);
      CollectStubs();
    }
  }

  /** The worklist invariant: everything marked or pending must be kept, and only
      what is pending is still missing for closure. */
  ghost predicate GcInv(g: Graph, keep: set<NodeId>, pending: set<NodeId>) {
    && keep + pending <= StubIds(g.nodes)
    && (forall x: set<NodeId> :: ClosedKeep(g, x) ==> keep + pending <= x)
    && (forall id :: id in StubIds(g.nodes) && Anchored(g.edges, id) ==> id in keep + pending)
    && (forall e :: e in g.edges && e.kind.Declares? && e.src in StubIds(g.nodes) && e.dst in StubIds(g.nodes) ==>
          && (e.src in keep ==> e.dst in keep + pending)
          && (e.dst in keep ==> e.src in keep + pending))
  }

  lemma GcStart(g: Graph, anchored: set<NodeId>)
    requires forall id :: id in anchored <==> id in StubIds(g.nodes) && Anchored(g.edges, id)
    ensures GcInv(g, {}, anchored)
  {
  }

  lemma GcSkip(g: Graph, keep: set<NodeId>, pending: set<NodeId>, id: NodeId)
    requires GcInv(g, keep, pending + {id}) && id in keep
    ensures GcInv(g, keep, pending)
  {
    assert keep + (pending + {id}) == keep + pending;
  }

  ghost function StubNeighbours(g: Graph, id: NodeId): set<NodeId> {
    set e | e in g.edges && e.kind.Declares? && Touching(e, id) &&
            e.src in StubIds(g.nodes) && e.dst in StubIds(g.nodes) ::
      if e.dst == id then e.src else e.dst
  }

  /** The far ends of the DECLARES edges at `id`. */
  function Neighbours(edges: set<Edge>, id: NodeId): set<NodeId> {
    set e | e in edges && e.kind.Declares? && Touching(e, id) :: if e.dst == id then e.src else e.dst
  }

  lemma StubNeighbourSet(g: Graph, id: NodeId, marked: set<NodeId>)
    requires id in StubIds(g.nodes)
    ensures (set n | n in Neighbours(g.edges, id) && n in StubIds(g.nodes) && n !in marked) ==
            StubNeighbours(g, id) - marked
  {
  }

  lemma GcAdd(g: Graph, keep: set<NodeId>, pending: set<NodeId>, id: NodeId, more: set<NodeId>)
    requires GcInv(g, keep, pending + {id}) && id !in keep
    requires more == StubNeighbours(g, id) - (keep + {id})
    ensures GcInv(g, keep + {id}, pending + more)
  {
    forall x: set<NodeId> | ClosedKeep(g, x) ensures (keep + {id}) + (pending + more) <= x {
      assert id in keep + (pending + {id});
      assert id in x;
    }
    forall e | e in g.edges && e.kind.Declares? && e.src in StubIds(g.nodes) && e.dst in StubIds(g.nodes)
      ensures e.src in keep + {id} ==> e.dst in (keep + {id}) + (pending + more)
      ensures e.dst in keep + {id} ==> e.src in (keep + {id}) + (pending + more)
    {
      if e.src == id || e.dst == id {
        assert (if e.dst == id then e.src else e.dst) in StubNeighbours(g, id);
      }
    }
  }

  lemma GcDone(g: Graph, keep: set<NodeId>)
    requires GcInv(g, keep, {})
    ensures keep == KeptStubs(g)
  {
    assert keep + {} == keep;
    assert ClosedKeep(g, keep);
  }

  lemma CollectedSets(before: map<NodeId, Node>, after: map<NodeId, Node>, stubs: set<NodeId>, keep: set<NodeId>)
    requires KeyedMap(before) && stubs == StubIds(NodeSetOf(before)) && keep <= stubs
    requires after == map id | id in before && (id !in stubs || id in keep) :: before[id]
    ensures after.Keys == (Ids(NodeSetOf(before)) - stubs) + keep
    ensures NodeSetOf(after) == set n | n in NodeSetOf(before) && n.id in after.Keys
  {
    KeyedSets(before);
    KeyedSets(after);
    forall n ensures n in NodeSetOf(after) <==> n in NodeSetOf(before) && n.id in after.Keys {}
  }

  lemma IdSetSplit(q: seq<NodeId>)
    requires q != []
    ensures IdSet(q) == IdSet(q[..|q| - 1]) + {q[|q| - 1]}
  {
    assert q == q[..|q| - 1] + [q[|q| - 1]];
  }

  lemma IdSetConcat(p: seq<NodeId>, q: seq<NodeId>)
    ensures IdSet(p + q) == IdSet(p) + IdSet(q)
  {
  }

  lemma LiveReady(irs: seq<IR>, dirty: set<string>, affected: set<NodeId>,
                  ids: set<NodeId>, owned: set<NodeId>, prior: set<Edge>)
    requires DistinctPaths(irs) && WellFormed(UnitsOf(irs))
    requires forall id :: id in ids && id.Declared? ==> id.file !in dirty
    requires forall e :: e in prior && IsPass2(e.kind) ==> e.src in ids && e.src !in affected
    requires forall n :: n in Decls(UnitsOf(irs)) && n.file !in dirty ==> n.id in ids
    requires AllOwned(irs, |irs|, owned)
    ensures var w := DirtyUnits(UnitsOf(irs), dirty);
            ReadyIn(ids + Ids(Decls(w)), owned, prior + LocalEdges(w), LiveRefs(UnitsOf(irs), dirty, affected))
  {
    var u := UnitsOf(irs);
    var w := DirtyUnits(u, dirty);
    RefsAreDeclared(u);
    forall r | r in LiveRefs(u, dirty, affected) ensures r.src in ids + Ids(Decls(w)) && r.src in owned {
      RefSourceOwned(u, irs, r);
      var n :| n in Decls(u) && n.id == r.src && n.file == r.src.file;
      if n.file in dirty {
        InDecls(u, n);
        assert w[n.id.file] == u[n.id.file];
        InDecls(w, n);
      }
    }
    forall e | e in LocalEdges(w) ensures !IsPass2(e.kind) {
      LocalEdgeOwned(w, e);
    }
  }

  lemma DroppedSets(before: map<NodeId, Node>, after: map<NodeId, Node>, dirty: set<string>)
    requires KeyedMap(before) && after == map id | id in before && before[id].file !in dirty :: before[id]
    ensures NodeSetOf(after) == CleanNodes(NodeSetOf(before), dirty)
    ensures after.Keys == Ids(CleanNodes(NodeSetOf(before), dirty))
    ensures NodeSetOf(after) == set n | n in NodeSetOf(before) && n.id in Ids(CleanNodes(NodeSetOf(before), dirty))
    ensures ParsedOf(after) == set n | n in CleanNodes(NodeSetOf(before), dirty) && !n.unresolved
  {
    KeyedSets(before);
    KeyedSets(after);
    forall n ensures n in NodeSetOf(after) <==> n in CleanNodes(NodeSetOf(before), dirty) {}
    assert NodeSetOf(after) == CleanNodes(NodeSetOf(before), dirty);
  }

  lemma DroppedGraph(before: map<NodeId, Node>, prior: set<Edge>, after: map<NodeId, Node>, kept: set<Edge>,
                     dirty: set<string>, affected: set<NodeId>)
    requires KeyedMap(before) && after == map id | id in before && before[id].file !in dirty :: before[id]
    requires kept == set e | e in prior && e.src in after && e.dst in after && !(IsPass2(e.kind) && e.src in affected)
    ensures Graph(NodeSetOf(after), kept) == Dropped(Graph(NodeSetOf(before), prior), dirty, affected)
  {
    DroppedSets(before, after, dirty);
  }

  lemma RefsReady(u: Units, irs: seq<IR>, ids: set<NodeId>, owned: set<NodeId>, inherited: set<Edge>)
    requires DistinctPaths(irs) && u == UnitsOf(irs) && WellFormed(u)
    requires ids == Ids(Decls(u)) && inherited == LocalEdges(u)
    requires AllOwned(irs, |irs|, owned)
    ensures ReadyIn(ids, owned, inherited, RefsOf(u))
  {
    RefsAreDeclared(u);
    forall r | r in RefsOf(u) ensures r.src in ids && r.src in owned {
      RefSourceOwned(u, irs, r);
    }
    forall e | e in LocalEdges(u) ensures !IsPass2(e.kind) {
      LocalEdgeOwned(u, e);
    }
  }

  lemma RefSourceOwned(u: Units, irs: seq<IR>, r: Ref)
    requires DistinctPaths(irs) && u == UnitsOf(irs) && WellFormed(u) && r in RefsOf(u)
    ensures r.src in Ids(Decls(u))
    ensures r.src.Declared? && exists j :: 0 <= j < |irs| && r.src in UnitIds(irs[j])
    ensures exists n :: n in Decls(u) && n.id == r.src && n.file == r.src.file
  {
    RefsAreDeclared(u);
    var p := r.src.file;
    OwnedId(u, p, r.src);
    var n :| n in UnitNodes(u[p]) && n.id == r.src;
    assert n in Decls(u);
    InDecls(u, n);
    assert u[p] in irs && n in u[p].nodes && n.id in UnitIds(u[p]);
  }

  /** Every reference, in unit order. */
  function RefList(irs: seq<IR>): seq<Ref> {
    if irs == [] then [] else RefList(irs[..|irs| - 1]) + irs[|irs| - 1].refs
  }

  /** The references of dirty units and of affected sources, in unit order. */
  function LiveList(irs: seq<IR>, dirty: set<string>, affected: set<NodeId>): seq<Ref> {
    if irs == [] then []
    else
      var ir := irs[|irs| - 1];
      LiveList(irs[..|irs| - 1], dirty, affected) +
      Filter(ir.refs, (r: Ref) => ir.path in dirty || r.src in affected)
  }

  lemma {:induction false} RefListSet(irs: seq<IR>)
    requires DistinctPaths(irs)
    ensures RefSet(RefList(irs)) == RefsOf(UnitsOf(irs))
  {
    if irs != [] {
      var k := |irs| - 1;
      assert irs[..k + 1] == irs;
      UnitsStep(irs, k);
      UnitAdds(UnitsOf(irs[..k]), irs[k]);
      RefListSet(irs[..k]);
    }
  }

  lemma {:induction false} LiveListSet(irs: seq<IR>, dirty: set<string>, affected: set<NodeId>)
    requires DistinctPaths(irs) && WellFormed(UnitsOf(irs))
    ensures RefSet(LiveList(irs, dirty, affected)) == LiveRefs(UnitsOf(irs), dirty, affected)
  {
    if irs != [] {
      var k := |irs| - 1;
      assert irs[..k + 1] == irs;
      UnitsStep(irs, k);
      PrefixUnits(irs, k);
      LiveStep(UnitsOf(irs[..k]), irs[k], dirty, affected);
      LiveListSet(irs[..k], dirty, affected);
    }
  }

  lemma RecordListStep(irs: seq<IR>, i: nat)
    requires i < |irs|
    ensures RecordList(irs[..i + 1]) == RecordList(irs[..i]) + UnitRecords(irs[i])
  {
    assert irs[..i + 1][..i] == irs[..i];
  }

  ghost function RefSet(refs: seq<Ref>): set<Ref> {
    set r | r in refs
  }

  lemma RefSetStep(d: set<Node>, refs: seq<Ref>, i: nat)
    requires i < |refs| && AllDeclared(RefSet(refs))
    ensures AllDeclared(RefSet(refs[..i])) && AllDeclared(RefSet(refs[..i + 1]))
    ensures EdgesOf(d, RefSet(refs[..i + 1])) == EdgesOf(d, RefSet(refs[..i])) + RefEdges(d, refs[i])
    ensures StubsOf(d, RefSet(refs[..i + 1])) == StubsOf(d, RefSet(refs[..i])) + StubsOf(d, {refs[i]})
  {
    assert forall r :: r in refs ==> r in RefSet(refs);
    assert refs[..i + 1] == refs[..i] + [refs[i]];
    assert RefSet(refs[..i + 1]) == RefSet(refs[..i]) + {refs[i]};
    EdgesOfAdd(d, RefSet(refs[..i]), refs[i]);
  }

  lemma Assoc<T>(a: set<T>, b: set<T>, c: set<T>)
    ensures (a + b) + c == a + (b + c)
  {
  }

  /** No pass-2 edge out of `src` is among `inherited`. */
  ghost predicate Fresh(inherited: set<Edge>, src: NodeId) {
    forall e :: e in inherited && IsPass2(e.kind) ==> e.src != src
  }

  ghost predicate ReadyIn(ids: set<NodeId>, owned: set<NodeId>, inherited: set<Edge>, rs: set<Ref>) {
    && AllDeclared(rs)
    && forall r :: r in rs ==> IsPass2(r.kind) && r.src in ids && r.src in owned && Fresh(inherited, r.src)
  }

  ghost predicate KeyedMap(nodes: map<NodeId, Node>) {
    forall id :: id in nodes ==> nodes[id].id == id
  }

  lemma KeyedSets(nodes: map<NodeId, Node>)
    requires KeyedMap(nodes)
    ensures ParsedOf(nodes) == set n | n in NodeSetOf(nodes) && !n.unresolved
    ensures nodes.Keys == Ids(NodeSetOf(nodes))
    ensures forall n :: n in NodeSetOf(nodes) <==> n.id in nodes && nodes[n.id] == n
  {
    forall id | id in nodes ensures nodes[id] in NodeSetOf(nodes) && id in Ids(NodeSetOf(nodes)) {
      assert nodes[id] in NodeSetOf(nodes);
    }
  }

  lemma AddedKeys(before: map<NodeId, Node>, after: map<NodeId, Node>, d: set<Node>)
    requires KeyedMap(before) && KeyedMap(after) && NodeSetOf(after) == NodeSetOf(before) + d
    ensures after.Keys == before.Keys + Ids(d)
  {
    KeyedSets(before);
    KeyedSets(after);
  }

  lemma SplicedSets(before: map<NodeId, Node>, after: map<NodeId, Node>, irs: seq<IR>)
    requires KeyedMap(before) && KeyedMap(after) && DistinctPaths(irs) && WellFormed(UnitsOf(irs))
    requires NodeSetOf(after) == NodeSetOf(before) + Decls(UnitsOf(irs))
    ensures ParsedOf(after) == ParsedOf(before) + Decls(UnitsOf(irs))
    ensures after.Keys == before.Keys + Ids(Decls(UnitsOf(irs)))
  {
    KeyedSets(before);
    KeyedSets(after);
    forall n | n in Decls(UnitsOf(irs)) ensures !n.unresolved {
      InDecls(UnitsOf(irs), n);
    }
  }

  lemma StillApart(before: map<NodeId, Node>, d: set<Node>, nodes: map<NodeId, Node>, irs: seq<IR>, i: nat)
    requires DistinctPaths(irs) && i < |irs| && WellFormed(UnitsOf(irs))
    requires forall id, ir :: id in before && ir in irs && id.Declared? ==> id.file != ir.path
    requires d == Decls(UnitsOf(irs[..i])) && KeyedMap(before) && KeyedMap(nodes)
    requires NodeSetOf(nodes) == NodeSetOf(before) + d
    ensures WellFormedUnit(irs[i])
    ensures forall id :: id in nodes && id.Declared? ==> id.file != irs[i].path
    ensures Decls(UnitsOf(irs[..i + 1])) == d + UnitNodes(irs[i])
  {
    UnitsStep(irs, i);
    PrefixUnits(irs, i);
    UnitAdds(UnitsOf(irs[..i]), irs[i]);
    KeyedSets(before);
    KeyedSets(nodes);
    forall id | id in nodes && id.Declared? ensures id.file != irs[i].path {
      assert nodes[id] in NodeSetOf(nodes);
      if nodes[id] in d {
        InDecls(UnitsOf(irs[..i]), nodes[id]);
      }
    }
  }

  lemma EdgesApart(before: set<NodeId>, ids: set<NodeId>, old_: set<Edge>, local: set<Edge>, irs: seq<IR>, i: nat)
    requires DistinctPaths(irs) && i < |irs| && WellFormed(UnitsOf(irs)) && Ids(Decls(UnitsOf(irs))) <= ids
    requires forall e :: e in old_ ==> e.src in before
    requires forall id, ir :: id in before && ir in irs && id.Declared? ==> id.file != ir.path
    requires local == LocalEdges(UnitsOf(irs[..i]))
    ensures WellFormedUnit(irs[i])
    ensures forall k :: 0 <= k < |irs[i].nodes| ==> irs[i].nodes[k].id in ids
    ensures forall e :: e in old_ + local && !IsPass2(e.kind) ==> !OwnsId(irs[i], e.src)
    ensures LocalEdges(UnitsOf(irs[..i + 1])) == local + UnitEdges(irs[i])
  {
    var ir := irs[i];
    UnitsStep(irs, i);
    PrefixUnits(irs, i);
    UnitAdds(UnitsOf(irs[..i]), ir);
    forall k | 0 <= k < |ir.nodes| ensures ir.nodes[k].id in ids {
      OwnedId(UnitsOf(irs), ir.path, ir.nodes[k].id);
      var n :| n in UnitNodes(ir) && n.id == ir.nodes[k].id;
      assert n in Decls(UnitsOf(irs));
    }
    forall e | e in local ensures !OwnsId(ir, e.src) {
      LocalEdgeOwned(UnitsOf(irs[..i]), e);
    }
  }

  lemma PrefixUnits(irs: seq<IR>, i: nat)
    requires DistinctPaths(irs) && i <= |irs| && WellFormed(UnitsOf(irs))
    ensures DistinctPaths(irs[..i]) && WellFormed(UnitsOf(irs[..i]))
    ensures forall p :: p in UnitsOf(irs[..i]) ==> p in UnitsOf(irs) && UnitsOf(irs[..i])[p] == UnitsOf(irs)[p]
  {
    forall p | p in UnitsOf(irs[..i]) ensures p in UnitsOf(irs) && UnitsOf(irs[..i])[p] == UnitsOf(irs)[p] {
      var ir :| ir in irs[..i] && ir.path == p;
      assert ir in irs;
    }
  }
}
