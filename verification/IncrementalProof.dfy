/** Why the incremental link equals the full one: the "byte-identical" contract
    of `link_incremental` (src/hdl_kgraph/graph/builder.py), with the exact
    condition under which it holds. */
module IncrementalProof {
  import opened Schema
  import opened LinkSpec
  import opened Incremental

  /** One incremental update: `v` replaces `u`, and no VHDL is left in the design. */
  ghost predicate Update(u: Units, v: Units, dirty: set<string>) {
    WellFormed(u) && WellFormed(v) && Covers(u, v, dirty) && !HasVhdl(v)
  }

  ghost function Affected(u: Units, v: Units, dirty: set<string>): set<NodeId>
    requires WellFormed(u)
  {
    AffectedBy(Full(u), Records(u), v, dirty)
  }

  /** A reference of an untouched unit that the update leaves alone. */
  ghost predicate Untouched(u: Units, v: Units, dirty: set<string>, r: Ref)
    requires WellFormed(u)
  {
    r in RefsOf(v) && r.src.Declared? && r.src.file !in dirty && r.src !in Affected(u, v, dirty)
  }

  ghost predicate Stale(u: Units, v: Units, dirty: set<string>)
    requires WellFormed(u)
  {
    StaleCrossLanguage(Full(u), dirty, Affected(u, v, dirty))
  }

  // -- clean units look the same on both sides ----------------------------------------

  lemma CleanDecl(u: Units, v: Units, dirty: set<string>, n: Node)
    requires Update(u, v, dirty) && n.file !in dirty
    ensures n in Decls(u) <==> n in Decls(v)
  {
    InDecls(u, n);
    InDecls(v, n);
  }

  lemma CleanRef(u: Units, v: Units, dirty: set<string>, r: Ref)
    requires Update(u, v, dirty) && r.src.Declared? && r.src.file !in dirty
    ensures r in RefsOf(u) <==> r in RefsOf(v)
  {
    RefsAreDeclared(u);
    RefsAreDeclared(v);
  }

  lemma CleanEdge(u: Units, v: Units, dirty: set<string>, e: Edge)
    requires Update(u, v, dirty) && e.src.Declared? && e.src.file !in dirty
    ensures e in LocalEdges(u) <==> e in LocalEdges(v)
  {
    if e in LocalEdges(u) { LocalEdgeOwned(u, e); }
    if e in LocalEdges(v) { LocalEdgeOwned(v, e); }
  }

  lemma DirtyDecl(v: Units, dirty: set<string>, n: Node)
    requires WellFormed(v)
    ensures n in Decls(DirtyUnits(v, dirty)) <==> n in Decls(v) && n.file in dirty
  {
    InDecls(v, n);
    InDecls(DirtyUnits(v, dirty), n);
  }

  lemma DirtyEdge(v: Units, dirty: set<string>, e: Edge)
    requires WellFormed(v)
    ensures e in LocalEdges(DirtyUnits(v, dirty)) <==> e in LocalEdges(v) && e.src.Declared? && e.src.file in dirty
  {
    var w := DirtyUnits(v, dirty);
    if e in LocalEdges(w) {
      LocalEdgeOwned(w, e);
      assert w[e.src.file] == v[e.src.file];
    }
    if e in LocalEdges(v) {
      LocalEdgeOwned(v, e);
      if e.src.file in dirty { assert w[e.src.file] == v[e.src.file]; }
    }
  }

  lemma NoEntities(v: Units, r: Ref)
    requires WellFormed(v) && !HasVhdl(v)
    ensures CrossCandidates(Decls(v), r) == {}
  {
    forall n | n in Decls(v) ensures !n.kind.Entity? {
      InDecls(v, n);
    }
  }

  /** The indexes the incremental link resolves against are those of a full build. */
  lemma IndexedIsDecls(u: Units, v: Units, dirty: set<string>)
    requires Update(u, v, dirty)
    ensures Indexed(Full(u), v, dirty) == Decls(v)
  {
    forall n ensures n in Indexed(Full(u), v, dirty) <==> n in Decls(v) {
      InDecls(u, n);
      InDecls(v, n);
      DirtyDecl(v, dirty, n);
      if n.file !in dirty { CleanDecl(u, v, dirty, n); }
    }
  }

  // -- the key lemma: an untouched reference sees the same candidates --------------------

  lemma DirtyNameAffects(u: Units, v: Units, dirty: set<string>, r: Ref, n: Node)
    requires Update(u, v, dirty) && r in RefsOf(u) && r.src.Declared?
    requires n in Decls(u) || n in Decls(v)
    requires n.kind in SameKinds(r.kind) && n.name == r.target && n.file in dirty
    ensures r.src in Affected(u, v, dirty)
  {
    InDecls(u, n);
    InDecls(v, n);
    var changed := ChangedNames(Full(u).nodes, v, dirty);
    var key := (n.kind, n.name);
    assert IsDefinitionKind(n.kind);
    assert key in changed by {
      if n in Decls(v) { assert n in v[n.id.file].nodes; }
    }
    var rec := RefRecord(r.src.file, r.src, r.kind, r.target);
    assert rec in Records(u);
    assert Touches(rec, key);
  }

  lemma SameNamed(u: Units, v: Units, dirty: set<string>, r: Ref)
    requires Update(u, v, dirty) && Untouched(u, v, dirty, r)
    ensures r in RefsOf(u)
    ensures Named(Decls(u), r) == Named(Decls(v), r)
    ensures Candidates(Decls(u), r) == Candidates(Decls(v), r)
    ensures forall n :: n in Named(Decls(u), r) ==> n.file !in dirty
  {
    CleanRef(u, v, dirty, r);
    forall n | n in Named(Decls(u), r) || n in Named(Decls(v), r)
      ensures n.file !in dirty && (n in Decls(u) <==> n in Decls(v))
    {
      if n.file in dirty {
        DirtyNameAffects(u, v, dirty, r, n);
        assert false;
      }
      CleanDecl(u, v, dirty, n);
    }
    assert Named(Decls(u), r) == Named(Decls(v), r);
  }

  /** The prior resolution of an untouched reference crosses into VHDL exactly when it is stale. */
  ghost predicate CrossResolved(d: set<Node>, r: Ref) {
    Candidates(d, r) == {} && CrossCandidates(d, r) != {}
  }

  lemma TargetsOf(d: set<Node>, r: Ref, t: NodeId)
    requires r.src.Declared? && t in Resolve(d, r).targets
    ensures Candidates(d, r) != {} ==> exists n :: n in Candidates(d, r) && n.id == t
    ensures CrossResolved(d, r) ==> exists n :: n in CrossCandidates(d, r) && n.id == t
    ensures Unresolved(d, r) ==> t == StubOf(r)
  {
  }

  lemma CrossEdge(u: Units, r: Ref) returns (e: Edge, n: Node)
    requires WellFormed(u) && r in RefsOf(u) && r.src.Declared?
    requires CrossResolved(Decls(u), r)
    ensures e in RefEdges(Decls(u), r) && e in Full(u).edges
    ensures n in Decls(u) && n.kind.Entity? && e.dst == n.id
    ensures e.kind.Instantiates? && e.src == r.src
  {
    n :| n in CrossCandidates(Decls(u), r);
    e := EdgeTo(r, n.id, Resolve(Decls(u), r).confidence);
    assert n.id in Ids(CrossCandidates(Decls(u), r));
    assert e in RefEdges(Decls(u), r);
  }

  lemma NotStaleNotCross(u: Units, v: Units, dirty: set<string>, r: Ref)
    requires Update(u, v, dirty) && Untouched(u, v, dirty, r) && !Stale(u, v, dirty)
    ensures !CrossResolved(Decls(u), r)
  {
    CleanRef(u, v, dirty, r);
    if CrossResolved(Decls(u), r) {
      var e, n := CrossEdge(u, r);
      InDecls(u, n);
      assert n in Full(u).nodes && IsStaleCross(e, n, dirty, Affected(u, v, dirty));
      assert false;
    }
  }

  /** Outside `affected_clean_refs`, a clean reference resolves as it did before. */
  lemma UntouchedResolvesAlike(u: Units, v: Units, dirty: set<string>, r: Ref)
    requires Update(u, v, dirty) && Untouched(u, v, dirty, r) && !CrossResolved(Decls(u), r)
    ensures Resolve(Decls(u), r) == Resolve(Decls(v), r)
    ensures RefEdges(Decls(u), r) == RefEdges(Decls(v), r)
    ensures Unresolved(Decls(u), r) <==> Unresolved(Decls(v), r)
  {
    SameNamed(u, v, dirty, r);
    NoEntities(v, r);
    ResolvesAlike(Decls(u), Decls(v), r);
  }

  lemma ResolvesAlike(c: set<Node>, d: set<Node>, r: Ref)
    requires r.src.Declared? && Candidates(c, r) == Candidates(d, r)
    requires !CrossResolved(c, r) && CrossCandidates(d, r) == {}
    ensures Resolve(c, r) == Resolve(d, r)
    ensures RefEdges(c, r) == RefEdges(d, r)
    ensures Unresolved(c, r) <==> Unresolved(d, r)
  {
  }

  lemma UntouchedSourceSurvives(u: Units, v: Units, dirty: set<string>, r: Ref)
    requires Update(u, v, dirty) && Untouched(u, v, dirty, r)
    ensures r.src in Ids(CleanNodes(Full(u).nodes, dirty))
  {
    RefsAreDeclared(u);
    OwnedId(u, r.src.file, r.src);
    var s :| s in UnitNodes(u[r.src.file]) && s.id == r.src;
    InDecls(u, s);
    assert s in CleanNodes(Full(u).nodes, dirty);
  }

  lemma UntouchedTargetsSurvive(u: Units, v: Units, dirty: set<string>, r: Ref, e: Edge)
    requires Update(u, v, dirty) && Untouched(u, v, dirty, r) && !CrossResolved(Decls(u), r)
    requires e in RefEdges(Decls(u), r)
    ensures e.src in Ids(CleanNodes(Full(u).nodes, dirty))
    ensures e.dst in Ids(CleanNodes(Full(u).nodes, dirty))
  {
    SameNamed(u, v, dirty, r);
    RefsAreDeclared(u);
    UntouchedSourceSurvives(u, v, dirty, r);
    TargetsOf(Decls(u), r, e.dst);
    if Unresolved(Decls(u), r) {
      assert StubNode(StubOf(r)) in CleanNodes(Full(u).nodes, dirty);
    } else {
      var n :| n in Candidates(Decls(u), r) && n.id == e.dst;
      assert n in Named(Decls(u), r);
      assert n in CleanNodes(Full(u).nodes, dirty);
    }
  }

  // -- edges ------------------------------------------------------------------------------

  /** The edges before stub collection. */
  ghost function RawEdges(u: Units, v: Units, dirty: set<string>): set<Edge>
    requires WellFormed(u)
  {
    Relinked(Full(u), v, dirty, Affected(u, v, dirty)).edges
  }

  lemma EdgesOfMember(d: set<Node>, rs: set<Ref>, e: Edge)
    requires AllDeclared(rs)
    ensures e in EdgesOf(d, rs) <==> exists r :: r in rs && e in RefEdges(d, r)
    ensures e in EdgesOf(d, rs) ==> exists r :: r in rs && r.src == e.src && r.kind == e.kind && e in RefEdges(d, r)
  {
  }

  lemma KeptEdgeSound(u: Units, v: Units, dirty: set<string>, e: Edge)
    requires Update(u, v, dirty) && !Stale(u, v, dirty)
    requires e in Dropped(Full(u), dirty, Affected(u, v, dirty)).edges
    ensures e in Full(v).edges
  {
    var kept := CleanNodes(Full(u).nodes, dirty);
    var s :| s in kept && s.id == e.src;
    InDecls(u, s);
    RefsAreDeclared(u);
    RefsAreDeclared(v);
    if e in LocalEdges(u) {
      LocalEdgeOwned(u, e);
      CleanEdge(u, v, dirty, e);
    } else {
      EdgesOfMember(Decls(u), RefsOf(u), e);
      var r :| r in RefsOf(u) && r.src == e.src && r.kind == e.kind && e in RefEdges(Decls(u), r);
      CleanRef(u, v, dirty, r);
      NotStaleNotCross(u, v, dirty, r);
      UntouchedResolvesAlike(u, v, dirty, r);
      EdgesOfMember(Decls(v), RefsOf(v), e);
    }
  }

  lemma RawEdgeSound(u: Units, v: Units, dirty: set<string>, e: Edge)
    requires Update(u, v, dirty) && !Stale(u, v, dirty)
    requires e in RawEdges(u, v, dirty)
    ensures e in Full(v).edges
  {
    var affected := Affected(u, v, dirty);
    RefsAreDeclared(v);
    IndexedIsDecls(u, v, dirty);
    if e in Dropped(Full(u), dirty, affected).edges {
      KeptEdgeSound(u, v, dirty, e);
    } else if e in LocalEdges(DirtyUnits(v, dirty)) {
      DirtyEdge(v, dirty, e);
    } else {
      EdgesOfMember(Decls(v), LiveRefs(v, dirty, affected), e);
      EdgesOfMember(Decls(v), RefsOf(v), e);
    }
  }

  lemma RawEdgeComplete(u: Units, v: Units, dirty: set<string>, e: Edge)
    requires Update(u, v, dirty) && !Stale(u, v, dirty)
    requires e in Full(v).edges
    ensures e in RawEdges(u, v, dirty)
  {
    var affected := Affected(u, v, dirty);
    RefsAreDeclared(v);
    IndexedIsDecls(u, v, dirty);
    if e in LocalEdges(v) {
      LocalEdgeOwned(v, e);
      DirtyEdge(v, dirty, e);
      if e.src.file !in dirty {
        CleanEdge(u, v, dirty, e);
        LocalEdgeOwned(u, e);
        CleanEndpoint(u, dirty, e.src);
        CleanEndpoint(u, dirty, e.dst);
      }
    } else {
      EdgesOfMember(Decls(v), RefsOf(v), e);
      var r :| r in RefsOf(v) && r.src == e.src && r.kind == e.kind && e in RefEdges(Decls(v), r);
      EdgesOfMember(Decls(v), LiveRefs(v, dirty, affected), e);
      if r !in LiveRefs(v, dirty, affected) {
        CleanRef(u, v, dirty, r);
        NotStaleNotCross(u, v, dirty, r);
        UntouchedResolvesAlike(u, v, dirty, r);
        UntouchedTargetsSurvive(u, v, dirty, r, e);
        RefsAreDeclared(u);
        EdgesOfMember(Decls(u), RefsOf(u), e);
      }
    }
  }

  lemma CleanEndpoint(u: Units, dirty: set<string>, id: NodeId)
    requires WellFormed(u) && id in Ids(Decls(u)) && id.Declared? && id.file !in dirty
    ensures id in Ids(CleanNodes(Full(u).nodes, dirty))
  {
    var n :| n in Decls(u) && n.id == id;
    InDecls(u, n);
    assert n in CleanNodes(Full(u).nodes, dirty);
  }

  lemma RawEdgesAreFull(u: Units, v: Units, dirty: set<string>)
    requires Update(u, v, dirty) && !Stale(u, v, dirty)
    ensures RawEdges(u, v, dirty) == Full(v).edges
  {
    forall e ensures e in RawEdges(u, v, dirty) <==> e in Full(v).edges {
      if e in RawEdges(u, v, dirty) { RawEdgeSound(u, v, dirty, e); }
      if e in Full(v).edges { RawEdgeComplete(u, v, dirty, e); }
    }
  }

  // -- nodes --------------------------------------------------------------------------------

  lemma StubHasEdge(u: Units, r: Ref)
    requires WellFormed(u) && r in RefsOf(u) && r.src.Declared? && Unresolved(Decls(u), r)
    ensures IsPass2(r.kind)
    ensures EdgeTo(r, StubOf(r), CONFIDENCE_RESOLVED) in Full(u).edges
  {
    RefsAreDeclared(u);
    assert StubOf(r) in Resolve(Decls(u), r).targets;
    assert EdgeTo(r, StubOf(r), CONFIDENCE_RESOLVED) in RefEdges(Decls(u), r);
  }

  lemma StubNodeOf(u: Units, n: Node) returns (r: Ref)
    requires WellFormed(u) && n in Full(u).nodes && n.unresolved
    ensures r in RefsOf(u) && r.src.Declared? && Unresolved(Decls(u), r) && n == StubNode(StubOf(r))
  {
    RefsAreDeclared(u);
    InDecls(u, n);
    r :| r in RefsOf(u) && Unresolved(Decls(u), r) && n == StubNode(StubOf(r));
  }

  lemma StubIsAnchored(v: Units, id: NodeId)
    requires WellFormed(v) && id.StubId? && StubNode(id) in Full(v).nodes
    ensures Anchored(Full(v).edges, id)
  {
    var r := StubNodeOf(v, StubNode(id));
    StubHasEdge(v, r);
    var e := EdgeTo(r, StubOf(r), CONFIDENCE_RESOLVED);
    assert StubOf(r) == StubNode(StubOf(r)).id == id;
    assert e in Full(v).edges && Touching(e, id);
  }

  lemma PassTwoEdge(v: Units, e: Edge) returns (r: Ref)
    requires WellFormed(v) && e in Full(v).edges && e !in LocalEdges(v)
    ensures r in RefsOf(v) && r.src.Declared? && r.src == e.src && r.kind == e.kind && e in RefEdges(Decls(v), r)
  {
    RefsAreDeclared(v);
    EdgesOfMember(Decls(v), RefsOf(v), e);
    r :| r in RefsOf(v) && r.src == e.src && r.kind == e.kind && e in RefEdges(Decls(v), r);
  }

  lemma StubTarget(v: Units, r: Ref, e: Edge)
    requires WellFormed(v) && r in RefsOf(v) && r.src.Declared? && e in RefEdges(Decls(v), r) && e.dst.StubId?
    ensures StubNode(e.dst) in Full(v).nodes
  {
    TargetsOf(Decls(v), r, e.dst);
    if !Unresolved(Decls(v), r) {
      var n :| n in Decls(v) && n.id == e.dst;
      InDecls(v, n);
      assert false;
    }
  }

  lemma AnchoredIsStub(v: Units, id: NodeId)
    requires WellFormed(v) && id.StubId? && Anchored(Full(v).edges, id)
    ensures StubNode(id) in Full(v).nodes
  {
    var e :| e in Full(v).edges && !e.kind.Declares? && Touching(e, id);
    if e in LocalEdges(v) {
      LocalEdgeOwned(v, e);
      assert false;
    } else {
      var r := PassTwoEdge(v, e);
      StubTarget(v, r, e);
    }
  }

  ghost function RawNodes(u: Units, v: Units, dirty: set<string>): set<Node>
    requires WellFormed(u)
  {
    Relinked(Full(u), v, dirty, Affected(u, v, dirty)).nodes
  }

  lemma RawParsedNodes(u: Units, v: Units, dirty: set<string>, n: Node)
    requires Update(u, v, dirty)
    ensures n in RawNodes(u, v, dirty) && !n.unresolved <==> n in Decls(v)
  {
    IndexedIsDecls(u, v, dirty);
    DroppedNodes(u, dirty, Affected(u, v, dirty));
    forall m | m in Decls(DirtyUnits(v, dirty)) ensures !m.unresolved {
      DirtyDecl(v, dirty, m);
      InDecls(v, m);
    }
    RelinkedParsed(Full(u), v, dirty, Affected(u, v, dirty), n);
  }

  /** Of any graph: the parsed nodes after the re-link are the indexed ones. */
  lemma RelinkedParsed(g: Graph, v: Units, dirty: set<string>, affected: set<NodeId>, n: Node)
    requires Dropped(g, dirty, affected).nodes == CleanNodes(g.nodes, dirty)
    requires forall m :: m in Decls(DirtyUnits(v, dirty)) ==> !m.unresolved
    ensures n in Relinked(g, v, dirty, affected).nodes && !n.unresolved <==> n in Indexed(g, v, dirty)
  {
  }

  /** Dropping by id drops exactly the dirty files' nodes. */
  lemma DroppedNodes(u: Units, dirty: set<string>, affected: set<NodeId>)
    requires WellFormed(u)
    ensures Dropped(Full(u), dirty, affected).nodes == CleanNodes(Full(u).nodes, dirty)
  {
    var kept := CleanNodes(Full(u).nodes, dirty);
    forall m | m in Full(u).nodes && m.id in Ids(kept) ensures m in kept {
      var k :| k in kept && k.id == m.id;
      SameIdSameNode(u, k, m);
    }
  }

  lemma SameIdSameNode(u: Units, m: Node, n: Node)
    requires WellFormed(u) && m in Full(u).nodes && n in Full(u).nodes && m.id == n.id
    ensures m == n
  {
    InDecls(u, m);
    InDecls(u, n);
    if m in Decls(u) && n in Decls(u) { DeclsDistinct(u, m, n); }
  }

  lemma RawStubShape(u: Units, v: Units, dirty: set<string>, n: Node)
    requires Update(u, v, dirty) && n in RawNodes(u, v, dirty) && n.unresolved
    ensures n.id.StubId? && n == StubNode(n.id)
  {
    RawParsedNodes(u, v, dirty, n);
    DirtyDecl(v, dirty, n);
    InDecls(v, n);
    if n in Full(u).nodes { var _ := StubNodeOf(u, n); }
  }

  lemma RawStubComplete(u: Units, v: Units, dirty: set<string>, r: Ref)
    requires Update(u, v, dirty) && !Stale(u, v, dirty)
    requires r in RefsOf(v) && r.src.Declared? && Unresolved(Decls(v), r)
    ensures StubNode(StubOf(r)) in RawNodes(u, v, dirty)
  {
    var affected := Affected(u, v, dirty);
    IndexedIsDecls(u, v, dirty);
    if r !in LiveRefs(v, dirty, affected) {
      CleanRef(u, v, dirty, r);
      NotStaleNotCross(u, v, dirty, r);
      UntouchedResolvesAlike(u, v, dirty, r);
      assert StubNode(StubOf(r)) in CleanNodes(Full(u).nodes, dirty);
    }
  }

  lemma DeclaresAvoidsStubs(u: Units, v: Units, dirty: set<string>, e: Edge)
    requires Update(u, v, dirty) && e in Full(v).edges && e.kind.Declares?
    ensures e.src !in StubIds(RawNodes(u, v, dirty))
  {
    if e !in LocalEdges(v) {
      var r := PassTwoEdge(v, e);
      RefsAreDeclared(v);
      assert false;
    }
    LocalEdgeOwned(v, e);
    if e.src in StubIds(RawNodes(u, v, dirty)) {
      var n :| n in RawNodes(u, v, dirty) && n.unresolved && n.id == e.src;
      RawStubShape(u, v, dirty, n);
      assert false;
    }
  }

  /** Without DECLARES edges at a stub, collection keeps exactly the anchored stubs. */
  lemma KeptIsAnchored(g: Graph)
    requires forall e :: e in g.edges && e.kind.Declares? ==> e.src !in StubIds(g.nodes)
    ensures KeptStubs(g) == set id | id in StubIds(g.nodes) && Anchored(g.edges, id)
  {
    var anchored := set id | id in StubIds(g.nodes) && Anchored(g.edges, id);
    assert ClosedKeep(g, anchored);
  }

  lemma CollectedNodes(u: Units, v: Units, dirty: set<string>, n: Node)
    requires Update(u, v, dirty) && !Stale(u, v, dirty)
    ensures n in CollectOrphans(Relinked(Full(u), v, dirty, Affected(u, v, dirty))).nodes <==> n in Full(v).nodes
  {
    var g := Relinked(Full(u), v, dirty, Affected(u, v, dirty));
    RawEdgesAreFull(u, v, dirty);
    forall e | e in g.edges && e.kind.Declares? ensures e.src !in StubIds(g.nodes) {
      DeclaresAvoidsStubs(u, v, dirty, e);
    }
    if n.unresolved {
      CollectedStubs(u, v, dirty, n);
    } else {
      ParsedIsNoStub(u, v, dirty, n);
      ParsedAlike(u, v, dirty, n);
    }
    CollectedFrom(g, Full(v), n);
  }

  /** What collection does to a node of any graph whose DECLARES edges avoid the stubs. */
  lemma CollectedFrom(g: Graph, full: Graph, n: Node)
    requires g.edges == full.edges
    requires forall e :: e in g.edges && e.kind.Declares? ==> e.src !in StubIds(g.nodes)
    requires n.unresolved ==> (n in g.nodes && Anchored(full.edges, n.id) <==> n in full.nodes)
    requires !n.unresolved ==> (n in g.nodes <==> n in full.nodes)
    requires !n.unresolved && n in g.nodes ==> n.id !in StubIds(g.nodes)
    ensures n in CollectOrphans(g).nodes <==> n in full.nodes
  {
    KeptIsAnchored(g);
    if n in g.nodes {
      assert n.id in Ids(g.nodes);
    }
  }

  lemma ParsedAlike(u: Units, v: Units, dirty: set<string>, n: Node)
    requires Update(u, v, dirty) && !n.unresolved
    ensures n in RawNodes(u, v, dirty) <==> n in Full(v).nodes
  {
    RawParsedNodes(u, v, dirty, n);
    InDecls(v, n);
  }

  /** A parsed node shares its id with no stub. */
  lemma ParsedIsNoStub(u: Units, v: Units, dirty: set<string>, n: Node)
    requires Update(u, v, dirty) && !Stale(u, v, dirty) && !n.unresolved
    ensures var g := Relinked(Full(u), v, dirty, Affected(u, v, dirty));
      n in g.nodes ==> n.id !in StubIds(g.nodes)
  {
    var g := Relinked(Full(u), v, dirty, Affected(u, v, dirty));
    RawParsedNodes(u, v, dirty, n);
    InDecls(v, n);
    if n in g.nodes && n.id in StubIds(g.nodes) {
      var s :| s in g.nodes && s.unresolved && s.id == n.id;
      RawStubShape(u, v, dirty, s);
    }
  }

  /** A stub is anchored exactly when the full link has it. */
  lemma CollectedStubs(u: Units, v: Units, dirty: set<string>, n: Node)
    requires Update(u, v, dirty) && !Stale(u, v, dirty) && n.unresolved
    ensures var g := Relinked(Full(u), v, dirty, Affected(u, v, dirty));
      n in g.nodes && Anchored(Full(v).edges, n.id) <==> n in Full(v).nodes
  {
    var g := Relinked(Full(u), v, dirty, Affected(u, v, dirty));
    InDecls(v, n);
    if n in g.nodes && Anchored(Full(v).edges, n.id) {
      RawStubShape(u, v, dirty, n);
      AnchoredIsStub(v, n.id);
    }
    if n in Full(v).nodes {
      var r := StubNodeOf(v, n);
      RawStubComplete(u, v, dirty, r);
      StubIsAnchored(v, n.id);
    }
  }

  lemma FullEndpoints(v: Units, e: Edge)
    requires WellFormed(v) && e in Full(v).edges
    ensures e.src in Ids(Full(v).nodes) && e.dst in Ids(Full(v).nodes)
  {
    if e in LocalEdges(v) {
      LocalEdgeOwned(v, e);
    } else {
      var r := PassTwoEdge(v, e);
      RefsAreDeclared(v);
      OwnedId(v, r.src.file, r.src);
      var s :| s in UnitNodes(v[r.src.file]) && s.id == r.src;
      assert s in Decls(v);
      TargetsOf(Decls(v), r, e.dst);
      if Unresolved(Decls(v), r) { StubTarget(v, r, e); assert StubNode(e.dst) in Full(v).nodes; }
    }
  }

  // -- the main theorem ---------------------------------------------------------------------

  /** The incremental link equals a full link of the new units, unless an untouched
      SV instance was bound to a VHDL entity. */
  lemma IncrementalEqualsFull(u: Units, v: Units, dirty: set<string>)
    requires Update(u, v, dirty) && !Stale(u, v, dirty)
    ensures IncrementalLink(Full(u), Records(u), v, dirty) == Full(v)
  {
    var g := Relinked(Full(u), v, dirty, Affected(u, v, dirty));
    RawEdgesAreFull(u, v, dirty);
    forall n ensures n in CollectOrphans(g).nodes <==> n in Full(v).nodes {
      CollectedNodes(u, v, dirty, n);
    }
    forall e | e in Full(v).edges ensures e.src in Ids(Full(v).nodes) && e.dst in Ids(Full(v).nodes) {
      FullEndpoints(v, e);
    }
    CollectedGraph(g, Full(v));
  }

  lemma CollectedGraph(g: Graph, full: Graph)
    requires g.edges == full.edges && forall n :: n in CollectOrphans(g).nodes <==> n in full.nodes
    requires forall e :: e in full.edges ==> e.src in Ids(full.nodes) && e.dst in Ids(full.nodes)
    ensures CollectOrphans(g) == full
  {
    var result := CollectOrphans(g);
    assert result.nodes == full.nodes;
    assert Ids(result.nodes) <= (Ids(g.nodes) - StubIds(g.nodes)) + KeptStubs(g);
    assert result.edges == full.edges;
  }

  lemma NonStubTarget(u: Units, r: Ref, t: NodeId)
    requires WellFormed(u) && r.src.Declared? && t in Resolve(Decls(u), r).targets
    requires !Unresolved(Decls(u), r)
    ensures t.Declared?
  {
    TargetsOf(Decls(u), r, t);
    var n :| n in Decls(u) && n.id == t;
    InDecls(u, n);
  }

  /** A reference bound to an entity got there through the cross-language fallback. */
  lemma EntityTarget(u: Units, r: Ref, n: Node)
    requires WellFormed(u) && r.src.Declared? && n in Decls(u) && n.kind.Entity?
    requires n.id in Resolve(Decls(u), r).targets
    ensures CrossResolved(Decls(u), r)
  {
    InDecls(u, n);
    forall m | m in Decls(u) && m.id == n.id ensures m == n {
      DeclsDistinct(u, m, n);
    }
    EntityAmong(Decls(u), r, n);
  }

  lemma EntityAmong(d: set<Node>, r: Ref, n: Node)
    requires r.src.Declared? && n.id.Declared? && n.kind.Entity?
    requires forall m :: m in d && m.id == n.id ==> m == n
    requires n.id in Resolve(d, r).targets
    ensures CrossResolved(d, r)
  {
    TargetsOf(d, r, n.id);
    if Candidates(d, r) != {} {
      var m :| m in Candidates(d, r) && m.id == n.id;
      CandidateIsNamed(d, r, m);
      assert false;
    }
  }

  lemma CandidateIsNamed(d: set<Node>, r: Ref, m: Node)
    requires m in Candidates(d, r)
    ensures m in d && m.kind in SameKinds(r.kind) && m.name == r.target
  {
  }

  lemma StaleIsCrossResolved(u: Units, v: Units, dirty: set<string>) returns (r: Ref)
    requires Update(u, v, dirty) && Stale(u, v, dirty)
    ensures Untouched(u, v, dirty, r) && CrossResolved(Decls(u), r)
  {
    var e, n :| e in Full(u).edges && n in Full(u).nodes && IsStaleCross(e, n, dirty, Affected(u, v, dirty));
    assert n in Decls(u);
    if e in LocalEdges(u) {
      LocalEdgeOwned(u, e);
      assert false;
    } else {
      r := PassTwoEdge(u, e);
      CleanRef(u, v, dirty, r);
      EntityTarget(u, r, n);
    }
  }

  lemma PriorLacksStubEdge(u: Units, r: Ref)
    requires WellFormed(u) && r in RefsOf(u) && r.src.Declared? && CrossResolved(Decls(u), r)
    ensures EdgeTo(r, StubOf(r), CONFIDENCE_RESOLVED) !in Full(u).edges
  {
    var f := EdgeTo(r, StubOf(r), CONFIDENCE_RESOLVED);
    RefsAreDeclared(u);
    if f in LocalEdges(u) {
      LocalEdgeOwned(u, f);
      assert false;
    } else if f in Full(u).edges {
      var s := PassTwoEdge(u, f);
      SameReferenceText(u, r, s);
      assert false;
    }
  }

  lemma SameReferenceText(u: Units, r: Ref, s: Ref)
    requires WellFormed(u) && r.src.Declared? && s.src == r.src && s.kind == r.kind
    requires CrossResolved(Decls(u), r)
    requires IsPass2(r.kind)
    ensures EdgeTo(r, StubOf(r), CONFIDENCE_RESOLVED) !in RefEdges(Decls(u), s)
  {
    var f := EdgeTo(r, StubOf(r), CONFIDENCE_RESOLVED);
    if f in RefEdges(Decls(u), s) {
      TargetsOf(Decls(u), s, f.dst);
      if Unresolved(Decls(u), s) {
        assert false;
      } else {
        NonStubTarget(u, s, f.dst);
        assert false;
      }
    }
  }

  lemma MissingStubEdge(u: Units, v: Units, dirty: set<string>, r: Ref)
    requires Update(u, v, dirty) && Untouched(u, v, dirty, r) && CrossResolved(Decls(u), r)
    ensures EdgeTo(r, StubOf(r), CONFIDENCE_RESOLVED) in Full(v).edges
    ensures EdgeTo(r, StubOf(r), CONFIDENCE_RESOLVED) !in RawEdges(u, v, dirty)
  {
    var f := EdgeTo(r, StubOf(r), CONFIDENCE_RESOLVED);
    SameNamed(u, v, dirty, r);
    NoEntities(v, r);
    StubHasEdge(v, r);
    PriorLacksStubEdge(u, r);
    RefsAreDeclared(v);
    EdgesOfMember(Indexed(Full(u), v, dirty), LiveRefs(v, dirty, Affected(u, v, dirty)), f);
    if f in LocalEdges(DirtyUnits(v, dirty)) {
      LocalEdgeOwned(DirtyUnits(v, dirty), f);
      assert false;
    }
  }

  /** The promised equality, with the exact condition: both directions. */
  lemma IncrementalEqualsFullIff(u: Units, v: Units, dirty: set<string>)
    requires Update(u, v, dirty)
    ensures IncrementalLink(Full(u), Records(u), v, dirty) == Full(v) <==> !Stale(u, v, dirty)
  {
    if Stale(u, v, dirty) {
      var r := StaleIsCrossResolved(u, v, dirty);
      MissingStubEdge(u, v, dirty, r);
    } else {
      IncrementalEqualsFull(u, v, dirty);
    }
  }

  /** A design that held no VHDL before the update is never stale. */
  lemma PureSvNotStale(u: Units, v: Units, dirty: set<string>)
    requires WellFormed(u) && !HasVhdl(u)
    ensures !Stale(u, v, dirty)
  {
    forall n | n in Full(u).nodes && !n.unresolved ensures !n.kind.Entity? {
      InDecls(u, n);
    }
  }

  /** VHDL that nothing is bound to may go, down to the last file. */
  lemma UnboundVhdlMayGo(u: Units, v: Units, dirty: set<string>)
    requires Update(u, v, dirty) && forall r :: r in RefsOf(u) ==> !CrossResolved(Decls(u), r)
    ensures !Stale(u, v, dirty)
  {
    if Stale(u, v, dirty) {
      var r := StaleIsCrossResolved(u, v, dirty);
      CleanRef(u, v, dirty, r);
    }
  }

  // -- histories ------------------------------------------------------------------------------

  /** One commit: the units it leaves and the files it touched. */
  datatype Commit = Commit(units: Units, dirty: set<string>)

  /** `_link_pass2`: VHDL in the new tree forces a full link. */
  ghost function LinkPass2(g: Graph, records: set<RefRecord>, c: Commit): Graph
    requires WellFormed(c.units)
  {
    if HasVhdl(c.units) then Full(c.units) else IncrementalLink(g, records, c.units, c.dirty)
  }

  ghost predicate ValidHistory(u: Units, history: seq<Commit>)
    decreases |history|
  {
    history == [] ||
    (WellFormed(history[0].units) && Covers(u, history[0].units, history[0].dirty) &&
     ValidHistory(history[0].units, history[1..]))
  }

  /** No commit that links incrementally leaves a stale cross-language binding. */
  ghost predicate NeverStale(u: Units, history: seq<Commit>)
    requires WellFormed(u) && ValidHistory(u, history)
    decreases |history|
  {
    history == [] ||
    (var c := history[0];
     && (!HasVhdl(c.units) ==> !Stale(u, c.units, c.dirty))
     && NeverStale(c.units, history[1..]))
  }

  /** The graph stored after each commit, one update at a time, is the full link of its units. */
  ghost predicate AlwaysFull(g: Graph, u: Units, history: seq<Commit>)
    requires ValidHistory(u, history)
    decreases |history|
  {
    history == [] ||
    (var c := history[0];
     var next := LinkPass2(g, Records(u), c);
     next == Full(c.units) && AlwaysFull(next, c.units, history[1..]))
  }

  ghost predicate AllWellFormed(history: seq<Commit>)
    decreases |history|
  {
    history == [] || (WellFormed(history[0].units) && AllWellFormed(history[1..]))
  }

  /** The graph after the last commit. */
  ghost function GraphAfter(g: Graph, records: set<RefRecord>, history: seq<Commit>): Graph
    requires AllWellFormed(history)
    decreases |history|
  {
    if history == [] then g
    else GraphAfter(LinkPass2(g, records, history[0]), Records(history[0].units), history[1..])
  }

  /** The units of the last commit. */
  ghost function Last(u: Units, history: seq<Commit>): Units
    decreases |history|
  {
    if history == [] then u else Last(history[0].units, history[1..])
  }

  lemma {:induction false} ValidHistoryUnits(u: Units, history: seq<Commit>)
    requires WellFormed(u) && ValidHistory(u, history)
    ensures AllWellFormed(history) && WellFormed(Last(u, history))
    decreases |history|
  {
    if history != [] {
      ValidHistoryUnits(history[0].units, history[1..]);
    }
  }

  /** One commit, with the fallback to a full link: the exact condition. */
  lemma StepIsFullIff(u: Units, c: Commit)
    requires WellFormed(u) && WellFormed(c.units) && Covers(u, c.units, c.dirty)
    ensures LinkPass2(Full(u), Records(u), c) == Full(c.units) <==> (!HasVhdl(c.units) ==> !Stale(u, c.units, c.dirty))
  {
    if !HasVhdl(c.units) {
      IncrementalEqualsFullIff(u, c.units, c.dirty);
    }
  }

  /** Over any history, the stored graph is the full link after every commit if and only
      if no incremental commit is stale. */
  lemma {:induction false} AlwaysFullIff(u: Units, history: seq<Commit>)
    requires WellFormed(u) && ValidHistory(u, history)
    ensures AlwaysFull(Full(u), u, history) <==> NeverStale(u, history)
    decreases |history|
  {
    if history != [] {
      StepIsFullIff(u, history[0]);
      AlwaysFullIff(history[0].units, history[1..]);
    }
  }

  /** Then the last graph is the full link of the current units. */
  lemma {:induction false} HistoryStaysFull(u: Units, history: seq<Commit>)
    requires WellFormed(u) && ValidHistory(u, history) && NeverStale(u, history)
    ensures AllWellFormed(history) && WellFormed(Last(u, history))
    ensures GraphAfter(Full(u), Records(u), history) == Full(Last(u, history))
    decreases |history|
  {
    ValidHistoryUnits(u, history);
    if history != [] {
      StepIsFullIff(u, history[0]);
      HistoryStaysFull(history[0].units, history[1..]);
    }
  }

  /** A history that keeps some VHDL file once there is one is never stale. */
  ghost predicate KeepsVhdl(u: Units, history: seq<Commit>)
    decreases |history|
  {
    history == [] ||
    ((HasVhdl(u) ==> HasVhdl(history[0].units)) && KeepsVhdl(history[0].units, history[1..]))
  }

  lemma {:induction false} KeepingVhdlIsNeverStale(u: Units, history: seq<Commit>)
    requires WellFormed(u) && ValidHistory(u, history) && KeepsVhdl(u, history)
    ensures NeverStale(u, history)
    decreases |history|
  {
    if history != [] {
      if !HasVhdl(history[0].units) {
        PureSvNotStale(u, history[0].units, history[0].dirty);
      }
      KeepingVhdlIsNeverStale(history[0].units, history[1..]);
    }
  }

  // -- the failing family has members -----------------------------------------------------------

  function WitnessInstance(): Node {
    Node(Declared("a.sv", "u0"), Instance, "u0", "a.u0", "a.sv", false, false, map[])
  }

  function WitnessEntity(): Node {
    Node(Declared("foo.vhd", "foo"), Entity, "foo", "foo", "foo.vhd", false, false, map[])
  }

  function WitnessRef(): Ref {
    Ref(Declared("a.sv", "u0"), Instantiates, "Foo", 1.0, map[], 1)
  }

  /** Removing `foo.vhd` leaves `a.sv`, whose instance of `Foo` had matched entity `foo`
      case-insensitively, without any edge: a full build gives it a stub. */
  lemma RemovingTheLastVhdlFileDiffers()
    ensures
      var sv := IR("a.sv", false, [WitnessInstance()], [], [WitnessRef()]);
      var vhdl := IR("foo.vhd", true, [WitnessEntity()], [], []);
      var before := map["a.sv" := sv, "foo.vhd" := vhdl];
      var after := map["a.sv" := sv];
      && Update(before, after, {"foo.vhd"})
      && IncrementalLink(Full(before), Records(before), after, {"foo.vhd"}) != Full(after)
  {
    var sv := IR("a.sv", false, [WitnessInstance()], [], [WitnessRef()]);
    var vhdl := IR("foo.vhd", true, [WitnessEntity()], [], []);
    var u := map["a.sv" := sv, "foo.vhd" := vhdl];
    var v := map["a.sv" := sv];
    var dirty := {"foo.vhd"};
    WitnessUpdate(u, v, sv, vhdl);
    WitnessResolution(u, sv, vhdl);
    WitnessUnaffected(u, v, sv, vhdl);
    var e, n := CrossEdge(u, WitnessRef());
    InDecls(u, n);
    assert n in Full(u).nodes && IsStaleCross(e, n, dirty, Affected(u, v, dirty));
    IncrementalEqualsFullIff(u, v, dirty);
  }

  lemma WitnessUpdate(u: Units, v: Units, sv: IR, vhdl: IR)
    requires sv == IR("a.sv", false, [WitnessInstance()], [], [WitnessRef()])
    requires vhdl == IR("foo.vhd", true, [WitnessEntity()], [], [])
    requires u == map["a.sv" := sv, "foo.vhd" := vhdl] && v == map["a.sv" := sv]
    ensures Update(u, v, {"foo.vhd"}) && WitnessRef() in RefsOf(u)
  {
    assert OwnsId(sv, sv.nodes[0].id);
    assert WellFormedUnit(sv) && WellFormedUnit(vhdl);
    assert WitnessRef() == sv.refs[0] && "a.sv" in u && WitnessRef() in u["a.sv"].refs;
  }

  /** The changed name is `foo`, the only recorded one `Foo`. */
  lemma WitnessUnaffected(u: Units, v: Units, sv: IR, vhdl: IR)
    requires sv == IR("a.sv", false, [WitnessInstance()], [], [WitnessRef()])
    requires vhdl == IR("foo.vhd", true, [WitnessEntity()], [], [])
    requires u == map["a.sv" := sv, "foo.vhd" := vhdl] && v == map["a.sv" := sv]
    requires Update(u, v, {"foo.vhd"})
    ensures WitnessRef().src !in Affected(u, v, {"foo.vhd"})
  {
    forall n | n in Full(u).nodes && n.file == "foo.vhd" ensures n.name == "foo" {
      InDecls(u, n);
    }
    forall q | q in RefsOf(u) ensures q.target == "Foo" {}
    assert "foo"[0] != "Foo"[0];
    OtherNameUnaffected(Full(u).nodes, Records(u), v, {"foo.vhd"}, "foo", "Foo");
  }

  /** When only `changed` changed and only `used` is referred to, nothing is affected. */
  lemma OtherNameUnaffected(prior: set<Node>, records: set<RefRecord>, v: Units, dirty: set<string>,
                            changed: string, used: string)
    requires changed != used && forall rec :: rec in records ==> rec.target == used
    requires forall n :: n in prior && n.file in dirty ==> n.name == changed
    requires forall p, n :: p in v && n in v[p].nodes && n.file in dirty ==> n.name == changed
    ensures AffectedSrcs(records, ChangedNames(prior, v, dirty)) == {}
  {
  }

  lemma WitnessResolution(u: Units, sv: IR, vhdl: IR)
    requires sv == IR("a.sv", false, [WitnessInstance()], [], [WitnessRef()])
    requires vhdl == IR("foo.vhd", true, [WitnessEntity()], [], [])
    requires u == map["a.sv" := sv, "foo.vhd" := vhdl] && WellFormed(u)
    ensures CrossResolved(Decls(u), WitnessRef())
  {
    forall n | n in Decls(u) ensures n == WitnessInstance() || n == WitnessEntity() {
      InDecls(u, n);
    }
    assert FirstNode(vhdl, 0) && vhdl.nodes[0] in UnitNodes(vhdl);
    assert "foo.vhd" in u && u["foo.vhd"] == vhdl;
    assert WitnessEntity() in Decls(u);
    assert Lower("Foo") == "foo" == Lower("foo");
    assert WitnessEntity() in CrossCandidates(Decls(u), WitnessRef());
    assert Named(Decls(u), WitnessRef()) == {};
  }
}
