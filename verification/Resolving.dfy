/** What a reference resolves to and how sure the link is, in literal kinds and numbers
    (`_resolve_target`, `_score`, `_cross_language`, `_stub` and `_emit` in
    src/hdl_kgraph/graph/builder.py), and what the full link therefore holds. */
module Resolving {
  import opened Schema
  import opened LinkSpec

  // -- candidates ------------------------------------------------------------------------------

  /** A declaration of the kind and name the reference asks for. */
  predicate Matches(r: Ref, n: Node) {
    && n.name == r.target
    && (|| (r.kind.Instantiates? && (n.kind.Module? || n.kind.Interface? || n.kind.Program? || n.kind.Primitive?))
        || (r.kind.Imports? && n.kind.Package?)
        || (r.kind.Extends? && n.kind.Class?))
  }

  /** A class declared inside the package that an EXTENDS reference names. */
  predicate InNamedPackage(r: Ref, n: Node) {
    && r.kind.Extends? && "package" in r.attrs && r.attrs["package"] != ""
    && r.attrs["package"] + "." <= n.qualifiedName
  }

  /** Matching declarations; only those in the named package, when there are any. */
  ghost predicate Candidate(d: set<Node>, r: Ref, n: Node) {
    n in d && Matches(r, n) && ((exists m :: m in d && Matches(r, m) && InNamedPackage(r, m)) ==> InNamedPackage(r, n))
  }

  /** A VHDL entity with the instance's target name, letter case aside. */
  predicate Entity(r: Ref, n: Node) {
    r.kind.Instantiates? && n.kind.Entity? && Lower(n.name) == Lower(r.target)
  }

  lemma CandidateIff(d: set<Node>, r: Ref, n: Node)
    requires IsPass2(r.kind)
    ensures n in Candidates(d, r) <==> Candidate(d, r, n)
  {
    var scoped := set m | m in Named(d, r) && InPackage(m, PackageOf(r));
    assert forall m :: m in Named(d, r) <==> m in d && Matches(r, m);
    assert PackageOf(r) != "" ==> forall m :: m in scoped <==> m in d && Matches(r, m) && InNamedPackage(r, m);
    assert PackageOf(r) == "" ==> forall m :: !InNamedPackage(r, m);
    if exists m :: m in d && Matches(r, m) && InNamedPackage(r, m) {
      var m :| m in d && Matches(r, m) && InNamedPackage(r, m);
      assert m in scoped;
    }
  }

  lemma EntityIff(d: set<Node>, r: Ref, n: Node)
    requires IsPass2(r.kind)
    ensures n in CrossCandidates(d, r) <==> n in d && Entity(r, n)
  {
  }

  /** Case folding maps each capital letter to its small one, and nothing else. */
  lemma LowerIs(s: string, i: nat)
    requires i < |s|
    ensures |Lower(s)| == |s|
    ensures 'A' <= s[i] <= 'Z' ==> Lower(s)[i] as int == s[i] as int + 32
    ensures !('A' <= s[i] <= 'Z') ==> Lower(s)[i] == s[i]
  {
  }

  // -- the rules, first to last -----------------------------------------------------------------

  ghost function Choices(d: set<Node>, r: Ref): set<Node> {
    set n | n in d && Candidate(d, r, n)
  }

  /** The candidates declared in the reference's own file. */
  ghost function Here(d: set<Node>, r: Ref): set<Node>
    requires r.src.Declared?
  {
    set n | n in Choices(d, r) && n.file == r.src.file
  }

  /** The unconditional candidates, of the own file when it has any candidate. */
  ghost function Plain(d: set<Node>, r: Ref): set<Node>
    requires r.src.Declared?
  {
    set n | n in (if Here(d, r) != {} then Here(d, r) else Choices(d, r)) && !n.conditional
  }

  ghost function Entities(d: set<Node>, r: Ref): set<Node> {
    set n | n in d && Entity(r, n)
  }

  ghost predicate Single(s: set<Node>) {
    exists x :: s == {x}
  }

  lemma SingleIff(s: set<Node>)
    ensures Single(s) <==> |s| == 1
  {
    if |s| == 1 {
      var x :| x in s;
      assert |s - {x}| == 0;
      assert s == {x} + (s - {x});
    }
  }

  lemma SameSets(d: set<Node>, r: Ref)
    requires IsPass2(r.kind) && r.src.Declared?
    ensures Candidates(d, r) == Choices(d, r) && CrossCandidates(d, r) == Entities(d, r)
    ensures InFile(Candidates(d, r), r.src.file) == Here(d, r)
    ensures Unconditional(if Here(d, r) != {} then Here(d, r) else Choices(d, r)) == Plain(d, r)
  {
    forall n ensures n in Candidates(d, r) <==> n in Choices(d, r) {
      CandidateIff(d, r, n);
    }
    forall n ensures n in CrossCandidates(d, r) <==> n in Entities(d, r) {
      EntityIff(d, r, n);
    }
  }

  /** One candidate: it is the target, at 1.0 in the reference's own file and at 0.8 elsewhere. */
  lemma OneCandidate(d: set<Node>, r: Ref, n: Node)
    requires IsPass2(r.kind) && r.src.Declared? && Choices(d, r) == {n}
    ensures Resolve(d, r) == Resolution({n.id}, if n.file == r.src.file then 1.0 else 0.8)
  {
    SameSets(d, r);
    assert Here(d, r) == if n.file == r.src.file then {n} else {};
    assert Ids({n}) == {n.id};
  }

  /** Several candidates, one of them in the own file: that one, at 1.0. */
  lemma OneLocal(d: set<Node>, r: Ref, n: Node)
    requires IsPass2(r.kind) && r.src.Declared? && Here(d, r) == {n}
    ensures Resolve(d, r) == Resolution({n.id}, 1.0)
  {
    SameSets(d, r);
    SingleIff(Choices(d, r));
    assert Ids({n}) == {n.id};
    if Single(Choices(d, r)) {
      assert n in Choices(d, r);
      OneCandidate(d, r, n);
    }
  }

  /** Otherwise a single unconditional one, local ones first: that one, at 1.0 or 0.8. */
  lemma OneUnconditional(d: set<Node>, r: Ref, n: Node)
    requires IsPass2(r.kind) && r.src.Declared? && !Single(Choices(d, r)) && !Single(Here(d, r)) && Plain(d, r) == {n}
    ensures Resolve(d, r) == Resolution({n.id}, if n.file == r.src.file then 1.0 else 0.8)
  {
    SameSets(d, r);
    SingleIff(Choices(d, r));
    SingleIff(Here(d, r));
    assert n in Plain(d, r);
    assert InFile({n}, r.src.file) == if n.file == r.src.file then {n} else {};
    assert Ids({n}) == {n.id};
  }

  /** Otherwise all candidates, at 0.6. */
  lemma Ambiguous(d: set<Node>, r: Ref)
    requires IsPass2(r.kind) && r.src.Declared? && Choices(d, r) != {}
    requires !Single(Choices(d, r)) && !Single(Here(d, r)) && !Single(Plain(d, r))
    ensures Resolve(d, r) == Resolution(set n | n in Choices(d, r) :: n.id, 0.6)
  {
    SameSets(d, r);
    SingleIff(Choices(d, r));
    SingleIff(Here(d, r));
    SingleIff(Plain(d, r));
  }

  /** No candidate: the entities of that name in any letter case, at 0.8 when there is one and else at 0.6. */
  lemma CrossLanguage(d: set<Node>, r: Ref)
    requires IsPass2(r.kind) && r.src.Declared? && Choices(d, r) == {} && Entities(d, r) != {}
    ensures Resolve(d, r) ==
      Resolution(set n | n in Entities(d, r) :: n.id, if Single(Entities(d, r)) then 0.8 else 0.6)
  {
    SameSets(d, r);
    SingleIff(Entities(d, r));
  }

  /** Nothing of that name: the stub of the kind the reference asks for, at 1.0. */
  lemma Missing(d: set<Node>, r: Ref)
    requires IsPass2(r.kind) && r.src.Declared? && Choices(d, r) == {} && Entities(d, r) == {}
    ensures r.kind.Instantiates? ==> Resolve(d, r) == Resolution({StubId(Module, r.target)}, 1.0)
    ensures r.kind.Imports? ==> Resolve(d, r) == Resolution({StubId(Package, r.target)}, 1.0)
    ensures r.kind.Extends? ==> Resolve(d, r) == Resolution({StubId(Class, r.target)}, 1.0)
  {
    SameSets(d, r);
  }

  // -- what the full link holds ------------------------------------------------------------------

  /** An edge is no surer than its resolution and its reference, and as sure as one of them. */
  predicate Capped(confidence: real, resolution: real, reference: real) {
    confidence <= resolution && confidence <= reference && (confidence == resolution || confidence == reference)
  }

  /** The reference, its targets' confidence capped by its own, is what the edge records. */
  ghost predicate Records(d: set<Node>, r: Ref, e: Edge)
    requires r.src.Declared?
  {
    && e == Edge(r.src, e.dst, r.kind, e.confidence, r.attrs, r.line)
    && e.dst in Resolve(d, r).targets
    && Capped(e.confidence, Resolve(d, r).confidence, r.confidence)
  }

  lemma RefEdgeIff(d: set<Node>, r: Ref, e: Edge)
    requires r.src.Declared?
    ensures e in RefEdges(d, r) <==> Records(d, r, e)
  {
    if Records(d, r, e) {
      assert e == EdgeTo(r, e.dst, Resolve(d, r).confidence);
    }
  }

  /** A sure reference with one candidate: an edge at 1.0 within a file, at 0.8 across files. */
  lemma UniqueMatchEdge(u: Units, r: Ref, n: Node)
    requires WellFormed(u) && r in RefsOf(u) && r.confidence == 1.0 && Choices(Decls(u), r) == {n}
    ensures n.file == r.src.file ==> Edge(r.src, n.id, r.kind, 1.0, r.attrs, r.line) in Full(u).edges
    ensures n.file != r.src.file ==> Edge(r.src, n.id, r.kind, 0.8, r.attrs, r.line) in Full(u).edges
    ensures forall e :: e in RefEdges(Decls(u), r) ==> e.dst == n.id
  {
    RefsAreDeclared(u);
    OneCandidate(Decls(u), r, n);
    var e := Edge(r.src, n.id, r.kind, if n.file == r.src.file then 1.0 else 0.8, r.attrs, r.line);
    assert Records(Decls(u), r, e);
    FullEdgeIff(u, e);
  }

  lemma OwnEdgeIff(u: Units, e: Edge)
    ensures e in LocalEdges(u) <==>
      exists p, i: nat :: p in u && i < |u[p].edges| && u[p].edges[i] == e && IsFirstEdge(u[p], i)
  {
    if p, i: nat :| p in u && i < |u[p].edges| && u[p].edges[i] == e && IsFirstEdge(u[p], i) {
      assert FirstEdge(u[p], i) && e in UnitEdges(u[p]);
    }
    if e in LocalEdges(u) {
      var p :| p in u && e in UnitEdges(u[p]);
      var i: nat :| i < |u[p].edges| && FirstEdge(u[p], i) && u[p].edges[i] == e;
      assert IsFirstEdge(u[p], i);
    }
  }

  /** Every edge of the full link: a unit's own edge, the first of its source, target and kind; or what
      some reference of some unit records. */
  lemma FullEdgeIff(u: Units, e: Edge)
    requires WellFormed(u)
    ensures e in Full(u).edges <==>
      || (exists p, i: nat :: p in u && i < |u[p].edges| && u[p].edges[i] == e && IsFirstEdge(u[p], i))
      || (exists p, r :: p in u && r in u[p].refs && r.src.Declared? && Records(Decls(u), r, e))
  {
    RefsAreDeclared(u);
    OwnEdgeIff(u, e);
    if p, r :| p in u && r in u[p].refs && r.src.Declared? && Records(Decls(u), r, e) {
      RefEdgeIff(Decls(u), r, e);
      assert r in RefsOf(u) && e in EdgesOf(Decls(u), RefsOf(u));
    }
    if e in Full(u).edges && e !in LocalEdges(u) {
      var r :| r in RefsOf(u) && e in RefEdges(Decls(u), r);
      RefEdgeIff(Decls(u), r, e);
    }
  }

  predicate IsFirstEdge(ir: IR, i: nat)
    requires i < |ir.edges|
  {
    forall j :: 0 <= j < i ==>
      ir.edges[j].src != ir.edges[i].src || ir.edges[j].dst != ir.edges[i].dst || ir.edges[j].kind != ir.edges[i].kind
  }

  /** A declaration: some unit's node, the first of its id. */
  lemma DeclIff(u: Units, n: Node)
    ensures n in Decls(u) <==>
      exists p, i: nat :: p in u && i < |u[p].nodes| && u[p].nodes[i] == n && IsFirstNode(u[p], i)
  {
    if p, i: nat :| p in u && i < |u[p].nodes| && u[p].nodes[i] == n && IsFirstNode(u[p], i) {
      assert FirstNode(u[p], i) && n in UnitNodes(u[p]);
    }
    if n in Decls(u) {
      var p :| p in u && n in UnitNodes(u[p]);
      var i: nat :| i < |u[p].nodes| && FirstNode(u[p], i) && u[p].nodes[i] == n;
      assert IsFirstNode(u[p], i);
    }
  }

  lemma StubIff(d: set<Node>, r: Ref, n: Node)
    requires IsPass2(r.kind) && r.src.Declared?
    ensures Unresolved(d, r) && n == StubNode(StubOf(r)) <==> Stubs(d, r, n)
  {
    SameSets(d, r);
  }

  /** Every node of the full link: a declaration, or the stub of a reference without candidate or entity. */
  lemma FullNodeIff(u: Units, n: Node)
    requires WellFormed(u)
    ensures n in Full(u).nodes <==> n in Decls(u) || exists p, r :: p in u && r in u[p].refs && Stubs(Decls(u), r, n)
  {
    RefsAreDeclared(u);
    forall r | r in RefsOf(u) ensures Unresolved(Decls(u), r) && n == StubNode(StubOf(r)) <==> Stubs(Decls(u), r, n) {
      StubIff(Decls(u), r, n);
    }
    StubsIff(Decls(u), RefsOf(u), n);
  }

  lemma StubsIff(d: set<Node>, rs: set<Ref>, n: Node)
    ensures n in StubsOf(d, rs) <==> exists r :: r in rs && Unresolved(d, r) && n == StubNode(StubOf(r))
  {
  }

  predicate IsFirstNode(ir: IR, i: nat)
    requires i < |ir.nodes|
  {
    forall j :: 0 <= j < i ==> ir.nodes[j].id != ir.nodes[i].id
  }

  /** The stub node of a reference to nothing: unresolved, in no file, of the kind it asks for. */
  ghost predicate Stubs(d: set<Node>, r: Ref, n: Node) {
    && Choices(d, r) == {} && Entities(d, r) == {} && n.id == StubId(n.kind, r.target)
    && n == Node(n.id, n.kind, r.target, r.target, "", true, false, map[])
    && ((r.kind.Instantiates? && n.kind.Module?) || (r.kind.Imports? && n.kind.Package?)
        || (r.kind.Extends? && n.kind.Class?))
  }
}
