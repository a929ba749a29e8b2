/** What a full pass-2 link produces, as sets over the units: the order-free
    reading of `link_graph` (src/hdl_kgraph/graph/builder.py). */
module LinkSpec {
  import opened Schema

  type Units = map<string, IR>

  datatype Graph = Graph(nodes: set<Node>, edges: set<Edge>)

  /** Target ids and the confidence of a resolution. */
  datatype Resolution = Resolution(targets: set<NodeId>, confidence: real)

  type DefKey = (NodeKind, string)

  // -- well-formed inputs ------------------------------------------------------

  predicate OwnsId(ir: IR, id: NodeId) {
    exists i :: 0 <= i < |ir.nodes| && ir.nodes[i].id == id
  }

  /** One owning unit per node, closed local edges, references from own nodes,
      and VHDL units that contribute definitions only. */
  predicate WellFormedUnit(ir: IR) {
    && ir.path != ""
    && (forall i :: 0 <= i < |ir.nodes| ==>
          && ir.nodes[i].id.Declared?
          && ir.nodes[i].id.file == ir.path
          && ir.nodes[i].file == ir.path
          && !ir.nodes[i].unresolved
          && (ir.nodes[i].kind.Entity? ==> ir.vhdl))
    && (forall i :: 0 <= i < |ir.edges| ==>
          && !IsPass2(ir.edges[i].kind)
          && OwnsId(ir, ir.edges[i].src)
          && OwnsId(ir, ir.edges[i].dst))
    && (forall i :: 0 <= i < |ir.refs| ==> IsPass2(ir.refs[i].kind) && OwnsId(ir, ir.refs[i].src))
    && (ir.vhdl ==> ir.refs == [])
  }

  ghost predicate WellFormed(u: Units) {
    forall p :: p in u ==> u[p].path == p && WellFormedUnit(u[p])
  }

  ghost predicate HasVhdl(u: Units) {
    exists p :: p in u && u[p].vhdl
  }

  // -- what each unit contributes ------------------------------------------------

  /** The first node of each id: later duplicates inside a unit are dropped. */
  predicate FirstNode(ir: IR, i: nat) {
    i < |ir.nodes| && forall j :: 0 <= j < i ==> ir.nodes[j].id != ir.nodes[i].id
  }

  predicate SameKey(a: Edge, b: Edge) {
    a.src == b.src && a.dst == b.dst && a.kind == b.kind
  }

  /** The first local edge of each (src, dst, kind). */
  predicate FirstEdge(ir: IR, i: nat) {
    i < |ir.edges| && forall j :: 0 <= j < i ==> !SameKey(ir.edges[j], ir.edges[i])
  }

  ghost function UnitNodes(ir: IR): set<Node> {
    set i: nat | i < |ir.nodes| && FirstNode(ir, i) :: ir.nodes[i]
  }

  ghost function UnitEdges(ir: IR): set<Edge> {
    set i: nat | i < |ir.edges| && FirstEdge(ir, i) :: ir.edges[i]
  }

  ghost function Decls(u: Units): set<Node> {
    set p, n | p in u && n in UnitNodes(u[p]) :: n
  }

  ghost function LocalEdges(u: Units): set<Edge> {
    set p, e | p in u && e in UnitEdges(u[p]) :: e
  }

  ghost function RefsOf(u: Units): set<Ref> {
    set p, r | p in u && r in u[p].refs :: r
  }

  // -- resolution -------------------------------------------------------------------

  /** Kinds an SV reference may resolve to by exact name. */
  function SameKinds(k: EdgeKind): seq<NodeKind> {
    match k
    case Instantiates => [Module, Interface, Program, Primitive]
    case Imports => [Package]
    case Extends => [Class]
    case _ => []
  }

  /** Kinds of the case-insensitive cross-language fallback. */
  function CrossKinds(k: EdgeKind): seq<NodeKind> {
    if k.Instantiates? then [Entity] else []
  }

  function StubKind(k: EdgeKind): NodeKind {
    match k
    case Imports => Package
    case Extends => Class
    case _ => Module
  }

  predicate IsDefinitionKind(k: NodeKind) {
    k in [Module, Interface, Program, Primitive, Entity, Package, VhdlPackage, Class, Function, Task]
  }

  function PackageOf(r: Ref): string {
    if r.kind.Extends? && "package" in r.attrs then r.attrs["package"] else ""
  }

  predicate InPackage(n: Node, package: string) {
    package + "." <= n.qualifiedName
  }

  ghost function Named(d: set<Node>, r: Ref): set<Node> {
    set n | n in d && n.kind in SameKinds(r.kind) && n.name == r.target
  }

  /** Exact-name candidates, narrowed to the named package when that leaves any. */
  ghost function Candidates(d: set<Node>, r: Ref): set<Node> {
    var scoped := set n | n in Named(d, r) && InPackage(n, PackageOf(r));
    if PackageOf(r) != "" && scoped != {} then scoped else Named(d, r)
  }

  ghost function CrossCandidates(d: set<Node>, r: Ref): set<Node> {
    set n | n in d && n.kind in CrossKinds(r.kind) && Lower(n.name) == Lower(r.target)
  }

  ghost function Ids(c: set<Node>): set<NodeId> {
    set n | n in c :: n.id
  }

  function FileConfidence(sameFile: bool): real {
    if sameFile then CONFIDENCE_RESOLVED else CONFIDENCE_UNIQUE_MATCH
  }

  ghost function InFile(c: set<Node>, file: string): set<Node> {
    set n | n in c && n.file == file
  }

  ghost function Unconditional(c: set<Node>): set<Node> {
    set n | n in c && !n.conditional
  }

  /** The same-language confidence rules. */
  ghost function Score(c: set<Node>, file: string): Resolution {
    var local := InFile(c, file);
    var selected := Unconditional(if local != {} then local else c);
    if |c| == 1 then Resolution(Ids(c), FileConfidence(local == c))
    else if |local| == 1 then Resolution(Ids(local), CONFIDENCE_RESOLVED)
    else if |selected| == 1 then Resolution(Ids(selected), FileConfidence(InFile(selected, file) == selected))
    else Resolution(Ids(c), CONFIDENCE_AMBIGUOUS)
  }

  ghost predicate Unresolved(d: set<Node>, r: Ref) {
    Candidates(d, r) == {} && CrossCandidates(d, r) == {}
  }

  function StubOf(r: Ref): NodeId {
    StubId(StubKind(r.kind), r.target)
  }

  function StubNode(id: NodeId): Node
    requires id.StubId?
  {
    Node(id, id.kind, id.name, id.name, "", true, false, map[])
  }

  ghost function Resolve(d: set<Node>, r: Ref): Resolution
    requires r.src.Declared?
  {
    var cross := CrossCandidates(d, r);
    if Candidates(d, r) != {} then Score(Candidates(d, r), r.src.file)
    else if cross != {} then
      Resolution(Ids(cross), if |cross| == 1 then CONFIDENCE_UNIQUE_MATCH else CONFIDENCE_AMBIGUOUS)
    else Resolution({StubOf(r)}, CONFIDENCE_RESOLVED)
  }

  function EdgeTo(r: Ref, dst: NodeId, confidence: real): Edge {
    Edge(r.src, dst, r.kind, Min(confidence, r.confidence), r.attrs, r.line)
  }

  ghost function RefEdges(d: set<Node>, r: Ref): set<Edge>
    requires r.src.Declared?
  {
    set t | t in Resolve(d, r).targets :: EdgeTo(r, t, Resolve(d, r).confidence)
  }

  ghost predicate AllDeclared(rs: set<Ref>) {
    forall r :: r in rs ==> r.src.Declared?
  }

  ghost function EdgesOf(d: set<Node>, rs: set<Ref>): set<Edge>
    requires AllDeclared(rs)
  {
    set r, e | r in rs && e in RefEdges(d, r) :: e
  }

  ghost function StubsOf(d: set<Node>, rs: set<Ref>): set<Node> {
    set r | r in rs && Unresolved(d, r) :: StubNode(StubOf(r))
  }

  // -- the full link ------------------------------------------------------------------

  lemma RefsAreDeclared(u: Units)
    requires WellFormed(u)
    ensures AllDeclared(RefsOf(u))
    ensures forall r :: r in RefsOf(u) ==> IsPass2(r.kind) && r.src.file in u && r in u[r.src.file].refs
  {
  }

  /** The graph a full build produces from the units `u`. */
  ghost function Full(u: Units): Graph
    requires WellFormed(u)
  {
    RefsAreDeclared(u);
    Graph(Decls(u) + StubsOf(Decls(u), RefsOf(u)), LocalEdges(u) + EdgesOf(Decls(u), RefsOf(u)))
  }
}
