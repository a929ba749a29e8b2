/** The impact radius (`impact_radius`, `_impact_dependents` and `_enclosing_unit` in
    src/hdl_kgraph/graph/analysis.py). */
module Impact {
  import opened Order
  import opened Schema

  type Id = string

  datatype Kind =
    | FileKind | ModuleKind | InterfaceKind | ProgramKind | PrimitiveKind | PackageKind
    | CheckerKind | ClassKind | EntityKind | ArchitectureKind | VhdlPackageKind
    | PackageBodyKind | ConfigurationKind | Other(tag: string)

  datatype Link =
    | IncludesLink | DefinesMacroLink | UsesMacroLink | DeclaresLink | InstantiatesLink
    | ImportsLink | UsesPackageLink | BindsLink | ExtendsLink | ImplementsLink | OtherLink(tag: string)

  datatype Arc = Arc(src: Id, dst: Id, kind: Link)
  datatype Data = Data(kind: Kind, name: string, file: string, line: nat)
  datatype Design = Design(nodes: map<Id, Data>, arcs: seq<Arc>)

  datatype Dependent = Dependent(node: Option<Id>, via: Link)
  datatype ImpactRecord = ImpactRecord(node: Id, data: Data, depth: nat, via: Link)

  predicate WellFormed(g: Design) {
    forall a :: a in g.arcs ==> a.src in g.nodes && a.dst in g.nodes
  }

  predicate IsUnit(k: Kind) {
    !k.FileKind? && !k.Other?
  }

  // ------------------------------------------------------- the enclosing unit

  /** The first scope recorded as declaring `n`. */
  function Parent(arcs: seq<Arc>, n: Id): Option<Id> {
    if arcs == [] then None
    else if arcs[0].dst == n && arcs[0].kind == DeclaresLink then Some(arcs[0].src)
    else Parent(arcs[1..], n)
  }

  /** `k` steps up the chain of declaring scopes. */
  function Climb(g: Design, n: Id, k: nat): Option<Id> {
    if k == 0 then Some(n)
    else
      match Climb(g, n, k - 1)
      case None => None
      case Some(p) => Parent(g.arcs, p)
  }

  predicate UnitAt(g: Design, n: Id, k: nat) {
    Climb(g, n, k).Some? && Climb(g, n, k).value in g.nodes && IsUnit(g.nodes[Climb(g, n, k).value].kind)
  }

  /** `u` is the first unit met on the way up from `n`. */
  ghost predicate Encloses(g: Design, n: Id, u: Id) {
    exists k: nat :: FirstUnit(g, n, u, k)
  }

  ghost predicate FirstUnit(g: Design, n: Id, u: Id, k: nat) {
    Climb(g, n, k) == Some(u) && UnitAt(g, n, k) && forall j: nat :: j < k ==> !UnitAt(g, n, j)
  }

  lemma EnclosingIsUnique(g: Design, n: Id, u: Id, v: Id)
    requires Encloses(g, n, u) && Encloses(g, n, v)
    ensures u == v
  {
    var j: nat :| FirstUnit(g, n, u, j);
    var k: nat :| FirstUnit(g, n, v, k);
    assert UnitAt(g, n, j) && UnitAt(g, n, k);
  }

  lemma {:induction false} ParentIsNode(g: Design, arcs: seq<Arc>, n: Id)
    requires WellFormed(g) && forall a :: a in arcs ==> a in g.arcs
    ensures Parent(arcs, n).Some? ==> Parent(arcs, n).value in g.nodes
  {
    if arcs != [] {
      assert arcs[0] in arcs;
      ParentIsNode(g, arcs[1..], n);
    }
  }

  method FindParent(g: Design, n: Id) returns (p: Option<Id>)
    ensures p == Parent(g.arcs, n)
  {
    for x := 0 to |g.arcs|
      invariant Parent(g.arcs[x..], n) == Parent(g.arcs, n)
    {
      assert g.arcs[x..][1..] == g.arcs[x + 1..];
      if g.arcs[x].dst == n && g.arcs[x].kind == DeclaresLink {
        return Some(g.arcs[x].src);
      }
    }
    return None;
  }

  /** Every scope above `n` is in a unit-free set closed under `Parent`. */
  lemma {:induction false} Trapped(g: Design, n: Id, seen: set<Id>, k: nat)
    requires n in seen && forall m :: m in seen ==> Parent(g.arcs, m) == None || Parent(g.arcs, m).value in seen
    requires forall m :: m in seen && m in g.nodes ==> !IsUnit(g.nodes[m].kind)
    ensures Climb(g, n, k) == None || Climb(g, n, k).value in seen
    ensures !UnitAt(g, n, k)
  {
    if k > 0 {
      Trapped(g, n, seen, k - 1);
    }
  }

  /** The climb stops at the first unit, at the top, or when it comes back to a scope
    * it has passed; the last two mean that no unit encloses the node. */
  method EnclosingUnit(g: Design, n: Id) returns (u: Option<Id>)
    requires WellFormed(g) && n in g.nodes
    ensures forall v :: u == Some(v) <==> Encloses(g, n, v)
  {
    var seen: set<Id> := {};
    var current := Some(n);
    ghost var k := 0;
    while current.Some? && current.value !in seen
      invariant current == Climb(g, n, k)
      invariant current.Some? ==> current.value in g.nodes
      invariant seen <= g.nodes.Keys && (k > 0 ==> n in seen) && (k == 0 ==> current == Some(n) && seen == {})
      invariant forall j: nat :: j < k ==> !UnitAt(g, n, j)
      invariant forall m :: m in seen ==> !IsUnit(g.nodes[m].kind)
      invariant forall m :: m in seen ==> Parent(g.arcs, m) in {None, current} || Parent(g.arcs, m).value in seen
      decreases |g.nodes.Keys - seen|
    {
      var at := current.value;
      seen := seen + {at};
      if IsUnit(g.nodes[at].kind) {
        assert FirstUnit(g, n, at, k);
        forall v | Encloses(g, n, v) ensures v == at {
          EnclosingIsUnique(g, n, at, v);
        }
        return Some(at);
      }
      ParentIsNode(g, g.arcs, at);
      current := FindParent(g, at);
      k := k + 1;
    }
    forall j: nat ensures !UnitAt(g, n, j) {
      Trapped(g, n, seen, j);
    }
    return None;
  }

  // ------------------------------------------------------------- one BFS step

  predicate ThroughScope(via: Link) {
    via == InstantiatesLink || via == ImportsLink || via == UsesPackageLink || via == BindsLink
  }

  predicate DirectLink(via: Link) {
    via == ExtendsLink || via == ImplementsLink
  }

  /** The arc `a` into `n` makes `d` depend on `n`. */
  ghost predicate FromIn(g: Design, n: Id, a: Arc, d: Id, via: Link) {
    n in g.nodes && a.dst == n && via == a.kind &&
    if g.nodes[n].kind == FileKind then a.kind == IncludesLink && d == a.src
    else (ThroughScope(a.kind) && Encloses(g, a.src, d)) || (DirectLink(a.kind) && d == a.src)
  }

  /** The arc `a` out of `n` makes `d` depend on `n`. */
  ghost predicate FromOut(g: Design, n: Id, a: Arc, d: Id, via: Link) {
    n in g.nodes && a.src == n &&
    if g.nodes[n].kind == FileKind then
      || (a.kind == DefinesMacroLink && via == UsesMacroLink && Arc(d, a.dst, via) in g.arcs)
      || (a.kind == DeclaresLink && via == a.kind && d == a.dst && d in g.nodes && IsUnit(g.nodes[d].kind))
    else g.nodes[n].kind == ArchitectureKind && a.kind == ImplementsLink && via == a.kind && d == a.dst
  }

  ghost predicate InUpTo(g: Design, n: Id, arcs: seq<Arc>, d: Id, via: Link) {
    exists a :: a in arcs && FromIn(g, n, a, d, via)
  }

  ghost predicate OutUpTo(g: Design, n: Id, arcs: seq<Arc>, d: Id, via: Link) {
    exists a :: a in arcs && FromOut(g, n, a, d, via)
  }

  /** A change to `n` affects `d`, through a link of kind `via`. */
  ghost predicate Affects(g: Design, n: Id, d: Id, via: Link) {
    InUpTo(g, n, g.arcs, d, via) || OutUpTo(g, n, g.arcs, d, via)
  }

  lemma AffectedIsNode(g: Design, n: Id, d: Id, via: Link)
    requires WellFormed(g) && Affects(g, n, d, via)
    ensures d in g.nodes
  {
    if InUpTo(g, n, g.arcs, d, via) {
      var a :| a in g.arcs && FromIn(g, n, a, d, via);
      if ThroughScope(a.kind) && Encloses(g, a.src, d) {
        var k: nat :| FirstUnit(g, a.src, d, k);
        assert UnitAt(g, a.src, k);
      }
    }
  }

  method MacroUsers(g: Design, macro: Id) returns (deps: seq<Dependent>)
    ensures forall d :: d in deps <==>
      d.via == UsesMacroLink && d.node.Some? && Arc(d.node.value, macro, UsesMacroLink) in g.arcs
  {
    deps := [];
    for x := 0 to |g.arcs|
      invariant forall d :: d in deps <==>
        d.via == UsesMacroLink && d.node.Some? && Arc(d.node.value, macro, UsesMacroLink) in g.arcs[..x]
    {
      var a := g.arcs[x];
      assert g.arcs[..x + 1] == g.arcs[..x] + [a];
      if a.dst == macro && a.kind == UsesMacroLink {
        deps := deps + [Dependent(Some(a.src), UsesMacroLink)];
      }
    }
    assert g.arcs[..|g.arcs|] == g.arcs;
  }

  /** The dependents that one incoming arc accounts for. */
  method OfIncoming(g: Design, n: Id, a: Arc) returns (deps: seq<Dependent>)
    requires WellFormed(g) && n in g.nodes && a in g.arcs
    ensures forall d, via :: Dependent(Some(d), via) in deps <==> FromIn(g, n, a, d, via)
  {
    deps := [];
    if a.dst == n {
      if g.nodes[n].kind == FileKind {
        if a.kind == IncludesLink {
          deps := [Dependent(Some(a.src), a.kind)];
        }
      } else if ThroughScope(a.kind) {
        var unit := EnclosingUnit(g, a.src);
        deps := [Dependent(unit, a.kind)];
      } else if DirectLink(a.kind) {
        deps := [Dependent(Some(a.src), a.kind)];
      }
    }
  }

  method OfOutgoing(g: Design, n: Id, a: Arc) returns (deps: seq<Dependent>)
    requires WellFormed(g) && n in g.nodes && a in g.arcs
    ensures forall d, via :: Dependent(Some(d), via) in deps <==> FromOut(g, n, a, d, via)
  {
    deps := [];
    if a.src == n {
      if g.nodes[n].kind == FileKind {
        if a.kind == DefinesMacroLink {
          deps := MacroUsers(g, a.dst);
        } else if a.kind == DeclaresLink && IsUnit(g.nodes[a.dst].kind) {
          deps := [Dependent(Some(a.dst), a.kind)];
        }
      } else if g.nodes[n].kind == ArchitectureKind && a.kind == ImplementsLink {
        deps := [Dependent(Some(a.dst), a.kind)];
      }
    }
  }

  /** One step of the search: exactly what a change to `n` affects. */
  method ImpactDependents(g: Design, n: Id) returns (deps: seq<Dependent>)
    requires WellFormed(g) && n in g.nodes
    ensures forall d, via :: Dependent(Some(d), via) in deps <==> Affects(g, n, d, via)
  {
    deps := [];
    for x := 0 to |g.arcs|
      invariant forall d, via :: Dependent(Some(d), via) in deps <==> InUpTo(g, n, g.arcs[..x], d, via)
    {
      var more := OfIncoming(g, n, g.arcs[x]);
      assert g.arcs[..x + 1] == g.arcs[..x] + [g.arcs[x]];
      deps := deps + more;
    }
    assert g.arcs[..|g.arcs|] == g.arcs;
    for x := 0 to |g.arcs|
      invariant forall d, via :: Dependent(Some(d), via) in deps <==>
        InUpTo(g, n, g.arcs, d, via) || OutUpTo(g, n, g.arcs[..x], d, via)
    {
      var more := OfOutgoing(g, n, g.arcs[x]);
      assert g.arcs[..x + 1] == g.arcs[..x] + [g.arcs[x]];
      deps := deps + more;
    }
  }

  // ---------------------------------------------------------------- distances

  ghost predicate Linked(g: Design, n: Id, d: Id) {
    exists via :: Affects(g, n, d, via)
  }

  /** `n` is `k` dependence steps away from a seed. */
  ghost predicate Reach(g: Design, seeds: set<Id>, n: Id, k: nat)
    decreases k
  {
    if k == 0 then n in seeds else exists m :: Reach(g, seeds, m, k - 1) && Linked(g, m, n)
  }

  /** `k` is the distance of `n` from the seeds. */
  ghost predicate Distance(g: Design, seeds: set<Id>, n: Id, k: nat) {
    Reach(g, seeds, n, k) && forall j: nat :: j < k ==> !Reach(g, seeds, n, j)
  }

  lemma {:induction false} ShortestExists(g: Design, seeds: set<Id>, n: Id, k: nat) returns (d: nat)
    requires Reach(g, seeds, n, k)
    ensures d <= k && Distance(g, seeds, n, d)
  {
    if j: nat :| j < k && Reach(g, seeds, n, j) {
      d := ShortestExists(g, seeds, n, j);
    } else {
      d := k;
    }
  }

  lemma DistanceIsUnique(g: Design, seeds: set<Id>, n: Id, j: nat, k: nat)
    requires Distance(g, seeds, n, j) && Distance(g, seeds, n, k)
    ensures j == k
  {
  }

  /** A node one step further has a predecessor at the distance before. */
  lemma Predecessor(g: Design, seeds: set<Id>, n: Id, k: nat) returns (m: Id)
    requires k > 0 && Distance(g, seeds, n, k)
    ensures Distance(g, seeds, m, k - 1) && Linked(g, m, n)
  {
    m :| Reach(g, seeds, m, k - 1) && Linked(g, m, n);
    forall j: nat | j < k - 1 ensures !Reach(g, seeds, m, j) {
      assert !Reach(g, seeds, n, j + 1);
    }
  }

  /** Beyond an empty layer there is nothing. */
  lemma {:induction false} NothingBeyond(g: Design, seeds: set<Id>, n: Id, k: nat, d: nat)
    requires forall m :: !Distance(g, seeds, m, k)
    requires k <= d
    ensures !Distance(g, seeds, n, d)
    decreases d
  {
    if k < d && Distance(g, seeds, n, d) {
      var m := Predecessor(g, seeds, n, d);
      NothingBeyond(g, seeds, m, k, d - 1);
    }
  }

  // --------------------------------------------------------------- the search

  ghost predicate Within(g: Design, seeds: set<Id>, n: Id, k: nat) {
    exists j: nat :: j <= k && Distance(g, seeds, n, j)
  }

  lemma WithinIsReach(g: Design, seeds: set<Id>, n: Id, j: nat, k: nat)
    requires Reach(g, seeds, n, j) && j <= k
    ensures Within(g, seeds, n, k)
  {
    var d := ShortestExists(g, seeds, n, j);
  }

  lemma WithinNext(g: Design, seeds: set<Id>, n: Id, k: nat)
    ensures Within(g, seeds, n, k + 1) <==> Within(g, seeds, n, k) || Distance(g, seeds, n, k + 1)
  {
  }

  /** A dependent of a node at distance `k` that is not within `k` is at `k + 1`. */
  lemma OneFurther(g: Design, seeds: set<Id>, m: Id, n: Id, k: nat)
    requires Distance(g, seeds, m, k) && Linked(g, m, n)
    ensures Within(g, seeds, n, k) || Distance(g, seeds, n, k + 1)
  {
    assert Reach(g, seeds, n, k + 1);
    forall j: nat | j < k + 1 && Reach(g, seeds, n, j) ensures Within(g, seeds, n, k) {
      WithinIsReach(g, seeds, n, j, k);
    }
  }

  /** A record tells the node's distance, and a dependence that pulled it in. */
  ghost predicate Truthful(g: Design, seeds: set<Id>, r: ImpactRecord) {
    && r.node in g.nodes && r.data == g.nodes[r.node]
    && r.depth > 0 && Distance(g, seeds, r.node, r.depth)
    && exists m :: Distance(g, seeds, m, r.depth - 1) && Affects(g, m, r.node, r.via)
  }

  ghost predicate Reported(records: seq<ImpactRecord>, n: Id) {
    exists r :: r in records && r.node == n
  }

  ghost predicate OncePerNode(records: seq<ImpactRecord>) {
    forall x, y :: 0 <= x < y < |records| ==> records[x].node != records[y].node
  }

  ghost predicate AllTruthful(g: Design, seeds: set<Id>, records: seq<ImpactRecord>) {
    forall r :: r in records ==> Truthful(g, seeds, r)
  }

  function Members(s: seq<Id>): set<Id> {
    set n | n in s
  }

  /** The search's promise: each affected node that is no seed is reported once, with
    * its distance, exactly when that is within `maxDepth` (any, if not positive). */
  ghost predicate IsImpact(g: Design, seeds: set<Id>, maxDepth: int, records: seq<ImpactRecord>) {
    && OncePerNode(records) && AllTruthful(g, seeds, records)
    && (forall r :: r in records ==> r.node !in seeds)
    && forall n, d: nat :: Distance(g, seeds, n, d) && d > 0 ==>
         (Reported(records, n) <==> maxDepth <= 0 || d <= maxDepth)
  }

  ghost predicate InGraph(g: Design, visited: set<Id>) {
    forall n {:trigger n in visited} :: n in visited ==> n in g.nodes
  }

  /** Between two layers: all nodes within `k` are visited, those beyond the seeds are
    * recorded, and the frontier is the layer at distance `k`. */
  ghost predicate Layered(g: Design, seeds: set<Id>, visited: set<Id>, frontier: seq<Id>,
                          records: seq<ImpactRecord>, k: nat) {
    && InGraph(g, visited)
    && (forall n {:trigger n in visited} :: n in visited <==> Within(g, seeds, n, k))
    && (forall n {:trigger n in frontier} :: n in frontier <==> Distance(g, seeds, n, k))
    && AllTruthful(g, seeds, records) && OncePerNode(records)
    && (forall n {:trigger n in visited} :: n in visited <==> n in seeds || Reported(records, n))
  }

  /** Inside a layer: `next` holds what has been found at distance `k + 1`. */
  ghost predicate Expanding(g: Design, seeds: set<Id>, visited: set<Id>, next: seq<Id>,
                            records: seq<ImpactRecord>, k: nat) {
    && InGraph(g, visited)
    && (forall n {:trigger n in visited} :: n in visited <==> Within(g, seeds, n, k) || n in next)
    && (forall n :: n in next ==> Distance(g, seeds, n, k + 1))
    && AllTruthful(g, seeds, records) && OncePerNode(records)
    && (forall n {:trigger n in visited} :: n in visited <==> n in seeds || Reported(records, n))
  }

  lemma Recorded(records: seq<ImpactRecord>, r: ImpactRecord)
    requires OncePerNode(records) && !Reported(records, r.node)
    ensures OncePerNode(records + [r])
    ensures forall n :: Reported(records + [r], n) <==> Reported(records, n) || n == r.node
  {
    forall x | 0 <= x < |records| ensures records[x].node != r.node {
      assert records[x] in records;
    }
    assert (records + [r])[|records|] == r;
    forall n | Reported(records, n) ensures Reported(records + [r], n) {
      var q :| q in records && q.node == n;
      assert q in records + [r];
    }
  }

  /** A newly met dependent. */
  lemma Found(g: Design, seeds: set<Id>, visited: set<Id>, next: seq<Id>, records: seq<ImpactRecord>,
              k: nat, m: Id, n: Id, via: Link, r: ImpactRecord)
    requires WellFormed(g) && Expanding(g, seeds, visited, next, records, k) && n !in visited
    requires Distance(g, seeds, m, k) && Affects(g, m, n, via) && n in g.nodes
    requires r == ImpactRecord(n, g.nodes[n], k + 1, via)
    ensures Expanding(g, seeds, visited + {n}, next + [n], records + [r], k)
  {
    assert Linked(g, m, n);
    OneFurther(g, seeds, m, n, k);
    Recorded(records, r);
    assert Truthful(g, seeds, r);
  }

  /** Once the dependents of the whole layer are visited, the next layer is complete. */
  lemma LayerDone(g: Design, seeds: set<Id>, visited: set<Id>, frontier: seq<Id>, records: seq<ImpactRecord>, k: nat,
                  visited': set<Id>, next: seq<Id>, records': seq<ImpactRecord>)
    requires Layered(g, seeds, visited, frontier, records, k)
    requires Expanding(g, seeds, visited', next, records', k)
    requires visited <= visited' && forall y, n :: 0 <= y < |frontier| && Linked(g, frontier[y], n) ==> n in visited'
    ensures Layered(g, seeds, visited', next, records', k + 1)
    ensures next != [] ==> visited < visited'
  {
    if next != [] {
      assert next[0] in next && Distance(g, seeds, next[0], k + 1);
      assert !Within(g, seeds, next[0], k) && next[0] in visited' && next[0] !in visited;
    }
    forall n ensures n in next <==> Distance(g, seeds, n, k + 1) {
      if Distance(g, seeds, n, k + 1) {
        var m := Predecessor(g, seeds, n, k + 1);
        assert m in frontier;
        assert n in visited';
      }
    }
    forall n ensures n in visited' <==> Within(g, seeds, n, k + 1) {
      WithinNext(g, seeds, n, k);
    }
  }

  /** The nodes still to be visited. */
  ghost function Left(g: Design, visited: set<Id>): set<Id> {
    g.nodes.Keys - visited
  }

  lemma LeftShrinks(g: Design, before: set<Id>, after: set<Id>)
    requires before <= after && InGraph(g, after)
    ensures before == after || Left(g, after) < Left(g, before)
  {
    if before != after {
      var n :| n in after && n !in before;
      assert n in Left(g, before) && n !in Left(g, after);
    }
  }

  /** The first `y` dependents have been visited. */
  ghost predicate Met(deps: seq<Dependent>, y: nat, visited: set<Id>)
    requires y <= |deps|
  {
    forall z :: 0 <= z < y && deps[z].node.Some? ==> deps[z].node.value in visited
  }

  lemma MetNext(deps: seq<Dependent>, y: nat, before: set<Id>, after: set<Id>)
    requires y < |deps| && Met(deps, y, before) && before <= after
    requires deps[y].node.Some? ==> deps[y].node.value in after
    ensures Met(deps, y + 1, after)
  {
  }

  /** Visit what a change to `m`, at distance `k`, affects. */
  method VisitDependents(g: Design, ghost seeds: set<Id>, m: Id, visited: set<Id>, next: seq<Id>,
                         records: seq<ImpactRecord>, k: nat)
    returns (visited': set<Id>, next': seq<Id>, records': seq<ImpactRecord>)
    requires WellFormed(g) && m in g.nodes && Distance(g, seeds, m, k)
    requires Expanding(g, seeds, visited, next, records, k)
    ensures Expanding(g, seeds, visited', next', records', k)
    ensures visited <= visited' && forall n :: Linked(g, m, n) ==> n in visited'
  {
    visited', next', records' := visited, next, records;
    var deps := ImpactDependents(g, m);
    for y := 0 to |deps|
      invariant Expanding(g, seeds, visited', next', records', k)
      invariant visited <= visited' && Met(deps, y, visited')
    {
      var dep := deps[y];
      assert dep in deps;
      ghost var before := visited';
      if dep.node.Some? && dep.node.value !in visited' {
        var n := dep.node.value;
        assert dep == Dependent(Some(n), dep.via);
        AffectedIsNode(g, m, n, dep.via);
        var r := ImpactRecord(n, g.nodes[n], k + 1, dep.via);
        Found(g, seeds, visited', next', records', k, m, n, dep.via, r);
        visited', next', records' := visited' + {n}, next' + [n], records' + [r];
      }
      MetNext(deps, y, before, visited');
    }
    forall n | Linked(g, m, n) ensures n in visited' {
      var via :| Affects(g, m, n, via);
      assert Dependent(Some(n), via) in deps;
    }
  }

  /** The layer at distance `k + 1`, from the one at `k`. */
  method ExpandLayer(g: Design, ghost seeds: set<Id>, visited: set<Id>, frontier: seq<Id>,
                     records: seq<ImpactRecord>, k: nat)
    returns (visited': set<Id>, next: seq<Id>, records': seq<ImpactRecord>)
    requires WellFormed(g) && Layered(g, seeds, visited, frontier, records, k)
    ensures Layered(g, seeds, visited', next, records', k + 1)
    ensures (visited' == visited && next == []) || Left(g, visited') < Left(g, visited)
  {
    visited', next, records' := visited, [], records;
    for x := 0 to |frontier|
      invariant Expanding(g, seeds, visited', next, records', k)
      invariant visited <= visited' && forall y, n :: 0 <= y < x && Linked(g, frontier[y], n) ==> n in visited'
    {
      assert frontier[x] in frontier;
      WithinIsReach(g, seeds, frontier[x], k, k);
      assert frontier[x] in visited;
      visited', next, records' := VisitDependents(g, seeds, frontier[x], visited', next, records', k);
    }
    LayerDone(g, seeds, visited, frontier, records, k, visited', next, records');
    LeftShrinks(g, visited, visited');
  }

  lemma Start(g: Design, seedIds: seq<Id>)
    requires forall n :: n in seedIds ==> n in g.nodes
    ensures Layered(g, Members(seedIds), Members(seedIds), seedIds, [], 0)
  {
    var seeds := Members(seedIds);
    forall n ensures n in seeds <==> Distance(g, seeds, n, 0) {
    }
    forall n ensures n in seeds <==> Within(g, seeds, n, 0) {
    }
  }

  lemma Finish(g: Design, seeds: set<Id>, visited: set<Id>, frontier: seq<Id>,
               records: seq<ImpactRecord>, depth: nat, maxDepth: int)
    requires Layered(g, seeds, visited, frontier, records, depth)
    requires frontier == [] || (maxDepth > 0 && depth >= maxDepth)
    requires maxDepth > 0 ==> depth <= maxDepth
    ensures IsImpact(g, seeds, maxDepth, records)
  {
    forall r | r in records ensures r.node !in seeds {
      assert Truthful(g, seeds, r);
      assert !Reach(g, seeds, r.node, 0);
    }
    forall n, d: nat | Distance(g, seeds, n, d) && d > 0
      ensures Reported(records, n) <==> maxDepth <= 0 || d <= maxDepth
    {
      assert !Reach(g, seeds, n, 0);
      assert n in visited <==> Reported(records, n);
      if frontier == [] {
        if depth <= d {
          forall m ensures !Distance(g, seeds, m, depth) {
            assert m !in frontier;
          }
          NothingBeyond(g, seeds, n, depth, d);
        }
      } else if Within(g, seeds, n, depth) {
        var j: nat :| j <= depth && Distance(g, seeds, n, j);
        DistanceIsUnique(g, seeds, n, j, d);
      }
    }
  }

  /** Layer after layer, until one is empty or `maxDepth` is reached. */
  method Search(g: Design, ghost seeds: set<Id>, start: set<Id>, seedIds: seq<Id>, maxDepth: int)
    returns (ghost visited: set<Id>, frontier: seq<Id>, records: seq<ImpactRecord>, depth: nat)
    requires WellFormed(g) && Layered(g, seeds, start, seedIds, [], 0)
    ensures Layered(g, seeds, visited, frontier, records, depth)
    ensures frontier == [] || (maxDepth > 0 && depth >= maxDepth)
    ensures maxDepth > 0 ==> depth <= maxDepth
  {
    var reached := start;
    frontier, records, depth := seedIds, [], 0;
    while frontier != [] && (maxDepth <= 0 || depth < maxDepth)
      invariant maxDepth > 0 ==> depth <= maxDepth
      invariant Layered(g, seeds, reached, frontier, records, depth)
      decreases Left(g, reached), |frontier|
    {
      reached, frontier, records := ExpandLayer(g, seeds, reached, frontier, records, depth);
      depth := depth + 1;
    }
    visited := reached;
  }

  // --------------------------------------------------------------- the report's order

  /** The kind as the report spells it. */
  function KindText(k: Kind): string {
    match k
    case FileKind => "file"
    case ModuleKind => "module"
    case InterfaceKind => "interface"
    case ProgramKind => "program"
    case PrimitiveKind => "primitive"
    case PackageKind => "package"
    case CheckerKind => "checker"
    case ClassKind => "class"
    case EntityKind => "entity"
    case ArchitectureKind => "architecture"
    case VhdlPackageKind => "vhdl_package"
    case PackageBodyKind => "package_body"
    case ConfigurationKind => "configuration"
    case Other(tag) => tag
  }

  function SortKey(r: ImpactRecord): seq<string> {
    [KindText(r.data.kind), r.data.name, r.node]
  }

  /** Nearer first; within a distance by kind, name and id. */
  predicate Precedes(a: ImpactRecord, b: ImpactRecord) {
    a.depth < b.depth || (a.depth == b.depth && Before(SortKey(a), SortKey(b)))
  }

  ghost predicate InReportOrder(records: seq<ImpactRecord>) {
    forall x, y :: 0 <= x < y < |records| ==> Precedes(records[x], records[y])
  }

  lemma PrecedesTransitive(a: ImpactRecord, b: ImpactRecord, c: ImpactRecord)
    requires Precedes(a, b) && Precedes(b, c)
    ensures Precedes(a, c)
  {
    if a.depth == b.depth && b.depth == c.depth {
      BeforeTransitive(SortKey(a), SortKey(b), SortKey(c));
    }
  }

  lemma PrecedesTotal(a: ImpactRecord, b: ImpactRecord)
    ensures Precedes(a, b) || a.node == b.node || Precedes(b, a)
    ensures a.node == b.node && a.data == b.data && a.depth == b.depth ==> !Precedes(a, b)
  {
    BeforeTotal(SortKey(a), SortKey(b));
    if SortKey(a) == SortKey(b) {
      assert SortKey(a)[2] == SortKey(b)[2];
    }
  }

  /** Different records are about different nodes. */
  ghost predicate OnePerNode(records: set<ImpactRecord>) {
    forall a, b :: a in records && b in records && a.node == b.node ==> a == b
  }

  method First(records: set<ImpactRecord>) returns (first: ImpactRecord)
    requires records != {} && OnePerNode(records)
    ensures first in records && forall r :: r in records - {first} ==> Precedes(first, r)
  {
    first :| first in records;
    var rest := records - {first};
    while rest != {}
      invariant rest <= records && first in records && first !in rest
      invariant forall r :: r in records - {first} && r !in rest ==> Precedes(first, r)
      decreases rest
    {
      var r :| r in rest;
      PrecedesTotal(r, first);
      if Precedes(r, first) {
        forall q | q in records - {r} && q !in rest ensures Precedes(r, q) {
          if q != first { PrecedesTransitive(r, first, q); }
        }
        first := r;
      }
      rest := rest - {r};
    }
  }

  /** The final sort: the same records, in report order. */
  method SortRecords(records: seq<ImpactRecord>) returns (sorted: seq<ImpactRecord>)
    requires OncePerNode(records)
    ensures InReportOrder(sorted) && OncePerNode(sorted)
    ensures forall r :: r in sorted <==> r in records
  {
    var rest := set r | r in records;
    ghost var all := rest;
    assert OnePerNode(all);
    sorted := [];
    while rest != {}
      invariant rest <= all && InReportOrder(sorted)
      invariant forall r :: r in sorted <==> r in all && r !in rest
      invariant forall r, q :: r in sorted && q in rest ==> Precedes(r, q)
      decreases rest
    {
      var first := First(rest);
      sorted := sorted + [first];
      rest := rest - {first};
    }
    OrderedOncePerNode(sorted, all);
  }

  lemma OrderedOncePerNode(sorted: seq<ImpactRecord>, all: set<ImpactRecord>)
    requires InReportOrder(sorted) && OnePerNode(all) && forall r :: r in sorted ==> r in all
    ensures OncePerNode(sorted)
  {
    forall x, y | 0 <= x < y < |sorted| ensures sorted[x].node != sorted[y].node {
      assert sorted[x] in sorted && sorted[y] in sorted;
      PrecedesTotal(sorted[x], sorted[y]);
    }
  }

  /** The same records in another order are the same report. */
  lemma SortedIsImpact(g: Design, seeds: set<Id>, maxDepth: int, records: seq<ImpactRecord>,
                       sorted: seq<ImpactRecord>)
    requires IsImpact(g, seeds, maxDepth, records) && OncePerNode(sorted)
    requires forall r :: r in sorted <==> r in records
    ensures IsImpact(g, seeds, maxDepth, sorted)
  {
    forall n, d: nat | Distance(g, seeds, n, d) && d > 0
      ensures Reported(sorted, n) <==> maxDepth <= 0 || d <= maxDepth
    {
      assert Reported(sorted, n) <==> Reported(records, n);
    }
  }

  /** Everything transitively affected by a change to the seeds, each node once with
    * its distance, up to `maxDepth` (without bound when that is not positive), sorted. */
  method ImpactRadius(g: Design, seedIds: seq<Id>, maxDepth: int) returns (records: seq<ImpactRecord>)
    requires WellFormed(g) && forall n :: n in seedIds ==> n in g.nodes
    ensures IsImpact(g, Members(seedIds), maxDepth, records)
    ensures InReportOrder(records)
  {
    var seeds := Members(seedIds);
    Start(g, seedIds);
    var frontier, found, depth;
    ghost var visited;
    visited, frontier, found, depth := Search(g, seeds, seeds, seedIds, maxDepth);
    Finish(g, seeds, visited, frontier, found, depth, maxDepth);
    records := SortRecords(found);
    SortedIsImpact(g, seeds, maxDepth, found, records);
  }

  /** Records in report order are known from what they contain. */
  lemma {:induction false} OrderIsDetermined(a: seq<ImpactRecord>, b: seq<ImpactRecord>)
    requires InReportOrder(a) && InReportOrder(b) && forall r :: r in a <==> r in b
    ensures a == b
  {
    if b != [] {
      assert b[0] in a;
    }
    if a != [] {
      assert a[0] in b && b != [];
      HeadFirst(a, b[0]);
      HeadFirst(b, a[0]);
      if a[0] != b[0] {
        PrecedesTransitive(a[0], b[0], a[0]);
        PrecedesTotal(a[0], a[0]);
      }
      forall r ensures r in a[1..] <==> r in b[1..] {
        TailMember(a, r);
        TailMember(b, r);
      }
      OrderIsDetermined(a[1..], b[1..]);
      assert a == [a[0]] + a[1..] && b == [b[0]] + b[1..];
    }
  }

  lemma HeadFirst(a: seq<ImpactRecord>, r: ImpactRecord)
    requires a != [] && InReportOrder(a) && r in a
    ensures r == a[0] || Precedes(a[0], r)
  {
  }

  lemma TailMember(a: seq<ImpactRecord>, r: ImpactRecord)
    requires a != [] && InReportOrder(a)
    ensures r in a[1..] <==> r in a && r != a[0]
  {
    PrecedesTotal(a[0], a[0]);
    if r in a && r != a[0] {
      var x :| 0 <= x < |a| && a[x] == r;
      assert a[1..][x - 1] == r;
    }
  }

  /** A record without the edge kind it was first met over. */
  function Untagged(r: ImpactRecord): ImpactRecord {
    r.(via := OtherLink(""))
  }

  function AllUntagged(records: seq<ImpactRecord>): seq<ImpactRecord> {
    seq(|records|, x requires 0 <= x < |records| => Untagged(records[x]))
  }

  /** However the frontier, the edges or the seeds are listed, one search has one report:
    * the same nodes at the same distances, in the same order. */
  lemma ReportIsDetermined(g: Design, seeds: set<Id>, maxDepth: int, a: seq<ImpactRecord>, b: seq<ImpactRecord>)
    requires IsImpact(g, seeds, maxDepth, a) && IsImpact(g, seeds, maxDepth, b)
    requires InReportOrder(a) && InReportOrder(b)
    ensures AllUntagged(a) == AllUntagged(b)
  {
    var s, t := AllUntagged(a), AllUntagged(b);
    forall r | r in s ensures r in t {
      Shared(g, seeds, maxDepth, a, b, r);
    }
    forall r | r in t ensures r in s {
      Shared(g, seeds, maxDepth, b, a, r);
    }
    OrderIsDetermined(s, t);
  }

  lemma Shared(g: Design, seeds: set<Id>, maxDepth: int, a: seq<ImpactRecord>, b: seq<ImpactRecord>, r: ImpactRecord)
    requires IsImpact(g, seeds, maxDepth, a) && IsImpact(g, seeds, maxDepth, b) && r in AllUntagged(a)
    ensures r in AllUntagged(b)
  {
    var x :| 0 <= x < |a| && AllUntagged(a)[x] == r;
    assert a[x] in a && Truthful(g, seeds, a[x]);
    assert Reported(a, r.node) && Reported(b, r.node);
    var q :| q in b && q.node == r.node;
    assert Truthful(g, seeds, q);
    DistanceIsUnique(g, seeds, r.node, r.depth, q.depth);
    var y :| 0 <= y < |b| && b[y] == q;
    assert AllUntagged(b)[y] == r;
  }
}
