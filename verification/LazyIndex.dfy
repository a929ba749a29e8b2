/** The lazy indexes of the bounded-memory link (src/hdl_kgraph/graph/bounded_link.py)
    against the eager ones of `link_incremental` (src/hdl_kgraph/graph/builder.py). */
module LazyIndex {
  import opened Collections
  import opened Schema
  import Linking

  type Id = NodeId

  /** A node row. */
  type Row = Node

  datatype Arc = Arc(src: Id, dst: Id)

  /** The stored graph: node rows and DECLARES rows, in the order a query returns them. */
  datatype Store = Store(rows: seq<Row>, declares: seq<Arc>)

  /** A definition key; `folded` tells the case-insensitive index. */
  datatype DefKey = DefKey(folded: bool, kind: NodeKind, name: string)

  /** What a splice adds. */
  datatype Op = NodeOp(row: Row) | ArcOp(arc: Arc)

  predicate DistinctRows(rows: seq<Row>) {
    forall x, y :: 0 <= x < y < |rows| ==> rows[x].id != rows[y].id
  }

  predicate DistinctArcs(arcs: seq<Arc>) {
    forall x, y :: 0 <= x < y < |arcs| ==> arcs[x] != arcs[y]
  }

  predicate Stored(s: Store) {
    DistinctRows(s.rows) && DistinctArcs(s.declares)
  }

  // ------------------------------------------------------ the surviving store

  /** The rows of clean files, by id. */
  function CleanRows(rows: seq<Row>, dirty: set<string>): map<Id, Row> {
    if rows == [] then map[]
    else
      var n := |rows| - 1;
      var m := CleanRows(rows[..n], dirty);
      if rows[n].file in dirty then m else m[rows[n].id := rows[n]]
  }

  predicate Matches(r: Row, k: DefKey) {
    r.kind == k.kind && (if k.folded then Lower(r.name) else r.name) == k.name
  }

  /** The clean parsed rows of one key. */
  function Matching(rows: seq<Row>, dirty: set<string>, k: DefKey): seq<Id> {
    if rows == [] then []
    else
      var n := |rows| - 1;
      Matching(rows[..n], dirty, k) +
      if Matches(rows[n], k) && rows[n].file !in dirty && !rows[n].unresolved then [rows[n].id] else []
  }

  predicate CleanArc(clean: map<Id, Row>, a: Arc) {
    a.src in clean && a.dst in clean
  }

  /** The children stored for `p`, both ends clean. */
  function StoredKids(arcs: seq<Arc>, clean: map<Id, Row>, p: Id): seq<Id> {
    if arcs == [] then []
    else
      var n := |arcs| - 1;
      StoredKids(arcs[..n], clean, p) + if arcs[n].src == p && CleanArc(clean, arcs[n]) then [arcs[n].dst] else []
  }

  // ------------------------------------------------------------- the splices

  /** The nodes known after the splices: the first row of an id wins. */
  function Known(clean: map<Id, Row>, ops: seq<Op>): map<Id, Row> {
    if ops == [] then clean
    else
      var m, op := Known(clean, ops[..|ops| - 1]), ops[|ops| - 1];
      if op.NodeOp? && op.row.id !in m then m[op.row.id := op.row] else m
  }

  /** The spliced definitions of one key, in splice order. */
  function SplicedIds(clean: map<Id, Row>, ops: seq<Op>, k: DefKey): seq<Id> {
    if ops == [] then []
    else
      var before, op := ops[..|ops| - 1], ops[|ops| - 1];
      SplicedIds(clean, before, k) +
      if op.NodeOp? && op.row.id !in Known(clean, before) && Matches(op.row, k) then [op.row.id] else []
  }

  /** The DECLARES edges spliced, each once. */
  function SplicedArcs(ops: seq<Op>): seq<Arc> {
    if ops == [] then []
    else
      var arcs, op := SplicedArcs(ops[..|ops| - 1]), ops[|ops| - 1];
      if op.ArcOp? && op.arc !in arcs then arcs + [op.arc] else arcs
  }

  function KidsOf(arcs: seq<Arc>, p: Id): seq<Id> {
    if arcs == [] then []
    else KidsOf(arcs[..|arcs| - 1], p) + if arcs[|arcs| - 1].src == p then [arcs[|arcs| - 1].dst] else []
  }

  /** The declarer that the last of `arcs` names for `c`. */
  function LastParent(arcs: seq<Arc>, c: Id): Option<Id> {
    if arcs == [] then None
    else if arcs[|arcs| - 1].dst == c then Some(arcs[|arcs| - 1].src)
    else LastParent(arcs[..|arcs| - 1], c)
  }

  // -------------------------------------------------------- the eager indexes

  /** The surviving stored edges, which the eager splice does not add again. */
  function CleanArcs(arcs: seq<Arc>, clean: map<Id, Row>): seq<Arc> {
    if arcs == [] then []
    else
      var n := |arcs| - 1;
      CleanArcs(arcs[..n], clean) + if CleanArc(clean, arcs[n]) then [arcs[n]] else []
  }

  function Unstored(arcs: seq<Arc>, stored: seq<Arc>): seq<Arc> {
    if arcs == [] then []
    else
      var n := |arcs| - 1;
      Unstored(arcs[..n], stored) + if arcs[n] in stored then [] else [arcs[n]]
  }

  function EagerNode(s: Store, dirty: set<string>, ops: seq<Op>, id: Id): Option<Row> {
    var m := Known(CleanRows(s.rows, dirty), ops);
    if id in m then Some(m[id]) else None
  }

  function EagerDefs(s: Store, dirty: set<string>, ops: seq<Op>, k: DefKey): seq<Id> {
    Matching(s.rows, dirty, k) + SplicedIds(CleanRows(s.rows, dirty), ops, k)
  }

  /** All DECLARES edges of the eager graph: the surviving, then the newly spliced. */
  function EagerArcs(s: Store, dirty: set<string>, ops: seq<Op>): seq<Arc> {
    var stored := CleanArcs(s.declares, CleanRows(s.rows, dirty));
    stored + Unstored(SplicedArcs(ops), stored)
  }

  function EagerKids(s: Store, dirty: set<string>, ops: seq<Op>, p: Id): seq<Id> {
    KidsOf(EagerArcs(s, dirty, ops), p)
  }

  function EagerParent(s: Store, dirty: set<string>, ops: seq<Op>, c: Id): Option<Id> {
    LastParent(EagerArcs(s, dirty, ops), c)
  }

  // --------------------------------------------------------- the lazy answers

  function LazyKids(s: Store, dirty: set<string>, ops: seq<Op>, p: Id): seq<Id> {
    StoredKids(s.declares, CleanRows(s.rows, dirty), p) + KidsOf(SplicedArcs(ops), p)
  }

  /** The first stored declarer of `c`, both ends clean. */
  function FirstParent(arcs: seq<Arc>, clean: map<Id, Row>, c: Id, from: nat): Option<Id>
    requires from <= |arcs|
    decreases |arcs| - from
  {
    if from == |arcs| then None
    else if arcs[from].dst == c && CleanArc(clean, arcs[from]) then Some(arcs[from].src)
    else FirstParent(arcs, clean, c, from + 1)
  }

  function LazyParent(s: Store, dirty: set<string>, ops: seq<Op>, c: Id): Option<Id> {
    var spliced := LastParent(SplicedArcs(ops), c);
    if spliced.Some? then spliced else FirstParent(s.declares, CleanRows(s.rows, dirty), c, 0)
  }

  // ------------------------------------------------ store order does not matter

  /** The same rows and edges, each in any order. */
  ghost predicate SameContents(s: Store, s': Store) {
    && Stored(s) && Stored(s')
    && (forall r :: r in s.rows <==> r in s'.rows)
    && forall a :: a in s.declares <==> a in s'.declares
  }

  lemma {:induction false} CleanRowsExact(rows: seq<Row>, dirty: set<string>, id: Id)
    requires DistinctRows(rows)
    ensures id in CleanRows(rows, dirty) ==>
      var r := CleanRows(rows, dirty)[id]; r in rows && r.id == id && r.file !in dirty
    ensures forall r :: r in rows && r.id == id && r.file !in dirty ==>
      id in CleanRows(rows, dirty) && CleanRows(rows, dirty)[id] == r
  {
    if rows != [] {
      var n := |rows| - 1;
      CleanRowsExact(rows[..n], dirty, id);
      assert forall r :: r in rows <==> r in rows[..n] || r == rows[n];
    }
  }

  lemma CleanRowsSame(s: Store, s': Store, dirty: set<string>)
    requires SameContents(s, s')
    ensures CleanRows(s.rows, dirty) == CleanRows(s'.rows, dirty)
  {
    var m, m' := CleanRows(s.rows, dirty), CleanRows(s'.rows, dirty);
    forall id ensures id in m <==> id in m' ensures id in m && id in m' ==> m[id] == m'[id] {
      CleanRowsExact(s.rows, dirty, id);
      CleanRowsExact(s'.rows, dirty, id);
    }
  }

  lemma {:induction false} CountOnce<T>(s: seq<T>, e: T)
    requires NoDup(s)
    ensures multiset(s)[e] == if e in s then 1 else 0
  {
    if s != [] {
      var n := |s| - 1;
      CountOnce(s[..n], e);
      assert s == s[..n] + [s[n]];
    }
  }

  lemma SameBag<T>(a: seq<T>, b: seq<T>)
    requires NoDup(a) && NoDup(b) && forall e :: e in a <==> e in b
    ensures multiset(a) == multiset(b)
  {
    forall e ensures multiset(a)[e] == multiset(b)[e] {
      CountOnce(a, e);
      CountOnce(b, e);
    }
  }

  lemma NoDupAppend<T>(a: seq<T>, b: seq<T>)
    requires NoDup(a) && NoDup(b) && forall e :: e in a ==> e !in b
    ensures NoDup(a + b)
    ensures forall e :: e in a + b <==> e in a || e in b
  {
    forall x, y | 0 <= x < y < |a + b| ensures (a + b)[x] != (a + b)[y] {
      assert x < |a| ==> (a + b)[x] in a;
      assert y >= |a| ==> (a + b)[y] in b;
    }
  }

  ghost predicate Defines(rows: seq<Row>, dirty: set<string>, k: DefKey, id: Id) {
    exists r :: r in rows && r.id == id && Matches(r, k) && r.file !in dirty && !r.unresolved
  }

  lemma {:induction false} MatchingExact(rows: seq<Row>, dirty: set<string>, k: DefKey)
    requires DistinctRows(rows)
    ensures forall id :: id in Matching(rows, dirty, k) <==> Defines(rows, dirty, k, id)
    ensures NoDup(Matching(rows, dirty, k))
  {
    if rows != [] {
      var n := |rows| - 1;
      MatchingExact(rows[..n], dirty, k);
      assert rows == rows[..n] + [rows[n]];
      forall id | Defines(rows[..n], dirty, k, id) ensures id != rows[n].id {
        var r :| r in rows[..n] && r.id == id;
      }
      assert !Defines(rows[..n], dirty, k, rows[n].id);
      forall id ensures Defines(rows, dirty, k, id) <==>
        Defines(rows[..n], dirty, k, id)
        || (id == rows[n].id && Matches(rows[n], k) && rows[n].file !in dirty && !rows[n].unresolved)
      {
      }
    }
  }

  lemma {:induction false} CleanArcsExact(arcs: seq<Arc>, clean: map<Id, Row>)
    requires DistinctArcs(arcs)
    ensures forall a :: a in CleanArcs(arcs, clean) <==> a in arcs && CleanArc(clean, a)
    ensures NoDup(CleanArcs(arcs, clean))
  {
    if arcs != [] {
      var n := |arcs| - 1;
      CleanArcsExact(arcs[..n], clean);
      assert arcs == arcs[..n] + [arcs[n]];
    }
  }

  /** The children named by distinct edges are distinct, and are what the edges say. */
  lemma {:induction false} KidsExact(arcs: seq<Arc>, p: Id)
    requires NoDup(arcs)
    ensures forall c :: c in KidsOf(arcs, p) <==> Arc(p, c) in arcs
    ensures NoDup(KidsOf(arcs, p))
  {
    if arcs != [] {
      var n := |arcs| - 1;
      KidsExact(arcs[..n], p);
      assert arcs == arcs[..n] + [arcs[n]];
      assert arcs[n] !in arcs[..n];
    }
  }

  lemma {:induction false} StoredKidsAre(arcs: seq<Arc>, clean: map<Id, Row>, p: Id)
    ensures StoredKids(arcs, clean, p) == KidsOf(CleanArcs(arcs, clean), p)
  {
    if arcs != [] {
      var n := |arcs| - 1;
      StoredKidsAre(arcs[..n], clean, p);
      if CleanArc(clean, arcs[n]) {
        var prefix := CleanArcs(arcs[..n], clean);
        assert (prefix + [arcs[n]])[..|prefix|] == prefix;
      } else {
        assert CleanArcs(arcs[..n], clean) + [] == CleanArcs(arcs[..n], clean);
      }
    }
  }

  lemma {:induction false} SplicedOnce(ops: seq<Op>)
    ensures NoDup(SplicedArcs(ops))
  {
    if ops != [] {
      SplicedOnce(ops[..|ops| - 1]);
    }
  }

  lemma {:induction false} UnstoredExact(arcs: seq<Arc>, stored: seq<Arc>)
    requires NoDup(arcs)
    ensures forall a :: a in Unstored(arcs, stored) <==> a in arcs && a !in stored
    ensures NoDup(Unstored(arcs, stored))
  {
    if arcs != [] {
      var n := |arcs| - 1;
      UnstoredExact(arcs[..n], stored);
      assert arcs == arcs[..n] + [arcs[n]];
    }
  }

  // ------------------------------------------------------ lazy against eager

  /** Definitions agree up to order, after any splices. */
  lemma DefsAgree(s: Store, s': Store, dirty: set<string>, ops: seq<Op>, k: DefKey)
    requires SameContents(s, s')
    ensures CleanRows(s.rows, dirty) == CleanRows(s'.rows, dirty)
    ensures multiset(EagerDefs(s, dirty, ops, k)) == multiset(EagerDefs(s', dirty, ops, k))
  {
    CleanRowsSame(s, s', dirty);
    MatchingExact(s.rows, dirty, k);
    MatchingExact(s'.rows, dirty, k);
    forall id ensures Defines(s.rows, dirty, k, id) <==> Defines(s'.rows, dirty, k, id) {
    }
    SameBag(Matching(s.rows, dirty, k), Matching(s'.rows, dirty, k));
  }

  /** A spliced node comes from a parse: it is no stub. */
  ghost predicate ParsedSplices(ops: seq<Op>) {
    forall op :: op in ops && op.NodeOp? ==> !op.row.unresolved
  }

  ghost predicate NewlyDefined(clean: map<Id, Row>, ops: seq<Op>, k: DefKey, id: Id) {
    id !in clean && id in Known(clean, ops) && Matches(Known(clean, ops)[id], k)
  }

  /** The spliced definitions of a key are the known nodes of that key no clean row has. */
  lemma {:induction false} SplicedExact(clean: map<Id, Row>, ops: seq<Op>, k: DefKey)
    ensures forall id :: id in SplicedIds(clean, ops, k) <==> NewlyDefined(clean, ops, k, id)
    ensures NoDup(SplicedIds(clean, ops, k))
  {
    if ops != [] {
      var before, op := ops[..|ops| - 1], ops[|ops| - 1];
      SplicedExact(clean, before, k);
      forall id | id in clean ensures id in Known(clean, before) {
        KnownGrows(clean, before, id);
      }
      if op.NodeOp? && op.row.id !in Known(clean, before) {
        NoDupAppend(SplicedIds(clean, before, k), [op.row.id]);
      }
    }
  }

  lemma {:induction false} SplicesAreParsed(clean: map<Id, Row>, ops: seq<Op>, id: Id)
    requires ParsedSplices(ops) && id !in clean && id in Known(clean, ops)
    ensures !Known(clean, ops)[id].unresolved && Known(clean, ops)[id].id == id
  {
    if ops != [] && id in Known(clean, ops[..|ops| - 1]) {
      SplicesAreParsed(clean, ops[..|ops| - 1], id);
    } else if ops != [] {
      assert ops[|ops| - 1] in ops;
    }
  }

  /** The known nodes of a key that are no stubs, as the linker's index keys them. */
  ghost function Definitions(clean: map<Id, Row>, ops: seq<Op>, k: DefKey): set<Row> {
    Linking.Matching(Linking.ParsedOf(Known(clean, ops)), (k.kind, k.name), k.folded)
  }

  /** One definition of the eager index is one definition of the linker's. */
  lemma EagerDefIff(s: Store, dirty: set<string>, ops: seq<Op>, k: DefKey, id: Id)
    requires Stored(s) && ParsedSplices(ops)
    ensures var clean := CleanRows(s.rows, dirty);
      id in EagerDefs(s, dirty, ops, k) <==>
      id in Known(clean, ops) && Known(clean, ops)[id] in Definitions(clean, ops, k)
  {
    var clean := CleanRows(s.rows, dirty);
    MatchingExact(s.rows, dirty, k);
    SplicedExact(clean, ops, k);
    CleanRowsExact(s.rows, dirty, id);
    if id in clean {
      KnownGrows(clean, ops, id);
      assert clean[id] in s.rows;
    } else if id in Known(clean, ops) {
      SplicesAreParsed(clean, ops, id);
    }
  }

  /** The eager index of this module is the linker's: over the nodes the splices leave, the
      definition lists are the same up to order. */
  lemma DefsOfKnown(linker: Linking.Linker, s: Store, dirty: set<string>, ops: seq<Op>, k: DefKey)
    requires Stored(s) && ParsedSplices(ops)
    requires linker.Valid() && linker.nodes == Known(CleanRows(s.rows, dirty), ops)
    ensures var index := if k.folded then linker.definitionsCi else linker.definitions;
      multiset(Get(index, (k.kind, k.name))) == multiset(EagerDefs(s, dirty, ops, k))
  {
    var clean := CleanRows(s.rows, dirty);
    var index := if k.folded then linker.definitionsCi else linker.definitions;
    var list := Get(index, (k.kind, k.name));
    assert Linking.Lists(linker.nodes, list, Definitions(clean, ops, k));
    forall id ensures id in list <==> id in EagerDefs(s, dirty, ops, k) {
      EagerDefIff(s, dirty, ops, k, id);
      ListedIff(linker.nodes, list, Definitions(clean, ops, k), id);
    }
    EagerDefsOnce(s, dirty, ops, k);
    SameBag(list, EagerDefs(s, dirty, ops, k));
  }

  lemma ListedIff(nodes: map<Id, Row>, list: seq<Id>, c: set<Row>, id: Id)
    requires Linking.Lists(nodes, list, c) && forall i :: i in nodes ==> nodes[i].id == i
    ensures id in list <==> id in nodes && nodes[id] in c
  {
  }

  lemma EagerDefsOnce(s: Store, dirty: set<string>, ops: seq<Op>, k: DefKey)
    requires Stored(s)
    ensures NoDup(EagerDefs(s, dirty, ops, k))
  {
    var clean := CleanRows(s.rows, dirty);
    MatchingExact(s.rows, dirty, k);
    SplicedExact(clean, ops, k);
    forall id | id in Matching(s.rows, dirty, k) ensures id in clean {
      CleanRowsExact(s.rows, dirty, id);
      var r :| r in s.rows && r.id == id && Matches(r, k) && r.file !in dirty && !r.unresolved;
    }
    NoDupAppend(Matching(s.rows, dirty, k), SplicedIds(clean, ops, k));
  }

  /** Some spliced edge is one that a clean file has already stored. */
  ghost predicate SplicesStored(s: Store, dirty: set<string>, ops: seq<Op>) {
    exists a :: a in SplicedArcs(ops) && a in s.declares && CleanArc(CleanRows(s.rows, dirty), a)
  }

  lemma {:induction false} KidsAppend(a: seq<Arc>, b: seq<Arc>, p: Id)
    ensures KidsOf(a + b, p) == KidsOf(a, p) + KidsOf(b, p)
  {
    if b == [] {
      assert a + b == a;
    } else {
      var n := |b| - 1;
      KidsAppend(a, b[..n], p);
      assert (a + b)[..|a + b| - 1] == a + b[..n];
    }
  }

  lemma {:induction false} UnstoredAll(arcs: seq<Arc>, stored: seq<Arc>)
    requires forall a :: a in arcs ==> a !in stored
    ensures Unstored(arcs, stored) == arcs
  {
    if arcs != [] {
      UnstoredAll(arcs[..|arcs| - 1], stored);
      assert arcs == arcs[..|arcs| - 1] + [arcs[|arcs| - 1]];
    }
  }

  /** What distinguishes the two child indexes, for one parent. */
  lemma KidsOfBoth(s: Store, s': Store, dirty: set<string>, ops: seq<Op>, p: Id)
    requires SameContents(s, s')
    ensures NoDup(EagerKids(s', dirty, ops, p))
    ensures !SplicesStored(s, dirty, ops) ==>
      multiset(LazyKids(s, dirty, ops, p)) == multiset(EagerKids(s', dirty, ops, p))
  {
    CleanRowsSame(s, s', dirty);
    var clean := CleanRows(s.rows, dirty);
    var here, there, more := CleanArcs(s.declares, clean), CleanArcs(s'.declares, clean), SplicedArcs(ops);
    CleanArcsExact(s.declares, clean);
    CleanArcsExact(s'.declares, clean);
    SplicedOnce(ops);
    UnstoredExact(more, there);
    KidsExact(here, p);
    KidsExact(more, p);
    NoDupAppend(there, Unstored(more, there));
    KidsExact(there + Unstored(more, there), p);
    StoredKidsAre(s.declares, clean, p);
    if !SplicesStored(s, dirty, ops) {
      NoDupAppend(KidsOf(here, p), KidsOf(more, p));
      SameBag(LazyKids(s, dirty, ops, p), EagerKids(s', dirty, ops, p));
    }
  }

  /** Children agree up to order for every parent exactly when no splice repeats a
    * stored edge: the eager splice skips such an edge, the lazy one does not. */
  lemma KidsAgreeIff(s: Store, s': Store, dirty: set<string>, ops: seq<Op>)
    requires SameContents(s, s')
    ensures (forall p :: multiset(LazyKids(s, dirty, ops, p)) == multiset(EagerKids(s', dirty, ops, p)))
      <==> !SplicesStored(s, dirty, ops)
  {
    forall p ensures !SplicesStored(s, dirty, ops) ==>
      multiset(LazyKids(s, dirty, ops, p)) == multiset(EagerKids(s', dirty, ops, p))
    {
      KidsOfBoth(s, s', dirty, ops, p);
    }
    if SplicesStored(s, dirty, ops) {
      var clean := CleanRows(s.rows, dirty);
      var a :| a in SplicedArcs(ops) && a in s.declares && CleanArc(clean, a);
      KidsOfBoth(s, s', dirty, ops, a.src);
      CountOnce(EagerKids(s', dirty, ops, a.src), a.dst);
      CleanArcsExact(s.declares, clean);
      SplicedOnce(ops);
      KidsExact(CleanArcs(s.declares, clean), a.src);
      KidsExact(SplicedArcs(ops), a.src);
      StoredKidsAre(s.declares, clean, a.src);
      assert Arc(a.src, a.dst) == a;
      CountOnce(KidsOf(CleanArcs(s.declares, clean), a.src), a.dst);
      CountOnce(KidsOf(SplicedArcs(ops), a.src), a.dst);
      assert multiset(LazyKids(s, dirty, ops, a.src))[a.dst] == 2;
    }
  }

  function HeaderModule(): Row {
    Node(Declared("inc.svh", "m"), Module, "m", "m", "inc.svh", false, false, map[])
  }

  function HeaderPort(): Row {
    Node(Declared("inc.svh", "m.p"), OtherKind("port"), "p", "m.p", "inc.svh", false, false, map[])
  }

  /** A dirty unit re-splices the DECLARES edge of a clean header: the lazy index then
      lists the child twice, the eager one once. */
  lemma ResplicedHeaderDuplicates()
    ensures var m, p := HeaderModule(), HeaderPort();
      var s := Store([m, p], [Arc(m.id, p.id)]);
      var ops := [ArcOp(Arc(m.id, p.id))];
      && Stored(s) && SplicesStored(s, {"top.sv"}, ops)
      && LazyKids(s, {"top.sv"}, ops, m.id) == [p.id, p.id]
      && EagerKids(s, {"top.sv"}, ops, m.id) == [p.id]
  {
    var m, p := HeaderModule(), HeaderPort();
    assert "inc.svh"[0] != "top.sv"[0] && m.id != p.id;
    ArcTwice(m, p, {"top.sv"});
  }

  lemma ArcTwice(m: Row, p: Row, dirty: set<string>)
    requires m.id != p.id && m.file !in dirty && p.file !in dirty
    ensures var s, ops := Store([m, p], [Arc(m.id, p.id)]), [ArcOp(Arc(m.id, p.id))];
      && Stored(s) && SplicesStored(s, dirty, ops)
      && LazyKids(s, dirty, ops, m.id) == [p.id, p.id]
      && EagerKids(s, dirty, ops, m.id) == [p.id]
  {
    var a := Arc(m.id, p.id);
    var s, ops := Store([m, p], [a]), [ArcOp(a)];
    TwoCleanRows(m, p, dirty);
    OneArc(a, CleanRows(s.rows, dirty));
    assert a in SplicedArcs(ops) && a in s.declares;
    assert EagerArcs(s, dirty, ops) == [a] + [];
    assert LazyKids(s, dirty, ops, m.id) == [p.id] + [p.id];
  }

  lemma OneArc(a: Arc, clean: map<Id, Row>)
    requires CleanArc(clean, a)
    ensures SplicedArcs([ArcOp(a)]) == [a] && CleanArcs([a], clean) == [a] && Unstored([a], [a]) == []
    ensures KidsOf([a], a.src) == [a.dst] && StoredKids([a], clean, a.src) == [a.dst]
  {
    assert [a][..0] == [] && [ArcOp(a)][..0] == [];
  }

  lemma TwoCleanRows(m: Row, p: Row, dirty: set<string>)
    requires m.id != p.id && m.file !in dirty && p.file !in dirty
    ensures CleanRows([m, p], dirty) == map[m.id := m, p.id := p]
  {
    assert [m, p][..1] == [m] && [m][..0] == [];
    assert CleanRows([m], dirty) == map[m.id := m];
  }

  /** Each child has one stored declarer. */
  ghost predicate OneDeclarer(arcs: seq<Arc>) {
    forall a, b :: a in arcs && b in arcs && a.dst == b.dst ==> a.src == b.src
  }

  lemma {:induction false} LastParentExact(arcs: seq<Arc>, c: Id)
    ensures match LastParent(arcs, c)
            case Some(p) => Arc(p, c) in arcs
            case None => forall a :: a in arcs ==> a.dst != c
  {
    if arcs != [] {
      LastParentExact(arcs[..|arcs| - 1], c);
      assert arcs == arcs[..|arcs| - 1] + [arcs[|arcs| - 1]];
    }
  }

  lemma {:induction false} FirstParentExact(arcs: seq<Arc>, clean: map<Id, Row>, c: Id, from: nat)
    requires from <= |arcs| && forall x :: 0 <= x < from ==> !(arcs[x].dst == c && CleanArc(clean, arcs[x]))
    ensures match FirstParent(arcs, clean, c, from)
            case Some(p) => Arc(p, c) in arcs && CleanArc(clean, Arc(p, c))
            case None => forall a :: a in arcs && CleanArc(clean, a) ==> a.dst != c
    decreases |arcs| - from
  {
    if from < |arcs| && !(arcs[from].dst == c && CleanArc(clean, arcs[from])) {
      FirstParentExact(arcs, clean, c, from + 1);
    } else if from < |arcs| {
      assert arcs[from] == Arc(arcs[from].src, c);
    }
  }

  lemma {:induction false} LastParentAppend(a: seq<Arc>, b: seq<Arc>, c: Id)
    ensures LastParent(a + b, c) == if LastParent(b, c).Some? then LastParent(b, c) else LastParent(a, c)
  {
    if b == [] {
      assert a + b == a;
    } else {
      LastParentAppend(a, b[..|b| - 1], c);
      assert (a + b)[..|a + b| - 1] == a + b[..|b| - 1];
    }
  }

  /** The declaring scope agrees when no splice repeats a stored edge and each child
      has one stored declarer. */
  lemma ParentAgrees(s: Store, s': Store, dirty: set<string>, ops: seq<Op>, c: Id)
    requires SameContents(s, s') && !SplicesStored(s, dirty, ops)
    requires OneDeclarer(CleanArcs(s.declares, CleanRows(s.rows, dirty)))
    ensures LazyParent(s, dirty, ops, c) == EagerParent(s', dirty, ops, c)
  {
    CleanArcsExact(s.declares, CleanRows(s.rows, dirty));
    assert ParentSettled(s, dirty, ops, c) by {
      var clean := CleanRows(s.rows, dirty);
      UnstoredAll(SplicedArcs(ops), CleanArcs(s.declares, clean));
    }
    SettledAgrees(s, s', dirty, ops, c);
  }

  /** The declarer of `c` does not depend on the order of the stored edges: the last
      spliced declarer is also the last new one; or, with no new one, all stored ones are
      alike, and like the spliced one if there is one. */
  ghost predicate ParentSettled(s: Store, dirty: set<string>, ops: seq<Op>, c: Id) {
    var stored := CleanArcs(s.declares, CleanRows(s.rows, dirty));
    var spliced, added := LastParent(SplicedArcs(ops), c), LastParent(Unstored(SplicedArcs(ops), stored), c);
    if added.Some? then spliced == added
    else
      && (forall a, b :: a in stored && b in stored && a.dst == c && b.dst == c ==> a.src == b.src)
      && (spliced.Some? ==> forall a :: a in stored && a.dst == c ==> a.src == spliced.value)
  }

  lemma SettledAgrees(s: Store, s': Store, dirty: set<string>, ops: seq<Op>, c: Id)
    requires SameContents(s, s') && ParentSettled(s, dirty, ops, c)
    ensures LazyParent(s, dirty, ops, c) == EagerParent(s', dirty, ops, c)
  {
    CleanRowsSame(s, s', dirty);
    var clean := CleanRows(s.rows, dirty);
    var here, there := CleanArcs(s.declares, clean), CleanArcs(s'.declares, clean);
    var spliced := SplicedArcs(ops);
    CleanArcsExact(s.declares, clean);
    CleanArcsExact(s'.declares, clean);
    SameUnstored(spliced, here, there);
    LastParentAppend(there, Unstored(spliced, there), c);
    LastParentExact(there, c);
    LastParentExact(spliced, c);
    FirstParentExact(s.declares, clean, c, 0);
    SplicedOnce(ops);
    UnstoredExact(spliced, there);
    LastParentExact(Unstored(spliced, there), c);
  }

  lemma {:induction false} SameUnstored(arcs: seq<Arc>, a: seq<Arc>, b: seq<Arc>)
    requires forall e :: e in a <==> e in b
    ensures Unstored(arcs, a) == Unstored(arcs, b)
  {
    if arcs != [] {
      SameUnstored(arcs[..|arcs| - 1], a, b);
    }
  }

  /** The same store, with one of its edges returned last. */
  function WithLast(s: Store, x: nat): Store
    requires x < |s.declares|
  {
    Store(s.rows, s.declares[..x] + s.declares[x + 1..] + [s.declares[x]])
  }

  lemma WithLastIsSame(s: Store, x: nat)
    requires Stored(s) && x < |s.declares|
    ensures SameContents(s, WithLast(s, x))
  {
    var d, e := s.declares, WithLast(s, x).declares;
    forall i | 0 <= i < |e| ensures e[i] == d[if i < x then i else if i < |d| - 1 then i + 1 else x] {
    }
    forall a | a in d ensures a in e {
      var i :| 0 <= i < |d| && d[i] == a;
      assert e[if i < x then i else if i > x then i - 1 else |d| - 1] == a;
    }
  }

  /** With nothing new spliced for `c`, the eager answer is the stored declarer returned last. */
  lemma LastStoredWins(s: Store, dirty: set<string>, ops: seq<Op>, x: nat)
    requires Stored(s) && x < |s.declares| && CleanArc(CleanRows(s.rows, dirty), s.declares[x])
    requires LastParent(Unstored(SplicedArcs(ops), CleanArcs(s.declares, CleanRows(s.rows, dirty))), s.declares[x].dst)
      == None
    ensures EagerParent(WithLast(s, x), dirty, ops, s.declares[x].dst) == Some(s.declares[x].src)
  {
    var s', clean, a := WithLast(s, x), CleanRows(s.rows, dirty), s.declares[x];
    WithLastIsSame(s, x);
    var e := s'.declares;
    assert e[..|e| - 1] + [a] == e && e[|e| - 1] == a;
    var there := CleanArcs(e, clean);
    assert there == CleanArcs(e[..|e| - 1], clean) + [a];
    CleanArcsExact(s.declares, clean);
    CleanArcsExact(e, clean);
    SameUnstored(SplicedArcs(ops), CleanArcs(s.declares, clean), there);
    LastParentAppend(there, Unstored(SplicedArcs(ops), there), a.dst);
  }

  /** The declaring scope agrees with the eager one, whatever order the eager side reads the
      store in, exactly when it is settled. */
  lemma ParentAgreesIff(s: Store, dirty: set<string>, ops: seq<Op>, c: Id)
    requires Stored(s)
    ensures (forall s' :: SameContents(s, s') ==> LazyParent(s, dirty, ops, c) == EagerParent(s', dirty, ops, c))
      <==> ParentSettled(s, dirty, ops, c)
  {
    forall s' | SameContents(s, s') && ParentSettled(s, dirty, ops, c)
      ensures LazyParent(s, dirty, ops, c) == EagerParent(s', dirty, ops, c)
    {
      SettledAgrees(s, s', dirty, ops, c);
    }
    if !ParentSettled(s, dirty, ops, c) {
      var s' := UnsettledDiffers(s, dirty, ops, c);
      assert SameContents(s, s');
    }
  }

  lemma UnsettledDiffers(s: Store, dirty: set<string>, ops: seq<Op>, c: Id) returns (s': Store)
    requires Stored(s) && !ParentSettled(s, dirty, ops, c)
    ensures SameContents(s, s') && LazyParent(s, dirty, ops, c) != EagerParent(s', dirty, ops, c)
  {
    var clean := CleanRows(s.rows, dirty);
    var stored := CleanArcs(s.declares, clean);
    var added := Unstored(SplicedArcs(ops), stored);
    CleanArcsExact(s.declares, clean);
    SplicedOnce(ops);
    UnstoredExact(SplicedArcs(ops), stored);
    LastParentExact(SplicedArcs(ops), c);
    LastParentExact(added, c);
    if LastParent(added, c).Some? {
      LastParentAppend(stored, added, c);
      s' := s;
    } else {
      var lazy := LazyParent(s, dirty, ops, c);
      var a :| a in stored && a.dst == c && lazy != Some(a.src);
      var x :| 0 <= x < |s.declares| && s.declares[x] == a;
      WithLastIsSame(s, x);
      LastStoredWins(s, dirty, ops, x);
      s' := WithLast(s, x);
    }
  }

  // ---------------------------------------------------------- the lazy indexes

  /** `rows` are the rows of `ids`. */
  ghost predicate RowsOf(rows: seq<Row>, ids: seq<Id>, m: map<Id, Row>) {
    |rows| == |ids| && forall x :: 0 <= x < |ids| ==> ids[x] in m && rows[x] == m[ids[x]]
  }

  lemma {:induction false} KnownGrows(clean: map<Id, Row>, ops: seq<Op>, id: Id)
    requires id in clean
    ensures id in Known(clean, ops) && Known(clean, ops)[id] == clean[id]
  {
    if ops != [] {
      KnownGrows(clean, ops[..|ops| - 1], id);
    }
  }

  lemma KnownStep(clean: map<Id, Row>, ops: seq<Op>, op: Op)
    ensures (ops + [op])[..|ops|] == ops
    ensures Known(clean, ops + [op]) ==
      var m := Known(clean, ops);
      if op.NodeOp? && op.row.id !in m then m[op.row.id := op.row] else m
    ensures SplicedArcs(ops + [op]) ==
      if op.ArcOp? && op.arc !in SplicedArcs(ops) then SplicedArcs(ops) + [op.arc] else SplicedArcs(ops)
  {
    assert (ops + [op])[..|ops|] == ops;
  }

  lemma KidsStep(arcs: seq<Arc>, a: Arc, c: Id)
    ensures KidsOf(arcs + [a], c) == KidsOf(arcs, c) + (if a.src == c then [a.dst] else [])
    ensures LastParent(arcs + [a], c) == (if a.dst == c then Some(a.src) else LastParent(arcs, c))
  {
    assert (arcs + [a])[..|arcs|] == arcs;
  }

  /** The memo holds known nodes, all spliced ones among them; the negative memo holds
    * ids that no clean row has. */
  ghost predicate NodesOk(clean: map<Id, Row>, ops: seq<Op>, nodeObj: map<Id, Row>, absent: set<Id>) {
    && (forall id :: id in nodeObj ==> id in Known(clean, ops) && Known(clean, ops)[id] == nodeObj[id])
    && (forall id :: id in absent ==> id !in clean)
    && forall id :: id in Known(clean, ops) && id !in clean ==> id in nodeObj
  }

  ghost predicate DefsOk(s: Store, dirty: set<string>, ops: seq<Op>,
                         cache: map<DefKey, seq<Id>>, overlay: map<DefKey, seq<Id>>) {
    && (forall k :: k in cache ==> cache[k] == Matching(s.rows, dirty, k))
    && forall k :: Get(overlay, k) == SplicedIds(CleanRows(s.rows, dirty), ops, k)
  }

  ghost predicate KidsOk(s: Store, clean: map<Id, Row>, ops: seq<Op>,
                         cache: map<Id, seq<Row>>, overlay: map<Id, seq<Row>>) {
    && (forall p :: p in cache ==> RowsOf(cache[p], StoredKids(s.declares, clean, p), clean))
    && forall p :: RowsOf(Get(overlay, p), KidsOf(SplicedArcs(ops), p), Known(clean, ops))
  }

  ghost predicate ParentOk(ops: seq<Op>, overlay: map<Id, Id>, seen: set<Arc>) {
    && (forall a :: a in seen <==> a in SplicedArcs(ops))
    && forall c :: (if c in overlay then Some(overlay[c]) else None) == LastParent(SplicedArcs(ops), c)
  }

  // ------------------------------------------------------------- interleavings

  datatype Request = Splice(op: Op) | AskNode(id: Id) | AskDefs(key: DefKey) | AskKids(id: Id) | AskParent(id: Id)
  datatype Answer =
    | Done | NodeAnswer(node: Option<Row>) | DefsAnswer(ids: seq<Id>)
    | KidsAnswer(kids: seq<Row>) | ParentAnswer(parent: Option<Id>)

  function OpsOf(script: seq<Request>): seq<Op> {
    if script == [] then []
    else
      var ops, q := OpsOf(script[..|script| - 1]), script[|script| - 1];
      if q.Splice? then ops + [q.op] else ops
  }

  function RowIds(rows: seq<Row>): seq<Id> {
    seq(|rows|, x requires 0 <= x < |rows| => rows[x].id)
  }

  /** What the eager indexes of `s` answer, lists up to order. */
  ghost predicate Agrees(s: Store, dirty: set<string>, ops: seq<Op>, q: Request, a: Answer) {
    match q
    case Splice(_) => a.Done?
    case AskNode(id) => a == NodeAnswer(EagerNode(s, dirty, ops, id))
    case AskDefs(k) => a.DefsAnswer? && multiset(a.ids) == multiset(EagerDefs(s, dirty, ops, k))
    case AskKids(p) =>
      && a.KidsAnswer? && multiset(RowIds(a.kids)) == multiset(EagerKids(s, dirty, ops, p))
      && forall r :: r in a.kids ==> EagerNode(s, dirty, ops, r.id) == Some(r)
    case AskParent(c) => a == ParentAnswer(EagerParent(s, dirty, ops, c))
  }

  /** A spliced edge ends in a node that is known by then. */
  ghost predicate EndsKnown(clean: map<Id, Row>, ops: seq<Op>, q: Request) {
    q.Splice? && q.op.ArcOp? ==> q.op.arc.dst in Known(clean, ops)
  }

  ghost predicate EagerLike(s: Store, s': Store, dirty: set<string>, ops: seq<Op>) {
    && SameContents(s, s') && !SplicesStored(s, dirty, ops)
    && OneDeclarer(CleanArcs(s.declares, CleanRows(s.rows, dirty)))
  }

  lemma {:induction false} SplicedGrows(script: seq<Request>, i: nat)
    requires i <= |script|
    ensures forall a :: a in SplicedArcs(OpsOf(script[..i])) ==> a in SplicedArcs(OpsOf(script))
  {
    if i == |script| {
      assert script[..i] == script;
    } else {
      var n := |script| - 1;
      SplicedGrows(script[..n], i);
      assert script[..n][..i] == script[..i];
      var ops, q := OpsOf(script[..n]), script[n];
      if q.Splice? {
        assert (ops + [q.op])[..|ops|] == ops;
      }
    }
  }

  lemma EagerLikeBefore(s: Store, s': Store, dirty: set<string>, script: seq<Request>, i: nat)
    requires i <= |script| && EagerLike(s, s', dirty, OpsOf(script))
    ensures EagerLike(s, s', dirty, OpsOf(script[..i]))
  {
    SplicedGrows(script, i);
  }

  lemma OpsStep(script: seq<Request>, i: nat)
    requires i < |script|
    ensures OpsOf(script[..i + 1]) ==
      (if script[i].Splice? then OpsOf(script[..i]) + [script[i].op] else OpsOf(script[..i]))
  {
    assert script[..i + 1][..i] == script[..i];
  }

  ghost predicate AllEndsKnown(clean: map<Id, Row>, script: seq<Request>) {
    forall i :: 0 <= i < |script| ==> EndsKnown(clean, OpsOf(script[..i]), script[i])
  }

  ghost predicate AllAgree(s: Store, dirty: set<string>, script: seq<Request>, answers: seq<Answer>) {
    |answers| <= |script| &&
    forall i :: 0 <= i < |answers| ==> Agrees(s, dirty, OpsOf(script[..i]), script[i], answers[i])
  }

  lemma KidsAreKnown(s: Store, s': Store, dirty: set<string>, ops: seq<Op>, p: Id, kids: seq<Row>)
    requires EagerLike(s, s', dirty, ops) && DistinctRows(s.rows)
    requires RowsOf(kids, LazyKids(s, dirty, ops, p), Known(CleanRows(s.rows, dirty), ops))
    requires forall id :: id in Known(CleanRows(s.rows, dirty), ops) ==>
      Known(CleanRows(s.rows, dirty), ops)[id].id == id
    ensures Agrees(s', dirty, ops, AskKids(p), KidsAnswer(kids))
  {
    KidsOfBoth(s, s', dirty, ops, p);
    CleanRowsSame(s, s', dirty);
    assert RowIds(kids) == LazyKids(s, dirty, ops, p);
  }

  lemma {:induction false} KnownById(rows: seq<Row>, dirty: set<string>, ops: seq<Op>, id: Id)
    requires DistinctRows(rows)
    ensures id in Known(CleanRows(rows, dirty), ops) ==> Known(CleanRows(rows, dirty), ops)[id].id == id
  {
    if ops == [] {
      CleanRowsExact(rows, dirty, id);
    } else {
      KnownById(rows, dirty, ops[..|ops| - 1], id);
    }
  }

  class LazyIndexes {
    const store: Store
    const dirty: set<string>
    var nodeObj: map<Id, Row>
    var absent: set<Id>
    var defsCache: map<DefKey, seq<Id>>
    var defsOverlay: map<DefKey, seq<Id>>
    var kidsCache: map<Id, seq<Row>>
    var kidsOverlay: map<Id, seq<Row>>
    var parentOverlay: map<Id, Id>
    var seenLocal: set<Arc>
    ghost var ops: seq<Op>

    ghost function Clean(): map<Id, Row> {
      CleanRows(store.rows, dirty)
    }

    ghost predicate Valid()
      reads this
    {
      && Stored(store)
      && NodesOk(Clean(), ops, nodeObj, absent)
      && DefsOk(store, dirty, ops, defsCache, defsOverlay)
      && KidsOk(store, Clean(), ops, kidsCache, kidsOverlay)
      && ParentOk(ops, parentOverlay, seenLocal)
    }

    constructor (store: Store, dirty: set<string>)
      requires Stored(store)
      ensures Valid() && ops == [] && this.store == store && this.dirty == dirty
    {
      this.store, this.dirty := store, dirty;
      nodeObj, absent := map[], {};
      defsCache, defsOverlay := map[], map[];
      kidsCache, kidsOverlay := map[], map[];
      parentOverlay, seenLocal := map[], {};
      ops := [];
    }

    /** The row of `id`, unless a dirty file owns it. */
    method SelectNode(id: Id) returns (r: Option<Row>)
      requires DistinctRows(store.rows)
      ensures r == if id in Clean() then Some(Clean()[id]) else None
    {
      CleanRowsExact(store.rows, dirty, id);
      for x := 0 to |store.rows|
        invariant forall y :: 0 <= y < x ==> store.rows[y].id != id
      {
        if store.rows[x].id == id {
          assert store.rows[x] in store.rows;
          if store.rows[x].file in dirty {
            return None;
          }
          return Some(store.rows[x]);
        }
      }
      return None;
    }

    /** `node_obj.get`: the memo, then the negative memo, then the store. */
    method GetNode(id: Id) returns (r: Option<Row>)
      requires Valid()
      modifies this`nodeObj, this`absent
      ensures Valid()
      ensures r == EagerNode(store, dirty, ops, id)
    {
      if id in nodeObj {
        return Some(nodeObj[id]);
      }
      if id in absent {
        return None;
      }
      r := SelectNode(id);
      if r.Some? {
        KnownGrows(Clean(), ops, id);
        nodeObj := nodeObj[id := r.value];
      } else {
        absent := absent + {id};
      }
    }

    method SelectDefs(k: DefKey) returns (ids: seq<Id>)
      ensures ids == Matching(store.rows, dirty, k)
    {
      ids := [];
      for x := 0 to |store.rows|
        invariant ids == Matching(store.rows[..x], dirty, k)
      {
        assert store.rows[..x + 1][..x] == store.rows[..x];
        var r := store.rows[x];
        if Matches(r, k) && r.file !in dirty && !r.unresolved {
          ids := ids + [r.id];
        }
      }
      assert store.rows[..|store.rows|] == store.rows;
    }

    method GetDefs(k: DefKey) returns (ids: seq<Id>)
      requires Valid()
      modifies this`defsCache
      ensures Valid()
      ensures ids == EagerDefs(store, dirty, ops, k)
    {
      if k !in defsCache {
        var found := SelectDefs(k);
        defsCache := defsCache[k := found];
      }
      ids := defsCache[k] + Get(defsOverlay, k);
    }

    method GetParent(c: Id) returns (p: Option<Id>)
      requires Valid()
      ensures p == LazyParent(store, dirty, ops, c)
    {
      if c in parentOverlay {
        return Some(parentOverlay[c]);
      }
      for x := 0 to |store.declares|
        invariant FirstParent(store.declares, Clean(), c, 0) == FirstParent(store.declares, Clean(), c, x)
      {
        var a := store.declares[x];
        if a.dst == c {
          var src := SelectNode(a.src);
          var dst := SelectNode(a.dst);
          if src.Some? && dst.Some? {
            return Some(a.src);
          }
        }
      }
      return None;
    }

    method SelectKids(p: Id) returns (kids: seq<Row>)
      requires Valid()
      modifies this`nodeObj, this`absent
      ensures Valid()
      ensures RowsOf(kids, StoredKids(store.declares, Clean(), p), Clean())
    {
      kids := [];
      for x := 0 to |store.declares|
        invariant Valid()
        invariant RowsOf(kids, StoredKids(store.declares[..x], Clean(), p), Clean())
      {
        assert store.declares[..x + 1][..x] == store.declares[..x];
        var a := store.declares[x];
        if a.src == p {
          var src := SelectNode(a.src);
          var dst := SelectNode(a.dst);
          if src.Some? && dst.Some? {
            var child := GetNode(a.dst);
            KnownGrows(Clean(), ops, a.dst);
            kids := kids + [child.value];
          }
        }
      }
      assert store.declares[..|store.declares|] == store.declares;
    }

    method GetKids(p: Id) returns (kids: seq<Row>)
      requires Valid()
      modifies this`kidsCache, this`nodeObj, this`absent
      ensures Valid()
      ensures RowsOf(kids, LazyKids(store, dirty, ops, p), Known(Clean(), ops))
    {
      if p !in kidsCache {
        var found := SelectKids(p);
        kidsCache := kidsCache[p := found];
      }
      kids := kidsCache[p] + Get(kidsOverlay, p);
      var ids := StoredKids(store.declares, Clean(), p);
      forall x | 0 <= x < |ids|
        ensures ids[x] in Known(Clean(), ops) && Known(Clean(), ops)[ids[x]] == Clean()[ids[x]]
      {
        KnownGrows(Clean(), ops, ids[x]);
      }
    }

    /** Enter a definition in both indexes. */
    method AddDefinition(row: Row)
      modifies this`defsOverlay
      ensures forall k ::
        Get(defsOverlay, k) == Get(old(defsOverlay), k) + (if Matches(row, k) then [row.id] else [])
    {
      var exact, folded := DefKey(false, row.kind, row.name), DefKey(true, row.kind, Lower(row.name));
      defsOverlay := defsOverlay[exact := Get(defsOverlay, exact) + [row.id]];
      defsOverlay := defsOverlay[folded := Get(defsOverlay, folded) + [row.id]];
      assert forall k :: Matches(row, k) <==> k == exact || k == folded;
    }

    /** A fresh node of a dirty unit; a known id is passed over. */
    method SpliceNode(row: Row)
      requires Valid()
      modifies this
      ensures Valid() && ops == old(ops) + [NodeOp(row)]
    {
      var known := GetNode(row.id);
      if known == None {
        SpliceNew(row);
      } else {
        SplicedAgain(Clean(), ops, row);
        ops := ops + [NodeOp(row)];
      }
    }

    method SpliceNew(row: Row)
      requires Valid() && row.id !in Known(Clean(), ops)
      modifies this`nodeObj, this`defsOverlay, this`ops
      ensures Valid() && ops == old(ops) + [NodeOp(row)]
    {
      NodesAfterNode(Clean(), ops, nodeObj, absent, row);
      KidsAfterNode(store, Clean(), ops, kidsCache, kidsOverlay, row);
      ParentAfterNode(ops, parentOverlay, seenLocal, row);
      ghost var before := defsOverlay;
      AddDefinition(row);
      DefsAfterNode(store, dirty, ops, defsCache, before, defsOverlay, row);
      nodeObj := nodeObj[row.id := row];
      ops := ops + [NodeOp(row)];
    }

    /** A fresh DECLARES edge of a dirty unit; its ends have been ensured. */
    method SpliceArc(a: Arc)
      requires Valid() && a.dst in Known(Clean(), ops)
      modifies this
      ensures Valid() && ops == old(ops) + [ArcOp(a)]
    {
      if a in seenLocal {
        ArcAgain(Clean(), ops, a);
        ops := ops + [ArcOp(a)];
      } else {
        var child := GetNode(a.dst);
        SpliceNewArc(a, child.value);
      }
    }

    method SpliceNewArc(a: Arc, child: Row)
      requires Valid() && a.dst in Known(Clean(), ops) && child == Known(Clean(), ops)[a.dst] && a !in seenLocal
      modifies this`seenLocal, this`kidsOverlay, this`parentOverlay, this`ops
      ensures Valid() && ops == old(ops) + [ArcOp(a)]
    {
      NodesAfterArc(store, dirty, ops, nodeObj, absent, defsCache, defsOverlay, a);
      KidsAfterArc(store, Clean(), ops, kidsCache, kidsOverlay, a);
      ParentAfterArc(ops, parentOverlay, seenLocal, a);
      seenLocal := seenLocal + {a};
      kidsOverlay := kidsOverlay[a.src := Get(kidsOverlay, a.src) + [child]];
      parentOverlay := parentOverlay[a.dst := a.src];
      ops := ops + [ArcOp(a)];
    }
  }

  /** One request: a splice, or a lookup answered as the eager indexes would. */
  method Serve(lazy: LazyIndexes, q: Request, ghost s': Store) returns (a: Answer)
    requires lazy.Valid() && EndsKnown(lazy.Clean(), lazy.ops, q)
    requires EagerLike(lazy.store, s', lazy.dirty, lazy.ops)
    modifies lazy
    ensures lazy.Valid() && lazy.ops == (if q.Splice? then old(lazy.ops) + [q.op] else old(lazy.ops))
    ensures Agrees(s', lazy.dirty, old(lazy.ops), q, a)
  {
    CleanRowsSame(lazy.store, s', lazy.dirty);
    match q
    case Splice(op) =>
      if op.NodeOp? {
        lazy.SpliceNode(op.row);
      } else {
        lazy.SpliceArc(op.arc);
      }
      a := Done;
    case AskNode(id) =>
      var r := lazy.GetNode(id);
      a := NodeAnswer(r);
    case AskDefs(k) =>
      DefsAgree(lazy.store, s', lazy.dirty, lazy.ops, k);
      var ids := lazy.GetDefs(k);
      a := DefsAnswer(ids);
    case AskKids(p) =>
      var kids := lazy.GetKids(p);
      forall id | id in Known(lazy.Clean(), lazy.ops) ensures Known(lazy.Clean(), lazy.ops)[id].id == id {
        KnownById(lazy.store.rows, lazy.dirty, lazy.ops, id);
      }
      KidsAreKnown(lazy.store, s', lazy.dirty, lazy.ops, p, kids);
      a := KidsAnswer(kids);
    case AskParent(c) =>
      ParentAgrees(lazy.store, s', lazy.dirty, lazy.ops, c);
      var p := lazy.GetParent(c);
      a := ParentAnswer(p);
  }

  /** Any interleaving of splices and lookups is answered as by the eager indexes,
    * whatever order the store returns its rows in. */
  method ServeAll(store: Store, dirty: set<string>, script: seq<Request>,
                  ghost s': Store) returns (answers: seq<Answer>)
    requires EagerLike(store, s', dirty, OpsOf(script))
    requires AllEndsKnown(CleanRows(store.rows, dirty), script)
    ensures |answers| == |script| && AllAgree(s', dirty, script, answers)
  {
    var lazy := new LazyIndexes(store, dirty);
    answers := [];
    for i := 0 to |script|
      invariant fresh(lazy) && lazy.Valid() && lazy.store == store && lazy.dirty == dirty
      invariant lazy.ops == OpsOf(script[..i]) && |answers| == i && AllAgree(s', dirty, script, answers)
    {
      EagerLikeBefore(store, s', dirty, script, i);
      OpsStep(script, i);
      var a := Serve(lazy, script[i], s');
      AgreeStep(s', dirty, script, answers, a);
      answers := answers + [a];
    }
  }

  lemma AgreeStep(s': Store, dirty: set<string>, script: seq<Request>, answers: seq<Answer>, a: Answer)
    requires |answers| < |script| && AllAgree(s', dirty, script, answers)
    requires Agrees(s', dirty, OpsOf(script[..|answers|]), script[|answers|], a)
    ensures AllAgree(s', dirty, script, answers + [a])
  {
  }

  /** What splicing a node changes in the specifications. */
  lemma NodeSplice(clean: map<Id, Row>, ops: seq<Op>, row: Row)
    ensures Known(clean, ops + [NodeOp(row)]) ==
      (if row.id in Known(clean, ops) then Known(clean, ops) else Known(clean, ops)[row.id := row])
    ensures SplicedArcs(ops + [NodeOp(row)]) == SplicedArcs(ops)
    ensures forall k ::
      SplicedIds(clean, ops + [NodeOp(row)], k) ==
      SplicedIds(clean, ops, k) + (if row.id !in Known(clean, ops) && Matches(row, k) then [row.id] else [])
  {
    KnownStep(clean, ops, NodeOp(row));
  }

  /** Histories with the same known nodes, edges and definitions carry the same indexes. */
  ghost predicate SameSplices(clean: map<Id, Row>, ops: seq<Op>, ops': seq<Op>) {
    && Known(clean, ops) == Known(clean, ops')
    && SplicedArcs(ops) == SplicedArcs(ops')
    && forall k :: SplicedIds(clean, ops, k) == SplicedIds(clean, ops', k)
  }

  lemma SplicedAgain(clean: map<Id, Row>, ops: seq<Op>, row: Row)
    requires row.id in Known(clean, ops)
    ensures SameSplices(clean, ops, ops + [NodeOp(row)])
  {
    NodeSplice(clean, ops, row);
  }

  lemma ArcAgain(clean: map<Id, Row>, ops: seq<Op>, a: Arc)
    requires a in SplicedArcs(ops)
    ensures SameSplices(clean, ops, ops + [ArcOp(a)])
  {
    ArcSplice(clean, ops, a);
  }

  lemma NodesAfterNode(clean: map<Id, Row>, ops: seq<Op>, nodeObj: map<Id, Row>, absent: set<Id>, row: Row)
    requires NodesOk(clean, ops, nodeObj, absent) && row.id !in Known(clean, ops)
    ensures NodesOk(clean, ops + [NodeOp(row)], nodeObj[row.id := row], absent)
  {
    NodeSplice(clean, ops, row);
  }

  lemma DefsAfterNode(s: Store, dirty: set<string>, ops: seq<Op>, cache: map<DefKey, seq<Id>>,
                      overlay: map<DefKey, seq<Id>>, overlay': map<DefKey, seq<Id>>, row: Row)
    requires DefsOk(s, dirty, ops, cache, overlay)
    requires row.id !in Known(CleanRows(s.rows, dirty), ops)
    requires forall k :: Get(overlay', k) == Get(overlay, k) + (if Matches(row, k) then [row.id] else [])
    ensures DefsOk(s, dirty, ops + [NodeOp(row)], cache, overlay')
  {
    NodeSplice(CleanRows(s.rows, dirty), ops, row);
    forall k ensures Get(overlay', k) == SplicedIds(CleanRows(s.rows, dirty), ops + [NodeOp(row)], k) {
      assert Get(overlay, k) == SplicedIds(CleanRows(s.rows, dirty), ops, k);
    }
  }

  lemma ParentAfterNode(ops: seq<Op>, overlay: map<Id, Id>, seen: set<Arc>, row: Row)
    requires ParentOk(ops, overlay, seen)
    ensures ParentOk(ops + [NodeOp(row)], overlay, seen)
  {
    NodeSplice(map[], ops, row);
  }

  lemma NodesAfterArc(s: Store, dirty: set<string>, ops: seq<Op>, nodeObj: map<Id, Row>, absent: set<Id>,
                      cache: map<DefKey, seq<Id>>, overlay: map<DefKey, seq<Id>>, a: Arc)
    ensures NodesOk(CleanRows(s.rows, dirty), ops, nodeObj, absent) ==>
      NodesOk(CleanRows(s.rows, dirty), ops + [ArcOp(a)], nodeObj, absent)
    ensures DefsOk(s, dirty, ops, cache, overlay) ==> DefsOk(s, dirty, ops + [ArcOp(a)], cache, overlay)
  {
    ArcSplice(CleanRows(s.rows, dirty), ops, a);
  }

  lemma KidsAfterNode(s: Store, clean: map<Id, Row>, ops: seq<Op>,
                      cache: map<Id, seq<Row>>, overlay: map<Id, seq<Row>>, row: Row)
    requires KidsOk(s, clean, ops, cache, overlay)
    ensures KidsOk(s, clean, ops + [NodeOp(row)], cache, overlay)
  {
    NodeSplice(clean, ops, row);
    forall p ensures RowsOf(Get(overlay, p), KidsOf(SplicedArcs(ops), p), Known(clean, ops + [NodeOp(row)])) {
      assert RowsOf(Get(overlay, p), KidsOf(SplicedArcs(ops), p), Known(clean, ops));
    }
  }

  /** What splicing an edge changes in the specifications. */
  lemma ArcSplice(clean: map<Id, Row>, ops: seq<Op>, a: Arc)
    ensures Known(clean, ops + [ArcOp(a)]) == Known(clean, ops)
    ensures SplicedArcs(ops + [ArcOp(a)]) ==
      (if a in SplicedArcs(ops) then SplicedArcs(ops) else SplicedArcs(ops) + [a])
    ensures forall k :: SplicedIds(clean, ops + [ArcOp(a)], k) == SplicedIds(clean, ops, k)
  {
    KnownStep(clean, ops, ArcOp(a));
  }

  lemma KidsAfterArc(s: Store, clean: map<Id, Row>, ops: seq<Op>,
                     cache: map<Id, seq<Row>>, overlay: map<Id, seq<Row>>, a: Arc)
    requires KidsOk(s, clean, ops, cache, overlay) && a.dst in Known(clean, ops) && a !in SplicedArcs(ops)
    ensures KidsOk(s, clean, ops + [ArcOp(a)], cache,
                   overlay[a.src := Get(overlay, a.src) + [Known(clean, ops)[a.dst]]])
  {
    ArcSplice(clean, ops, a);
    var child := Known(clean, ops)[a.dst];
    var more := overlay[a.src := Get(overlay, a.src) + [child]];
    forall p ensures RowsOf(Get(more, p), KidsOf(SplicedArcs(ops) + [a], p), Known(clean, ops)) {
      KidsStep(SplicedArcs(ops), a, p);
      assert RowsOf(Get(overlay, p), KidsOf(SplicedArcs(ops), p), Known(clean, ops));
      if p == a.src {
        RowsOfMore(Get(overlay, p), KidsOf(SplicedArcs(ops), p), Known(clean, ops), a.dst);
      }
    }
  }

  lemma RowsOfMore(rows: seq<Row>, ids: seq<Id>, m: map<Id, Row>, id: Id)
    requires RowsOf(rows, ids, m) && id in m
    ensures RowsOf(rows + [m[id]], ids + [id], m)
  {
  }

  lemma ParentAfterArc(ops: seq<Op>, overlay: map<Id, Id>, seen: set<Arc>, a: Arc)
    requires ParentOk(ops, overlay, seen) && a !in SplicedArcs(ops)
    ensures ParentOk(ops + [ArcOp(a)], overlay[a.dst := a.src], seen + {a})
  {
    ArcSplice(map[], ops, a);
    forall c ensures LastParent(SplicedArcs(ops) + [a], c) ==
      (if a.dst == c then Some(a.src) else LastParent(SplicedArcs(ops), c))
    {
      KidsStep(SplicedArcs(ops), a, c);
    }
  }
}
