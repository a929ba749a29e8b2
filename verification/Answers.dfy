/** What the lazy indexes answer, in terms of the store's rows and the splices alone
    (src/hdl_kgraph/graph/bounded_link.py:140-170, 296-426). */
module Answers {
  import opened Schema
  import opened LazyIndex

  /** Positions, in order. */
  ghost predicate Rising(at: seq<nat>) {
    forall x, y :: 0 <= x < y < |at| ==> at[x] < at[y]
  }

  // -- nodes --------------------------------------------------------------------------------------

  /** A stored row of no dirty file. */
  predicate Survives(s: Store, dirty: set<string>, r: Row) {
    r in s.rows && r.file !in dirty
  }

  /** The first splice of a node with this id. */
  predicate FirstSplice(ops: seq<Op>, r: Row, i: nat) {
    i < |ops| && ops[i] == NodeOp(r) && forall j :: 0 <= j < i ==> ops[j].NodeOp? ==> ops[j].row.id != r.id
  }

  lemma {:induction false} KnownIs(clean: map<Id, Row>, ops: seq<Op>, id: Id)
    ensures id in clean ==> id in Known(clean, ops) && Known(clean, ops)[id] == clean[id]
    ensures id !in clean && id in Known(clean, ops) ==>
      exists i: nat :: FirstSplice(ops, Known(clean, ops)[id], i) && Known(clean, ops)[id].id == id
    ensures (exists i :: 0 <= i < |ops| && ops[i].NodeOp? && ops[i].row.id == id) ==> id in Known(clean, ops)
  {
    if ops != [] {
      var n := |ops| - 1;
      KnownIs(clean, ops[..n], id);
      assert forall i :: 0 <= i < n ==> ops[..n][i] == ops[i];
      if id !in clean && id in Known(clean, ops) {
        var r := Known(clean, ops)[id];
        if id in Known(clean, ops[..n]) {
          var i: nat :| FirstSplice(ops[..n], r, i);
          assert FirstSplice(ops, r, i);
        } else {
          assert FirstSplice(ops, r, n);
        }
      }
    }
  }

  /** The surviving row of the id, else the first node spliced with it, else nothing. */
  lemma NodeAnswered(s: Store, dirty: set<string>, ops: seq<Op>, id: Id)
    requires Stored(s)
    ensures var a := EagerNode(s, dirty, ops, id);
      && (forall r :: Survives(s, dirty, r) && r.id == id ==> a == Some(r))
      && (a.Some? && !Survives(s, dirty, a.value) ==> a.value.id == id && exists i: nat :: FirstSplice(ops, a.value, i))
      && (a.None? ==> forall i :: 0 <= i < |ops| && ops[i].NodeOp? ==> ops[i].row.id != id)
  {
    CleanRowsExact(s.rows, dirty, id);
    KnownIs(CleanRows(s.rows, dirty), ops, id);
  }

  // -- children ------------------------------------------------------------------------------------

  /** An edge between surviving nodes. */
  predicate Survivors(clean: map<Id, Row>, a: Arc) {
    a.src in clean.Keys && a.dst in clean.Keys
  }

  predicate StoredChild(arcs: seq<Arc>, clean: map<Id, Row>, p: Id, i: nat) {
    i < |arcs| && arcs[i].src == p && Survivors(clean, arcs[i])
  }

  predicate Child(arcs: seq<Arc>, p: Id, i: nat) {
    i < |arcs| && arcs[i].src == p
  }

  /** The ends of the arcs at these positions. */
  predicate Ends(arcs: seq<Arc>, at: seq<nat>, kids: seq<Id>) {
    |kids| == |at| && forall k :: 0 <= k < |at| ==> at[k] < |arcs| && kids[k] == arcs[at[k]].dst
  }

  lemma RisingMore(at: seq<nat>, n: nat)
    requires Rising(at) && forall k :: 0 <= k < |at| ==> at[k] < n
    ensures Rising(at + [n]) && forall i: nat :: i in at + [n] <==> i in at || i == n
  {
  }

  lemma EndsMore(arcs: seq<Arc>, n: nat, at: seq<nat>, kids: seq<Id>)
    requires n < |arcs| && Rising(at) && Ends(arcs[..n], at, kids)
    ensures Ends(arcs, at, kids) && Ends(arcs, at + [n], kids + [arcs[n].dst])
    ensures Rising(at + [n]) && forall i: nat :: i in at + [n] <==> i in at || i == n
  {
    RisingMore(at, n);
  }

  lemma {:induction false} StoredKidsAre(arcs: seq<Arc>, clean: map<Id, Row>, p: Id) returns (at: seq<nat>)
    ensures Rising(at) && Ends(arcs, at, StoredKids(arcs, clean, p))
    ensures forall i: nat :: i in at <==> StoredChild(arcs, clean, p, i)
  {
    at := [];
    if arcs != [] {
      var n := |arcs| - 1;
      at := StoredKidsAre(arcs[..n], clean, p);
      EndsMore(arcs, n, at, StoredKids(arcs[..n], clean, p));
      assert forall i: nat :: StoredChild(arcs, clean, p, i) <==>
        StoredChild(arcs[..n], clean, p, i) || (i == n && StoredChild(arcs, clean, p, n));
      if StoredChild(arcs, clean, p, n) {
        at := at + [n];
      } else {
        assert StoredKids(arcs, clean, p) == StoredKids(arcs[..n], clean, p);
      }
    }
  }

  lemma {:induction false} KidsAre(arcs: seq<Arc>, p: Id) returns (at: seq<nat>)
    ensures Rising(at) && Ends(arcs, at, KidsOf(arcs, p))
    ensures forall i: nat :: i in at <==> Child(arcs, p, i)
  {
    at := [];
    if arcs != [] {
      var n := |arcs| - 1;
      at := KidsAre(arcs[..n], p);
      EndsMore(arcs, n, at, KidsOf(arcs[..n], p));
      assert forall i: nat :: Child(arcs, p, i) <==> Child(arcs[..n], p, i) || (i == n && Child(arcs, p, n));
      if Child(arcs, p, n) {
        at := at + [n];
      } else {
        assert KidsOf(arcs, p) == KidsOf(arcs[..n], p);
      }
    }
  }

  /** The first splice of an edge. */
  predicate FirstArc(ops: seq<Op>, i: nat) {
    i < |ops| && ops[i].ArcOp? && forall j :: 0 <= j < i ==> ops[j] != ops[i]
  }

  /** The arcs spliced at these positions. */
  predicate SplicedAt(ops: seq<Op>, at: seq<nat>, arcs: seq<Arc>) {
    |arcs| == |at| && forall k :: 0 <= k < |at| ==> at[k] < |ops| && ops[at[k]] == ArcOp(arcs[k])
  }

  lemma FirstArcLast(ops: seq<Op>, n: nat)
    requires n + 1 == |ops|
    ensures FirstArc(ops, n) <==> ops[n].ArcOp? && ops[n].arc !in SplicedArcs(ops[..n])
    ensures SplicedArcs(ops) == SplicedArcs(ops[..n]) + if FirstArc(ops, n) then [ops[n].arc] else []
  {
    if ops[n].ArcOp? {
      SplicedIff(ops[..n], ops[n].arc);
      assert ops[n] in ops[..n] <==> exists j :: 0 <= j < n && ops[..n][j] == ops[n];
      assert forall j :: 0 <= j < n ==> ops[..n][j] == ops[j];
    }
  }

  lemma FirstArcs(ops: seq<Op>, n: nat)
    requires n + 1 == |ops|
    ensures forall i: nat :: FirstArc(ops, i) <==> FirstArc(ops[..n], i) || (i == n && FirstArc(ops, n))
  {
  }

  lemma SplicedMore(ops: seq<Op>, n: nat, at: seq<nat>, arcs: seq<Arc>)
    requires n < |ops| && ops[n].ArcOp? && Rising(at) && SplicedAt(ops[..n], at, arcs)
    ensures SplicedAt(ops, at + [n], arcs + [ops[n].arc])
    ensures Rising(at + [n]) && forall i: nat :: i in at + [n] <==> i in at || i == n
  {
    RisingMore(at, n);
  }

  lemma {:induction false} SplicedAre(ops: seq<Op>) returns (at: seq<nat>)
    ensures Rising(at) && SplicedAt(ops, at, SplicedArcs(ops))
    ensures forall i: nat :: i in at <==> FirstArc(ops, i)
  {
    at := [];
    if ops != [] {
      var n := |ops| - 1;
      at := SplicedAre(ops[..n]);
      FirstArcLast(ops, n);
      FirstArcs(ops, n);
      if FirstArc(ops, n) {
        SplicedMore(ops, n, at, SplicedArcs(ops[..n]));
        at := at + [n];
      } else {
        assert SplicedArcs(ops) == SplicedArcs(ops[..n]);
      }
    }
  }

  lemma {:induction false} SplicedIff(ops: seq<Op>, a: Arc)
    ensures a in SplicedArcs(ops) <==> ArcOp(a) in ops
  {
    if ops != [] {
      SplicedIff(ops[..|ops| - 1], a);
      assert ops == ops[..|ops| - 1] + [ops[|ops| - 1]];
    }
  }

  // -- parents -------------------------------------------------------------------------------------

  /** The last of the arcs into `c`. */
  predicate LastInto(arcs: seq<Arc>, c: Id, i: nat) {
    i < |arcs| && arcs[i].dst == c && forall j :: i < j < |arcs| ==> arcs[j].dst != c
  }

  /** The first arc between survivors into `c`. */
  predicate FirstInto(arcs: seq<Arc>, clean: map<Id, Row>, c: Id, i: nat) {
    && i < |arcs| && arcs[i].dst == c && Survivors(clean, arcs[i])
    && forall j :: 0 <= j < i ==> arcs[j].dst != c || !Survivors(clean, arcs[j])
  }

  lemma {:induction false} LastParentIs(arcs: seq<Arc>, c: Id) returns (i: nat)
    ensures LastParent(arcs, c).Some? ==> LastInto(arcs, c, i) && LastParent(arcs, c).value == arcs[i].src
    ensures LastParent(arcs, c).None? ==> forall a :: a in arcs ==> a.dst != c
  {
    i := 0;
    if arcs != [] {
      var n := |arcs| - 1;
      assert arcs == arcs[..n] + [arcs[n]];
      if arcs[n].dst == c { i := n; } else { i := LastParentIs(arcs[..n], c); }
    }
  }

  lemma {:induction false} FirstParentIs(arcs: seq<Arc>, clean: map<Id, Row>, c: Id, from: nat) returns (i: nat)
    requires from <= |arcs| && forall j :: 0 <= j < from ==> arcs[j].dst != c || !Survivors(clean, arcs[j])
    ensures FirstParent(arcs, clean, c, from).Some? ==>
      FirstInto(arcs, clean, c, i) && FirstParent(arcs, clean, c, from).value == arcs[i].src
    ensures FirstParent(arcs, clean, c, from).None? ==>
      forall a :: a in arcs && Survivors(clean, a) ==> a.dst != c
    decreases |arcs| - from
  {
    i := from;
    if from < |arcs| && !(arcs[from].dst == c && CleanArc(clean, arcs[from])) {
      i := FirstParentIs(arcs, clean, c, from + 1);
    }
  }

  /** The scope of the last spliced edge into `c`; without one, of the first stored edge into it
      between surviving nodes. */
  lemma ParentAnswered(s: Store, dirty: set<string>, ops: seq<Op>, c: Id) returns (i: nat)
    ensures var a := LazyParent(s, dirty, ops, c); var clean := CleanRows(s.rows, dirty);
      if exists p :: ArcOp(Arc(p, c)) in ops then
        LastInto(SplicedArcs(ops), c, i) && a == Some(SplicedArcs(ops)[i].src)
      else if exists x: nat :: FirstInto(s.declares, clean, c, x) then
        FirstInto(s.declares, clean, c, i) && a == Some(s.declares[i].src)
      else a.None?
  {
    var clean := CleanRows(s.rows, dirty);
    i := LastParentIs(SplicedArcs(ops), c);
    if p :| ArcOp(Arc(p, c)) in ops {
      SplicedIff(ops, Arc(p, c));
    } else {
      forall a ensures a in SplicedArcs(ops) ==> a.dst != c {
        SplicedIff(ops, a);
        assert a.dst == c ==> a == Arc(a.src, c);
      }
      i := FirstParentIs(s.declares, clean, c, 0);
    }
  }
}
