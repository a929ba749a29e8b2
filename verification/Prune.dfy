/** Pruning a hierarchy to a node budget in place (`_prune_tree` and `_count_tree` in
    src/hdl_kgraph/mcp/server.py). */
module Prune {
  type Id = string

  datatype Tree = Tree(id: Id, children: seq<Tree>)

  function Ids(q: seq<Tree>): seq<Id> {
    seq(|q|, x requires 0 <= x < |q| => q[x].id)
  }

  /** The number of nodes of a forest. */
  function Size(q: seq<Tree>): nat {
    if q == [] then 0 else 1 + Size(q[0].children) + Size(q[1..])
  }

  /** The next level down. */
  function Children(q: seq<Tree>): seq<Tree> {
    if q == [] then [] else q[0].children + Children(q[1..])
  }

  function Nodes(q: seq<Tree>): set<Id> {
    if q == [] then {} else {q[0].id} + Nodes(q[0].children) + Nodes(q[1..])
  }

  /** No id occurs twice. */
  ghost predicate Distinct(q: seq<Tree>) {
    q == [] ||
    (&& q[0].id !in Nodes(q[0].children) + Nodes(q[1..])
     && Nodes(q[0].children) !! Nodes(q[1..])
     && Distinct(q[0].children) && Distinct(q[1..]))
  }

  /** The mutable tree: each id's list of children. */
  type Arena = map<Id, seq<Id>>

  ghost predicate Represents(a: Arena, q: seq<Tree>) {
    q == [] ||
    (&& q[0].id in a && a[q[0].id] == Ids(q[0].children)
     && Represents(a, q[0].children) && Represents(a, q[1..]))
  }

  lemma {:induction false} SizeAppend(p: seq<Tree>, q: seq<Tree>)
    ensures Size(p + q) == Size(p) + Size(q)
  {
    if p == [] {
      assert p + q == q;
    } else {
      assert (p + q)[1..] == p[1..] + q;
      SizeAppend(p[1..], q);
    }
  }

  lemma {:induction false} ChildrenAppend(p: seq<Tree>, q: seq<Tree>)
    ensures Children(p + q) == Children(p) + Children(q)
  {
    if p == [] {
      assert p + q == q;
    } else {
      assert (p + q)[1..] == p[1..] + q;
      ChildrenAppend(p[1..], q);
    }
  }

  lemma {:induction false} NodesAppend(p: seq<Tree>, q: seq<Tree>)
    ensures Nodes(p + q) == Nodes(p) + Nodes(q)
  {
    if p == [] {
      assert p + q == q;
    } else {
      assert (p + q)[1..] == p[1..] + q;
      NodesAppend(p[1..], q);
    }
  }

  lemma {:induction false} DistinctAppend(p: seq<Tree>, q: seq<Tree>)
    ensures Distinct(p + q) <==> Distinct(p) && Distinct(q) && Nodes(p) !! Nodes(q)
  {
    if p == [] {
      assert p + q == q;
    } else {
      assert (p + q)[1..] == p[1..] + q;
      DistinctAppend(p[1..], q);
      NodesAppend(p[1..], q);
    }
  }

  lemma {:induction false} RepresentsAppend(a: Arena, p: seq<Tree>, q: seq<Tree>)
    ensures Represents(a, p + q) <==> Represents(a, p) && Represents(a, q)
  {
    if p == [] {
      assert p + q == q;
    } else {
      assert (p + q)[1..] == p[1..] + q;
      RepresentsAppend(a, p[1..], q);
    }
  }

  /** Changing another node's children leaves a forest's representation alone. */
  lemma {:induction false} RepresentsFrame(a: Arena, q: seq<Tree>, id: Id, kids: seq<Id>)
    requires Represents(a, q) && id !in Nodes(q)
    ensures Represents(a[id := kids], q)
  {
    if q != [] {
      RepresentsFrame(a, q[0].children, id, kids);
      RepresentsFrame(a, q[1..], id, kids);
    }
  }

  lemma {:induction false} LevelSize(q: seq<Tree>)
    ensures Size(q) == |q| + Size(Children(q))
  {
    if q != [] {
      LevelSize(q[1..]);
      SizeAppend(q[0].children, Children(q[1..]));
    }
  }

  // ------------------------------------------------------ breadth-first order

  /** Breadth-first order: level after level. */
  function LevelOrder(q: seq<Tree>): seq<Tree>
    decreases Size(q)
  {
    if q == [] then []
    else
      LevelSize(q);
      q + LevelOrder(Children(q))
  }

  lemma {:induction false} LevelOrderLength(q: seq<Tree>)
    ensures |LevelOrder(q)| == Size(q)
    decreases Size(q)
  {
    LevelSize(q);
    if q != [] {
      LevelOrderLength(Children(q));
    }
  }

  lemma Unfold(p: seq<Tree>, q: seq<Tree>)
    ensures LevelOrder(p + q) == (p + q) + LevelOrder(Children(p) + Children(q))
  {
    ChildrenAppend(p, q);
  }

  lemma Associate(p: seq<Tree>, q: seq<Tree>, r: seq<Tree>, s: seq<Tree>)
    ensures (p + q) + (r + s) == p + ((q + r) + s)
  {
  }

  /** Listing `p` first and its children behind the rest: what a queue does. */
  lemma {:induction false} Requeue(p: seq<Tree>, q: seq<Tree>)
    ensures LevelOrder(p + q) == p + LevelOrder(q + Children(p))
    decreases Size(p + q)
  {
    if q == [] {
      assert p + q == p && q + Children(p) == Children(p);
    } else {
      LevelSize(p + q);
      ChildrenAppend(p, q);
      Requeue(Children(p), Children(q));
      Unfold(p, q);
      Unfold(q, Children(p));
      Associate(p, q, Children(p), LevelOrder(Children(q) + Children(Children(p))));
    }
  }

  /** Popping the head and appending its children visits in breadth-first order. */
  lemma PopOrder(q: seq<Tree>)
    requires q != []
    ensures LevelOrder(q) == [q[0]] + LevelOrder(q[1..] + q[0].children)
  {
    Requeue([q[0]], q[1..]);
    assert q == [q[0]] + q[1..];
    assert [q[0]][1..] == [];
    assert Children([q[0]]) == q[0].children + [];
    assert q[0].children + [] == q[0].children;
  }

  // --------------------------------------------------------------- one node

  function Pos(n: int): nat {
    if n < 0 then 0 else n
  }

  function Least(a: nat, b: nat): nat {
    if a < b then a else b
  }

  function IdSet(q: seq<Tree>): set<Id> {
    set x | 0 <= x < |q| :: q[x].id
  }

  lemma {:induction false} IdsAreNodes(q: seq<Tree>)
    ensures IdSet(q) <= Nodes(q)
  {
    if q != [] {
      IdsAreNodes(q[1..]);
      forall x | 0 <= x < |q| ensures q[x].id in Nodes(q) {
        if x > 0 {
          assert q[x] == q[1..][x - 1];
          assert q[x].id in IdSet(q[1..]);
        }
      }
    }
  }

  /** How many of a node's children the budget still allows. */
  function Room(x: Tree, budget: int): (m: nat)
    ensures m <= |x.children| && m <= Pos(budget)
  {
    Least(|x.children|, Pos(budget))
  }

  /** The queue after `q`'s head has been handled. */
  function NextQueue(q: seq<Tree>, budget: int): seq<Tree>
    requires q != []
  {
    q[1..] + q[0].children[..Room(q[0], budget)]
  }

  /** `done` and the queue start the breadth-first order; nothing is lost count of. */
  ghost predicate Counting(t: Tree, done: seq<Tree>, q: seq<Tree>, budget: int, omitted: nat, limit: nat) {
    && |done| + |q| + Pos(budget) == limit
    && |done| + |q| + Size(Children(q)) + omitted == Size([t])
    && (budget > 0 ==> LevelOrder([t]) == done + LevelOrder(q))
    && done + q <= LevelOrder([t])
  }

  lemma CountStep(t: Tree, done: seq<Tree>, q: seq<Tree>, budget: int, omitted: nat, limit: nat)
    requires q != [] && Counting(t, done, q, budget, omitted, limit)
    ensures var m := Room(q[0], budget);
      Counting(t, done + [q[0]], NextQueue(q, budget), budget - m, omitted + Size(q[0].children[m..]), limit)
  {
    SizesMove(q, budget);
    OrderStep(t, done, q, budget);
  }

  lemma SizesMove(q: seq<Tree>, budget: int)
    requires q != []
    ensures var m := Room(q[0], budget);
      && |NextQueue(q, budget)| == |q| - 1 + m
      && Size(Children(q)) == m + Size(Children(NextQueue(q, budget))) + Size(q[0].children[m..])
  {
    var x, rest, m := q[0], q[1..], Room(q[0], budget);
    var kept, cut := x.children[..m], x.children[m..];
    assert x.children == kept + cut;
    SizeAppend(kept, cut);
    LevelSize(kept);
    ChildrenAppend(rest, kept);
    SizeAppend(Children(rest), Children(kept));
    SizeAppend(x.children, Children(rest));
  }

  lemma PrefixStays(d: seq<Tree>, n: seq<Tree>, c: seq<Tree>)
    ensures d + n <= d + LevelOrder(n + c)
  {
    Unfold(n + c, []);
    assert (n + c) + [] == n + c;
    TakesIn(d, n, c, LevelOrder(Children(n + c) + []));
  }

  lemma TakesIn(d: seq<Tree>, n: seq<Tree>, c: seq<Tree>, r: seq<Tree>)
    ensures d + n <= d + ((n + c) + r)
  {
  }

  lemma SplitQueue(rest: seq<Tree>, kids: seq<Tree>, m: nat)
    requires m <= |kids|
    ensures rest + kids == (rest + kids[..m]) + kids[m..]
  {
  }

  lemma MoveHead(d: seq<Tree>, x: Tree, r: seq<Tree>)
    ensures d + ([x] + r) == (d + [x]) + r
  {
  }

  lemma OrderOpen(done: seq<Tree>, q: seq<Tree>, budget: int, order: seq<Tree>)
    requires q != [] && budget > 0 && order == done + LevelOrder(q)
    ensures (done + [q[0]]) + NextQueue(q, budget) <= order
    ensures order == (done + [q[0]]) + LevelOrder(q[1..] + q[0].children)
  {
    var x, m := q[0], Room(q[0], budget);
    PopOrder(q);
    MoveHead(done, x, LevelOrder(q[1..] + x.children));
    SplitQueue(q[1..], x.children, m);
    PrefixStays(done + [x], NextQueue(q, budget), x.children[m..]);
  }

  lemma OrderStep(t: Tree, done: seq<Tree>, q: seq<Tree>, budget: int)
    requires q != []
    requires budget > 0 ==> LevelOrder([t]) == done + LevelOrder(q)
    requires done + q <= LevelOrder([t])
    ensures (done + [q[0]]) + NextQueue(q, budget) <= LevelOrder([t])
    ensures budget - Room(q[0], budget) > 0 ==> LevelOrder([t]) == (done + [q[0]]) + LevelOrder(NextQueue(q, budget))
  {
    if budget > 0 {
      OrderOpen(done, q, budget, LevelOrder([t]));
      if budget > |q[0].children| {
        assert q[0].children[..|q[0].children|] == q[0].children;
      }
    } else {
      assert q[0].children[..0] == [];
      assert (done + [q[0]]) + NextQueue(q, budget) == done + q;
    }
  }

  /** What a handled node keeps is live; what it loses is gone. */
  ghost predicate Settled(kids: seq<Id>, d: Tree, live: set<Id>, gone: set<Id>) {
    && kids <= Ids(d.children)
    && (forall x :: 0 <= x < |kids| ==> kids[x] in live)
    && forall x :: |kids| <= x < |d.children| ==> d.children[x].id in gone
  }

  /** The queue's subtrees are untouched; the handled nodes are settled. */
  ghost predicate Pruning(a: Arena, truncated: set<Id>, done: seq<Tree>, q: seq<Tree>, gone: set<Id>) {
    && Represents(a, q) && Distinct(q)
    && IdSet(done) !! Nodes(q) && gone !! Nodes(q) && gone !! IdSet(done)
    && (forall x :: 0 <= x < |done| ==>
         done[x].id in a && Settled(a[done[x].id], done[x], IdSet(done) + IdSet(q), gone))
    && (forall x :: 0 <= x < |done| ==> (done[x].id in truncated <==> |a[done[x].id]| < |done[x].children|))
    && truncated <= IdSet(done)
  }

  /** The arena after the head of the queue keeps `kids`. */
  function Trimmed(a: Arena, x: Tree, m: nat): Arena
    requires m <= |x.children|
  {
    if m < |x.children| then a[x.id := Ids(x.children)[..m]] else a
  }

  lemma HeadFacts(a: Arena, q: seq<Tree>, m: nat)
    requires q != [] && Represents(a, q) && Distinct(q) && m <= |q[0].children|
    ensures var x := q[0]; var q' := q[1..] + x.children[..m]; var cut := x.children[m..];
      && Represents(a, q') && Distinct(q') && x.id !in Nodes(q') + Nodes(cut)
      && Nodes(cut) !! Nodes(q') && Nodes(q') + Nodes(cut) <= Nodes(q)
      && x.id in Nodes(q) && x.id in a && a[x.id] == Ids(x.children)
      && IdSet(q) <= {x.id} + IdSet(q') && IdSet(x.children[..m]) <= IdSet(q') && IdSet(cut) <= Nodes(cut)
  {
    var x := q[0];
    var kept, cut := x.children[..m], x.children[m..];
    assert x.children == kept + cut;
    RepresentsAppend(a, kept, cut);
    RepresentsAppend(a, q[1..], kept);
    DistinctAppend(kept, cut);
    DistinctAppend(q[1..], kept);
    NodesAppend(kept, cut);
    NodesAppend(q[1..], kept);
    IdsAreNodes(cut);
    IdSetAppend(q[1..], kept);
    IdSetHead(q);
  }

  lemma IdSetAppend(p: seq<Tree>, q: seq<Tree>)
    ensures IdSet(p + q) == IdSet(p) + IdSet(q)
  {
    forall i | i in IdSet(q) ensures i in IdSet(p + q) {
      var x :| 0 <= x < |q| && q[x].id == i;
      assert (p + q)[|p| + x] == q[x];
    }
    forall i | i in IdSet(p) ensures i in IdSet(p + q) {
      var x :| 0 <= x < |p| && p[x].id == i;
      assert (p + q)[x] == p[x];
    }
  }

  lemma IdSetHead(q: seq<Tree>)
    requires q != []
    ensures IdSet(q) == {q[0].id} + IdSet(q[1..])
  {
    assert q == [q[0]] + q[1..];
    IdSetAppend([q[0]], q[1..]);
    assert IdSet([q[0]]) == {q[0].id} by {
      assert [q[0]][0].id in IdSet([q[0]]);
    }
  }

  lemma SettledStays(kids: seq<Id>, d: Tree, live: set<Id>, gone: set<Id>, live': set<Id>, gone': set<Id>)
    requires Settled(kids, d, live, gone) && live <= live' && gone <= gone'
    ensures Settled(kids, d, live', gone')
  {
  }

  lemma PruneStep(a: Arena, truncated: set<Id>, done: seq<Tree>, q: seq<Tree>, gone: set<Id>, m: nat)
    requires q != [] && Pruning(a, truncated, done, q, gone) && m <= |q[0].children|
    ensures var x := q[0];
      Pruning(Trimmed(a, x, m), if m < |x.children| then truncated + {x.id} else truncated,
              done + [x], q[1..] + x.children[..m], gone + Nodes(x.children[m..]))
  {
    var x, q', a' := q[0], q[1..] + q[0].children[..m], Trimmed(a, q[0], m);
    var gone' := gone + Nodes(x.children[m..]);
    HeadFacts(a, q, m);
    if m < |x.children| {
      RepresentsFrame(a, q', x.id, Ids(x.children)[..m]);
    }
    IdSetAppend(done, [x]);
    IdSetHead([x]);
    assert [x][1..] == [];
    var live, live' := IdSet(done) + IdSet(q), IdSet(done + [x]) + IdSet(q');
    forall y | 0 <= y < |done|
      ensures done[y].id in a' && a'[done[y].id] == a[done[y].id] && Settled(a'[done[y].id], done[y], live', gone')
      ensures done[y].id != x.id
    {
      assert done[y].id in IdSet(done);
      SettledStays(a[done[y].id], done[y], live, gone, live', gone');
    }
    HeadSettles(a, x, m, live', gone', x.children[..m], x.children[m..]);
  }

  lemma HeadSettles(a: Arena, x: Tree, m: nat, live: set<Id>, gone: set<Id>, kept: seq<Tree>, cut: seq<Tree>)
    requires m <= |x.children| && x.id in a && a[x.id] == Ids(x.children)
    requires kept == x.children[..m] && cut == x.children[m..]
    requires IdSet(kept) <= live && IdSet(cut) <= gone
    ensures |Trimmed(a, x, m)[x.id]| == m && Settled(Trimmed(a, x, m)[x.id], x, live, gone)
  {
    var kids := Trimmed(a, x, m)[x.id];
    forall y | 0 <= y < |kids| ensures kids[y] in live {
      assert kids[y] == kept[y].id && kept[y].id in IdSet(kept);
    }
    forall y | m <= y < |x.children| ensures x.children[y].id in gone {
      assert x.children[y] == cut[y - m] && cut[y - m].id in IdSet(cut);
    }
  }

  // --------------------------------------------------------------- the result

  function Keep(ids: seq<Id>, k: set<Id>): seq<Id> {
    if ids == [] then []
    else Keep(ids[..|ids| - 1], k) + (if ids[|ids| - 1] in k then [ids[|ids| - 1]] else [])
  }

  lemma {:induction false} KeepPrefix(ids: seq<Id>, n: nat, k: set<Id>)
    requires n <= |ids|
    requires forall x :: 0 <= x < n ==> ids[x] in k
    requires forall x :: n <= x < |ids| ==> ids[x] !in k
    ensures Keep(ids, k) == ids[..n]
  {
    if ids != [] {
      var last := |ids| - 1;
      KeepPrefix(ids[..last], if n <= last then n else last, k);
    }
  }

  /** The first `limit` nodes in breadth-first order. */
  function KeptNodes(t: Tree, limit: nat): seq<Tree> {
    LevelOrderLength([t]);
    LevelOrder([t])[..Least(Size([t]), limit)]
  }

  /** `a'` is `a` cut down to the first `limit` nodes: each of them keeps exactly its
    * kept children, in order, and is marked if it lost any; the rest is as it was. */
  ghost predicate CutTo(a: Arena, t: Tree, limit: nat, a': Arena, truncated: set<Id>) {
    var kept := KeptNodes(t, limit);
    var k := IdSet(kept);
    && (forall x :: 0 <= x < |kept| ==>
         kept[x].id in a' && a'[kept[x].id] == Keep(Ids(kept[x].children), k))
    && (forall x :: 0 <= x < |kept| ==>
         (kept[x].id in truncated <==> Keep(Ids(kept[x].children), k) != Ids(kept[x].children)))
    && truncated <= k
    && SameOutside(a, a', k)
  }

  ghost predicate SameOutside(a: Arena, a': Arena, k: set<Id>) {
    forall id :: id !in k ==> (id in a <==> id in a') && (id in a && id in a' ==> a[id] == a'[id])
  }

  lemma AllCounted(t: Tree, done: seq<Tree>, budget: int, omitted: nat, limit: nat)
    requires Counting(t, done, [], budget, omitted, limit)
    ensures done == KeptNodes(t, limit) && Least(Size([t]), limit) + omitted == Size([t])
  {
    LevelOrderLength([t]);
    assert done + [] == done;
    if budget > 0 {
      assert LevelOrder([]) == [];
      assert LevelOrder([t]) == done;
    }
  }

  lemma DoneIsCut(a: Arena, a': Arena, truncated: set<Id>, t: Tree, done: seq<Tree>, gone: set<Id>, limit: nat)
    requires Pruning(a', truncated, done, [], gone) && done == KeptNodes(t, limit)
    requires SameOutside(a, a', IdSet(done))
    ensures CutTo(a, t, limit, a', truncated)
  {
    var k := IdSet(done);
    forall x | 0 <= x < |done|
      ensures a'[done[x].id] == Keep(Ids(done[x].children), k)
      ensures done[x].id in truncated <==> Keep(Ids(done[x].children), k) != Ids(done[x].children)
    {
      var kids, all := a'[done[x].id], Ids(done[x].children);
      assert Settled(kids, done[x], IdSet(done) + IdSet([]), gone);
      KeepPrefix(all, |kids|, k);
      assert all[..|kids|] == kids;
    }
  }

  class TreeArena {
    var children: Arena
    var truncated: set<Id>

    constructor (children: Arena)
      ensures this.children == children && truncated == {}
    {
      this.children, truncated := children, {};
    }

    method CountTree(id: Id, ghost t: Tree) returns (n: nat)
      requires id == t.id && Represents(children, [t])
      ensures n == Size([t])
      decreases t
    {
      assert [t][1..] == [];
      n := 1;
      var kids := children[id];
      for x := 0 to |kids|
        invariant n == 1 + Size(t.children[0..x])
      {
        ChildRepresented(children, t.children, x);
        var c := CountTree(kids[x], t.children[x]);
        SizeSnoc(t.children, 0, x);
        n := n + c;
      }
      assert t.children[0..|kids|] == t.children;
    }

    /** Hand the budget to `id`'s children in order; count what is left out. */
    method Ration(id: Id, ghost x: Tree, budget: int) returns (kept: seq<Id>, left: int, cut: nat)
      requires id == x.id && id in children && children[id] == Ids(x.children) && Represents(children, x.children)
      ensures kept == Ids(x.children)[..Room(x, budget)] && left == budget - Room(x, budget)
      ensures cut == Size(x.children[Room(x, budget)..])
    {
      kept, left, cut := [], budget, 0;
      var kids := children[id];
      ghost var m := Room(x, budget);
      for y := 0 to |kids|
        invariant kept == kids[..Least(y, m)] && left == budget - Least(y, m)
        invariant cut == if y <= m then 0 else Size(x.children[m..y])
      {
        if left > 0 {
          left := left - 1;
          kept := kept + [kids[y]];
        } else {
          ChildRepresented(children, x.children, y);
          var c := CountTree(kids[y], x.children[y]);
          SizeSnoc(x.children, m, y);
          cut := cut + c;
        }
      }
      assert x.children[m..|kids|] == x.children[m..];
    }

    /** Handle the head of the queue. */
    method PruneNode(ghost a0: Arena, id: Id, budget: int, omitted: nat, ghost t: Tree, ghost limit: nat,
                     ghost done: seq<Tree>, ghost q: seq<Tree>, ghost gone: set<Id>)
      returns (kept: seq<Id>, left: int, omitted': nat, ghost gone': set<Id>)
      requires q != [] && id == q[0].id
      requires Counting(t, done, q, budget, omitted, limit)
      requires Pruning(children, truncated, done, q, gone) && SameOutside(a0, children, IdSet(done))
      modifies this
      ensures kept == Ids(q[0].children)[..Room(q[0], budget)]
      ensures Counting(t, done + [q[0]], NextQueue(q, budget), left, omitted', limit)
      ensures Pruning(children, truncated, done + [q[0]], NextQueue(q, budget), gone')
      ensures SameOutside(a0, children, IdSet(done + [q[0]]))
    {
      ghost var x, m := q[0], Room(q[0], budget);
      HeadFacts(children, q, m);
      CountStep(t, done, q, budget, omitted, limit);
      PruneStep(children, truncated, done, q, gone, m);
      var cut;
      kept, left, cut := Ration(id, x, budget);
      omitted', gone' := omitted + cut, gone + Nodes(x.children[m..]);
      OutsideStays(a0, children, done, x, m);
      if |kept| < |children[id]| {
        truncated := truncated + {id};
        children := children[id := kept];
      }
    }

    /** Keep the first `maxNodes` nodes in breadth-first order (the root always). */
    method PruneTree(root: Id, maxNodes: int, ghost t: Tree) returns (omitted: nat)
      requires t.id == root && Represents(children, [t]) && Distinct([t]) && truncated == {}
      modifies this
      ensures CutTo(old(children), t, if maxNodes < 1 then 1 else maxNodes, children, truncated)
      ensures Least(Size([t]), if maxNodes < 1 then 1 else maxNodes) + omitted == Size([t])
    {
      var budget := maxNodes - 1;
      omitted := 0;
      var queue := [root];
      ghost var limit: nat := if maxNodes < 1 then 1 else maxNodes;
      ghost var done: seq<Tree>, q: seq<Tree>, gone: set<Id> := [], [t], {};
      PruneStart(children, t, budget, limit);
      while queue != []
        invariant queue == Ids(q)
        invariant Counting(t, done, q, budget, omitted, limit)
        invariant Pruning(children, truncated, done, q, gone)
        invariant SameOutside(old(children), children, IdSet(done))
        decreases Size(q)
      {
        ghost var q' := NextQueue(q, budget);
        QueueMoves(q, budget);
        var kept;
        kept, budget, omitted, gone := PruneNode(old(children), queue[0], budget, omitted, t, limit, done, q, gone);
        queue := queue[1..] + kept;
        done, q := done + [q[0]], q';
      }
      assert q == [];
      AllCounted(t, done, budget, omitted, limit);
      DoneIsCut(old(children), children, truncated, t, done, gone, limit);
    }
  }

  lemma {:induction false} ChildRepresented(a: Arena, kids: seq<Tree>, y: nat)
    requires y < |kids| && Represents(a, kids)
    ensures Represents(a, [kids[y]])
  {
    assert kids == kids[..y] + ([kids[y]] + kids[y + 1..]);
    RepresentsAppend(a, kids[..y], [kids[y]] + kids[y + 1..]);
    RepresentsAppend(a, [kids[y]], kids[y + 1..]);
  }

  lemma SizeSnoc(kids: seq<Tree>, x: nat, y: nat)
    requires x <= y < |kids|
    ensures Size(kids[x..y + 1]) == Size(kids[x..y]) + Size([kids[y]])
  {
    SizeAppend(kids[x..y], [kids[y]]);
    assert kids[x..y + 1] == kids[x..y] + [kids[y]];
  }

  lemma OutsideStays(a0: Arena, a: Arena, done: seq<Tree>, x: Tree, m: nat)
    requires SameOutside(a0, a, IdSet(done)) && m <= |x.children| && x.id in a
    ensures SameOutside(a0, Trimmed(a, x, m), IdSet(done + [x]))
  {
    IdSetAppend(done, [x]);
    IdSetHead([x]);
    assert [x][1..] == [];
  }

  lemma PruneStart(a: Arena, t: Tree, budget: int, limit: nat)
    requires Represents(a, [t]) && Distinct([t]) && limit == 1 + Pos(budget)
    ensures Counting(t, [], [t], budget, 0, limit) && Pruning(a, {}, [], [t], {})
  {
    LevelSize([t]);
    Unfold([t], []);
    assert [t] + [] == [t];
  }

  lemma QueueMoves(q: seq<Tree>, budget: int)
    requires q != []
    ensures Size(NextQueue(q, budget)) < Size(q)
    ensures Ids(q) != [] && Ids(q)[0] == q[0].id
    ensures Ids(NextQueue(q, budget)) == Ids(q)[1..] + Ids(q[0].children)[..Room(q[0], budget)]
  {
    QueueShrinks(q, Room(q[0], budget));
    IdsAppend(q[1..], q[0].children[..Room(q[0], budget)]);
    IdsSlice(q, 1, |q|);
    IdsSlice(q[0].children, 0, Room(q[0], budget));
  }

  lemma IdsSlice(q: seq<Tree>, x: nat, y: nat)
    requires x <= y <= |q|
    ensures Ids(q[x..y]) == Ids(q)[x..y]
    ensures y == |q| ==> Ids(q[x..]) == Ids(q)[x..]
    ensures x == 0 ==> Ids(q[..y]) == Ids(q)[..y]
  {
  }

  lemma IdsAppend(p: seq<Tree>, q: seq<Tree>)
    ensures Ids(p + q) == Ids(p) + Ids(q)
  {
  }

  lemma QueueShrinks(q: seq<Tree>, m: nat)
    requires q != [] && m <= |q[0].children|
    ensures Size(q[1..] + q[0].children[..m]) < Size(q)
  {
    var kids := q[0].children;
    SizeAppend(q[1..], kids[..m]);
    SizeAppend(kids[..m], kids[m..]);
    assert kids == kids[..m] + kids[m..];
  }
}
