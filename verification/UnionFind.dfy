/** The net-alias union-find of src/hdl_kgraph/graph/clocks.py: path compression,
    lexicographically smallest root. */
module UnionFind {
  import opened Order

  // -- connectivity -------------------------------------------------------------------------

  type Pairs = set<(string, string)>

  predicate Linked(e: Pairs, a: string, b: string) {
    (a, b) in e || (b, a) in e
  }

  predicate IsPath(e: Pairs, p: seq<string>) {
    p != [] && forall i :: 0 <= i < |p| - 1 ==> Linked(e, p[i], p[i + 1])
  }

  ghost predicate Connected(e: Pairs, a: string, b: string) {
    exists p :: IsPath(e, p) && p[0] == a && p[|p| - 1] == b
  }

  lemma ConnectedRefl(e: Pairs, a: string)
    ensures Connected(e, a, a)
  {
    assert IsPath(e, [a]);
  }

  lemma ConnectedStep(e: Pairs, a: string, b: string)
    requires Linked(e, a, b)
    ensures Connected(e, a, b)
  {
    assert IsPath(e, [a, b]);
  }

  lemma ConnectedTrans(e: Pairs, a: string, b: string, c: string)
    requires Connected(e, a, b) && Connected(e, b, c)
    ensures Connected(e, a, c)
  {
    var p :| IsPath(e, p) && p[0] == a && p[|p| - 1] == b;
    var q :| IsPath(e, q) && q[0] == b && q[|q| - 1] == c;
    assert IsPath(e, p + q[1..]);
  }

  lemma ConnectedSym(e: Pairs, a: string, b: string)
    requires Connected(e, a, b)
    ensures Connected(e, b, a)
  {
    var p :| IsPath(e, p) && p[0] == a && p[|p| - 1] == b;
    var q := seq(|p|, i requires 0 <= i < |p| => p[|p| - 1 - i]);
    forall i | 0 <= i < |q| - 1 ensures Linked(e, q[i], q[i + 1]) {
      assert Linked(e, p[|p| - 2 - i], p[|p| - 2 - i + 1]);
    }
    assert IsPath(e, q);
  }

  lemma ConnectedMono(e: Pairs, f: Pairs, a: string, b: string)
    requires Connected(e, a, b) && e <= f
    ensures Connected(f, a, b)
  {
    var p :| IsPath(e, p) && p[0] == a && p[|p| - 1] == b;
    assert IsPath(f, p);
  }

  /** A property every link preserves holds along every path. */
  lemma {:induction false} PathInvariant(e: Pairs, p: seq<string>, inv: string -> bool)
    requires IsPath(e, p) && inv(p[0])
    requires forall a, b :: Linked(e, a, b) ==> (inv(a) <==> inv(b))
    ensures inv(p[|p| - 1])
  {
    if |p| > 1 {
      assert Linked(e, p[0], p[0 + 1]);
      forall i | 0 <= i < |p[1..]| - 1 ensures Linked(e, p[1..][i], p[1..][i + 1]) {
        assert Linked(e, p[i + 1], p[i + 1 + 1]);
      }
      PathInvariant(e, p[1..], inv);
    }
  }

  // -- the forest --------------------------------------------------------------------------

  type Forest = map<string, string>

  /** Every stored parent is strictly smaller than its child. */
  ghost predicate Ordered(f: Forest) {
    forall x :: x in f ==> Less(f[x], x)
  }

  ghost function Below(f: Forest, x: string): set<string> {
    set k | k in f && !Less(x, k)
  }

  /** Parents strictly decrease, so walking up terminates. */
  lemma BelowShrinks(f: Forest, x: string)
    requires Ordered(f) && x in f
    ensures Below(f, f[x]) < Below(f, x)
  {
    LessTotal(x, x);
    forall k | k in Below(f, f[x]) ensures k in Below(f, x) {
      if Less(x, k) { LessTransitive(f[x], x, k); }
    }
    assert x in Below(f, x) && x !in Below(f, f[x]);
  }

  ghost function Root(f: Forest, x: string): string
    requires Ordered(f)
    decreases Below(f, x)
  {
    if x in f then (BelowShrinks(f, x); Root(f, f[x])) else x
  }

  lemma {:induction false} RootFacts(f: Forest, x: string)
    requires Ordered(f)
    ensures Root(f, x) !in f && AtMost(Root(f, x), x) && Root(f, Root(f, x)) == Root(f, x)
    decreases Below(f, x)
  {
    if x in f {
      BelowShrinks(f, x);
      RootFacts(f, f[x]);
      if Less(Root(f, x), f[x]) { LessTransitive(Root(f, x), f[x], x); }
    }
  }

  /** Redirecting a node to a smaller one: every node below it follows, the rest stay. */
  lemma {:induction false} Redirect(f: Forest, g: Forest, x: string, target: string, y: string)
    requires Ordered(f) && g == f[x := target] && Less(target, x)
    requires Root(f, target) != x && (x in f ==> Root(f, target) == Root(f, x))
    ensures Ordered(g)
    ensures Root(g, y) == if Root(f, y) == x then Root(f, target) else Root(f, y)
    decreases Below(f, y)
  {
    if y == x {
      RedirectBelow(f, g, x, target, target);
      RootFacts(f, x);
      assert Root(g, x) == Root(g, target);
    } else if y in f {
      BelowShrinks(f, y);
      Redirect(f, g, x, target, f[y]);
      assert Root(g, y) == Root(g, g[y]);
    }
  }

  /** Nodes smaller than the redirected one are untouched. */
  lemma {:induction false} RedirectBelow(f: Forest, g: Forest, x: string, target: string, y: string)
    requires Ordered(f) && g == f[x := target] && Less(target, x) && Less(y, x)
    ensures Ordered(g) && Root(g, y) == Root(f, y)
    decreases Below(f, y)
  {
    LessTotal(y, y);
    if y in f {
      BelowShrinks(f, y);
      LessTransitive(f[y], y, x);
      RedirectBelow(f, g, x, target, f[y]);
      assert Root(g, y) == Root(g, g[y]);
    }
  }

  /** The forest represents the equivalence closure of `e`. */
  ghost predicate Represents(f: Forest, e: Pairs) {
    && Ordered(f)
    && (forall p :: p in e ==> Root(f, p.0) == Root(f, p.1))
    && (forall x :: Connected(e, x, Root(f, x)))
  }

  class AliasForest {
    var parent: Forest
    // The pairs united so far.
    ghost var united: Pairs

    ghost predicate Valid()
      reads this
    {
      Represents(parent, united)
    }

    constructor ()
      ensures Valid() && united == {}
    {
      parent, united := map[], {};
      new;
      forall x ensures Connected(united, x, Root(parent, x)) { ConnectedRefl(united, x); }
    }

    /** Both loops of `find`: walk to the root, then point the whole path at it. */
    method Find(x: string) returns (root: string)
      requires Valid()
      modifies this`parent
      ensures Valid() && root == Root(old(parent), x)
      ensures forall y :: Root(parent, y) == Root(old(parent), y)
    {
      root := x;
      while root in parent && parent[root] != root
        invariant parent == old(parent) && Root(parent, root) == Root(parent, x)
        decreases Below(parent, root)
      {
        BelowShrinks(parent, root);
        root := parent[root];
      }
      assert root !in parent by { if root in parent { LessTotal(root, root); } }
      var y := x;
      while y in parent && parent[y] != y
        invariant Ordered(parent) && Root(parent, y) == root && root !in parent
        invariant forall z :: Root(parent, z) == Root(old(parent), z)
        decreases Below(parent, y)
      {
        BelowShrinks(parent, y);
        var next := parent[y];
        Compress(parent, y, root, y);
        forall z ensures Root(parent[y := root], z) == Root(parent, z) {
          Compress(parent, y, root, z);
        }
        assert Below(parent[y := root], next) == Below(parent, next);
        assert Below(parent[y := root], y) == Below(parent, y);
        assert Root(parent, next) == root;
        parent := parent[y := root];
        y := next;
      }
      ConnectedKept(old(parent), parent, united);
    }

    /** `union`: the lexicographically smaller root wins. */
    method Union(a: string, b: string)
      requires Valid()
      modifies this
      ensures Valid() && united == old(united) + {(a, b)}
    {
      var ra := Find(a);
      var rb := Find(b);
      ghost var f, e := parent, united;
      united := united + {(a, b)};
      if ra != rb {
        if Less(rb, ra) {
          ra, rb := rb, ra;
        }
        LessTotal(ra, rb);
        Join(f, e, a, b, ra, rb);
        parent := parent[rb := ra];
      } else {
        JoinSame(f, e, a, b);
      }
    }
  }

  /** Compression keeps the represented relation: it keeps every root. */
  lemma ConnectedKept(f: Forest, g: Forest, e: Pairs)
    requires Represents(f, e) && Ordered(g) && forall y :: Root(g, y) == Root(f, y)
    ensures Represents(g, e)
  {
  }

  lemma JoinSame(f: Forest, e: Pairs, a: string, b: string)
    requires Represents(f, e) && Root(f, a) == Root(f, b)
    ensures Represents(f, e + {(a, b)})
  {
    forall x ensures Connected(e + {(a, b)}, x, Root(f, x)) {
      ConnectedMono(e, e + {(a, b)}, x, Root(f, x));
    }
  }

  lemma Join(f: Forest, e: Pairs, a: string, b: string, ra: string, rb: string)
    requires Represents(f, e) && Less(ra, rb)
    requires (ra == Root(f, a) && rb == Root(f, b)) || (ra == Root(f, b) && rb == Root(f, a))
    ensures Represents(f[rb := ra], e + {(a, b)})
  {
    var g, e' := f[rb := ra], e + {(a, b)};
    RootFacts(f, a);
    RootFacts(f, b);
    LessTotal(ra, rb);
    forall x ensures Ordered(g) && Root(g, x) == if Root(f, x) == rb then ra else Root(f, x) {
      Redirect(f, g, rb, ra, x);
    }
    RootsConnected(f, e, a, b);
    forall x ensures Connected(e', x, Root(g, x)) {
      ConnectedMono(e, e', x, Root(f, x));
      if Root(f, x) == rb {
        ConnectedTrans(e', x, rb, ra);
      }
    }
  }

  /** The new pair connects the two roots. */
  lemma RootsConnected(f: Forest, e: Pairs, a: string, b: string)
    requires Represents(f, e)
    ensures var e' := e + {(a, b)};
      Connected(e', Root(f, a), Root(f, b)) && Connected(e', Root(f, b), Root(f, a))
  {
    var e' := e + {(a, b)};
    ConnectedMono(e, e', a, Root(f, a));
    ConnectedMono(e, e', b, Root(f, b));
    ConnectedStep(e', a, b);
    ConnectedSym(e', a, Root(f, a));
    ConnectedTrans(e', Root(f, a), a, b);
    ConnectedTrans(e', Root(f, a), b, Root(f, b));
    ConnectedSym(e', Root(f, a), Root(f, b));
  }

  // -- what the structure computes --------------------------------------------------------

  /** Two ids share a root exactly when the unions connect them. */
  lemma SameRootIffConnected(f: Forest, e: Pairs, x: string, y: string)
    requires Represents(f, e)
    ensures Root(f, x) == Root(f, y) <==> Connected(e, x, y)
  {
    if Root(f, x) == Root(f, y) {
      ConnectedSym(e, y, Root(f, y));
      ConnectedTrans(e, x, Root(f, x), y);
    }
    if Connected(e, x, y) {
      var p :| IsPath(e, p) && p[0] == x && p[|p| - 1] == y;
      PathInvariant(e, p, z => Root(f, z) == Root(f, x));
    }
  }

  /** The root is the lexicographically smallest id of its component. */
  lemma RootIsMinimum(f: Forest, e: Pairs, x: string, y: string)
    requires Represents(f, e) && Connected(e, x, y)
    ensures Connected(e, x, Root(f, x)) && AtMost(Root(f, x), y)
  {
    SameRootIffConnected(f, e, x, y);
    RootFacts(f, y);
  }

  /** So the roots depend on the unions only, not on how finds and unions interleave. */
  lemma RootsAreCanonical(f: Forest, g: Forest, e: Pairs, x: string)
    requires Represents(f, e) && Represents(g, e)
    ensures Root(f, x) == Root(g, x)
  {
    RootIsMinimum(f, e, x, Root(g, x));
    RootIsMinimum(g, e, x, Root(f, x));
    LessTotal(Root(f, x), Root(g, x));
  }

  /** `alias_uf` */
  method AliasUf(pairs: seq<(string, string)>) returns (uf: AliasForest)
    ensures fresh(uf) && uf.Valid() && uf.united == set p | p in pairs
  {
    uf := new AliasForest();
    for i := 0 to |pairs|
      invariant fresh(uf) && uf.Valid() && uf.united == set p | p in pairs[..i]
    {
      assert pairs[..i + 1] == pairs[..i] + [pairs[i]];
      uf.Union(pairs[i].0, pairs[i].1);
    }
    assert pairs[..|pairs|] == pairs;
  }

  lemma Compress(f: Forest, y: string, root: string, z: string)
    requires Ordered(f) && y in f && root == Root(f, y)
    ensures Ordered(f[y := root]) && Root(f[y := root], z) == Root(f, z)
  {
    RootFacts(f, y);
    LessTotal(y, y);
    BelowShrinks(f, y);
    RootFacts(f, f[y]);
    if Less(root, f[y]) { LessTransitive(root, f[y], y); }
    RootFacts(f, z);
    Redirect(f, f[y := root], y, root, z);
  }
}
