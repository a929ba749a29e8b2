/** Detecting nets merged only through a shared formal port (`alias_collapses`
    in src/hdl_kgraph/graph/clocks.py). */
module Aliases {
  import opened Order
  import opened UnionFind

  /** Nets merged into one domain only because they share a formal port. */
  datatype AliasCollapse = AliasCollapse(formal: string, nets: seq<string>)

  /** The actuals a formal port is bound to, over all instantiations. */
  function Actuals(e: Pairs, formal: string): set<string> {
    set p | p in e && p.0 == formal :: p.1
  }

  function Formals(e: Pairs): set<string> {
    set p | p in e :: p.0
  }

  /** Corroborating evidence: the bindings of formals that aggregated nothing. */
  function SingleBindings(e: Pairs): Pairs {
    set p | p in e && |Actuals(e, p.0)| == 1
  }

  /** `formal` binds several nets that no unaggregated evidence joins. */
  ghost predicate Collapses(e: Pairs, formal: string) {
    && |Actuals(e, formal)| >= 2
    && exists a, b :: a in Actuals(e, formal) && b in Actuals(e, formal) && !Connected(SingleBindings(e), a, b)
  }

  // -- no missed collapse -----------------------------------------------------------------

  /** One actual of each formal, followed upwards. */
  ghost function Follow(e: Pairs, v: string): string {
    if v in Formals(e) then
      var p :| p in e && p.0 == v;
      p.1
    else v
  }

  /** Following actuals from `v` reaches `x` within `n` steps. */
  ghost predicate Reaches(e: Pairs, v: string, x: string, n: nat)
    decreases n
  {
    v == x || (n > 0 && v in Formals(e) && Reaches(e, Follow(e, v), x, n - 1))
  }

  ghost predicate LeadsTo(e: Pairs, v: string, x: string) {
    exists n: nat :: Reaches(e, v, x, n)
  }

  lemma FollowStep(e: Pairs, v: string, x: string)
    requires v in Formals(e) && x !in Formals(e)
    ensures LeadsTo(e, v, x) <==> LeadsTo(e, Follow(e, v), x)
  {
    if LeadsTo(e, v, x) {
      var n: nat :| Reaches(e, v, x, n);
      assert Reaches(e, Follow(e, v), x, n - 1);
    }
    if LeadsTo(e, Follow(e, v), x) {
      var n: nat :| Reaches(e, Follow(e, v), x, n);
      assert Reaches(e, v, x, n + 1);
    }
  }

  /** A formal with one actual follows that one. */
  lemma SingleFollow(e: Pairs, f: string, a: string)
    requires (f, a) in SingleBindings(e)
    ensures f in Formals(e) && Follow(e, f) == a
  {
    assert a in Actuals(e, f) && Follow(e, f) in Actuals(e, f);
    Singleton(Actuals(e, f), a, Follow(e, f));
  }

  lemma Singleton<T>(s: set<T>, a: T, b: T)
    requires |s| == 1 && a in s && b in s
    ensures a == b
  {
    assert |s - {a}| == 0;
  }

  lemma CorroboratedAlike(e: Pairs, a: string, b: string, x: string)
    requires Connected(SingleBindings(e), a, b) && x !in Formals(e)
    ensures LeadsTo(e, a, x) <==> LeadsTo(e, b, x)
  {
    var k := SingleBindings(e);
    forall u, v | Linked(k, u, v) ensures LeadsTo(e, u, x) <==> LeadsTo(e, v, x) {
      var f, w := if (u, v) in k then u else v, if (u, v) in k then v else u;
      SingleFollow(e, f, w);
      FollowStep(e, f, x);
    }
    var p :| IsPath(k, p) && p[0] == a && p[|p| - 1] == b;
    PathInvariant(k, p, z => LeadsTo(e, z, x) == LeadsTo(e, a, x));
  }

  /** Where no formal collapses, a formal and all its actuals lead to the same root nets. */
  lemma BindingAlike(e: Pairs, f: string, a: string, x: string)
    requires (f, a) in e && x !in Formals(e) && !Collapses(e, f)
    ensures LeadsTo(e, f, x) <==> LeadsTo(e, a, x)
  {
    var c := Follow(e, f);
    assert f in Formals(e) && a in Actuals(e, f);
    assert c in Actuals(e, f);
    FollowStep(e, f, x);
    if |Actuals(e, f)| < 2 {
      assert |Actuals(e, f)| >= 1 by { assert Actuals(e, f) - {a} + {a} == Actuals(e, f); }
      Singleton(Actuals(e, f), a, c);
    } else {
      CorroboratedAlike(e, a, c, x);
    }
  }

  /** No missed collapse: if no formal of a component collapses, the component holds at
      most one net that is never a formal. No acyclicity of the bindings is needed. */
  lemma NoMissedCollapse(e: Pairs, x: string, y: string)
    requires Connected(e, x, y) && x !in Formals(e) && y !in Formals(e)
    requires forall f :: f in Formals(e) && Connected(e, x, f) ==> !Collapses(e, f)
    ensures x == y
  {
    var component := set p | p in e && Connected(e, x, p.0);
    forall u, v | Linked(component, u, v) ensures LeadsTo(e, u, x) <==> LeadsTo(e, v, x) {
      var f, w := if (u, v) in component then u else v, if (u, v) in component then v else u;
      assert (f, w) in component;
      BindingAlike(e, f, w, x);
    }
    var p :| IsPath(e, p) && p[0] == x && p[|p| - 1] == y;
    ConnectedRefl(e, x);
    InComponent(e, component, p, x);
    assert Reaches(e, x, x, 0);
    PathInvariant(component, p, z => LeadsTo(e, z, x));
    var n: nat :| Reaches(e, y, x, n);
  }

  lemma {:induction false} InComponent(e: Pairs, component: Pairs, p: seq<string>, x: string)
    requires IsPath(e, p) && Connected(e, x, p[0]) && component == set q | q in e && Connected(e, x, q.0)
    ensures IsPath(component, p)
  {
    if |p| > 1 {
      assert Linked(e, p[0], p[0 + 1]);
      ConnectedStep(e, p[0], p[1]);
      ConnectedTrans(e, x, p[0], p[1]);
      forall i | 0 <= i < |p[1..]| - 1 ensures Linked(e, p[1..][i], p[1..][i + 1]) {
        assert Linked(e, p[i + 1], p[i + 1 + 1]);
      }
      InComponent(e, component, p[1..], x);
      assert Linked(component, p[0], p[1]);
      forall i | 0 <= i < |p| - 1 ensures Linked(component, p[i], p[i + 1]) {
        if i > 0 { assert Linked(component, p[1..][i - 1], p[1..][i - 1 + 1]); }
      }
    }
  }

  // -- the detector --------------------------------------------------------------------------

  ghost predicate Sorted(s: seq<string>) {
    forall i, j :: 0 <= i < j < |s| ==> Less(s[i], s[j])
  }

  /** `sorted(...)` on a set of ids. */
  method SortIds(ids: set<string>) returns (s: seq<string>)
    ensures Sorted(s) && forall x :: x in s <==> x in ids
  {
    s := [];
    var rest := ids;
    while rest != {}
      invariant rest <= ids && Sorted(s)
      invariant forall x :: x in s <==> x in ids && x !in rest
      invariant forall x, y :: x in s && y in rest ==> Less(x, y)
      decreases rest
    {
      var least := Minimum(rest);
      forall y | y in rest - {least} ensures Less(least, y) {
        assert AtMost(least, y);
      }
      s := s + [least];
      rest := rest - {least};
    }
  }

  method Minimum(ids: set<string>) returns (least: string)
    requires ids != {}
    ensures least in ids && forall x :: x in ids ==> AtMost(least, x)
  {
    least :| least in ids;
    var rest := ids - {least};
    while rest != {}
      invariant rest <= ids && least in ids
      invariant forall x :: x in ids && x !in rest ==> AtMost(least, x)
      decreases rest
    {
      var x :| x in rest;
      LessTotal(x, least);
      if Less(x, least) {
        forall y | y in ids && y !in rest ensures AtMost(x, y) {
          if Less(least, y) { LessTransitive(x, least, y); }
        }
        least := x;
      }
      rest := rest - {x};
    }
  }

  /** A site reports its formal with the sorted list of the nets it binds. */
  ghost predicate IsSite(e: Pairs, c: AliasCollapse) {
    Collapses(e, c.formal) && Sorted(c.nets) && forall x :: x in c.nets <==> x in Actuals(e, c.formal)
  }

  /** The report for one root: exactly its collapsing formals among `seen`, sorted, each with its nets. */
  ghost predicate IsReport(e: Pairs, f: Forest, root: string, sites: seq<AliasCollapse>, seen: set<string>)
    requires Ordered(f)
  {
    && (forall i :: 0 <= i < |sites| ==>
          IsSite(e, sites[i]) && Root(f, sites[i].formal) == root && sites[i].formal in seen)
    && (forall i, j :: 0 <= i < j < |sites| ==> Less(sites[i].formal, sites[j].formal))
    && (forall g :: g in seen && Collapses(e, g) && Root(f, g) == root ==> Listed(sites, g))
  }

  ghost predicate Listed(sites: seq<AliasCollapse>, g: string) {
    exists i :: 0 <= i < |sites| && sites[i].formal == g
  }

  /** Whether the actuals of one formal fall into one corroborated component. */
  method Corroborated(e: Pairs, formal: string, corroborating: AliasForest) returns (joined: bool)
    requires corroborating.Valid() && corroborating.united == SingleBindings(e)
    requires |Actuals(e, formal)| >= 2
    modifies corroborating`parent
    ensures corroborating.Valid()
    ensures joined <==> !Collapses(e, formal)
  {
    var actuals := Actuals(e, formal);
    var rest := actuals;
    var roots: set<string> := {};
    ghost var f := corroborating.parent;
    while rest != {}
      invariant rest <= actuals && corroborating.Valid()
      invariant forall y :: Root(corroborating.parent, y) == Root(f, y)
      invariant roots == set a | a in actuals - rest :: Root(f, a)
      decreases rest
    {
      var a :| a in rest;
      var root := corroborating.Find(a);
      rest := rest - {a};
      roots := roots + {root};
    }
    joined := |roots| < 2;
    RootCount(e, formal, f, roots);
  }

  function Sites(out: map<string, seq<AliasCollapse>>, root: string): seq<AliasCollapse> {
    if root in out then out[root] else []
  }

  /** The findings: per domain root, the report over the formals seen; nothing elsewhere. */
  ghost predicate Reports(e: Pairs, f: Forest, roots: set<string>, seen: set<string>,
                          out: map<string, seq<AliasCollapse>>)
    requires Ordered(f)
  {
    && (forall r :: r in out ==> out[r] != [])
    && (forall r :: ReportAt(e, f, roots, seen, r, Sites(out, r)))
  }

  ghost predicate ReportAt(e: Pairs, f: Forest, roots: set<string>, seen: set<string>, r: string,
                           sites: seq<AliasCollapse>)
    requires Ordered(f)
  {
    if r in roots then IsReport(e, f, r, sites, seen) else sites == []
  }

  /** Every id has one root in both forests: path halving changes parents, never roots. */
  ghost predicate SameRoots(f: Forest, g: Forest)
    requires Ordered(f) && Ordered(g)
  {
    forall y :: Root(f, y) == Root(g, y)
  }

  /** `alias_collapses` */
  method AliasCollapses(pairs: seq<(string, string)>, uf: AliasForest, domainRoots: set<string>)
    returns (out: map<string, seq<AliasCollapse>>)
    requires uf.Valid() && uf.united == set p | p in pairs
    modifies uf`parent
    ensures uf.Valid() && SameRoots(uf.parent, old(uf.parent))
    ensures Reports(uf.united, uf.parent, domainRoots, Formals(uf.united), out)
  {
    var e := set p | p in pairs;
    var corroborating := Corroboration(e);
    var formals := SortIds(Formals(e));
    out := map[];
    for i := 0 to |formals|
      invariant uf.Valid() && corroborating.Valid() && corroborating.united == SingleBindings(e)
      invariant fresh(corroborating) && uf.united == e
      invariant SameRoots(uf.parent, old(uf.parent))
      invariant Reports(e, uf.parent, domainRoots, Seen(formals, i), out)
    {
      SeenStep(formals, i);
      out := ReportFormal(e, formals[i], uf, corroborating, domainRoots, Seen(formals, i), out);
    }
    assert Seen(formals, |formals|) == Formals(e);
  }

  /** One round of the loop: the site of `g`, if any, is appended under its root. */
  method ReportFormal(e: Pairs, g: string, uf: AliasForest, corroborating: AliasForest, domainRoots: set<string>,
                      ghost seen: set<string>, out: map<string, seq<AliasCollapse>>)
    returns (next: map<string, seq<AliasCollapse>>)
    requires uf.Valid() && corroborating.Valid() && corroborating.united == SingleBindings(e) && uf != corroborating
    requires forall h :: h in seen ==> Less(h, g)
    requires Reports(e, uf.parent, domainRoots, seen, out)
    modifies uf`parent, corroborating`parent
    ensures uf.Valid() && corroborating.Valid()
    ensures SameRoots(uf.parent, old(uf.parent))
    ensures Reports(e, uf.parent, domainRoots, seen + {g}, next)
  {
    ghost var f := uf.parent;
    var root, sites := Inspect(e, g, uf, corroborating, domainRoots);
    ReportsStep(e, f, domainRoots, seen, g, out, root, sites);
    next := if sites == [] then out else out[root := Sites(out, root) + sites];
    ReportsKept(e, f, uf.parent, domainRoots, seen + {g}, next);
  }

  /** One formal: at most one site, under the root of its component. */
  ghost predicate Inspected(e: Pairs, f: Forest, roots: set<string>, g: string, root: string, sites: seq<AliasCollapse>)
    requires Ordered(f)
  {
    && (sites == [] <==> !(Collapses(e, g) && Root(f, g) in roots))
    && (sites != [] ==> root == Root(f, g) && |sites| == 1 && IsSite(e, sites[0]) && sites[0].formal == g)
  }

  method Inspect(e: Pairs, g: string, uf: AliasForest, corroborating: AliasForest, domainRoots: set<string>)
    returns (root: string, sites: seq<AliasCollapse>)
    requires uf.Valid() && corroborating.Valid() && corroborating.united == SingleBindings(e) && uf != corroborating
    modifies uf`parent, corroborating`parent
    ensures uf.Valid() && corroborating.Valid()
    ensures SameRoots(uf.parent, old(uf.parent))
    ensures Inspected(e, old(uf.parent), domainRoots, g, root, sites)
  {
    root, sites := g, [];
    if |Actuals(e, g)| < 2 {
      return;
    }
    root := uf.Find(g);
    if root !in domainRoots {
      return;
    }
    var joined := Corroborated(e, g, corroborating);
    if !joined {
      var nets := SortIds(Actuals(e, g));
      sites := [AliasCollapse(g, nets)];
    }
  }

  method Corroboration(e: Pairs) returns (uf: AliasForest)
    ensures fresh(uf) && uf.Valid() && uf.united == SingleBindings(e)
  {
    uf := new AliasForest();
    var rest := SingleBindings(e);
    while rest != {}
      invariant fresh(uf) && uf.Valid() && rest <= SingleBindings(e) && uf.united == SingleBindings(e) - rest
      decreases rest
    {
      var p :| p in rest;
      uf.Union(p.0, p.1);
      rest := rest - {p};
      assert (p.0, p.1) == p;
    }
  }

  ghost function Seen(formals: seq<string>, i: nat): set<string>
    requires i <= |formals|
  {
    set g | g in formals[..i]
  }

  lemma SeenStep(formals: seq<string>, i: nat)
    requires i < |formals| && Sorted(formals)
    ensures Seen(formals, i + 1) == Seen(formals, i) + {formals[i]} && formals[i] !in Seen(formals, i)
    ensures forall g :: g in Seen(formals, i) ==> Less(g, formals[i])
  {
    assert formals[..i + 1] == formals[..i] + [formals[i]];
    LessTotal(formals[i], formals[i]);
  }

  lemma ReportsStep(e: Pairs, f: Forest, roots: set<string>, seen: set<string>, g: string,
                    out: map<string, seq<AliasCollapse>>, root: string, sites: seq<AliasCollapse>)
    requires Ordered(f) && forall h :: h in seen ==> Less(h, g)
    requires Reports(e, f, roots, seen, out) && Inspected(e, f, roots, g, root, sites)
    ensures Reports(e, f, roots, seen + {g}, if sites == [] then out else out[root := Sites(out, root) + sites])
  {
    var next := if sites == [] then out else out[root := Sites(out, root) + sites];
    forall r ensures ReportAt(e, f, roots, seen + {g}, r, Sites(next, r)) {
      assert ReportAt(e, f, roots, seen, r, Sites(out, r));
      if sites != [] && r == root {
        assert sites == [sites[0]];
        ReportGrows(e, f, root, Sites(out, root), seen, sites[0]);
      } else if r in roots {
        SeenOther(e, f, r, Sites(out, r), seen, g);
      }
    }
  }

  /** A formal that does not collapse into `r` leaves the report of `r` as it is. */
  lemma SeenOther(e: Pairs, f: Forest, r: string, report: seq<AliasCollapse>, seen: set<string>, g: string)
    requires Ordered(f) && IsReport(e, f, r, report, seen)
    requires !(Collapses(e, g) && Root(f, g) == r)
    ensures IsReport(e, f, r, report, seen + {g})
  {
  }

  lemma ReportGrows(e: Pairs, f: Forest, root: string, prior: seq<AliasCollapse>, seen: set<string>,
                    site: AliasCollapse)
    requires Ordered(f) && forall h :: h in seen ==> Less(h, site.formal)
    requires IsReport(e, f, root, prior, seen)
    requires IsSite(e, site) && Root(f, site.formal) == root
    ensures IsReport(e, f, root, prior + [site], seen + {site.formal})
  {
    var next := prior + [site];
    assert next[|prior|] == site && Listed(next, site.formal);
    forall g | Listed(prior, g) ensures Listed(next, g) {
      var k :| 0 <= k < |prior| && prior[k].formal == g;
      assert next[k].formal == g;
    }
  }

  lemma ReportsKept(e: Pairs, f: Forest, g: Forest, roots: set<string>, seen: set<string>,
                    out: map<string, seq<AliasCollapse>>)
    requires Ordered(f) && Ordered(g) && SameRoots(g, f) && Reports(e, f, roots, seen, out)
    ensures Reports(e, g, roots, seen, out)
  {
    forall r ensures ReportAt(e, g, roots, seen, r, Sites(out, r)) {
      assert ReportAt(e, f, roots, seen, r, Sites(out, r));
    }
  }

  /** Two distinct root nets in one domain component always get that domain reported. */
  lemma CollapsedDomainReported(e: Pairs, f: Forest, roots: set<string>, out: map<string, seq<AliasCollapse>>,
                                x: string, y: string)
    requires Represents(f, e) && Reports(e, f, roots, Formals(e), out)
    requires x != y && x !in Formals(e) && y !in Formals(e)
    requires Root(f, x) == Root(f, y) && Root(f, x) in roots
    ensures Root(f, x) in out
  {
    SameRootIffConnected(f, e, x, y);
    assert ReportAt(e, f, roots, Formals(e), Root(f, x), Sites(out, Root(f, x)));
    if Root(f, x) !in out {
      forall g | g in Formals(e) && Connected(e, x, g) ensures !Collapses(e, g) {
        SameRootIffConnected(f, e, x, g);
      }
      NoMissedCollapse(e, x, y);
    }
  }

  lemma RootCount(e: Pairs, formal: string, f: Forest, roots: set<string>)
    requires Represents(f, SingleBindings(e)) && |Actuals(e, formal)| >= 2
    requires roots == set a | a in Actuals(e, formal) :: Root(f, a)
    ensures |roots| < 2 <==> !Collapses(e, formal)
  {
    var actuals := Actuals(e, formal);
    if |roots| >= 2 {
      var r :| r in roots;
      assert |roots - {r}| >= 1;
      var s :| s in roots - {r};
      var a :| a in actuals && Root(f, a) == r;
      var b :| b in actuals && Root(f, b) == s;
      SameRootIffConnected(f, SingleBindings(e), a, b);
    }
    if Collapses(e, formal) {
      var a, b :| a in actuals && b in actuals && !Connected(SingleBindings(e), a, b);
      SameRootIffConnected(f, SingleBindings(e), a, b);
      assert Root(f, a) in roots && Root(f, b) in roots;
      if |roots| < 2 { Singleton(roots, Root(f, a), Root(f, b)); }
    }
  }
}
