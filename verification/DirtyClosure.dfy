/** The files an edit dirties (`dirty_closure` in src/hdl_kgraph/incremental.py). */
module DirtyClosure {
  import opened Collections

  datatype EdgeKind = Includes | DefinesMacro | UsesMacro

  /** Graph nodes that matter here. */
  datatype NodeId = FileNode(path: string) | MacroNode(id: string) | OtherNode(id: string)

  datatype Edge = Edge(src: NodeId, dst: NodeId, kind: EdgeKind)

  /** The stored dependency graph; every macro node has a name. */
  datatype Graph = Graph(nodes: set<NodeId>, edges: seq<Edge>, names: map<NodeId, string>)

  datatype Reason = Seeded(why: string) | IncludesFile(path: string) | UsesMacroNamed(name: string)

  predicate WellFormed(g: Graph) {
    forall e :: e in g.edges ==> e.src in g.nodes && e.dst in g.nodes && e.src in g.names && e.dst in g.names
  }

  predicate IncludeEdge(e: Edge, user: string, file: string) {
    e == Edge(FileNode(user), FileNode(file), Includes)
  }

  /** `user` includes `file`. */
  ghost predicate IncludesDep(g: Graph, user: string, file: string) {
    exists e :: e in g.edges && IncludeEdge(e, user, file)
  }

  /** `user` expands a macro that `file` defines. */
  ghost predicate MacroDep(g: Graph, user: string, file: string, macro: NodeId) {
    Edge(FileNode(file), macro, DefinesMacro) in g.edges && Edge(FileNode(user), macro, UsesMacro) in g.edges
  }

  ghost predicate DependsOn(g: Graph, user: string, file: string) {
    IncludesDep(g, user, file) || exists macro :: MacroDep(g, user, file, macro)
  }

  /** `reason` names a real dependency of `user` on `file`. */
  ghost predicate Justifies(g: Graph, user: string, file: string, reason: Reason) {
    match reason
    case Seeded(_) => false
    case IncludesFile(path) => path == file && IncludesDep(g, user, file)
    case UsesMacroNamed(name) =>
      exists macro :: MacroDep(g, user, file, macro) && macro in g.names && g.names[macro] == name
  }

  ghost predicate ClosedUnder(g: Graph, s: set<string>) {
    forall user, file :: file in s && DependsOn(g, user, file) ==> user in s
  }

  /** `s` is the least closed set holding the seeds. */
  ghost predicate LeastClosure(g: Graph, seeds: set<string>, s: set<string>) {
    seeds <= s && ClosedUnder(g, s) && forall t: set<string> :: seeds <= t && ClosedUnder(g, t) ==> s <= t
  }

  datatype Dependent = Dependent(user: string, reason: Reason)

  /** One step of the closure: the dependents of one file, with reasons. */
  method Dependents(g: Graph, file: string) returns (deps: seq<Dependent>)
    requires WellFormed(g)
    ensures forall d :: d in deps ==> Justifies(g, d.user, file, d.reason)
    ensures forall user :: DependsOn(g, user, file) ==> exists d :: d in deps && d.user == user
  {
    deps := [];
    for i := 0 to |g.edges|
      invariant forall d :: d in deps ==> Justifies(g, d.user, file, d.reason)
      invariant forall user, e :: e in g.edges[..i] && IncludeEdge(e, user, file) ==> Listed(deps, user)
    {
      var e := g.edges[i];
      ghost var before := deps;
      if e.dst == FileNode(file) && e.kind.Includes? && e.src.FileNode? {
        assert IncludeEdge(e, e.src.path, file);
        deps := deps + [Dependent(e.src.path, IncludesFile(file))];
        assert deps[|before|].user == e.src.path;
      }
      ListedMore(before, deps);
      assert g.edges[..i + 1] == g.edges[..i] + [e];
    }
    for i := 0 to |g.edges|
      invariant forall d :: d in deps ==> Justifies(g, d.user, file, d.reason)
      invariant forall user, e :: e in g.edges && IncludeEdge(e, user, file) ==> Listed(deps, user)
      invariant forall user, macro ::
        Edge(FileNode(file), macro, DefinesMacro) in g.edges[..i] && MacroDep(g, user, file, macro) ==>
        Listed(deps, user)
    {
      var e := g.edges[i];
      ghost var before := deps;
      if e.src == FileNode(file) && e.kind.DefinesMacro? {
        var users := MacroUsers(g, file, e.dst);
        deps := deps + users;
        ListedUsers(before, users);
      }
      ListedMore(before, deps);
      assert g.edges[..i + 1] == g.edges[..i] + [e];
    }
    assert g.edges[..|g.edges|] == g.edges;
  }

  ghost predicate Listed(deps: seq<Dependent>, user: string) {
    exists d :: d in deps && d.user == user
  }

  lemma ListedMore(before: seq<Dependent>, after: seq<Dependent>)
    requires before <= after
    ensures forall user :: Listed(before, user) ==> Listed(after, user)
  {
    forall user | Listed(before, user) ensures Listed(after, user) {
      var d :| d in before && d.user == user;
      assert d in after;
    }
  }

  lemma ListedUsers(before: seq<Dependent>, users: seq<Dependent>)
    ensures forall user :: Listed(users, user) ==> Listed(before + users, user)
  {
    forall user | Listed(users, user) ensures Listed(before + users, user) {
      var d :| d in users && d.user == user;
      assert d in before + users;
    }
  }

  method MacroUsers(g: Graph, file: string, macro: NodeId) returns (users: seq<Dependent>)
    requires WellFormed(g) && Edge(FileNode(file), macro, DefinesMacro) in g.edges
    ensures forall d :: d in users ==> Justifies(g, d.user, file, d.reason)
    ensures forall user :: MacroDep(g, user, file, macro) ==> Listed(users, user)
  {
    users := [];
    for i := 0 to |g.edges|
      invariant forall d :: d in users ==> Justifies(g, d.user, file, d.reason)
      invariant forall user :: Edge(FileNode(user), macro, UsesMacro) in g.edges[..i] ==> Listed(users, user)
    {
      var e := g.edges[i];
      ghost var before := users;
      if e.dst == macro && e.kind.UsesMacro? && e.src.FileNode? {
        assert MacroDep(g, e.src.path, file, macro);
        users := users + [Dependent(e.src.path, UsesMacroNamed(g.names[macro]))];
        assert users[|before|].user == e.src.path;
      }
      ListedMore(before, users);
      assert g.edges[..i + 1] == g.edges[..i] + [e];
    }
    assert g.edges[..|g.edges|] == g.edges;
  }

  /** Dirty files in the order they became dirty. */
  ghost predicate Justified(g: Graph, seeds: map<string, string>, dirty: map<string, Reason>, order: seq<string>) {
    && (forall p :: p in order <==> p in dirty)
    && (forall p :: p in seeds ==> p in dirty)
    && (forall i :: 0 <= i < |order| ==> JustifiedAt(g, seeds, dirty, order, i))
  }

  /** A seed keeps its reason; any other file depends on one that became dirty earlier. */
  ghost predicate JustifiedAt(g: Graph, seeds: map<string, string>, dirty: map<string, Reason>, order: seq<string>,
                              i: int)
    requires 0 <= i < |order|
  {
    var p := order[i];
    p in dirty &&
    if p in seeds then dirty[p] == Seeded(seeds[p])
    else exists j :: 0 <= j < i && Justifies(g, p, order[j], dirty[p])
  }

  /** Everything pending or closed: only pending files may still have undirtied dependents. */
  ghost predicate Progress(g: Graph, dirty: set<string>, pending: seq<string>) {
    && (forall p :: p in pending ==> p in dirty)
    && (forall user, file :: file in dirty && file !in pending && DependsOn(g, user, file) ==> user in dirty)
  }

  ghost predicate Within(g: Graph, seeds: set<string>, dirty: set<string>) {
    forall t: set<string> :: seeds <= t && ClosedUnder(g, t) ==> dirty <= t
  }

  /** Paths that can ever become dirty: termination's measure. */
  function Paths(g: Graph, seeds: map<string, string>): set<string> {
    seeds.Keys + set e | e in g.edges && e.src.FileNode? :: e.src.path
  }

  /** Mark what depends on `file`; what is newly marked becomes pending. */
  method MarkDependents(g: Graph, seeds: map<string, string>, before: map<string, Reason>, rest: seq<string>,
                        ghost order0: seq<string>, deps: seq<Dependent>, ghost file: string)
    returns (dirty: map<string, Reason>, pending: seq<string>, ghost order: seq<string>)
    requires file in before && before.Keys <= Paths(g, seeds)
    requires forall d :: d in deps ==> Justifies(g, d.user, file, d.reason)
    requires Justified(g, seeds, before, order0) && Within(g, seeds.Keys, before.Keys)
    ensures before.Keys <= dirty.Keys <= Paths(g, seeds)
    ensures Justified(g, seeds, dirty, order) && Within(g, seeds.Keys, dirty.Keys)
    ensures forall d :: d in deps ==> d.user in dirty
    ensures forall p :: p in pending <==> p in rest || (p in dirty && p !in before)
    ensures dirty.Keys == before.Keys ==> pending == rest
  {
    dirty, pending, order := before, rest, order0;
    for i := 0 to |deps|
      invariant before.Keys <= dirty.Keys <= Paths(g, seeds)
      invariant Justified(g, seeds, dirty, order)
      invariant forall d :: d in deps[..i] ==> d.user in dirty
      invariant forall p :: p in pending <==> p in rest || (p in dirty && p !in before)
      invariant Within(g, seeds.Keys, dirty.Keys)
      invariant dirty.Keys == before.Keys ==> pending == rest
    {
      var d := deps[i];
      assert deps[..i + 1] == deps[..i] + [d];
      if d.user !in dirty {
        JustifiedUserIsPath(g, seeds, d, file);
        AddJustified(g, seeds, dirty, order, d, file);
        WithinAdd(g, seeds.Keys, dirty.Keys, d, file);
        order := order + [d.user];
        dirty := dirty[d.user := d.reason];
        pending := pending + [d.user];
      }
    }
    assert deps[..|deps|] == deps;
  }

  method DirtyClosure(g: Graph, seeds: map<string, string>) returns (dirty: map<string, Reason>,
                      ghost order: seq<string>)
    requires WellFormed(g)
    ensures LeastClosure(g, seeds.Keys, dirty.Keys)
    ensures Justified(g, seeds, dirty, order)
  {
    dirty := map p | p in seeds :: Seeded(seeds[p]);
    var pending := ToSeq(seeds.Keys);
    order := pending;
    while pending != []
      invariant dirty.Keys <= Paths(g, seeds)
      invariant Justified(g, seeds, dirty, order)
      invariant Progress(g, dirty.Keys, pending) && Within(g, seeds.Keys, dirty.Keys)
      decreases Paths(g, seeds) - dirty.Keys, |pending|
    {
      var file := pending[|pending| - 1];
      ghost var rest := pending[..|pending| - 1];
      assert pending == rest + [file];
      pending := pending[..|pending| - 1];
      if FileNode(file) !in g.nodes {
        NoDependents(g, file);
        continue;
      }
      var deps := Dependents(g, file);
      dirty, pending, order := MarkDependents(g, seeds, dirty, pending, order, deps, file);
    }
    assert ClosedUnder(g, dirty.Keys);
  }

  lemma NoDependents(g: Graph, file: string)
    requires WellFormed(g) && FileNode(file) !in g.nodes
    ensures forall user :: !DependsOn(g, user, file)
  {
  }

  lemma JustifiedUserIsPath(g: Graph, seeds: map<string, string>, d: Dependent, file: string)
    requires Justifies(g, d.user, file, d.reason)
    ensures d.user in Paths(g, seeds)
  {
    if d.reason.IncludesFile? {
      var e :| e in g.edges && IncludeEdge(e, d.user, file);
    } else {
      var macro :| MacroDep(g, d.user, file, macro);
      assert Edge(FileNode(d.user), macro, UsesMacro) in g.edges;
    }
  }

  lemma AddJustified(g: Graph, seeds: map<string, string>, dirty: map<string, Reason>, order: seq<string>, d: Dependent,
                     file: string)
    requires Justified(g, seeds, dirty, order) && d.user !in dirty && file in dirty
    requires Justifies(g, d.user, file, d.reason)
    ensures Justified(g, seeds, dirty[d.user := d.reason], order + [d.user])
  {
    var next, longer := dirty[d.user := d.reason], order + [d.user];
    forall i | 0 <= i < |longer| ensures JustifiedAt(g, seeds, next, longer, i) {
      if i < |order| {
        assert JustifiedAt(g, seeds, dirty, order, i);
        assert order[i] != d.user;
        if order[i] !in seeds {
          var j :| 0 <= j < i && Justifies(g, order[i], order[j], dirty[order[i]]);
          assert longer[j] == order[j];
        }
      } else {
        var j :| 0 <= j < |order| && order[j] == file;
        assert longer[j] == file;
      }
    }
  }

  lemma WithinAdd(g: Graph, seeds: set<string>, dirty: set<string>, d: Dependent, file: string)
    requires Within(g, seeds, dirty) && file in dirty && Justifies(g, d.user, file, d.reason)
    ensures Within(g, seeds, dirty + {d.user})
  {
    assert DependsOn(g, d.user, file) by {
      if d.reason.UsesMacroNamed? {
        var macro :| MacroDep(g, d.user, file, macro);
      }
    }
  }
}
