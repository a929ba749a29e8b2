/** What the dependence relation behind the impact radius says, rule by rule, and the order of the
    report (src/hdl_kgraph/graph/analysis.py:208-331). */
module Dependence {
  import opened Order
  import opened Schema
  import opened Impact

  // -- the enclosing unit --------------------------------------------------------------------------

  /** The kinds reported as affected design units. */
  lemma UnitKinds(k: Kind)
    ensures IsUnit(k) <==>
      || k.ModuleKind? || k.InterfaceKind? || k.ProgramKind? || k.PrimitiveKind? || k.PackageKind? || k.CheckerKind?
      || k.ClassKind? || k.EntityKind? || k.ArchitectureKind? || k.VhdlPackageKind? || k.PackageBodyKind?
      || k.ConfigurationKind?
  {
  }

  /** `arcs[i]` is the first on record that declares `n`, and `p` is its scope. */
  predicate FirstDeclares(arcs: seq<Arc>, p: Id, n: Id, i: nat) {
    && i < |arcs| && arcs[i] == Arc(p, n, DeclaresLink)
    && forall j :: 0 <= j < i ==> arcs[j].dst != n || arcs[j].kind != DeclaresLink
  }

  lemma {:induction false} FirstIsParent(arcs: seq<Arc>, p: Id, n: Id, i: nat)
    requires FirstDeclares(arcs, p, n, i)
    ensures Parent(arcs, n) == Some(p)
  {
    if i > 0 { FirstIsParent(arcs[1..], p, n, i - 1); }
  }

  lemma {:induction false} ParentIsFirst(arcs: seq<Arc>, n: Id) returns (i: nat)
    requires Parent(arcs, n).Some?
    ensures FirstDeclares(arcs, Parent(arcs, n).value, n, i)
  {
    if arcs[0].dst == n && arcs[0].kind == DeclaresLink {
      i := 0;
    } else {
      i := ParentIsFirst(arcs[1..], n);
      assert forall j :: 0 < j < |arcs| ==> arcs[j] == arcs[1..][j - 1];
      i := i + 1;
    }
  }

  /** A node of a unit kind encloses itself and nothing else does. */
  lemma UnitEnclosesItself(g: Design, n: Id, u: Id)
    requires n in g.nodes && IsUnit(g.nodes[n].kind)
    ensures Encloses(g, n, u) <==> u == n
  {
    assert Climb(g, n, 0) == Some(n) && UnitAt(g, n, 0);
    assert FirstUnit(g, n, n, 0);
  }

  lemma {:induction false} ClimbFromParent(g: Design, n: Id, p: Id, k: nat)
    requires Parent(g.arcs, n) == Some(p)
    ensures Climb(g, n, k + 1) == Climb(g, p, k)
  {
    if k > 0 {
      ClimbFromParent(g, n, p, k - 1);
    } else {
      assert Climb(g, n, 0) == Some(n);
    }
  }

  lemma {:induction false} ClimbEnds(g: Design, n: Id, k: nat)
    requires Parent(g.arcs, n).None? && k > 0
    ensures Climb(g, n, k).None?
  {
    if k > 1 { ClimbEnds(g, n, k - 1); } else { assert Climb(g, n, 0) == Some(n); }
  }

  /** Any other node is enclosed by what encloses the first scope on record to declare it. */
  lemma ScopeEncloses(g: Design, n: Id, p: Id, i: nat, u: Id)
    requires n in g.nodes && !IsUnit(g.nodes[n].kind) && FirstDeclares(g.arcs, p, n, i)
    ensures Encloses(g, n, u) <==> Encloses(g, p, u)
  {
    FirstIsParent(g.arcs, p, n, i);
    assert !UnitAt(g, n, 0);
    forall k: nat ensures Climb(g, n, k + 1) == Climb(g, p, k) && (UnitAt(g, n, k + 1) <==> UnitAt(g, p, k)) {
      ClimbFromParent(g, n, p, k);
    }
    if k: nat :| FirstUnit(g, p, u, k) {
      forall j: nat | j < k + 1 ensures !UnitAt(g, n, j) {
        if j > 0 { assert UnitAt(g, n, (j - 1) + 1) <==> UnitAt(g, p, j - 1); }
      }
      assert FirstUnit(g, n, u, k + 1);
    }
    if k: nat :| FirstUnit(g, n, u, k) {
      forall j: nat | j < k - 1 ensures !UnitAt(g, p, j) {
        assert UnitAt(g, n, j + 1) <==> UnitAt(g, p, j);
      }
      assert UnitAt(g, n, (k - 1) + 1) <==> UnitAt(g, p, k - 1);
      assert FirstUnit(g, p, u, k - 1);
    }
  }

  lemma {:induction false} NoParent(arcs: seq<Arc>, n: Id)
    requires forall a :: a in arcs ==> a.dst != n || a.kind != DeclaresLink
    ensures Parent(arcs, n).None?
  {
    if arcs != [] {
      assert arcs[0] in arcs;
      NoParent(arcs[1..], n);
    }
  }

  /** Outside all units nothing encloses it. */
  lemma NothingEncloses(g: Design, n: Id, u: Id)
    requires n in g.nodes && !IsUnit(g.nodes[n].kind)
    requires forall a :: a in g.arcs ==> a.dst != n || a.kind != DeclaresLink
    ensures !Encloses(g, n, u)
  {
    NoParent(g.arcs, n);
    if k: nat :| FirstUnit(g, n, u, k) {
      if k > 0 { ClimbEnds(g, n, k); }
    }
  }

  // -- one step of the search ------------------------------------------------------------------------

  /** A change to a file affects the files that include it, the users of its macros and its units. */
  lemma FileAffects(g: Design, n: Id, d: Id, via: Link)
    requires n in g.nodes && g.nodes[n].kind == FileKind
    ensures Affects(g, n, d, via) <==>
      || (via == IncludesLink && Arc(d, n, IncludesLink) in g.arcs)
      || (via == UsesMacroLink && exists m ::
            Arc(n, m, DefinesMacroLink) in g.arcs && Arc(d, m, UsesMacroLink) in g.arcs)
      || (via == DeclaresLink && Arc(n, d, DeclaresLink) in g.arcs && d in g.nodes && IsUnit(g.nodes[d].kind))
  {
    if via == IncludesLink && Arc(d, n, IncludesLink) in g.arcs {
      assert FromIn(g, n, Arc(d, n, IncludesLink), d, via);
    }
    if m :| via == UsesMacroLink && Arc(n, m, DefinesMacroLink) in g.arcs && Arc(d, m, UsesMacroLink) in g.arcs {
      assert FromOut(g, n, Arc(n, m, DefinesMacroLink), d, via);
    }
    if via == DeclaresLink && Arc(n, d, DeclaresLink) in g.arcs && d in g.nodes && IsUnit(g.nodes[d].kind) {
      assert FromOut(g, n, Arc(n, d, DeclaresLink), d, via);
    }
  }

  /** `s` is in the scope of `d` and instantiates, imports, uses or binds `n`. */
  ghost predicate ScopedUse(g: Design, n: Id, s: Id, d: Id, via: Link) {
    && (via == InstantiatesLink || via == ImportsLink || via == UsesPackageLink || via == BindsLink)
    && Arc(s, n, via) in g.arcs && Encloses(g, s, d)
  }

  /** A change to any other node affects the units that instantiate, import, use or bind it, what
      extends or implements it, and, for an architecture, its entity. */
  lemma NodeAffects(g: Design, n: Id, d: Id, via: Link)
    requires n in g.nodes && g.nodes[n].kind != FileKind
    ensures Affects(g, n, d, via) <==>
      || (exists s :: ScopedUse(g, n, s, d, via))
      || ((via == ExtendsLink || via == ImplementsLink) && Arc(d, n, via) in g.arcs)
      || (via == ImplementsLink && g.nodes[n].kind == ArchitectureKind && Arc(n, d, ImplementsLink) in g.arcs)
  {
    if s :| ScopedUse(g, n, s, d, via) {
      assert FromIn(g, n, Arc(s, n, via), d, via);
    }
    if (via == ExtendsLink || via == ImplementsLink) && Arc(d, n, via) in g.arcs {
      assert FromIn(g, n, Arc(d, n, via), d, via);
    }
    if via == ImplementsLink && g.nodes[n].kind == ArchitectureKind && Arc(n, d, ImplementsLink) in g.arcs {
      assert FromOut(g, n, Arc(n, d, ImplementsLink), d, via);
    }
    if InUpTo(g, n, g.arcs, d, via) {
      var a :| a in g.arcs && FromIn(g, n, a, d, via);
      assert a == Arc(a.src, n, via);
      if ThroughScope(via) && Encloses(g, a.src, d) { assert ScopedUse(g, n, a.src, d, via); }
    }
  }

  // -- the report's order ------------------------------------------------------------------------------

  /** The texts by which kinds are ordered. */
  lemma KindTexts(tag: string)
    ensures KindText(FileKind) == "file" && KindText(ModuleKind) == "module" && KindText(InterfaceKind) == "interface"
    ensures KindText(ProgramKind) == "program" && KindText(PrimitiveKind) == "primitive"
    ensures KindText(PackageKind) == "package" && KindText(CheckerKind) == "checker" && KindText(ClassKind) == "class"
    ensures KindText(EntityKind) == "entity" && KindText(ArchitectureKind) == "architecture"
    ensures KindText(VhdlPackageKind) == "vhdl_package" && KindText(PackageBodyKind) == "package_body"
    ensures KindText(ConfigurationKind) == "configuration" && KindText(Other(tag)) == tag
  {
  }

  /** Nearer first; then by the kind's text, the name and the id. */
  lemma PrecedesIff(a: ImpactRecord, b: ImpactRecord)
    ensures var s, t := KindText(a.data.kind), KindText(b.data.kind);
      Precedes(a, b) <==>
      (a.depth < b.depth ||
       (a.depth == b.depth &&
        (Less(s, t) ||
         (s == t && (Less(a.data.name, b.data.name) || (a.data.name == b.data.name && Less(a.node, b.node)))))))
  {
    TripleBefore(SortKey(a), SortKey(b));
  }
}
