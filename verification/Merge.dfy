/** Merging per-block databases (`_resolve_conflict`, `run_merge` in
    src/hdl_kgraph/merge.py): one IR per path, linked in any order. */
module Merge {
  import opened Schema
  import opened LinkSpec
  import opened Linking

  datatype OnConflict = ERROR | FIRST | LAST

  /** A stored unit of one source database. */
  datatype Unit = Unit(ir: IR, hash: string)

  datatype Kept = Kept(unit: Unit, source: nat)

  type Source = map<string, Unit>

  datatype MergeResult = Merged(kept: map<string, Kept>) | NoSources | NoUnits | Conflict(path: string)

  /** Two sources hold different versions of `p`. */
  ghost predicate Differ(sources: seq<Source>, p: string, n: nat) {
    exists i, j :: 0 <= i < j < n <= |sources| && p in sources[i] && p in sources[j] &&
                   sources[i][p].hash != sources[j][p].hash
  }

  /** `k` is kept for `p` after the first `n` sources. */
  ghost predicate Keeps(sources: seq<Source>, n: nat, policy: OnConflict, p: string, k: Kept)
    requires n <= |sources|
  {
    && k.source < n && p in sources[k.source] && sources[k.source][p] == k.unit
    && match policy
       case ERROR => forall i :: 0 <= i < n && p in sources[i] ==> sources[i][p].hash == k.unit.hash
       case FIRST => forall i :: 0 <= i < k.source ==> p !in sources[i]
       case LAST => forall i :: k.source <= i < n && p in sources[i] ==> sources[i][p].hash == k.unit.hash
  }

  ghost predicate KeepsAll(sources: seq<Source>, n: nat, policy: OnConflict, kept: map<string, Kept>)
    requires n <= |sources|
  {
    && (forall p :: p in kept <==> exists i :: 0 <= i < n && p in sources[i])
    && (forall p :: p in kept ==> Keeps(sources, n, policy, p, kept[p]))
  }

  /** `_resolve_conflict` for one path; None when the policy refuses. */
  function ResolveConflict(kept: map<string, Kept>, p: string, incoming: Kept,
                           policy: OnConflict): Option<map<string, Kept>>
  {
    if p !in kept then Some(kept[p := incoming])
    else if kept[p].unit.hash == incoming.unit.hash then Some(kept)
    else match policy
      case ERROR => None
      case LAST => Some(kept[p := incoming])
      case FIRST => Some(kept)
  }

  /** The merge after `n` whole sources and the paths `done` of the next one. */
  ghost predicate Absorbing(sources: seq<Source>, n: nat, done: set<string>, policy: OnConflict,
                            kept: map<string, Kept>)
    requires n < |sources|
  {
    && done <= sources[n].Keys
    && (forall p :: p in kept <==> p in done || exists i :: 0 <= i < n && p in sources[i])
    && (forall p :: p in kept ==> Keeps(sources, if p in done then n + 1 else n, policy, p, kept[p]))
  }

  lemma ConflictKeeps(sources: seq<Source>, n: nat, done: set<string>, policy: OnConflict, kept: map<string, Kept>,
                      p: string)
    requires n < |sources| && Absorbing(sources, n, done, policy, kept) && p in sources[n] && p !in done
    ensures match ResolveConflict(kept, p, Kept(sources[n][p], n), policy)
            case Some(next) => Absorbing(sources, n, done + {p}, policy, next)
            case None => policy.ERROR? && Differ(sources, p, n + 1)
  {
    var incoming := Kept(sources[n][p], n);
    if p in kept {
      RepeatKeeps(sources, n, policy, p, kept[p]);
    } else {
      assert Keeps(sources, n + 1, policy, p, incoming);
    }
  }

  /** Meeting a kept path again: what the policy leaves is what it should keep. */
  lemma RepeatKeeps(sources: seq<Source>, n: nat, policy: OnConflict, p: string, old_: Kept)
    requires n < |sources| && p in sources[n] && Keeps(sources, n, policy, p, old_)
    ensures old_.unit.hash == sources[n][p].hash ==> Keeps(sources, n + 1, policy, p, old_)
    ensures old_.unit.hash != sources[n][p].hash ==>
      match policy
      case ERROR => Differ(sources, p, n + 1)
      case FIRST => Keeps(sources, n + 1, policy, p, old_)
      case LAST => Keeps(sources, n + 1, policy, p, Kept(sources[n][p], n))
  {
    assert 0 <= old_.source < n < n + 1 <= |sources| && p in sources[old_.source];
  }

  /** Fold one source into the kept units; a refused path is returned. */
  method Absorb(sources: seq<Source>, n: nat, policy: OnConflict, before: map<string, Kept>)
    returns (kept: map<string, Kept>, conflict: Option<string>)
    requires n < |sources| && KeepsAll(sources, n, policy, before)
    ensures conflict.None? ==> KeepsAll(sources, n + 1, policy, kept)
    ensures conflict.Some? ==> policy.ERROR? && Differ(sources, conflict.value, n + 1)
  {
    kept := before;
    var pending := sources[n].Keys;
    while pending != {}
      invariant pending <= sources[n].Keys
      invariant Absorbing(sources, n, sources[n].Keys - pending, policy, kept)
      decreases pending
    {
      var p :| p in pending;
      ConflictKeeps(sources, n, sources[n].Keys - pending, policy, kept, p);
      var next := ResolveConflict(kept, p, Kept(sources[n][p], n), policy);
      if next.None? {
        return kept, Some(p);
      }
      assert sources[n].Keys - (pending - {p}) == (sources[n].Keys - pending) + {p};
      kept, pending := next.value, pending - {p};
    }
    AbsorbedAll(sources, n, policy, kept);
    conflict := None;
  }

  lemma AbsorbedAll(sources: seq<Source>, n: nat, policy: OnConflict, kept: map<string, Kept>)
    requires n < |sources| && Absorbing(sources, n, sources[n].Keys, policy, kept)
    ensures KeepsAll(sources, n + 1, policy, kept)
  {
    forall p ensures p in kept <==> exists i :: 0 <= i < n + 1 && p in sources[i] {
      assert p in sources[n] <==> p in sources[n].Keys;
    }
    forall p | p in kept ensures Keeps(sources, n + 1, policy, p, kept[p]) {
      KeptOneMore(sources, n, policy, p, kept[p]);
    }
  }

  lemma KeptOneMore(sources: seq<Source>, n: nat, policy: OnConflict, p: string, k: Kept)
    requires n < |sources| && Keeps(sources, if p in sources[n].Keys then n + 1 else n, policy, p, k)
    ensures Keeps(sources, n + 1, policy, p, k)
  {
  }

  /** How a merge ends: with what the policy keeps of every path, or with the reason it does not. */
  ghost predicate Outcome(sources: seq<Source>, policy: OnConflict, result: MergeResult) {
    match result
    case Merged(kept) => sources != [] && kept != map[] && KeepsAll(sources, |sources|, policy, kept)
    case Conflict(p) => policy.ERROR? && Differ(sources, p, |sources|)
    case NoSources => sources == []
    case NoUnits => sources != [] && forall i :: 0 <= i < |sources| ==> sources[i] == map[]
  }

  method RunMerge(sources: seq<Source>, policy: OnConflict) returns (result: MergeResult)
    ensures Outcome(sources, policy, result)
  {
    if sources == [] {
      return NoSources;
    }
    var kept: map<string, Kept> := map[];
    for n := 0 to |sources|
      invariant KeepsAll(sources, n, policy, kept)
    {
      var next, conflict := Absorb(sources, n, policy, kept);
      if conflict.Some? {
        DifferStays(sources, conflict.value, n + 1);
        return Conflict(conflict.value);
      }
      kept := next;
    }
    if kept == map[] {
      NoneKept(sources, policy, kept);
      return NoUnits;
    }
    return Merged(kept);
  }

  lemma DifferStays(sources: seq<Source>, p: string, n: nat)
    requires n <= |sources| && Differ(sources, p, n)
    ensures Differ(sources, p, |sources|)
  {
  }

  lemma NoneKept(sources: seq<Source>, policy: OnConflict, kept: map<string, Kept>)
    requires KeepsAll(sources, |sources|, policy, kept) && kept == map[]
    ensures forall i :: 0 <= i < |sources| ==> sources[i] == map[]
  {
    forall i | 0 <= i < |sources| ensures sources[i] == map[] {
      forall p ensures p !in sources[i] {
        assert p in sources[i] ==> p in kept;
      }
    }
  }

  /** Success under ERROR means no two sources disagree; FIRST and LAST keep that source's content. */
  lemma KeptContent(sources: seq<Source>, policy: OnConflict, kept: map<string, Kept>, p: string)
    requires KeepsAll(sources, |sources|, policy, kept) && p in kept
    ensures policy.ERROR? ==> !Differ(sources, p, |sources|)
    ensures policy.FIRST? ==>
      exists i :: 0 <= i < |sources| && p in sources[i] && sources[i][p] == kept[p].unit &&
                  forall j :: 0 <= j < i ==> p !in sources[j]
    ensures policy.LAST? ==>
      exists i :: 0 <= i < |sources| && p in sources[i] && sources[i][p].hash == kept[p].unit.hash &&
                  forall j :: i < j < |sources| ==> p !in sources[j]
  {
    assert Keeps(sources, |sources|, policy, p, kept[p]);
    if policy.LAST? {
      var i := LastHolder(sources, |sources|, kept[p].source, p);
      assert sources[i][p].hash == kept[p].unit.hash;
    }
  }

  lemma {:induction false} LastHolder(sources: seq<Source>, n: nat, k: nat, p: string) returns (i: nat)
    requires k < n <= |sources| && p in sources[k]
    ensures k <= i < n && p in sources[i] && forall j :: i < j < n ==> p !in sources[j]
  {
    if p in sources[n - 1] { i := n - 1; } else { i := LastHolder(sources, n - 1, k, p); }
  }

  // -- the merged link -----------------------------------------------------------------

  /** The graph of a unit list does not depend on its order. */
  lemma OrderIrrelevant(irs: seq<IR>, other: seq<IR>)
    requires DistinctPaths(irs) && DistinctPaths(other) && WellFormed(UnitsOf(irs))
    requires forall ir :: ir in irs <==> ir in other
    ensures UnitsOf(irs) == UnitsOf(other) && Full(UnitsOf(irs)) == Full(UnitsOf(other))
  {
    forall p ensures p in UnitsOf(irs) <==> p in UnitsOf(other)
      ensures p in UnitsOf(irs) && p in UnitsOf(other) ==> UnitsOf(irs)[p] == UnitsOf(other)[p]
    {
      UnitKept(irs, other, p);
      UnitKept(other, irs, p);
    }
  }

  /** Two runs of the linker over the same units, listed in any two orders, build one graph: its
      loops visit definitions, edges and references in list order, and the order leaves no trace. */
  method LinkInEitherOrder(irs: seq<IR>, other: seq<IR>) returns (a: Linker, b: Linker)
    requires DistinctPaths(irs) && DistinctPaths(other) && WellFormed(UnitsOf(irs))
    requires forall ir :: ir in irs <==> ir in other
    ensures fresh(a) && fresh(b) && a.AsGraph() == b.AsGraph()
  {
    OrderIrrelevant(irs, other);
    a := new Linker();
    a.LinkFull(irs);
    b := new Linker();
    b.LinkFull(other);
  }

  lemma UnitKept(irs: seq<IR>, other: seq<IR>, p: string)
    requires DistinctPaths(irs) && DistinctPaths(other) && forall ir :: ir in irs ==> ir in other
    ensures p in UnitsOf(irs) ==> p in UnitsOf(other) && UnitsOf(other)[p] == UnitsOf(irs)[p]
  {
    if p in UnitsOf(irs) {
      var ir :| ir in irs && ir.path == p;
      assert ir in other;
    }
  }

  /** The blocks partition or overlap on `design`: each holds part of its units, together all of them. */
  ghost predicate BlocksOf(sources: seq<Source>, design: Units) {
    && (forall i, p :: 0 <= i < |sources| && p in sources[i] ==> p in design && sources[i][p].ir == design[p])
    && (forall p :: p in design ==> exists i :: 0 <= i < |sources| && p in sources[i])
  }

  method ListUnits(kept: map<string, Kept>) returns (irs: seq<IR>)
    requires forall p :: p in kept ==> kept[p].unit.ir.path == p
    ensures DistinctPaths(irs) && UnitsOf(irs) == map p | p in kept :: kept[p].unit.ir
  {
    irs := [];
    var pending := kept.Keys;
    while pending != {}
      invariant pending <= kept.Keys
      invariant forall ir :: ir in irs <==> ir.path in kept && ir.path !in pending && ir == kept[ir.path].unit.ir
      invariant DistinctPaths(irs)
      decreases pending
    {
      var p :| p in pending;
      pending := pending - {p};
      forall i | 0 <= i < |irs| ensures irs[i].path != p { assert irs[i] in irs; }
      irs := irs + [kept[p].unit.ir];
    }
    forall p | p in kept ensures p in UnitsOf(irs) && UnitsOf(irs)[p] == kept[p].unit.ir {
      assert kept[p].unit.ir in irs;
    }
  }

  lemma KeptIsDesign(sources: seq<Source>, policy: OnConflict, kept: map<string, Kept>, design: Units)
    requires WellFormed(design) && BlocksOf(sources, design) && KeepsAll(sources, |sources|, policy, kept)
    ensures forall p :: p in kept ==> kept[p].unit.ir.path == p
    ensures (map p | p in kept :: kept[p].unit.ir) == design
  {
    forall p ensures p in kept <==> p in design {
      KeptDomain(sources, policy, kept, design, p);
    }
    forall p | p in kept ensures kept[p].unit.ir == design[p] && kept[p].unit.ir.path == p {
      KeptFromDesign(sources, policy, kept[p], design, p);
    }
  }

  lemma KeptDomain(sources: seq<Source>, policy: OnConflict, kept: map<string, Kept>, design: Units, p: string)
    requires BlocksOf(sources, design) && KeepsAll(sources, |sources|, policy, kept)
    ensures p in kept <==> p in design
  {
    if p in design {
      var i :| 0 <= i < |sources| && p in sources[i];
    }
  }

  lemma KeptFromDesign(sources: seq<Source>, policy: OnConflict, k: Kept, design: Units, p: string)
    requires WellFormed(design) && BlocksOf(sources, design) && Keeps(sources, |sources|, policy, p, k)
    ensures p in design && k.unit.ir == design[p] && k.unit.ir.path == p
  {
  }

  /** Each source files well-formed units under their own paths. */
  ghost predicate Filed(sources: seq<Source>) {
    forall i :: 0 <= i < |sources| ==> FiledSource(sources[i])
  }

  ghost predicate FiledSource(source: Source) {
    forall p :: p in source ==> source[p].ir.path == p && WellFormedUnit(source[p].ir)
  }

  function KeptUnits(kept: map<string, Kept>): Units {
    map p | p in kept :: kept[p].unit.ir
  }

  ghost predicate LinksKept(g: Graph, kept: map<string, Kept>) {
    WellFormed(KeptUnits(kept)) && g == Full(KeptUnits(kept))
  }

  lemma KeptIsFiled(sources: seq<Source>, policy: OnConflict, kept: map<string, Kept>)
    requires Filed(sources) && KeepsAll(sources, |sources|, policy, kept)
    ensures WellFormed(KeptUnits(kept)) && forall p :: p in kept ==> kept[p].unit.ir.path == p
  {
    forall p | p in kept ensures kept[p].unit.ir.path == p && WellFormedUnit(kept[p].unit.ir) {
      assert Keeps(sources, |sources|, policy, p, kept[p]);
      assert FiledSource(sources[kept[p].source]);
    }
  }

  /** A merge that succeeds links, under any policy and whatever conflicts it settled, to
      the full link of exactly the units the policy keeps. */
  method MergeAndLink(sources: seq<Source>, policy: OnConflict) returns (result: MergeResult, linker: Linker)
    requires Filed(sources)
    ensures fresh(linker)
    ensures Outcome(sources, policy, result)
    ensures result.Merged? ==> LinksKept(linker.AsGraph(), result.kept) && linker.Keyed()
  {
    result := RunMerge(sources, policy);
    var irs: seq<IR> := [];
    if result.Merged? {
      KeptIsFiled(sources, policy, result.kept);
      irs := ListUnits(result.kept);
    }
    assert DistinctPaths(irs) && WellFormed(UnitsOf(irs));
    linker := new Linker();
    linker.LinkFull(irs);
  }

  /** When the sources are blocks of one design, what is kept is the design, so the merge
      links to the graph of a monolithic build. */
  lemma MergedIsMonolithic(sources: seq<Source>, policy: OnConflict, kept: map<string, Kept>, design: Units)
    requires WellFormed(design) && BlocksOf(sources, design) && KeepsAll(sources, |sources|, policy, kept)
    ensures Filed(sources) && KeptUnits(kept) == design
    ensures forall g :: LinksKept(g, kept) <==> g == Full(design)
  {
    KeptIsDesign(sources, policy, kept, design);
    forall i | 0 <= i < |sources| ensures FiledSource(sources[i]) {
      forall p | p in sources[i] ensures sources[i][p].ir.path == p && WellFormedUnit(sources[i][p].ir) {
        assert sources[i][p].ir == design[p];
      }
    }
  }
}
