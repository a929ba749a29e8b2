/** The update step of the pipeline (`_link_pass2` in src/hdl_kgraph/pipeline.py):
    affected references, the choice of linker, and every run of updates. */
module Database {
  import opened Schema
  import opened LinkSpec
  import opened Incremental
  import opened IncrementalProof
  import opened Linking

  ghost function RecordSet(records: seq<RefRecord>): set<RefRecord> {
    set rec | rec in records
  }

  lemma {:induction false} RecordListSet(irs: seq<IR>)
    requires DistinctPaths(irs) && WellFormed(UnitsOf(irs))
    ensures RecordSet(RecordList(irs)) == Records(UnitsOf(irs))
  {
    if irs != [] {
      var k := |irs| - 1;
      var u, ir := UnitsOf(irs[..k]), irs[k];
      assert irs[..k + 1] == irs;
      UnitsStep(irs, k);
      PrefixUnits(irs, k);
      RecordListSet(irs[..k]);
      RecordsAdd(u, ir);
      RecordSetConcat(RecordList(irs[..k]), UnitRecords(ir));
    }
  }

  lemma RecordsAdd(u: Units, ir: IR)
    requires WellFormedUnit(ir) && ir.path !in u
    ensures Records(u[ir.path := ir]) == Records(u) + RecordSet(UnitRecords(ir))
  {
    UnitAdds(u, ir);
    UnitRecordSet(ir);
    assert RefsOf(u[ir.path := ir]) == RefsOf(u) + RefSet(ir.refs);
  }

  lemma UnitRecordSet(ir: IR)
    requires WellFormedUnit(ir)
    ensures AllDeclared(RefSet(ir.refs))
    ensures RecordSet(UnitRecords(ir)) == set r | r in RefSet(ir.refs) :: RefRecord(r.src.file, r.src, r.kind, r.target)
  {
    forall r | r in RefSet(ir.refs) ensures r.src.Declared? && r.src.file == ir.path {}
    forall r | r in RefSet(ir.refs)
      ensures RefRecord(r.src.file, r.src, r.kind, r.target) in RecordSet(UnitRecords(ir))
    {
      var i :| 0 <= i < |ir.refs| && ir.refs[i] == r;
      assert UnitRecords(ir)[i] == RefRecord(r.src.file, r.src, r.kind, r.target);
    }
  }

  lemma RecordSetConcat(a: seq<RefRecord>, b: seq<RefRecord>)
    ensures RecordSet(a + b) == RecordSet(a) + RecordSet(b)
  {
  }

  /** `changed_target_names` */
  method ChangedTargetNames(nodes: map<NodeId, Node>, irs: seq<IR>, dirty: set<string>) returns (changed: set<DefKey>)
    requires KeyedMap(nodes) && DistinctPaths(irs)
    ensures changed == ChangedNames(NodeSetOf(nodes), UnitsOf(irs), dirty)
  {
    ghost var prior := NamesOf(NodeSetOf(nodes), dirty);
    changed := set id | id in nodes && IsDefinitionKind(nodes[id].kind) && nodes[id].file in dirty ::
      (nodes[id].kind, nodes[id].name);
    PriorNames(nodes, dirty, changed);
    for i := 0 to |irs|
      invariant changed == prior + FreshNames(irs, i, dirty)
    {
      var ir := irs[i];
      changed := changed + set n | n in ir.nodes && IsDefinitionKind(n.kind) && n.file in dirty :: (n.kind, n.name);
    }
    FreshIsAll(irs, dirty);
  }

  ghost function NamesOf(nodes: set<Node>, dirty: set<string>): set<DefKey> {
    set n | n in nodes && IsDefinitionKind(n.kind) && n.file in dirty :: (n.kind, n.name)
  }

  ghost function FreshNames(irs: seq<IR>, i: nat, dirty: set<string>): set<DefKey>
    requires i <= |irs|
  {
    set k, n | 0 <= k < i && n in irs[k].nodes && IsDefinitionKind(n.kind) && n.file in dirty :: (n.kind, n.name)
  }

  lemma PriorNames(nodes: map<NodeId, Node>, dirty: set<string>, names: set<DefKey>)
    requires KeyedMap(nodes)
    requires names == set id | id in nodes && IsDefinitionKind(nodes[id].kind) && nodes[id].file in dirty ::
                       (nodes[id].kind, nodes[id].name)
    ensures names == NamesOf(NodeSetOf(nodes), dirty)
  {
    KeyedSets(nodes);
    forall n | n in NodeSetOf(nodes) && IsDefinitionKind(n.kind) && n.file in dirty ensures (n.kind, n.name) in names {
      assert nodes[n.id] == n;
    }
  }

  lemma FreshIsAll(irs: seq<IR>, dirty: set<string>)
    requires DistinctPaths(irs)
    ensures var u := UnitsOf(irs);
      FreshNames(irs, |irs|, dirty) ==
      set p, n | p in u && n in u[p].nodes && IsDefinitionKind(n.kind) && n.file in dirty :: (n.kind, n.name)
  {
    var u := UnitsOf(irs);
    forall k | 0 <= k < |irs| ensures irs[k].path in u && u[irs[k].path] == irs[k] {
      assert irs[k] in irs;
    }
    forall p | p in u ensures exists k :: 0 <= k < |irs| && irs[k] == u[p] {
      assert u[p] in irs;
    }
  }

  /** The definition kinds that changed under one name. */
  function KindsNamed(changed: set<DefKey>, name: string): set<NodeKind> {
    set key | key in changed && key.1 == name :: key.0
  }

  /** The kinds of changed definition that a reference of each kind could resolve to. */
  lemma TouchesIff(rec: RefRecord, kind: NodeKind, name: string)
    ensures Touches(rec, (kind, name)) <==>
      && name == rec.target
      && (|| (rec.kind.Instantiates? &&
              (kind.Module? || kind.Interface? || kind.Program? || kind.Primitive? || kind.Entity?))
          || (rec.kind.Imports? && kind.Package?)
          || (rec.kind.Extends? && kind.Class?))
  {
  }

  /** The kinds whose changes count. */
  lemma DefinitionKinds(kind: NodeKind)
    ensures IsDefinitionKind(kind) <==>
      || kind.Module? || kind.Interface? || kind.Program? || kind.Primitive? || kind.Entity? || kind.Package?
      || kind.VhdlPackage? || kind.Class? || kind.Function? || kind.Task?
  {
  }

  /** `affected_clean_refs`: the (file, source, kind) keys of the references to re-resolve. */
  method AffectedCleanRefs(records: seq<RefRecord>, changed: set<DefKey>)
    returns (affected: set<(string, NodeId, EdgeKind)>)
    ensures forall rec :: rec in records && (exists key :: key in changed && Touches(rec, key)) ==>
      (rec.file, rec.src, rec.kind) in affected
    ensures forall a :: a in affected ==>
      exists rec :: rec in records && (rec.file, rec.src, rec.kind) == a &&
                    exists key :: key in changed && Touches(rec, key)
  {
    affected := {};
    for i := 0 to |records|
      invariant forall rec :: rec in records[..i] && (exists key :: key in changed && Touches(rec, key)) ==>
        (rec.file, rec.src, rec.kind) in affected
      invariant forall a :: a in affected ==>
        exists rec :: rec in records && (rec.file, rec.src, rec.kind) == a &&
                      exists key :: key in changed && Touches(rec, key)
    {
      var rec := records[i];
      assert records[..i + 1] == records[..i] + [rec];
      var kinds := KindsNamed(changed, rec.target);
      var targets := set k | k in SameKinds(rec.kind) + CrossKinds(rec.kind);
      if kinds * targets != {} {
        ghost var k :| k in kinds * targets;
        assert (k, rec.target) in changed && Touches(rec, (k, rec.target));
        affected := affected + {(rec.file, rec.src, rec.kind)};
      } else {
        forall key | key in changed ensures !Touches(rec, key) {
          assert Touches(rec, key) ==> key.0 in kinds * targets;
        }
      }
    }
    assert records[..|records|] == records;
  }

  /** The stored design: a graph, its reference index, and (ghost) the units it was linked from. */
  class Design {
    var linker: Linker
    ghost var units: Units

    ghost predicate Valid()
      reads this, linker
    {
      && WellFormed(units) && linker.Keyed()
      && linker.AsGraph() == Full(units)
      && RecordSet(linker.refRecords) == Records(units)
    }

    /** A full build. */
    constructor (irs: seq<IR>)
      requires DistinctPaths(irs) && WellFormed(UnitsOf(irs))
      ensures Valid() && fresh(linker) && units == UnitsOf(irs)
    {
      var built := BuildLinker(irs);
      linker := built;
      units := UnitsOf(irs);
    }

    /** One update: `irs` is the whole current unit list, `dirty` the re-parsed and removed files. */
    method Update(irs: seq<IR>, dirty: set<string>) returns (incremental: bool)
      requires Valid() && DistinctPaths(irs) && WellFormed(UnitsOf(irs)) && Covers(units, UnitsOf(irs), dirty)
      modifies this, linker
      ensures units == UnitsOf(irs) && (linker == old(linker) || fresh(linker))
      ensures RecordSet(linker.refRecords) == Records(units)
      ensures incremental <==> !HasVhdl(units)
      ensures incremental ==> linker.AsGraph() == IncrementalLink(Full(old(units)), Records(old(units)), units, dirty)
      ensures linker.AsGraph() == Full(units) <==> (incremental ==> !Stale(old(units), units, dirty))
      ensures Valid() <==> (incremental ==> !Stale(old(units), units, dirty))
    {
      incremental, linker := LinkUnits(linker, irs, dirty, units);
      units := UnitsOf(irs);
    }
  }

  /** Relink in place, or build anew when the tree holds VHDL. */
  method LinkUnits(linker: Linker, irs: seq<IR>, dirty: set<string>, ghost before: Units)
    returns (incremental: bool, next: Linker)
    requires WellFormed(before) && linker.Keyed() && linker.AsGraph() == Full(before)
    requires RecordSet(linker.refRecords) == Records(before)
    requires DistinctPaths(irs) && WellFormed(UnitsOf(irs)) && Covers(before, UnitsOf(irs), dirty)
    modifies linker
    ensures (next == linker || fresh(next)) && next.Keyed()
    ensures RecordSet(next.refRecords) == Records(UnitsOf(irs))
    ensures incremental <==> !HasVhdl(UnitsOf(irs))
    ensures incremental ==> next.AsGraph() == IncrementalLink(Full(before), Records(before), UnitsOf(irs), dirty)
    ensures next.AsGraph() == Full(UnitsOf(irs)) <==> (incremental ==> !Stale(before, UnitsOf(irs), dirty))
  {
    incremental := !(exists ir :: ir in irs && ir.vhdl);
    VhdlAmong(irs);
    if incremental {
      next := linker;
      Relink(next, irs, dirty, before);
      IncrementalEqualsFullIff(before, UnitsOf(irs), dirty);
    } else {
      next := BuildLinker(irs);
    }
  }

  /** The incremental branch: find the affected sources and re-link in place. */
  method Relink(linker: Linker, irs: seq<IR>, dirty: set<string>, ghost before: Units)
    requires WellFormed(before) && linker.Keyed() && linker.AsGraph() == Full(before)
    requires RecordSet(linker.refRecords) == Records(before)
    requires DistinctPaths(irs) && WellFormed(UnitsOf(irs)) && Covers(before, UnitsOf(irs), dirty)
    modifies linker
    ensures linker.Keyed() && RecordSet(linker.refRecords) == Records(UnitsOf(irs))
    ensures linker.AsGraph() == IncrementalLink(Full(before), Records(before), UnitsOf(irs), dirty)
  {
    var changed := ChangedTargetNames(linker.nodes, irs, dirty);
    var keys := AffectedCleanRefs(linker.refRecords, changed);
    var affected := set key | key in keys :: key.1;
    AffectedSet(linker.refRecords, keys, affected, Records(before), changed);
    CleanUnitsPresent(before, UnitsOf(irs), dirty);
    linker.LinkIncremental(irs, dirty, affected);
    RecordListSet(irs);
  }

  /** The full branch: a new linker over all units. */
  method BuildLinker(irs: seq<IR>) returns (linker: Linker)
    requires DistinctPaths(irs) && WellFormed(UnitsOf(irs))
    ensures fresh(linker) && linker.Keyed() && RecordSet(linker.refRecords) == Records(UnitsOf(irs))
    ensures linker.AsGraph() == Full(UnitsOf(irs))
  {
    linker := new Linker();
    linker.LinkFull(irs);
    RecordListSet(irs);
  }

  lemma VhdlAmong(irs: seq<IR>)
    requires DistinctPaths(irs)
    ensures HasVhdl(UnitsOf(irs)) <==> exists ir :: ir in irs && ir.vhdl
  {
    forall ir | ir in irs ensures ir.path in UnitsOf(irs) && UnitsOf(irs)[ir.path] == ir {}
  }

  lemma AffectedSet(records: seq<RefRecord>, keys: set<(string, NodeId, EdgeKind)>, affected: set<NodeId>,
                    index: set<RefRecord>, changed: set<DefKey>)
    requires RecordSet(records) == index && affected == set key | key in keys :: key.1
    requires forall rec :: rec in records && (exists key :: key in changed && Touches(rec, key)) ==>
      (rec.file, rec.src, rec.kind) in keys
    requires forall a :: a in keys ==>
      exists rec :: rec in records && (rec.file, rec.src, rec.kind) == a &&
                    exists key :: key in changed && Touches(rec, key)
    ensures affected == AffectedSrcs(index, changed)
  {
    forall rec | rec in index && exists key :: key in changed && Touches(rec, key) ensures rec.src in affected {
      assert rec in records;
      assert (rec.file, rec.src, rec.kind) in keys;
    }
    forall src | src in affected ensures src in AffectedSrcs(index, changed) {
      var a :| a in keys && a.1 == src;
      var rec :|
        && rec in records && (rec.file, rec.src, rec.kind) == a
        && exists key :: key in changed && Touches(rec, key);
      assert rec in index;
    }
  }

  lemma CleanUnitsPresent(u: Units, v: Units, dirty: set<string>)
    requires WellFormed(u) && WellFormed(v) && Covers(u, v, dirty)
    ensures forall n :: n in Decls(v) && n.file !in dirty ==> n in Full(u).nodes
  {
    forall n | n in Decls(v) && n.file !in dirty ensures n in Decls(u) {
      InDecls(v, n);
      InDecls(u, n);
    }
  }

  // -- runs -----------------------------------------------------------------------------

  /** What one `update` sees: the whole current unit list and the files it re-parsed or lost. */
  datatype Revision = Revision(irs: seq<IR>, dirty: set<string>)

  ghost predicate ValidRevision(rev: Revision) {
    DistinctPaths(rev.irs) && WellFormed(UnitsOf(rev.irs))
  }

  ghost function UnitsBefore(start: Units, history: seq<Revision>, i: nat): Units
    requires i <= |history| && forall k :: 0 <= k < |history| ==> ValidRevision(history[k])
  {
    if i == 0 then start else assert ValidRevision(history[i - 1]); UnitsOf(history[i - 1].irs)
  }

  /** Each revision reports what it changed, and none goes stale. */
  ghost predicate ValidRun(start: Units, history: seq<Revision>) {
    && (forall k :: 0 <= k < |history| ==> ValidRevision(history[k]))
    && (forall k :: 0 <= k < |history| ==>
          && Covers(UnitsBefore(start, history, k), UnitsOf(history[k].irs), history[k].dirty)
          && WellFormed(UnitsBefore(start, history, k))
          && (!HasVhdl(UnitsOf(history[k].irs)) ==>
                !Stale(UnitsBefore(start, history, k), UnitsOf(history[k].irs), history[k].dirty)))
  }

  /** Any sequence of updates none of which goes stale leaves exactly the full link of the last revision. */
  method ApplyAll(design: Design, history: seq<Revision>)
    requires design.Valid() && ValidRun(design.units, history)
    modifies design, design.linker
    ensures design.Valid() && (design.linker == old(design.linker) || fresh(design.linker))
    ensures design.units == UnitsBefore(old(design.units), history, |history|)
  {
    for i := 0 to |history|
      invariant design.Valid() && (design.linker == old(design.linker) || fresh(design.linker))
      invariant design.units == UnitsBefore(old(design.units), history, i)
    {
      assert ValidRevision(history[i]);
      var _ := design.Update(history[i].irs, history[i].dirty);
    }
  }
}
