/** Why a clean unit's stored macro log may stand for preprocessing it again: what a run reads,
    against what the dirty closure follows (`dirty_closure` in src/hdl_kgraph/incremental.py,
    `_handle_conditional` and `_handle_include` in src/hdl_kgraph/parser/preprocessor.py). */
module CleanLogs {
  import opened Schema
  import opened MacroExpansion
  import opened Preprocessor
  import opened LineMap
  import opened Replay
  import DirtyClosure

  // -- what a run reads -----------------------------------------------------------------------------

  predicate IsTest(d: Directive) {
    d.Ifdef? || d.Ifndef? || d.Elsif?
  }

  /** The line tests only names of `names`; a live include spells its file out, the graph has
      its INCLUDES edge, and the header it splices reads likewise. */
  ghost predicate LineReads(g: DirtyClosure.Graph, names: set<string>, cfg: Config, st: State, file: string,
                            l: Logical, stack: seq<string>)
    decreases DepthLeft(cfg, stack), 0
  {
    && (IsTest(l.directive) && l.directive.name.Some? ==> l.directive.name.value in names)
    && (l.directive.Include? && Emitting(st.cond) ==>
          && '`' !in l.directive.arg
          && match HeaderOf(cfg, st, file, l, stack)
             case None => true
             case Some(h) =>
               && DirtyClosure.IncludesDep(g, file, h)
               && (h in cfg.files ==>
                     RunReads(g, names, cfg, Entered(cfg, st, file, l, h), h, Group(cfg.files[h], 0), stack + [h])))
  }

  /** So does every line of the run, those of its headers among them. */
  ghost predicate RunReads(g: DirtyClosure.Graph, names: set<string>, cfg: Config, st: State, file: string,
                           s: seq<Logical>, stack: seq<string>)
    decreases DepthLeft(cfg, stack), |s|
  {
    s == [] ||
    (LineReads(g, names, cfg, st, file, s[0], stack) &&
     RunReads(g, names, cfg, Step(cfg, st, file, s[0], stack), file, s[1..], stack))
  }

  /** The same options and the same files, dirty ones aside. */
  ghost predicate SameOutside(cfg: Config, next: Config, dirty: set<string>) {
    && next == cfg.(files := next.files)
    && forall h :: h !in dirty ==>
         (h in cfg.files <==> h in next.files) && (h in cfg.files ==> cfg.files[h] == next.files[h])
  }

  /** The tables define the same ones of `names`. */
  ghost predicate SameDefined(names: set<string>, t: Table, u: Table) {
    forall n :: n in names ==> (n in t <==> n in u)
  }

  /** All that a log and the open groups hold is the same; the tables may differ beyond `names`. */
  ghost predicate SameLog(names: set<string>, a: State, b: State) {
    a.cond == b.cond && a.events == b.events && a.included == b.included && SameDefined(names, a.macros, b.macros)
  }

  // -- the frame of a run -----------------------------------------------------------------------------

  lemma PlainFrame(names: set<string>, cfg: Config, next: Config, a: State, b: State, file: string, l: Logical)
    requires next.both == cfg.both && SameLog(names, a, b)
    requires IsTest(l.directive) && l.directive.name.Some? ==> l.directive.name.value in names
    ensures SameLog(names, PlainStep(cfg, a, file, l), PlainStep(next, b, file, l))
  {
  }

  lemma {:induction false} LineFrame(g: DirtyClosure.Graph, names: set<string>, dirty: set<string>, cfg: Config,
                                     next: Config, a: State, b: State, file: string, l: Logical, stack: seq<string>)
    requires SameOutside(cfg, next, dirty) && DirtyClosure.ClosedUnder(g, dirty) && file !in dirty
    requires SameLog(names, a, b) && LineReads(g, names, cfg, a, file, l, stack)
    ensures SameLog(names, Step(cfg, a, file, l, stack), Step(next, b, file, l, stack))
    decreases DepthLeft(cfg, stack), 0
  {
    PlainFrame(names, cfg, next, a, b, file, l);
    if l.directive.Include? && Emitting(a.cond) {
      assert HeaderOf(next, b, file, l, stack) == HeaderOf(cfg, a, file, l, stack);
      match HeaderOf(cfg, a, file, l, stack)
      case None =>
      case Some(h) =>
        assert DirtyClosure.DependsOn(g, file, h);
        if h in cfg.files {
          RunFrame(g, names, dirty, cfg, next, Entered(cfg, a, file, l, h), Entered(next, b, file, l, h), h,
                   Group(cfg.files[h], 0), stack + [h]);
        }
    }
  }

  /** A run of a clean file logs the same over any table that defines the same tested names, and
      whatever the dirty files now hold: none of them is among its headers. */
  lemma {:induction false} RunFrame(g: DirtyClosure.Graph, names: set<string>, dirty: set<string>, cfg: Config,
                                    next: Config, a: State, b: State, file: string, s: seq<Logical>,
                                    stack: seq<string>)
    requires SameOutside(cfg, next, dirty) && DirtyClosure.ClosedUnder(g, dirty) && file !in dirty
    requires SameLog(names, a, b) && RunReads(g, names, cfg, a, file, s, stack)
    ensures SameLog(names, Run(cfg, a, file, s, stack), Run(next, b, file, s, stack))
    decreases DepthLeft(cfg, stack), |s|
  {
    if s != [] {
      LineFrame(g, names, dirty, cfg, next, a, b, file, s[0], stack);
      RunFrame(g, names, dirty, cfg, next, Step(cfg, a, file, s[0], stack), Step(next, b, file, s[0], stack), file,
               s[1..], stack);
    }
  }

  // -- clean units keep their logs ----------------------------------------------------------------------

  ghost predicate LogAt(cfg: Config, macros: Table, f: Found, log: Stored) {
    var end := Preprocessed(cfg, macros, f);
    log == Stored(end.events, end.included)
  }

  /** The previous build, over `table`, logged `log` for the unit, and its graph shows what the run read. */
  ghost predicate LoggedBefore(g: DirtyClosure.Graph, names: set<string>, cfg: Config, table: Table, f: Found,
                               log: Stored) {
    LogAt(cfg, table, f, log) && RunReads(g, names, cfg, Fresh(table), f.path, Group(f.lines, 0), [f.path])
  }

  /** A file outside the closure keeps its log where the table defines the same tested names. */
  lemma CleanFileKeepsLog(g: DirtyClosure.Graph, names: set<string>, dirty: set<string>, cfg: Config, next: Config,
                          before: Table, now: Table, f: Found, log: Stored)
    requires LoggedBefore(g, names, cfg, before, f, log)
    requires SameOutside(cfg, next, dirty) && DirtyClosure.ClosedUnder(g, dirty) && f.path !in dirty
    requires SameDefined(names, before, now)
    ensures LogAt(next, now, f, log)
  {
    RunFrame(g, names, dirty, cfg, next, Fresh(before), Fresh(now), f.path, Group(f.lines, 0), [f.path]);
  }

  /** A unit with a stored log is clean, was logged by the previous build, and finds the names it
      tests as that build had them; other languages log nothing. */
  ghost predicate KeptHere(g: DirtyClosure.Graph, dirty: set<string>, cfg: Config, stored: map<string, Stored>,
                           b: Build, f: Found) {
    f.path in stored && f.path !in b.consumed ==>
      if f.language.Sv? then
        f.path !in dirty && exists names, before ::
          LoggedBefore(g, names, cfg, before, f, stored[f.path]) && SameDefined(names, before, b.macros)
      else stored[f.path] == Stored([], {})
  }

  ghost predicate Kept(g: DirtyClosure.Graph, dirty: set<string>, cfg: Config, next: Config,
                       stored: map<string, Stored>, files: seq<Found>, defines: Table, n: nat)
    requires n <= |files|
  {
    forall i :: 0 <= i < n ==> KeptHere(g, dirty, cfg, stored, FullAt(next, files, defines, i), files[i])
  }

  /** Then every stored log is what preprocessing the unit here would record. */
  lemma {:induction false} KeptIsFaithful(g: DirtyClosure.Graph, dirty: set<string>, cfg: Config, next: Config,
                                          stored: map<string, Stored>, files: seq<Found>, defines: Table, n: nat)
    requires n <= |files| && SameOutside(cfg, next, dirty) && DirtyClosure.ClosedUnder(g, dirty)
    requires Kept(g, dirty, cfg, next, stored, files, defines, n)
    ensures Faithful(next, stored, files, defines, n)
  {
    if n > 0 {
      KeptIsFaithful(g, dirty, cfg, next, stored, files, defines, n - 1);
      var b, f := FullAt(next, files, defines, n - 1), files[n - 1];
      assert KeptHere(g, dirty, cfg, stored, b, f);
      if f.path in stored && f.path !in b.consumed && f.language.Sv? {
        var names, before :|
          LoggedBefore(g, names, cfg, before, f, stored[f.path]) && SameDefined(names, before, b.macros);
        CleanFileKeepsLog(g, names, dirty, cfg, next, before, b.macros, f, stored[f.path]);
      }
    }
  }

  /** So an update that re-preprocesses the dirty closure ends with the full build's table, and
      skips the same files. */
  lemma UpdateIsFullBuild(g: DirtyClosure.Graph, seeds: set<string>, dirty: set<string>, cfg: Config, next: Config,
                          lite: bool, stored: map<string, Stored>, files: seq<Found>, defines: Table)
    requires DirtyClosure.LeastClosure(g, seeds, dirty) && SameOutside(cfg, next, dirty) && DistinctFiles(files)
    requires Kept(g, dirty, cfg, next, stored, files, defines, |files|)
    ensures UpdateAt(next, lite, stored, files, defines, |files|).macros == FullAt(next, files, defines, |files|).macros
    ensures UpdateAt(next, lite, stored, files, defines, |files|).skipped ==
      FullAt(next, files, defines, |files|).skipped
  {
    KeptIsFaithful(g, dirty, cfg, next, stored, files, defines, |files|);
    ReplaySimulates(next, lite, stored, files, defines, |files|);
  }

  // -- a test is not a use ------------------------------------------------------------------------------

  function Feature(): MacroDef {
    MacroDef("FEATURE", None, "", "a.sv", 1)
  }

  function Guarded(): MacroDef {
    MacroDef("X", None, "", "b.sv", 2)
  }

  /** `a.sv` defines FEATURE, or no longer does. */
  function UnitA(defines: bool): Found {
    Found("a.sv", Sv, if defines then [Line(Define(Some(Feature())), "", false)] else [])
  }

  /** `b.sv` defines X where FEATURE is defined. */
  function UnitB(): Found {
    Found("b.sv", Sv, [Line(Ifdef(Some("FEATURE")), "", false), Line(Define(Some(Guarded())), "", false),
                       Line(Endif, "", false)])
  }

  /** The build is given a define, so conditionals are selected rather than all emitted. */
  function Given(): Table {
    map["TOP" := MacroDef("TOP", None, "", "", 0)]
  }

  function Plain(): Config {
    Config(false, map[], map[], {}, 8, 8)
  }

  /** The stored graph: both files define a macro, and nothing is expanded. */
  function TestGraph(): DirtyClosure.Graph {
    var a, b := DirtyClosure.FileNode("a.sv"), DirtyClosure.FileNode("b.sv");
    var feature, x := DirtyClosure.MacroNode("a.sv:FEATURE"), DirtyClosure.MacroNode("b.sv:X");
    DirtyClosure.Graph({a, b, feature, x},
                       [DirtyClosure.Edge(a, feature, DirtyClosure.DefinesMacro),
                        DirtyClosure.Edge(b, x, DirtyClosure.DefinesMacro)],
                       map[a := "a.sv", b := "b.sv", feature := "FEATURE", x := "X"])
  }

  function LinesB(): seq<Logical> {
    [Logical(Ifdef(Some("FEATURE")), "", 1, 1), Logical(Define(Some(Guarded())), "", 2, 1), Logical(Endif, "", 3, 1)]
  }

  lemma GroupB()
    ensures Group(UnitB().lines, 0) == LinesB()
  {
    var lines := UnitB().lines;
    assert Group(lines, 2) == [LinesB()[2]];
    assert Group(lines, 1) == [LinesB()[1]] + Group(lines, 2);
  }

  /** A guarded define: three lines, run in order. */
  lemma ThreeLines(g: DirtyClosure.Graph, cfg: Config, st: State, file: string, s: seq<Logical>, stack: seq<string>,
                   name: string, m: MacroDef)
    requires !cfg.both && st.cond == [] && |s| == 3 && s[0].directive == Ifdef(Some(name))
    requires s[1].directive == Define(Some(m)) && s[2].directive.Endif?
    ensures var end := Run(cfg, st, file, s, stack);
      && end.included == st.included && end.cond == []
      && end.events == (if name in st.macros then st.events + [Defined(m)] else st.events)
      && end.macros == (if name in st.macros then st.macros[m.name := m] else st.macros)
    ensures RunReads(g, {name}, cfg, st, file, s, stack)
  {
    var s1 := PlainStep(cfg, st, file, s[0]);
    var s2 := PlainStep(cfg, s1, file, s[1]);
    GuardStep(cfg, st, file, s[0], name);
    DefineStep(cfg, s1, file, s[1], m);
    assert s == [s[0]] + s[1..] && s[1..][1..] == s[2..] && s[2..][1..] == [];
    assert Run(cfg, s2, file, s[2..], stack) == PlainStep(cfg, s2, file, s[2]);
    assert Run(cfg, s1, file, s[1..], stack) == Run(cfg, s2, file, s[2..], stack);
    assert RunReads(g, {name}, cfg, s2, file, s[2..], stack);
    assert RunReads(g, {name}, cfg, s1, file, s[1..], stack);
  }

  lemma GuardStep(cfg: Config, st: State, file: string, l: Logical, name: string)
    requires !cfg.both && st.cond == [] && l.directive == Ifdef(Some(name))
    ensures var next := PlainStep(cfg, st, file, l);
      && |next.cond| == 1 && (Emitting(next.cond) <==> name in st.macros)
      && next.macros == st.macros && next.events == st.events && next.included == st.included
  {
    var next := PlainStep(cfg, st, file, l);
    assert next.cond[0] in next.cond;
  }

  lemma DefineStep(cfg: Config, st: State, file: string, l: Logical, m: MacroDef)
    requires l.directive == Define(Some(m))
    ensures var next := PlainStep(cfg, st, file, l);
      && next.cond == st.cond && next.included == st.included
      && next.events == (if Emitting(st.cond) then st.events + [Defined(m)] else st.events)
      && next.macros == (if Emitting(st.cond) then st.macros[m.name := m] else st.macros)
  {
  }

  lemma UnitBRuns(t: Table)
    ensures var end := Preprocessed(Plain(), t, UnitB());
      && end.included == {}
      && ("FEATURE" in t ==> end.events == [Defined(Guarded())] && end.macros == t["X" := Guarded()])
      && ("FEATURE" !in t ==> end.events == [] && end.macros == t)
    ensures RunReads(TestGraph(), {"FEATURE"}, Plain(), Fresh(t), "b.sv", Group(UnitB().lines, 0), ["b.sv"])
  {
    GroupB();
    ThreeLines(TestGraph(), Plain(), Fresh(t), "b.sv", LinesB(), ["b.sv"], "FEATURE", Guarded());
  }

  lemma UnitARuns(defines: bool)
    ensures var end := Preprocessed(Plain(), Given(), UnitA(defines));
      end.included == {} && end.macros == if defines then Given()["FEATURE" := Feature()] else Given()
  {
    if defines {
      var l := Logical(Define(Some(Feature())), "", 1, 1);
      assert Group(UnitA(true).lines, 0) == [l] && [l][1..] == [];
      assert Emitting([]);
      var st := Fresh(Given());
      assert Run(Plain(), st, "a.sv", [l], ["a.sv"]) == Step(Plain(), st, "a.sv", l, ["a.sv"]);
    }
  }

  lemma OnlyADirty()
    ensures DirtyClosure.LeastClosure(TestGraph(), {"a.sv"}, {"a.sv"})
  {
    assert DirtyClosure.ClosedUnder(TestGraph(), {"a.sv"});
  }

  /** The table after two units of which the first includes nothing; `stored` may hold a log of the second. */
  lemma TwoUnits(cfg: Config, lite: bool, stored: map<string, Stored>, files: seq<Found>, defines: Table)
    requires |files| == 2 && files[0].language.Sv? && files[1].language.Sv? && files[0].path !in stored
    requires Preprocessed(cfg, defines, files[0]).included == {}
    ensures var first := Preprocessed(cfg, defines, files[0]).macros;
      && FullAt(cfg, files, defines, 1).macros == first
      && FullAt(cfg, files, defines, 2).macros == Preprocessed(cfg, first, files[1]).macros
      && (files[1].path in stored ==>
            UpdateAt(cfg, lite, stored, files, defines, 2).macros == ApplyEvents(first, stored[files[1].path].events))
  {
    var b := TakeIn(Start(defines), Preprocessed(cfg, defines, files[0]).macros, files[0].path, {});
    assert FullAt(cfg, files, defines, 0) == Start(defines);
    assert UpdateAt(cfg, lite, stored, files, defines, 0) == Start(defines);
    assert FullAt(cfg, files, defines, 1) == b && UpdateAt(cfg, lite, stored, files, defines, 1) == b;
    assert b.consumed == {};
  }

  /** Only expansions are stored as uses, not tests. After an edit of `a.sv` drops FEATURE, the closure holds
      `a.sv` alone; replaying the log of `b.sv` keeps X, which a full build no longer defines. */
  lemma TestedMacroIsMissed()
    ensures var g, cfg, dirty := TestGraph(), Plain(), {"a.sv"};
      var before, after := [UnitA(true), UnitB()], [UnitA(false), UnitB()];
      var log := Stored([Defined(Guarded())], {});
      var stored := map["b.sv" := log];
      && DirtyClosure.LeastClosure(g, {"a.sv"}, dirty)
      && LoggedBefore(g, {"FEATURE"}, cfg, FullAt(cfg, before, Given(), 1).macros, UnitB(), log)
      && "X" in UpdateAt(cfg, false, stored, after, Given(), 2).macros
      && "X" !in FullAt(cfg, after, Given(), 2).macros
  {
    OnlyADirty();
    UnitARuns(true);
    UnitARuns(false);
    UnitBRuns(Given()["FEATURE" := Feature()]);
    UnitBRuns(Given());
    assert "a.sv"[0] != "b.sv"[0] && "X"[0] != "TOP"[0] && "FEATURE"[0] != "TOP"[0];
    var stored := map["b.sv" := Stored([Defined(Guarded())], {})];
    TwoUnits(Plain(), false, stored, [UnitA(true), UnitB()], Given());
    TwoUnits(Plain(), false, stored, [UnitA(false), UnitB()], Given());
    assert [Defined(Guarded())][..0] == [];
    assert ApplyEvents(Given(), [Defined(Guarded())]) == Given()["X" := Guarded()];
  }
}
