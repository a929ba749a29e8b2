/** Replaying a clean unit's macro log instead of preprocessing it again: the
    compile-order loop of `_execute`, `_reuse_unit` and `_replay_macros_only` in
    src/hdl_kgraph/pipeline.py. */
module Replay {
  import opened Schema
  import opened MacroExpansion
  import opened Preprocessor
  import opened LineMap

  datatype Language = Sv | Vhdl | Other

  /** A discovered file, in compile order. */
  datatype Found = Found(path: string, language: Language, lines: seq<Line>)

  /** What the database keeps of a unit's preprocessing. */
  datatype Stored = Stored(events: seq<MacroEvent>, included: set<string>)

  /** The loop's state: the shared table, the units preprocessed standalone, the headers
      spliced into earlier units, and the files skipped as "included". */
  datatype Build = Build(macros: Table, processed: set<string>, consumed: set<string>, skipped: seq<string>)

  function Start(defines: Table): Build {
    Build(defines, {}, {}, [])
  }

  /** The effect of preprocessing a unit against a table. */
  function Preprocessed(cfg: Config, macros: Table, f: Found): State {
    Run(cfg, Fresh(macros), f.path, Group(f.lines, 0), [f.path])
  }

  function TakeIn(b: Build, macros: Table, path: string, included: set<string>): Build {
    var processed := b.processed + {path};
    b.(macros := macros, processed := processed, consumed := b.consumed + (included - processed))
  }

  function Skip(b: Build, path: string): Build {
    b.(skipped := b.skipped + [path])
  }

  /** A full build's step. */
  function FullStep(cfg: Config, b: Build, f: Found): Build {
    if f.path in b.consumed then Skip(b, f.path)
    else if f.language.Sv? then
      var end := Preprocessed(cfg, b.macros, f);
      TakeIn(b, end.macros, f.path, end.included)
    else b
  }

  /** `_reuse_unit` passes VHDL by; the lite path of `_replay_macros_only` replays any language. */
  predicate Replays(lite: bool, f: Found, stored: map<string, Stored>) {
    f.path in stored && (lite || !f.language.Vhdl?)
  }

  /** An update's step: a clean unit is replayed from its log. */
  function UpdateStep(cfg: Config, lite: bool, stored: map<string, Stored>, b: Build, f: Found): Build {
    if f.path in b.consumed then Skip(b, f.path)
    else if Replays(lite, f, stored) then
      TakeIn(b, ApplyEvents(b.macros, stored[f.path].events), f.path, stored[f.path].included)
    else if f.path in stored then b
    else FullStep(cfg, b, f)
  }

  function FullAt(cfg: Config, files: seq<Found>, defines: Table, n: nat): Build
    requires n <= |files|
  {
    if n == 0 then Start(defines) else FullStep(cfg, FullAt(cfg, files, defines, n - 1), files[n - 1])
  }

  function UpdateAt(cfg: Config, lite: bool, stored: map<string, Stored>, files: seq<Found>, defines: Table,
                    n: nat): Build
    requires n <= |files|
  {
    if n == 0 then Start(defines)
    else UpdateStep(cfg, lite, stored, UpdateAt(cfg, lite, stored, files, defines, n - 1), files[n - 1])
  }

  // -- the hypothesis ------------------------------------------------------------------------

  /** A clean unit's stored log is what preprocessing it here would record; other languages log nothing. */
  ghost predicate FaithfulHere(cfg: Config, stored: map<string, Stored>, b: Build, f: Found) {
    f.path in stored && f.path !in b.consumed ==>
      if f.language.Sv? then
        var end := Preprocessed(cfg, b.macros, f);
        stored[f.path] == Stored(end.events, end.included)
      else stored[f.path] == Stored([], {})
  }

  ghost predicate DistinctFiles(files: seq<Found>) {
    forall i, j :: 0 <= i < j < |files| ==> files[i].path != files[j].path
  }

  /** The first `n` clean units are faithful at their positions in a full build. */
  ghost predicate Faithful(cfg: Config, stored: map<string, Stored>, files: seq<Found>, defines: Table, n: nat)
    requires n <= |files|
  {
    n == 0 || (Faithful(cfg, stored, files, defines, n - 1) &&
               FaithfulHere(cfg, stored, FullAt(cfg, files, defines, n - 1), files[n - 1]))
  }

  // -- the simulation --------------------------------------------------------------------------

  /** Clean units of other languages that the replay marks as processed although a full build would not. */
  function Extra(cfg: Config, lite: bool, stored: map<string, Stored>, files: seq<Found>, defines: Table,
                 n: nat): set<string>
    requires n <= |files|
  {
    if n == 0 then {}
    else
      var f, full := files[n - 1], FullAt(cfg, files, defines, n - 1);
      Extra(cfg, lite, stored, files, defines, n - 1) +
      if Replays(lite, f, stored) && !f.language.Sv? && f.path !in full.consumed then {f.path} else {}
  }

  lemma {:induction false} ExtraIsPast(cfg: Config, lite: bool, stored: map<string, Stored>, files: seq<Found>,
                                       defines: Table, n: nat, m: nat)
    requires n <= m < |files| && DistinctFiles(files)
    ensures files[m].path !in Extra(cfg, lite, stored, files, defines, n)
  {
    if n > 0 { ExtraIsPast(cfg, lite, stored, files, defines, n - 1, m); }
  }

  /** The update's state: same table, same skips, and sets that differ by `extra` only. */
  ghost predicate Simulates(full: Build, update: Build, extra: set<string>) {
    && update.macros == full.macros && update.skipped == full.skipped
    && update.processed == full.processed + extra && update.consumed == full.consumed - extra
    && extra !! full.processed && full.processed !! full.consumed
  }

  /** A file is never both processed standalone and marked as spliced earlier, at any
      position of either run, whatever the stored logs say. */
  lemma {:induction false} NeverBoth(cfg: Config, lite: bool, stored: map<string, Stored>, files: seq<Found>,
                                     defines: Table, n: nat)
    requires n <= |files|
    ensures FullAt(cfg, files, defines, n).processed !! FullAt(cfg, files, defines, n).consumed
    ensures var update := UpdateAt(cfg, lite, stored, files, defines, n); update.processed !! update.consumed
  {
    if n > 0 {
      NeverBoth(cfg, lite, stored, files, defines, n - 1);
    }
  }

  lemma TakeInSimulates(full: Build, update: Build, extra: set<string>, macros: Table, path: string,
                        included: set<string>)
    requires Simulates(full, update, extra) && path !in extra && path !in full.consumed
    ensures Simulates(TakeIn(full, macros, path, included), TakeIn(update, macros, path, included), extra)
  {
  }

  lemma ReplayOnlySimulates(full: Build, update: Build, extra: set<string>, path: string)
    requires Simulates(full, update, extra) && path !in extra && path !in full.consumed && path !in full.processed
    ensures Simulates(full, TakeIn(update, update.macros, path, {}), extra + {path})
  {
  }

  lemma StepSimulates(cfg: Config, lite: bool, stored: map<string, Stored>, full: Build, update: Build,
                      extra: set<string>, f: Found)
    requires Simulates(full, update, extra) && FaithfulHere(cfg, stored, full, f)
    requires f.path !in extra && f.path !in full.processed
    ensures Simulates(FullStep(cfg, full, f), UpdateStep(cfg, lite, stored, update, f),
              extra + if Replays(lite, f, stored) && !f.language.Sv? && f.path !in full.consumed then {f.path} else {})
  {
    if f.path !in full.consumed {
      if f.language.Sv? {
        var end := Preprocessed(cfg, full.macros, f);
        UnitAlignedAndLogged(cfg, full.macros, f.path, f.lines);
        TakeInSimulates(full, update, extra, end.macros, f.path, end.included);
        assert extra + {} == extra;
      } else if Replays(lite, f, stored) {
        ReplayOnlySimulates(full, update, extra, f.path);
      }
    }
  }

  /** At every position the update has the full build's macro table and skips the same files;
      its sets differ from the full build's by the extra paths only. */
  lemma {:induction false} ReplaySimulates(cfg: Config, lite: bool, stored: map<string, Stored>, files: seq<Found>,
                                           defines: Table, n: nat)
    requires n <= |files| && DistinctFiles(files) && Faithful(cfg, stored, files, defines, n)
    ensures Simulates(FullAt(cfg, files, defines, n), UpdateAt(cfg, lite, stored, files, defines, n),
                      Extra(cfg, lite, stored, files, defines, n))
  {
    if n > 0 {
      ReplaySimulates(cfg, lite, stored, files, defines, n - 1);
      ExtraIsPast(cfg, lite, stored, files, defines, n - 1, n - 1);
      NotYetProcessed(cfg, files, defines, n - 1, n - 1);
      var full, update := FullAt(cfg, files, defines, n - 1), UpdateAt(cfg, lite, stored, files, defines, n - 1);
      StepSimulates(cfg, lite, stored, full, update, Extra(cfg, lite, stored, files, defines, n - 1), files[n - 1]);
    }
  }

  lemma {:induction false} NotYetProcessed(cfg: Config, files: seq<Found>, defines: Table, n: nat, m: nat)
    requires n <= m < |files| && DistinctFiles(files)
    ensures files[m].path !in FullAt(cfg, files, defines, n).processed
  {
    if n > 0 { NotYetProcessed(cfg, files, defines, n - 1, m); }
  }

  /** The sets agree exactly when no clean unit of another language was replayed. */
  lemma SetsAgreeIff(cfg: Config, lite: bool, stored: map<string, Stored>, files: seq<Found>, defines: Table, n: nat)
    requires n <= |files| && DistinctFiles(files) && Faithful(cfg, stored, files, defines, n)
    ensures var full, update := FullAt(cfg, files, defines, n), UpdateAt(cfg, lite, stored, files, defines, n);
            update == full <==> Extra(cfg, lite, stored, files, defines, n) == {}
  {
    ReplaySimulates(cfg, lite, stored, files, defines, n);
  }

  /** They need not agree: a clean C unit is marked as processed by the replay alone, on either path. */
  lemma CleanCUnitDiffers(cfg: Config, lite: bool)
    ensures var files, stored := [Found("tb.c", Other, [])], map["tb.c" := Stored([], {})];
            && DistinctFiles(files) && Faithful(cfg, stored, files, map[], 1)
            && UpdateAt(cfg, lite, stored, files, map[], 1).processed == {"tb.c"}
            && FullAt(cfg, files, map[], 1).processed == {}
  {
    var files, stored := [Found("tb.c", Other, [])], map["tb.c" := Stored([], {})];
    assert UpdateAt(cfg, lite, stored, files, map[], 0) == Start(map[]) == FullAt(cfg, files, map[], 0);
    assert Faithful(cfg, stored, files, map[], 0);
  }

  /** In a pure SystemVerilog tree the two runs coincide at every position. */
  lemma {:induction false} PureSvAgrees(cfg: Config, lite: bool, stored: map<string, Stored>, files: seq<Found>,
                                        defines: Table, n: nat)
    requires n <= |files| && DistinctFiles(files) && Faithful(cfg, stored, files, defines, n)
    requires forall f :: f in files ==> f.language.Sv?
    ensures UpdateAt(cfg, lite, stored, files, defines, n) == FullAt(cfg, files, defines, n)
  {
    NoExtra(cfg, lite, stored, files, defines, n);
    SetsAgreeIff(cfg, lite, stored, files, defines, n);
  }

  lemma {:induction false} NoExtra(cfg: Config, lite: bool, stored: map<string, Stored>, files: seq<Found>,
                                   defines: Table, n: nat)
    requires n <= |files| && forall f :: f in files ==> f.language.Sv?
    ensures Extra(cfg, lite, stored, files, defines, n) == {}
  {
    if n > 0 { NoExtra(cfg, lite, stored, files, defines, n - 1); }
  }

  // -- the loop ----------------------------------------------------------------------------------

  /** The logs of the SystemVerilog files without a stored one that the first `n` steps preprocess. */
  function LogsAt(cfg: Config, lite: bool, stored: map<string, Stored>, files: seq<Found>, defines: Table, n: nat)
    : map<string, Stored>
    requires n <= |files|
  {
    if n == 0 then map[]
    else
      var f, b := files[n - 1], UpdateAt(cfg, lite, stored, files, defines, n - 1);
      var logs, end := LogsAt(cfg, lite, stored, files, defines, n - 1), Preprocessed(cfg, b.macros, f);
      if f.path in stored || !f.language.Sv? || f.path in b.consumed then logs
      else logs[f.path := Stored(end.events, end.included)]
  }

  /** One pass over the discovered files; `stored` is empty for a full build. */
  method Execute(cfg: Config, lite: bool, stored: map<string, Stored>, files: seq<Found>, defines: Table)
    returns (b: Build, logs: map<string, Stored>)
    ensures b == UpdateAt(cfg, lite, stored, files, defines, |files|)
    ensures stored == map[] ==> b == FullAt(cfg, files, defines, |files|)
    ensures logs == LogsAt(cfg, lite, stored, files, defines, |files|)
  {
    var machine: Machine := new Machine(cfg, defines);
    var processed: set<string>, consumed: set<string>, skipped: seq<string> := {}, {}, [];
    logs := map[];
    for n := 0 to |files|
      invariant machine.cfg == cfg && fresh(machine)
      invariant Build(machine.macros, processed, consumed, skipped) == UpdateAt(cfg, lite, stored, files, defines, n)
      invariant logs == LogsAt(cfg, lite, stored, files, defines, n)
    {
      var f := files[n];
      if f.path in consumed {
        skipped := skipped + [f.path];
      } else if Replays(lite, f, stored) {
        var events := stored[f.path].events;
        for k := 0 to |events|
          invariant machine.macros == ApplyEvents(UpdateAt(cfg, lite, stored, files, defines, n).macros, events[..k])
        {
          assert events[..k + 1][..k] == events[..k];
          machine.macros := Apply(machine.macros, events[k]);
        }
        assert events[..|events|] == events;
        processed := processed + {f.path};
        consumed := consumed + (stored[f.path].included - processed);
      } else if f.path !in stored && f.language.Sv? {
        var _ := machine.Preprocess(f.path, f.lines);
        processed := processed + {f.path};
        consumed := consumed + (machine.included - processed);
        logs := logs[f.path := Stored(machine.events, machine.included)];
      }
    }
    b := Build(machine.macros, processed, consumed, skipped);
    if stored == map[] { UpdateOfNothing(cfg, lite, files, defines, |files|); }
  }

  lemma {:induction false} UpdateOfNothing(cfg: Config, lite: bool, files: seq<Found>, defines: Table, n: nat)
    requires n <= |files|
    ensures UpdateAt(cfg, lite, map[], files, defines, n) == FullAt(cfg, files, defines, n)
  {
    if n > 0 { UpdateOfNothing(cfg, lite, files, defines, n - 1); }
  }
}
