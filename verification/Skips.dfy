/** Which files a run over the discovered files preprocesses and which it skips as included
    (`_execute`, `_reuse_unit` and `_replay_macros_only` in src/hdl_kgraph/pipeline.py). */
module Skips {
  import opened Schema
  import opened MacroExpansion
  import opened Preprocessor
  import opened LineMap
  import opened Replay

  // -- a full build ------------------------------------------------------------------------------

  /** The headers that preprocessing `files[i]` at its place in a full build splices. */
  function SplicedBy(cfg: Config, files: seq<Found>, defines: Table, i: nat): set<string>
    requires i < |files|
  {
    Preprocessed(cfg, FullAt(cfg, files, defines, i).macros, files[i]).included
  }

  /** The file is skipped at its place. */
  predicate Skipped(cfg: Config, files: seq<Found>, defines: Table, n: nat)
    requires n < |files|
  {
    FullAt(cfg, files, defines, n + 1).skipped != FullAt(cfg, files, defines, n).skipped
  }

  /** An earlier SystemVerilog file, itself not skipped, splices this one. */
  ghost predicate SplicedEarlier(cfg: Config, files: seq<Found>, defines: Table, n: nat, path: string)
    requires n <= |files|
  {
    exists i :: 0 <= i < n && files[i].language.Sv? && !Skipped(cfg, files, defines, i) &&
                path in SplicedBy(cfg, files, defines, i)
  }

  /** The skipped paths among the first `n` files, in order. */
  function SkippedPaths(cfg: Config, files: seq<Found>, defines: Table, n: nat): seq<string>
    requires n <= |files|
  {
    if n == 0 then []
    else
      SkippedPaths(cfg, files, defines, n - 1) +
      if Skipped(cfg, files, defines, n - 1) then [files[n - 1].path] else []
  }

  /** The unskipped SystemVerilog paths among the first `n` files. */
  ghost predicate Standalone(cfg: Config, files: seq<Found>, defines: Table, n: nat, path: string)
    requires n <= |files|
  {
    exists i :: 0 <= i < n && files[i].path == path && files[i].language.Sv? && !Skipped(cfg, files, defines, i)
  }

  lemma {:induction false} SkipsWhenConsumed(cfg: Config, files: seq<Found>, defines: Table, n: nat)
    requires n < |files|
    ensures Skipped(cfg, files, defines, n) <==> files[n].path in FullAt(cfg, files, defines, n).consumed
  {
    var b := FullAt(cfg, files, defines, n);
    assert b.skipped + [files[n].path] != b.skipped;
  }

  /** Files that an earlier one splices, and that did not come before it, are marked. */
  lemma {:induction false} ConsumedIff(cfg: Config, files: seq<Found>, defines: Table, n: nat, m: nat)
    requires n <= m < |files| && DistinctFiles(files)
    ensures files[m].path in FullAt(cfg, files, defines, n).consumed <==>
            SplicedEarlier(cfg, files, defines, n, files[m].path)
  {
    if n > 0 {
      ConsumedIff(cfg, files, defines, n - 1, m);
      SkipsWhenConsumed(cfg, files, defines, n - 1);
      NotYetProcessed(cfg, files, defines, n, m);
      assert SplicedEarlier(cfg, files, defines, n, files[m].path) <==>
        SplicedEarlier(cfg, files, defines, n - 1, files[m].path) ||
        (files[n - 1].language.Sv? && !Skipped(cfg, files, defines, n - 1) &&
         files[m].path in SplicedBy(cfg, files, defines, n - 1));
    }
  }

  /** A file is skipped exactly when an earlier SystemVerilog file that was not skipped splices it. */
  lemma SkippedIff(cfg: Config, files: seq<Found>, defines: Table, n: nat)
    requires n < |files| && DistinctFiles(files)
    ensures Skipped(cfg, files, defines, n) <==> SplicedEarlier(cfg, files, defines, n, files[n].path)
  {
    SkipsWhenConsumed(cfg, files, defines, n);
    ConsumedIff(cfg, files, defines, n, n);
  }

  /** The list of skipped paths. */
  lemma {:induction false} SkippedList(cfg: Config, files: seq<Found>, defines: Table, n: nat)
    requires n <= |files|
    ensures FullAt(cfg, files, defines, n).skipped == SkippedPaths(cfg, files, defines, n)
  {
    if n > 0 { SkippedList(cfg, files, defines, n - 1); }
  }

  /** Exactly the SystemVerilog files that are not skipped are preprocessed on their own. */
  lemma {:induction false} ProcessedIff(cfg: Config, files: seq<Found>, defines: Table, n: nat, path: string)
    requires n <= |files|
    ensures path in FullAt(cfg, files, defines, n).processed <==> Standalone(cfg, files, defines, n, path)
  {
    if n > 0 {
      ProcessedIff(cfg, files, defines, n - 1, path);
      SkipsWhenConsumed(cfg, files, defines, n - 1);
      assert Standalone(cfg, files, defines, n, path) <==>
        Standalone(cfg, files, defines, n - 1, path) ||
        (files[n - 1].path == path && files[n - 1].language.Sv? && !Skipped(cfg, files, defines, n - 1));
    }
  }

  /** The table threads through exactly those files, in order, from the configured defines. */
  lemma TableThreads(cfg: Config, files: seq<Found>, defines: Table, n: nat)
    requires n < |files| && DistinctFiles(files)
    ensures FullAt(cfg, files, defines, 0).macros == defines
    ensures var before := FullAt(cfg, files, defines, n).macros;
      FullAt(cfg, files, defines, n + 1).macros ==
      if files[n].language.Sv? && !SplicedEarlier(cfg, files, defines, n, files[n].path)
      then Preprocessed(cfg, before, files[n]).macros else before
  {
    SkippedIff(cfg, files, defines, n);
    SkipsWhenConsumed(cfg, files, defines, n);
  }

  // -- an update -----------------------------------------------------------------------------------

  /** What an update replays or preprocesses unless it skips it: clean units, but VHDL on the
      lite path only, and changed SystemVerilog files. */
  predicate UpdateTakes(lite: bool, stored: map<string, Stored>, f: Found) {
    if f.path in stored then lite || !f.language.Vhdl? else f.language.Sv?
  }

  /** The headers that the update records for `files[i]`: the stored ones for a clean unit. */
  ghost predicate UpdateSplices(cfg: Config, lite: bool, stored: map<string, Stored>, files: seq<Found>, defines: Table,
                                i: nat, path: string)
    requires i < |files|
  {
    UpdateTakes(lite, stored, files[i]) &&
    if files[i].path in stored then path in stored[files[i].path].included
    else path in Preprocessed(cfg, UpdateAt(cfg, lite, stored, files, defines, i).macros, files[i]).included
  }

  predicate UpdateSkipped(cfg: Config, lite: bool, stored: map<string, Stored>, files: seq<Found>, defines: Table,
                          n: nat)
    requires n < |files|
  {
    UpdateAt(cfg, lite, stored, files, defines, n + 1).skipped != UpdateAt(cfg, lite, stored, files, defines, n).skipped
  }

  ghost predicate UpdateSplicedEarlier(cfg: Config, lite: bool, stored: map<string, Stored>, files: seq<Found>,
                                       defines: Table, n: nat, path: string)
    requires n <= |files|
  {
    exists i :: 0 <= i < n && !UpdateSkipped(cfg, lite, stored, files, defines, i) &&
                UpdateSplices(cfg, lite, stored, files, defines, i, path)
  }

  lemma {:induction false} UpdateSkipsWhenConsumed(cfg: Config, lite: bool, stored: map<string, Stored>,
                                                   files: seq<Found>, defines: Table, n: nat)
    requires n < |files|
    ensures UpdateSkipped(cfg, lite, stored, files, defines, n) <==>
            files[n].path in UpdateAt(cfg, lite, stored, files, defines, n).consumed
  {
    var b := UpdateAt(cfg, lite, stored, files, defines, n);
    assert b.skipped + [files[n].path] != b.skipped;
  }

  lemma {:induction false} UpdateNotYetProcessed(cfg: Config, lite: bool, stored: map<string, Stored>,
                                                 files: seq<Found>, defines: Table, n: nat, m: nat)
    requires n <= m < |files| && DistinctFiles(files)
    ensures files[m].path !in UpdateAt(cfg, lite, stored, files, defines, n).processed
  {
    if n > 0 { UpdateNotYetProcessed(cfg, lite, stored, files, defines, n - 1, m); }
  }

  lemma UpdateConsumedStep(cfg: Config, lite: bool, stored: map<string, Stored>, files: seq<Found>, defines: Table,
                           n: nat, path: string)
    requires n < |files|
    ensures var before, after := UpdateAt(cfg, lite, stored, files, defines, n),
                                 UpdateAt(cfg, lite, stored, files, defines, n + 1);
      path in after.consumed <==>
        (path in before.consumed ||
         (files[n].path !in before.consumed && UpdateSplices(cfg, lite, stored, files, defines, n, path) &&
          path !in before.processed && path != files[n].path))
  {
  }

  lemma UpdateSplicedStep(cfg: Config, lite: bool, stored: map<string, Stored>, files: seq<Found>, defines: Table,
                          n: nat, path: string)
    requires n < |files|
    ensures UpdateSplicedEarlier(cfg, lite, stored, files, defines, n + 1, path) <==>
      (UpdateSplicedEarlier(cfg, lite, stored, files, defines, n, path) ||
       (!UpdateSkipped(cfg, lite, stored, files, defines, n) &&
        UpdateSplices(cfg, lite, stored, files, defines, n, path)))
  {
  }

  lemma UpdateConsumedNext(cfg: Config, lite: bool, stored: map<string, Stored>, files: seq<Found>, defines: Table,
                           n: nat, path: string)
    requires n < |files| && path != files[n].path
    requires path !in UpdateAt(cfg, lite, stored, files, defines, n).processed
    requires path in UpdateAt(cfg, lite, stored, files, defines, n).consumed <==>
             UpdateSplicedEarlier(cfg, lite, stored, files, defines, n, path)
    ensures path in UpdateAt(cfg, lite, stored, files, defines, n + 1).consumed <==>
            UpdateSplicedEarlier(cfg, lite, stored, files, defines, n + 1, path)
  {
    UpdateSkipsWhenConsumed(cfg, lite, stored, files, defines, n);
    UpdateConsumedStep(cfg, lite, stored, files, defines, n, path);
    UpdateSplicedStep(cfg, lite, stored, files, defines, n, path);
  }

  lemma {:induction false} UpdateConsumedIff(cfg: Config, lite: bool, stored: map<string, Stored>, files: seq<Found>,
                                             defines: Table, n: nat, m: nat)
    requires n <= m < |files| && DistinctFiles(files)
    ensures files[m].path in UpdateAt(cfg, lite, stored, files, defines, n).consumed <==>
            UpdateSplicedEarlier(cfg, lite, stored, files, defines, n, files[m].path)
  {
    if n > 0 {
      UpdateConsumedIff(cfg, lite, stored, files, defines, n - 1, m);
      UpdateNotYetProcessed(cfg, lite, stored, files, defines, n - 1, m);
      UpdateConsumedNext(cfg, lite, stored, files, defines, n - 1, files[m].path);
    }
  }

  /** An update skips a file exactly when an earlier one it did not skip splices it, by its stored
      log when it is clean. */
  lemma UpdateSkippedIff(cfg: Config, lite: bool, stored: map<string, Stored>, files: seq<Found>, defines: Table,
                         n: nat)
    requires n < |files| && DistinctFiles(files)
    ensures UpdateSkipped(cfg, lite, stored, files, defines, n) <==>
            UpdateSplicedEarlier(cfg, lite, stored, files, defines, n, files[n].path)
  {
    UpdateSkipsWhenConsumed(cfg, lite, stored, files, defines, n);
    UpdateConsumedIff(cfg, lite, stored, files, defines, n, n);
  }

  ghost predicate UpdateTaken(cfg: Config, lite: bool, stored: map<string, Stored>, files: seq<Found>, defines: Table,
                              n: nat, path: string)
    requires n <= |files|
  {
    exists i :: 0 <= i < n && files[i].path == path && UpdateTakes(lite, stored, files[i]) &&
                !UpdateSkipped(cfg, lite, stored, files, defines, i)
  }

  /** Exactly the units taken and not skipped count as processed. */
  lemma {:induction false} UpdateProcessedIff(cfg: Config, lite: bool, stored: map<string, Stored>, files: seq<Found>,
                                              defines: Table, n: nat, path: string)
    requires n <= |files|
    ensures path in UpdateAt(cfg, lite, stored, files, defines, n).processed <==>
            UpdateTaken(cfg, lite, stored, files, defines, n, path)
  {
    if n > 0 {
      UpdateProcessedIff(cfg, lite, stored, files, defines, n - 1, path);
      UpdateSkipsWhenConsumed(cfg, lite, stored, files, defines, n - 1);
      assert UpdateTaken(cfg, lite, stored, files, defines, n, path) <==>
        UpdateTaken(cfg, lite, stored, files, defines, n - 1, path) ||
        (files[n - 1].path == path && UpdateTakes(lite, stored, files[n - 1]) &&
         !UpdateSkipped(cfg, lite, stored, files, defines, n - 1));
    }
  }

  function UpdateSkippedPaths(cfg: Config, lite: bool, stored: map<string, Stored>, files: seq<Found>, defines: Table,
                              n: nat): seq<string>
    requires n <= |files|
  {
    if n == 0 then []
    else
      UpdateSkippedPaths(cfg, lite, stored, files, defines, n - 1) +
      if UpdateSkipped(cfg, lite, stored, files, defines, n - 1) then [files[n - 1].path] else []
  }

  lemma {:induction false} UpdateSkippedList(cfg: Config, lite: bool, stored: map<string, Stored>, files: seq<Found>,
                                             defines: Table, n: nat)
    requires n <= |files|
    ensures UpdateAt(cfg, lite, stored, files, defines, n).skipped ==
            UpdateSkippedPaths(cfg, lite, stored, files, defines, n)
  {
    if n > 0 { UpdateSkippedList(cfg, lite, stored, files, defines, n - 1); }
  }

  /** A clean unit that is not skipped leaves the table its stored log makes of the one before it. */
  lemma UpdateTableThreads(cfg: Config, lite: bool, stored: map<string, Stored>, files: seq<Found>, defines: Table,
                           n: nat)
    requires n < |files| && DistinctFiles(files)
    ensures var before, after := UpdateAt(cfg, lite, stored, files, defines, n).macros,
                                 UpdateAt(cfg, lite, stored, files, defines, n + 1).macros;
      var f := files[n];
      if UpdateSplicedEarlier(cfg, lite, stored, files, defines, n, f.path) then after == before
      else if f.path in stored && (lite || !f.language.Vhdl?) then after == ApplyEvents(before, stored[f.path].events)
      else if f.path !in stored && f.language.Sv? then after == Preprocessed(cfg, before, f).macros
      else after == before
  {
    UpdateSkippedIff(cfg, lite, stored, files, defines, n);
    UpdateSkipsWhenConsumed(cfg, lite, stored, files, defines, n);
  }

  /** `log` is what preprocessing the changed SystemVerilog file `files[i]` at its place records. */
  ghost predicate LogOf(cfg: Config, lite: bool, stored: map<string, Stored>, files: seq<Found>, defines: Table,
                        i: nat, log: Stored)
    requires i < |files|
  {
    var end := Preprocessed(cfg, UpdateAt(cfg, lite, stored, files, defines, i).macros, files[i]);
    files[i].path !in stored && files[i].language.Sv? && !UpdateSkipped(cfg, lite, stored, files, defines, i) &&
    log.events == end.events && log.included == end.included
  }

  ghost predicate LoggedBefore(cfg: Config, lite: bool, stored: map<string, Stored>, files: seq<Found>, defines: Table,
                               n: nat, p: string, log: Stored)
    requires n <= |files|
  {
    exists i: nat :: i < n && files[i].path == p && LogOf(cfg, lite, stored, files, defines, i, log)
  }

  predicate Logs(logs: map<string, Stored>, p: string, log: Stored) {
    p in logs && logs[p] == log
  }

  lemma LogsStep(cfg: Config, lite: bool, stored: map<string, Stored>, files: seq<Found>, defines: Table, n: nat,
                 p: string, log: Stored)
    requires n < |files|
    ensures files[n].path != p ==>
      (Logs(LogsAt(cfg, lite, stored, files, defines, n + 1), p, log) <==>
       Logs(LogsAt(cfg, lite, stored, files, defines, n), p, log))
    ensures files[n].path == p && p !in LogsAt(cfg, lite, stored, files, defines, n) ==>
      (Logs(LogsAt(cfg, lite, stored, files, defines, n + 1), p, log) <==>
       LogOf(cfg, lite, stored, files, defines, n, log))
  {
    UpdateSkipsWhenConsumed(cfg, lite, stored, files, defines, n);
  }

  lemma {:induction false} NotYetLogged(cfg: Config, lite: bool, stored: map<string, Stored>, files: seq<Found>,
                                        defines: Table, n: nat, m: nat)
    requires n <= m < |files| && DistinctFiles(files)
    ensures files[m].path !in LogsAt(cfg, lite, stored, files, defines, n)
  {
    if n > 0 { NotYetLogged(cfg, lite, stored, files, defines, n - 1, m); }
  }

  lemma LoggedStep(cfg: Config, lite: bool, stored: map<string, Stored>, files: seq<Found>, defines: Table, n: nat,
                   p: string, log: Stored)
    requires n < |files| && DistinctFiles(files)
    ensures LoggedBefore(cfg, lite, stored, files, defines, n + 1, p, log) <==>
      if files[n].path == p then LogOf(cfg, lite, stored, files, defines, n, log)
      else LoggedBefore(cfg, lite, stored, files, defines, n, p, log)
  {
  }

  lemma LogsNext(cfg: Config, lite: bool, stored: map<string, Stored>, files: seq<Found>, defines: Table, n: nat,
                 p: string, log: Stored)
    requires n < |files| && DistinctFiles(files)
    requires Logs(LogsAt(cfg, lite, stored, files, defines, n), p, log) <==>
             LoggedBefore(cfg, lite, stored, files, defines, n, p, log)
    ensures Logs(LogsAt(cfg, lite, stored, files, defines, n + 1), p, log) <==>
            LoggedBefore(cfg, lite, stored, files, defines, n + 1, p, log)
  {
    NotYetLogged(cfg, lite, stored, files, defines, n, n);
    LogsStep(cfg, lite, stored, files, defines, n, p, log);
    LoggedStep(cfg, lite, stored, files, defines, n, p, log);
  }

  /** The new logs are those of the changed SystemVerilog files that are not skipped. */
  lemma {:induction false} LogsIff(cfg: Config, lite: bool, stored: map<string, Stored>, files: seq<Found>,
                                   defines: Table, n: nat, p: string, log: Stored)
    requires n <= |files| && DistinctFiles(files)
    ensures Logs(LogsAt(cfg, lite, stored, files, defines, n), p, log) <==>
            LoggedBefore(cfg, lite, stored, files, defines, n, p, log)
  {
    if n > 0 {
      LogsIff(cfg, lite, stored, files, defines, n - 1, p, log);
      LogsNext(cfg, lite, stored, files, defines, n - 1, p, log);
    }
  }
}
