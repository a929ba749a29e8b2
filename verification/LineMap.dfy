/** What every preprocessor run keeps: output and line map stay aligned, each file's
    own lines are covered in order, and the event log reproduces the macro table
    (src/hdl_kgraph/parser/preprocessor.py). */
module LineMap {
  import opened Schema
  import opened MacroExpansion
  import opened Preprocessor

  // -- alignment and the log ---------------------------------------------------------------

  /** `MacroTable.apply` */
  function Apply(t: Table, e: MacroEvent): Table {
    match e
    case Defined(m) => t[m.name := m]
    case Undefined(name) => t - {name}
  }

  function ApplyEvents(t: Table, events: seq<MacroEvent>): Table {
    if events == [] then t else Apply(ApplyEvents(t, events[..|events| - 1]), events[|events| - 1])
  }

  lemma {:induction false} ApplyConcat(t: Table, a: seq<MacroEvent>, b: seq<MacroEvent>)
    ensures ApplyEvents(t, a + b) == ApplyEvents(ApplyEvents(t, a), b)
  {
    if b == [] {
      assert a + b == a;
    } else {
      var last := |b| - 1;
      assert (a + b)[..|a + b| - 1] == a + b[..last];
      ApplyConcat(t, a, b[..last]);
    }
  }

  /** `after` continues `before`: nothing emitted is taken back, output and map grow in
      step, and replaying the new events turns the one macro table into the other. */
  ghost predicate Continues(before: State, after: State) {
    && before.out <= after.out && before.lineMap <= after.lineMap && before.events <= after.events
    && before.included <= after.included
    && |after.out| - |before.out| == |after.lineMap| - |before.lineMap|
    && after.macros == ApplyEvents(before.macros, after.events[|before.events|..])
  }

  lemma ContinuesTrans(a: State, b: State, c: State)
    requires Continues(a, b) && Continues(b, c)
    ensures Continues(a, c)
  {
    var x, y := b.events[|a.events|..], c.events[|b.events|..];
    assert c.events[|a.events|..] == x + y;
    ApplyConcat(a.macros, x, y);
  }

  lemma PlainContinues(cfg: Config, st: State, file: string, l: Logical)
    ensures Continues(st, PlainStep(cfg, st, file, l))
  {
    var next := PlainStep(cfg, st, file, l);
    if |next.events| == |st.events| {
      assert next.events[|st.events|..] == [];
    } else {
      assert next.events[|st.events|..] == [next.events[|st.events|]];
      assert ApplyEvents(st.macros, []) == st.macros;
      assert next.macros == Apply(st.macros, next.events[|st.events|]);
    }
  }

  lemma {:induction false} StepContinues(cfg: Config, st: State, file: string, l: Logical, stack: seq<string>)
    ensures Continues(st, Step(cfg, st, file, l, stack))
    decreases DepthLeft(cfg, stack), 0
  {
    var next := PlainStep(cfg, st, file, l);
    PlainContinues(cfg, st, file, l);
    if l.directive.Include? && Emitting(st.cond) && HeaderOf(cfg, st, file, l, stack).Some? {
      var header := HeaderOf(cfg, st, file, l, stack).value;
      var seen := next.(included := next.included + {header});
      assert seen.events[|next.events|..] == [];
      ContinuesTrans(st, next, seen);
      if header in cfg.files {
        RunContinues(cfg, seen, header, Group(cfg.files[header], 0), stack + [header]);
        ContinuesTrans(st, seen, Run(cfg, seen, header, Group(cfg.files[header], 0), stack + [header]));
      }
    }
  }

  /** Nested includes and multi-line expansions keep output and line map aligned, and the log faithful. */
  lemma {:induction false} RunContinues(cfg: Config, st: State, file: string, s: seq<Logical>, stack: seq<string>)
    ensures Continues(st, Run(cfg, st, file, s, stack))
    decreases DepthLeft(cfg, stack), |s|
  {
    if s == [] {
      assert st.events[|st.events|..] == [];
    } else {
      StepContinues(cfg, st, file, s[0], stack);
      RunContinues(cfg, Step(cfg, st, file, s[0], stack), file, s[1..], stack);
      ContinuesTrans(st, Step(cfg, st, file, s[0], stack), Run(cfg, st, file, s, stack));
    }
  }

  /** A whole unit: as many origins as lines, and its log replayed gives the table it leaves. */
  lemma UnitAlignedAndLogged(cfg: Config, macros: Table, path: string, lines: seq<Line>)
    ensures var end := Run(cfg, Fresh(macros), path, Group(lines, 0), [path]);
            |end.out| == |end.lineMap| && end.macros == ApplyEvents(macros, end.events)
  {
    RunContinues(cfg, Fresh(macros), path, Group(lines, 0), [path]);
    var end := Run(cfg, Fresh(macros), path, Group(lines, 0), [path]);
    assert end.events[0..] == end.events;
  }

  // -- each file's own lines -----------------------------------------------------------------

  /** The source lines of `file` among the origins, in order. */
  function Own(origins: seq<LineOrigin>, file: string): seq<nat> {
    if origins == [] then []
    else
      var o := origins[|origins| - 1];
      Own(origins[..|origins| - 1], file) + if o.file == file then [o.line] else []
  }

  lemma {:induction false} OwnConcat(a: seq<LineOrigin>, b: seq<LineOrigin>, file: string)
    ensures Own(a + b, file) == Own(a, file) + Own(b, file)
  {
    if b == [] {
      assert a + b == a;
    } else {
      assert (a + b)[..|a + b| - 1] == a + b[..|b| - 1];
      OwnConcat(a, b[..|b| - 1], file);
    }
  }

  /** The lines from `from` up to `to`, exclusive: sorted, in range, none missing. */
  ghost predicate Spans(lines: seq<nat>, from: nat, to: nat) {
    && (forall i :: 0 <= i < |lines| ==> from <= lines[i] < to)
    && (forall i, j :: 0 <= i < j < |lines| ==> lines[i] <= lines[j])
    && (forall n :: from <= n < to ==> n in lines)
  }

  lemma SpansConcat(a: seq<nat>, b: seq<nat>, from: nat, mid: nat, to: nat)
    requires Spans(a, from, mid) && Spans(b, mid, to) && from <= mid <= to
    ensures Spans(a + b, from, to)
  {
  }

  function Added(before: State, after: State): seq<LineOrigin> {
    if |before.lineMap| <= |after.lineMap| then after.lineMap[|before.lineMap|..] else []
  }

  lemma {:induction false} OwnBlanks(file: string, line: nat, count: nat, other: string)
    ensures Spans(Own(BlankOrigins(file, line, count), file), line, line + count)
    ensures other != file ==> Own(BlankOrigins(file, line, count), other) == []
  {
    var b := BlankOrigins(file, line, count);
    if count > 0 {
      assert b[..count - 1] == BlankOrigins(file, line, count - 1);
      OwnBlanks(file, line, count - 1, other);
      var before := Own(b[..count - 1], file);
      assert Spans([line + count - 1], line + count - 1, line + count);
      SpansConcat(before, [line + count - 1], line, line + count - 1, line + count);
    }
  }

  lemma {:induction false} OwnRepeat(o: LineOrigin, n: nat, other: string)
    ensures |Own(Repeat(o, n), o.file)| == n && forall k :: 0 <= k < n ==> Own(Repeat(o, n), o.file)[k] == o.line
    ensures other != o.file ==> Own(Repeat(o, n), other) == []
  {
    if n > 0 {
      assert Repeat(o, n)[..n - 1] == Repeat(o, n - 1);
      OwnRepeat(o, n - 1, other);
    }
  }

  /** A plain step covers exactly its own logical line, and no line of another file. */
  lemma PlainOwn(cfg: Config, st: State, file: string, l: Logical, other: string)
    requires l.span >= 1 && (!l.directive.Define? ==> l.span == 1)
    ensures Spans(Own(Added(st, PlainStep(cfg, st, file, l)), file), l.line, l.line + l.span)
    ensures other != file ==> Own(Added(st, PlainStep(cfg, st, file, l)), other) == []
  {
    var next := PlainStep(cfg, st, file, l);
    if l.directive.Define? || IsConditional(l.directive) || !Emitting(st.cond) || !l.directive.Text? {
      assert Added(st, next) == BlankOrigins(file, l.line, l.span);
      OwnBlanks(file, l.line, l.span, other);
    } else {
      var origin := LineOrigin(file, l.line, AmbiguousNow(st.cond));
      var lines := SplitLines(ExpandText(cfg, st.macros, l.raw, origin));
      assert Added(st, next) == Repeat(origin, |lines|);
      OwnRepeat(origin, |lines|, other);
      assert Own(Added(st, next), file)[0] == l.line;
    }
  }

  /** The logical lines of a file from `i`: consecutive and complete. */
  ghost predicate Consecutive(s: seq<Logical>, from: nat, to: nat)
    decreases |s|
  {
    if s == [] then from == to
    else s[0].line == from && s[0].span >= 1 && from + s[0].span <= to &&
         (!s[0].directive.Define? ==> s[0].span == 1) &&
         Consecutive(s[1..], from + s[0].span, to)
  }

  lemma {:induction false} GroupConsecutive(lines: seq<Line>, i: nat)
    requires i <= |lines|
    ensures Consecutive(Group(lines, i), i + 1, |lines| + 1)
    decreases |lines| - i
  {
    if i < |lines| {
      var n := Consumed(lines, i);
      GroupConsecutive(lines, i + n);
      assert Group(lines, i)[1..] == Group(lines, i + n);
    }
  }

  lemma AddedSplit(st: State, mid: State, end: State, file: string)
    requires st.lineMap <= mid.lineMap <= end.lineMap
    ensures Own(Added(st, end), file) == Own(Added(st, mid), file) + Own(Added(mid, end), file)
  {
    assert Added(st, end) == Added(st, mid) + Added(mid, end);
    OwnConcat(Added(st, mid), Added(mid, end), file);
  }

  lemma NothingMore(a: seq<nat>, b: seq<nat>)
    requires b == []
    ensures a + b == a
  {
  }

  lemma {:induction false} StepOwn(cfg: Config, st: State, file: string, l: Logical, stack: seq<string>, other: string)
    requires l.span >= 1 && (!l.directive.Define? ==> l.span == 1) && file in stack
    ensures Spans(Own(Added(st, Step(cfg, st, file, l, stack)), file), l.line, l.line + l.span)
    ensures other != file && other in stack ==> Own(Added(st, Step(cfg, st, file, l, stack)), other) == []
    decreases DepthLeft(cfg, stack), 0
  {
    var next := PlainStep(cfg, st, file, l);
    PlainOwn(cfg, st, file, l, other);
    PlainContinues(cfg, st, file, l);
    if l.directive.Include? && Emitting(st.cond) && HeaderOf(cfg, st, file, l, stack).Some? {
      var header := HeaderOf(cfg, st, file, l, stack).value;
      var seen := next.(included := next.included + {header});
      if header in cfg.files {
        var s, inner := Group(cfg.files[header], 0), stack + [header];
        var end := Run(cfg, seen, header, s, inner);
        GroupConsecutive(cfg.files[header], 0);
        RunOwn(cfg, seen, header, s, inner, 1, |cfg.files[header]| + 1, file);
        RunOwn(cfg, seen, header, s, inner, 1, |cfg.files[header]| + 1, other);
        RunContinues(cfg, seen, header, s, inner);
        assert Added(next, end) == Added(seen, end);
        AddedSplit(st, next, end, file);
        AddedSplit(st, next, end, other);
        NothingMore(Own(Added(st, next), file), Own(Added(next, end), file));
      }
    }
  }

  /** Within one `_process` invocation the origins it emits itself are nondecreasing and cover
      every source line; the files it is nested in get none. */
  lemma {:induction false} RunOwn(cfg: Config, st: State, file: string, s: seq<Logical>, stack: seq<string>,
                                  from: nat, to: nat, other: string)
    requires Consecutive(s, from, to) && file in stack
    ensures Spans(Own(Added(st, Run(cfg, st, file, s, stack)), file), from, to)
    ensures other != file && other in stack ==> Own(Added(st, Run(cfg, st, file, s, stack)), other) == []
    decreases DepthLeft(cfg, stack), |s|
  {
    if s == [] {
      assert Added(st, st) == [];
    } else {
      var l := s[0];
      var mid := Step(cfg, st, file, l, stack);
      var end := Run(cfg, mid, file, s[1..], stack);
      StepOwn(cfg, st, file, l, stack, other);
      StepContinues(cfg, st, file, l, stack);
      ConsecutiveRange(s[1..], from + l.span, to);
      RunOwn(cfg, mid, file, s[1..], stack, from + l.span, to, other);
      RunContinues(cfg, mid, file, s[1..], stack);
      AddedSplit(st, mid, end, file);
      AddedSplit(st, mid, end, other);
      SpansConcat(Own(Added(st, mid), file), Own(Added(mid, end), file), from, from + l.span, to);
    }
  }

  lemma {:induction false} ConsecutiveRange(s: seq<Logical>, from: nat, to: nat)
    requires Consecutive(s, from, to)
    ensures from <= to
    decreases |s|
  {
    if s != [] { ConsecutiveRange(s[1..], from + s[0].span, to); }
  }

  /** A whole file: its own origins cover lines 1 to the last, in order, headers notwithstanding. */
  lemma FileCovered(cfg: Config, st: State, file: string, lines: seq<Line>, stack: seq<string>)
    requires file in stack
    ensures Spans(Own(Added(st, Run(cfg, st, file, Group(lines, 0), stack)), file), 1, |lines| + 1)
  {
    GroupConsecutive(lines, 0);
    RunOwn(cfg, st, file, Group(lines, 0), stack, 1, |lines| + 1, file);
  }

  // -- included headers ----------------------------------------------------------------------------

  ghost predicate Shows(st: State, file: string) {
    exists k :: 0 <= k < |st.lineMap| && st.lineMap[k].file == file
  }

  /** Lines come from the unit or an included header, and every readable included header that has
      lines shows some of them, but for those still owed. */
  ghost predicate Sourced(cfg: Config, st: State, unit: string, owed: set<string>) {
    && (forall k :: 0 <= k < |st.lineMap| ==> st.lineMap[k].file == unit || st.lineMap[k].file in st.included)
    && (forall h :: h in st.included && h in cfg.files && cfg.files[h] != [] ==> h in owed || Shows(st, h))
  }

  lemma PlainSourced(cfg: Config, st: State, file: string, l: Logical, unit: string, owed: set<string>)
    requires Sourced(cfg, st, unit, owed) && l.span >= 1 && (file == unit || file in st.included)
    ensures Sourced(cfg, PlainStep(cfg, st, file, l), unit, owed - {file})
  {
    var next := PlainStep(cfg, st, file, l);
    PlainAdds(cfg, st, file, l);
    assert next.lineMap[|st.lineMap|].file == file;
    forall h | Shows(st, h) ensures Shows(next, h) {
      var k :| 0 <= k < |st.lineMap| && st.lineMap[k].file == h;
      assert next.lineMap[k].file == h;
    }
  }

  lemma PlainAdds(cfg: Config, st: State, file: string, l: Logical)
    requires l.span >= 1
    ensures var next := PlainStep(cfg, st, file, l);
      && next.included == st.included && st.lineMap <= next.lineMap && |st.lineMap| < |next.lineMap|
      && forall k :: |st.lineMap| <= k < |next.lineMap| ==> next.lineMap[k].file == file
  {
  }

  lemma {:induction false} StepSourced(cfg: Config, st: State, file: string, l: Logical, stack: seq<string>,
                                       unit: string, owed: set<string>)
    requires Sourced(cfg, st, unit, owed) && l.span >= 1 && (file == unit || file in st.included)
    ensures Sourced(cfg, Step(cfg, st, file, l, stack), unit, owed - {file})
    ensures st.included <= Step(cfg, st, file, l, stack).included
    decreases DepthLeft(cfg, stack), 0
  {
    var next := PlainStep(cfg, st, file, l);
    PlainSourced(cfg, st, file, l, unit, owed);
    StepContinues(cfg, st, file, l, stack);
    if l.directive.Include? && Emitting(st.cond) && HeaderOf(cfg, st, file, l, stack).Some? {
      var header := HeaderOf(cfg, st, file, l, stack).value;
      if header in cfg.files {
        var s, inner := Group(cfg.files[header], 0), stack + [header];
        GroupConsecutive(cfg.files[header], 0);
        RunSourced(cfg, next.(included := next.included + {header}), header, s, inner, unit,
                   owed - {file} + {header}, 1, |cfg.files[header]| + 1);
      }
    }
  }

  lemma {:induction false} RunSourced(cfg: Config, st: State, file: string, s: seq<Logical>, stack: seq<string>,
                                      unit: string, owed: set<string>, from: nat, to: nat)
    requires Sourced(cfg, st, unit, owed) && Consecutive(s, from, to) && (file == unit || file in st.included)
    ensures Sourced(cfg, Run(cfg, st, file, s, stack), unit, if s == [] then owed else owed - {file})
    decreases DepthLeft(cfg, stack), |s|
  {
    if s != [] {
      var next := Step(cfg, st, file, s[0], stack);
      StepSourced(cfg, st, file, s[0], stack, unit, owed);
      RunSourced(cfg, next, file, s[1..], stack, unit, owed - {file}, from + s[0].span, to);
      assert owed - {file} - {file} == owed - {file};
    }
  }

  /** The included headers of a unit are, but for unreadable and empty ones, exactly the other
      files whose lines its map shows. */
  lemma IncludedAreShown(cfg: Config, macros: Table, path: string, lines: seq<Line>, h: string)
    requires h != path
    ensures var end := Run(cfg, Fresh(macros), path, Group(lines, 0), [path]);
      && (Shows(end, h) ==> h in end.included)
      && (h in end.included && h in cfg.files && cfg.files[h] != [] ==> Shows(end, h))
  {
    GroupConsecutive(lines, 0);
    RunSourced(cfg, Fresh(macros), path, Group(lines, 0), [path], path, {}, 1, |lines| + 1);
  }
}
