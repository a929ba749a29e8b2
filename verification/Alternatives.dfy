/** Headers spliced in the arms that both mode emits only as alternatives (`_handle_include`,
    `_ambiguous` in src/hdl_kgraph/parser/preprocessor.py): when the tables decide whether
    the two modes agree. */
module Alternatives {
  import opened Schema
  import opened MacroExpansion
  import opened Preprocessor
  import opened Conditionals
  import opened BothBranches

  // -- emission along a block ----------------------------------------------------------------------

  lemma {:induction false} EmittedConcat(cfg: Config, st: State, file: string, a: seq<Logical>, b: seq<Logical>,
                                         stack: seq<string>)
    ensures Emitted(cfg, st, file, a + b, stack) ==
      Emitted(cfg, st, file, a, stack) + Emitted(cfg, Run(cfg, st, file, a, stack), file, b, stack)
    decreases |a|
  {
    if a == [] {
      assert a + b == b;
    } else {
      assert (a + b)[1..] == a[1..] + b;
      EmittedConcat(cfg, Step(cfg, st, file, a[0], stack), file, a[1..], b, stack);
    }
  }

  lemma EmittedOne(cfg: Config, st: State, file: string, l: Logical, s: seq<Logical>, stack: seq<string>)
    ensures Emitted(cfg, st, file, [l] + s, stack) ==
      LineText(cfg, st, file, l, stack) + Emitted(cfg, Step(cfg, st, file, l, stack), file, s, stack)
  {
    assert ([l] + s)[1..] == s;
  }

  /** Nothing certain is emitted by `a + b` when neither part emits any. */
  lemma SilentConcat(cfg: Config, st: State, file: string, a: seq<Logical>, b: seq<Logical>, stack: seq<string>)
    requires Certain(Emitted(cfg, st, file, a, stack)) == []
    requires Certain(Emitted(cfg, Run(cfg, st, file, a, stack), file, b, stack)) == []
    ensures Certain(Emitted(cfg, st, file, a + b, stack)) == []
  {
    EmittedConcat(cfg, st, file, a, b, stack);
    CertainConcat(Emitted(cfg, st, file, a, stack), Emitted(cfg, Run(cfg, st, file, a, stack), file, b, stack));
  }

  lemma SilentOne(cfg: Config, st: State, file: string, l: Logical, s: seq<Logical>, stack: seq<string>)
    requires Certain(LineText(cfg, st, file, l, stack)) == []
    requires Certain(Emitted(cfg, Step(cfg, st, file, l, stack), file, s, stack)) == []
    ensures Certain(Emitted(cfg, st, file, [l] + s, stack)) == []
  {
    EmittedOne(cfg, st, file, l, s, stack);
    CertainConcat(LineText(cfg, st, file, l, stack), Emitted(cfg, Step(cfg, st, file, l, stack), file, s, stack));
  }

  // -- a block run in an alternative arm --------------------------------------------------------------

  lemma AmbiguousUnder(outer: seq<Frame>, cond: seq<Frame>)
    requires outer <= cond && AmbiguousNow(outer)
    ensures AmbiguousNow(cond) && cond != []
  {
    var f :| f in outer && !f.dead && f.ambiguous && !f.selected;
    var i :| 0 <= i < |outer| && outer[i] == f;
    assert cond[i] == f;
  }

  lemma {:induction false} AltLine(cfg: Config, st: State, file: string, l: Logical, stack: seq<string>,
                                   outer: seq<Frame>)
    requires !IsConditional(l.directive) && LineCloses(cfg, st, file, l, stack)
    requires outer <= st.cond && AmbiguousNow(outer)
    ensures Certain(LineText(cfg, st, file, l, stack)) == []
    ensures Step(cfg, st, file, l, stack).cond == st.cond
    decreases DepthLeft(cfg, stack), 0
  {
    AmbiguousUnder(outer, st.cond);
    match Spliced(cfg, st, file, l, stack)
    case None =>
      var origin := LineOrigin(file, l.line, true);
      CertainStamp(SplitLines(ExpandText(cfg, st.macros, l.raw, origin)), origin);
      StepState(cfg, st, file, l);
    case Some(h) =>
      HeaderFlat(cfg, h);
      AltBlock(cfg, Entered(cfg, st, file, l, h), h, HeaderBlock(cfg, h), stack + [h], outer);
  }

  /** Under an ambiguous group a block emits nothing certain; when it is closed it leaves
      the open groups as they were. */
  lemma {:induction false} AltBlock(cfg: Config, st: State, file: string, b: Block, stack: seq<string>,
                                    outer: seq<Frame>)
    requires Shaped(b, false) && SplicesClose(cfg, st, file, Flatten(b), stack)
    requires outer <= st.cond && AmbiguousNow(outer)
    ensures Certain(Emitted(cfg, st, file, Flatten(b), stack)) == []
    ensures !IsOpen(b) ==> Run(cfg, st, file, Flatten(b), stack).cond == st.cond
    decreases DepthLeft(cfg, stack), 1, b, 1
  {
    match b
    case Nil =>
    case Leaf(line, rest) =>
      ClosesOne(cfg, st, file, line, Flatten(rest), stack);
      RunOne(cfg, st, file, line, Flatten(rest), stack);
      AltLine(cfg, st, file, line, stack, outer);
      AltBlock(cfg, Step(cfg, st, file, line, stack), file, rest, stack, outer);
      SilentOne(cfg, st, file, line, Flatten(rest), stack);
    case Chain(_, _, _, _) =>
      AltChain(cfg, st, file, b, stack, outer);
  }

  lemma {:induction false} AltChain(cfg: Config, st: State, file: string, b: Block, stack: seq<string>,
                                    outer: seq<Frame>)
    requires b.Chain? && Shaped(b, false) && SplicesClose(cfg, st, file, Flatten(b), stack)
    requires outer <= st.cond && AmbiguousNow(outer)
    ensures Certain(Emitted(cfg, st, file, Flatten(b), stack)) == []
    ensures !IsOpen(b) ==> Run(cfg, st, file, Flatten(b), stack).cond == st.cond
    decreases DepthLeft(cfg, stack), 1, b, 0
  {
    var Chain(head, body, arms, rest) := b;
    var s0 := PlainStep(cfg, st, file, head);
    StepState(cfg, st, file, head);
    var frame := s0.cond[|st.cond|];
    assert s0.cond == st.cond + [frame];
    ChainRuns(cfg, st, file, b, stack);
    ChainCloses(cfg, st, file, b, stack);
    AltBlock(cfg, s0, file, body, stack, outer);
    var s1 := Run(cfg, s0, file, Flatten(body), stack);
    if IsOpen(body) {
      assert FlattenArms(arms) == [] && Flatten(rest) == [];
    } else {
      AltArms(cfg, s1, file, arms, stack, outer, st.cond, frame);
      if ArmsOpen(arms) {
        assert Flatten(rest) == [];
      } else {
        AltBlock(cfg, Run(cfg, s1, file, FlattenArms(arms), stack), file, rest, stack, outer);
      }
    }
    SilentChain(cfg, st, file, b, stack);
  }

  lemma SilentChain(cfg: Config, st: State, file: string, b: Block, stack: seq<string>)
    requires b.Chain? && Opens(b.head.directive)
    requires var s0 := PlainStep(cfg, st, file, b.head);
             var s1 := Run(cfg, s0, file, Flatten(b.body), stack);
             && Certain(Emitted(cfg, s0, file, Flatten(b.body), stack)) == []
             && Certain(Emitted(cfg, s1, file, FlattenArms(b.arms), stack)) == []
             && Certain(Emitted(cfg, Run(cfg, s1, file, FlattenArms(b.arms), stack), file, Flatten(b.rest), stack))
                == []
    ensures Certain(Emitted(cfg, st, file, Flatten(b), stack)) == []
  {
    var Chain(head, body, arms, rest) := b;
    var s0 := PlainStep(cfg, st, file, head);
    var tail := FlattenArms(arms) + Flatten(rest);
    SilentConcat(cfg, Run(cfg, s0, file, Flatten(body), stack), file, FlattenArms(arms), Flatten(rest), stack);
    SilentConcat(cfg, s0, file, Flatten(body), tail, stack);
    SilentHead(cfg, st, file, head, Flatten(body) + tail, stack);
    ChainFlat(b);
  }

  lemma ChainFlat(b: Block)
    requires b.Chain?
    ensures Flatten(b) == [b.head] + (Flatten(b.body) + (FlattenArms(b.arms) + Flatten(b.rest)))
  {
  }

  /** A conditional line emits no text. */
  lemma SilentHead(cfg: Config, st: State, file: string, l: Logical, s: seq<Logical>, stack: seq<string>)
    requires IsConditional(l.directive)
    requires Certain(Emitted(cfg, PlainStep(cfg, st, file, l), file, s, stack)) == []
    ensures Certain(Emitted(cfg, st, file, [l] + s, stack)) == []
  {
    SilentOne(cfg, st, file, l, s, stack);
  }

  lemma ArmFlat(a: Arms)
    requires a.Arm?
    ensures FlattenArms(a) == [a.head] + (Flatten(a.body) + FlattenArms(a.more))
  {
  }

  /** The line of an arm or an endif touches the top group only. */
  lemma TopOnly(cfg: Config, st: State, file: string, l: Logical, base: seq<Frame>, frame: Frame)
    returns (next: Frame)
    requires st.cond == base + [frame] && (ContinuesChain(l.directive) || l.directive.Endif?)
    ensures PlainStep(cfg, st, file, l).cond == if l.directive.Endif? then base else base + [next]
  {
    StepState(cfg, st, file, l);
    next := if l.directive.Endif? then frame else PlainStep(cfg, st, file, l).cond[|base|];
  }

  lemma {:induction false} AltArms(cfg: Config, st: State, file: string, a: Arms, stack: seq<string>,
                                   outer: seq<Frame>, base: seq<Frame>, frame: Frame)
    requires ShapedArms(a) && SplicesClose(cfg, st, file, FlattenArms(a), stack)
    requires outer <= base && AmbiguousNow(outer) && st.cond == base + [frame]
    ensures Certain(Emitted(cfg, st, file, FlattenArms(a), stack)) == []
    ensures !ArmsOpen(a) ==> Run(cfg, st, file, FlattenArms(a), stack).cond == base
    decreases DepthLeft(cfg, stack), 1, a, 0
  {
    match a
    case Cut =>
    case Close(tail) =>
      var _ := TopOnly(cfg, st, file, tail, base, frame);
      RunOne(cfg, st, file, tail, [], stack);
      SilentHead(cfg, st, file, tail, [], stack);
      assert [tail] + [] == [tail];
    case Arm(head, body, more) =>
      var s0 := PlainStep(cfg, st, file, head);
      var next := TopOnly(cfg, st, file, head, base, frame);
      ArmRuns(cfg, st, file, a, stack);
      ArmCloses(cfg, st, file, a, stack);
      AltBlock(cfg, s0, file, body, stack, outer);
      var s1 := Run(cfg, s0, file, Flatten(body), stack);
      if IsOpen(body) {
        assert FlattenArms(more) == [] && ArmsOpen(more);
      } else {
        AltArms(cfg, s1, file, more, stack, outer, base, next);
      }
      SilentConcat(cfg, s0, file, Flatten(body), FlattenArms(more), stack);
      SilentHead(cfg, st, file, head, Flatten(body) + FlattenArms(more), stack);
      ArmFlat(a);
  }

  // -- the tables decide -----------------------------------------------------------------------------

  /** In an alternative arm a line, and a header that closes what it opens, is safe exactly
      when it leaves the macro table as it was. */
  lemma UncertainLineIff(cfg: Config, st: State, file: string, l: Logical, stack: seq<string>)
    requires Uncertain(st) && Sound(st.cond) && LineCloses(cfg, st, file, l, stack)
    ensures LineSafe(cfg, st, file, l, stack) <==> Step(cfg, st, file, l, stack).macros == st.macros
  {
    if Spliced(cfg, st, file, l, stack).Some? {
      AltLine(cfg, st, file, l, stack, st.cond);
    }
  }

  ghost predicate LineKeepsTable(cfg: Config, st: State, file: string, l: Logical, stack: seq<string>)
    decreases DepthLeft(cfg, stack), 0
  {
    if Uncertain(st) then Step(cfg, st, file, l, stack).macros == st.macros
    else
      match Spliced(cfg, st, file, l, stack)
      case Some(h) => TablesKept(cfg, Entered(cfg, st, file, l, h), h, Group(cfg.files[h], 0), stack + [h])
      case None => true
  }

  /** No line that both mode runs only as an alternative, and no header it splices there,
      changes the macro table. */
  ghost predicate TablesKept(cfg: Config, st: State, file: string, s: seq<Logical>, stack: seq<string>)
    decreases DepthLeft(cfg, stack), |s|
  {
    s == [] ||
    (LineKeepsTable(cfg, st, file, s[0], stack) &&
     TablesKept(cfg, Step(cfg, st, file, s[0], stack), file, s[1..], stack))
  }

  lemma SoundNext(cond: seq<Frame>, t: Table, d: Directive, both: bool)
    requires Sound(cond) && IsConditional(d)
    ensures Sound(HandleConditional(cond, t, d, both))
  {
    var next := HandleConditional(cond, t, d, both);
    if d.Ifdef? || d.Ifndef? {
      SoundPush(cond, next[|cond|]);
    } else if cond != [] {
      SoundTop(cond, if d.Endif? then cond[|cond| - 1] else next[|cond| - 1]);
    }
  }

  lemma {:induction false} SoundStep(cfg: Config, st: State, file: string, l: Logical, stack: seq<string>)
    requires Sound(st.cond)
    ensures Sound(Step(cfg, st, file, l, stack).cond)
    decreases DepthLeft(cfg, stack), 0
  {
    StepState(cfg, st, file, l);
    if IsConditional(l.directive) {
      SoundNext(st.cond, st.macros, l.directive, cfg.both);
    }
    var h := Spliced(cfg, st, file, l, stack);
    if h.Some? {
      SoundRun(cfg, Entered(cfg, st, file, l, h.value), h.value, Group(cfg.files[h.value], 0), stack + [h.value]);
    }
  }

  lemma {:induction false} SoundRun(cfg: Config, st: State, file: string, s: seq<Logical>, stack: seq<string>)
    requires Sound(st.cond)
    ensures Sound(Run(cfg, st, file, s, stack).cond)
    decreases DepthLeft(cfg, stack), |s|
  {
    if s != [] {
      SoundStep(cfg, st, file, s[0], stack);
      SoundRun(cfg, Step(cfg, st, file, s[0], stack), file, s[1..], stack);
    }
  }

  /** Where headers close what they open, the condition is about tables alone. */
  lemma {:induction false} SafeIffKept(cfg: Config, st: State, file: string, s: seq<Logical>, stack: seq<string>)
    requires Sound(st.cond) && SplicesClose(cfg, st, file, s, stack)
    ensures NoUncertainChange(cfg, st, file, s, stack) <==> TablesKept(cfg, st, file, s, stack)
    decreases DepthLeft(cfg, stack), |s|
  {
    if s != [] {
      SoundStep(cfg, st, file, s[0], stack);
      SafeIffKept(cfg, Step(cfg, st, file, s[0], stack), file, s[1..], stack);
      if Uncertain(st) {
        UncertainLineIff(cfg, st, file, s[0], stack);
      } else {
        match Spliced(cfg, st, file, s[0], stack)
        case None =>
        case Some(h) =>
          var entered := Entered(cfg, st, file, s[0], h);
          SafeIffKept(cfg, entered, h, Group(cfg.files[h], 0), stack + [h]);
      }
    }
  }

  /** The exact condition for runs whose headers close what they open: the two modes agree at
      every position if and only if no alternative changes the table. */
  lemma AgreesIffKept(sel: Config, both: Config, ss: State, sb: State, file: string, s: seq<Logical>,
                      stack: seq<string>)
    requires !sel.both && both == sel.(both := true) && Alike(ss, sb)
    requires SplicesClose(both, sb, file, s, stack)
    ensures Agrees(sel, both, ss, sb, file, s, stack) <==> TablesKept(both, sb, file, s, stack)
  {
    AgreesIff(sel, both, ss, sb, file, s, stack);
    SafeIffKept(both, sb, file, s, stack);
  }

  ghost predicate LineTablesAgree(sel: Config, both: Config, ss: State, sb: State, file: string, l: Logical,
                                  stack: seq<string>)
    requires both == sel.(both := true)
    decreases DepthLeft(sel, stack), 0
  {
    match Spliced(sel, ss, file, l, stack)
    case Some(h) =>
      TablesAgree(sel, both, Entered(sel, ss, file, l, h), Entered(both, sb, file, l, h), h,
                  Group(sel.files[h], 0), stack + [h])
    case None => true
  }

  /** The two runs have equal tables before every line and at the end, in the headers that
      select mode splices too. */
  ghost predicate TablesAgree(sel: Config, both: Config, ss: State, sb: State, file: string, s: seq<Logical>,
                              stack: seq<string>)
    requires both == sel.(both := true)
    decreases DepthLeft(sel, stack), |s|
  {
    && ss.macros == sb.macros
    && (s != [] ==>
          && LineTablesAgree(sel, both, ss, sb, file, s[0], stack)
          && TablesAgree(sel, both, Step(sel, ss, file, s[0], stack), Step(both, sb, file, s[0], stack),
                         file, s[1..], stack))
  }

  lemma {:induction false} LineTablesSuffice(sel: Config, both: Config, ss: State, sb: State, file: string, l: Logical,
                                             stack: seq<string>)
    requires !sel.both && both == sel.(both := true) && Alike(ss, sb) && LineCloses(both, sb, file, l, stack)
    requires LineTablesAgree(sel, both, ss, sb, file, l, stack)
    requires Step(sel, ss, file, l, stack).macros == Step(both, sb, file, l, stack).macros
    ensures LineAgrees(sel, both, ss, sb, file, l, stack)
    ensures Alike(Step(sel, ss, file, l, stack), Step(both, sb, file, l, stack))
    decreases DepthLeft(sel, stack), 0
  {
    SplicedAlike(sel, both, ss, sb, file, l, stack);
    PlainAlike(sel, both, ss, sb, file, l);
    TextAlike(sel, both, ss, sb, file, l);
    match Spliced(sel, ss, file, l, stack)
    case Some(h) =>
      var es, eb := Entered(sel, ss, file, l, h), Entered(both, sb, file, l, h);
      TablesSuffice(sel, both, es, eb, h, Group(sel.files[h], 0), stack + [h]);
      AgreeingRuns(sel, both, es, eb, h, Group(sel.files[h], 0), stack + [h]);
    case None =>
      if Spliced(both, sb, file, l, stack).Some? {
        AltLine(both, sb, file, l, stack, sb.cond);
        EmitsAlike(ss.cond, sb.cond);
      }
  }

  lemma {:induction false} TablesSuffice(sel: Config, both: Config, ss: State, sb: State, file: string,
                                         s: seq<Logical>, stack: seq<string>)
    requires !sel.both && both == sel.(both := true) && Alike(ss, sb) && SplicesClose(both, sb, file, s, stack)
    requires TablesAgree(sel, both, ss, sb, file, s, stack)
    ensures Agrees(sel, both, ss, sb, file, s, stack)
    decreases DepthLeft(sel, stack), |s|
  {
    if s != [] {
      LineTablesSuffice(sel, both, ss, sb, file, s[0], stack);
      TablesSuffice(sel, both, Step(sel, ss, file, s[0], stack), Step(both, sb, file, s[0], stack),
                    file, s[1..], stack);
    }
  }

  lemma {:induction false} AgreementHasTables(sel: Config, both: Config, ss: State, sb: State, file: string,
                                              s: seq<Logical>, stack: seq<string>)
    requires both == sel.(both := true) && Agrees(sel, both, ss, sb, file, s, stack)
    ensures TablesAgree(sel, both, ss, sb, file, s, stack)
    decreases DepthLeft(sel, stack), |s|
  {
    if s != [] {
      var h := Spliced(sel, ss, file, s[0], stack);
      if h.Some? {
        AgreementHasTables(sel, both, Entered(sel, ss, file, s[0], h.value), Entered(both, sb, file, s[0], h.value),
                           h.value, Group(sel.files[h.value], 0), stack + [h.value]);
      }
      AgreementHasTables(sel, both, Step(sel, ss, file, s[0], stack), Step(both, sb, file, s[0], stack),
                         file, s[1..], stack);
    }
  }

  /** The tables alone decide: text and choices agree everywhere if and only if the tables do, which is
      if and only if no alternative changes them. */
  lemma TablesAgreeIff(sel: Config, both: Config, ss: State, sb: State, file: string, s: seq<Logical>,
                       stack: seq<string>)
    requires !sel.both && both == sel.(both := true) && Alike(ss, sb) && SplicesClose(both, sb, file, s, stack)
    ensures TablesAgree(sel, both, ss, sb, file, s, stack) <==> Agrees(sel, both, ss, sb, file, s, stack)
    ensures TablesAgree(sel, both, ss, sb, file, s, stack) <==> TablesKept(both, sb, file, s, stack)
  {
    if TablesAgree(sel, both, ss, sb, file, s, stack) {
      TablesSuffice(sel, both, ss, sb, file, s, stack);
    }
    if Agrees(sel, both, ss, sb, file, s, stack) {
      AgreementHasTables(sel, both, ss, sb, file, s, stack);
    }
    AgreesIffKept(sel, both, ss, sb, file, s, stack);
  }

  // -- sources that never change the table ------------------------------------------------------------

  predicate NoTableLines(s: seq<Logical>) {
    forall l :: l in s ==> !l.directive.Define? && !l.directive.Undef?
  }

  predicate NoTableHeaders(cfg: Config) {
    forall h :: h in cfg.files ==> NoTableLines(Group(cfg.files[h], 0))
  }

  lemma {:induction false} TableFixed(cfg: Config, st: State, file: string, s: seq<Logical>, stack: seq<string>)
    requires NoTableLines(s) && NoTableHeaders(cfg)
    ensures Run(cfg, st, file, s, stack).macros == st.macros && TablesKept(cfg, st, file, s, stack)
    decreases DepthLeft(cfg, stack), |s|
  {
    if s != [] {
      assert s[0] in s && forall l :: l in s[1..] ==> l in s;
      StepState(cfg, st, file, s[0]);
      var h := Spliced(cfg, st, file, s[0], stack);
      if h.Some? {
        var entered := Entered(cfg, st, file, s[0], h.value);
        TableFixed(cfg, entered, h.value, Group(cfg.files[h.value], 0), stack + [h.value]);
      }
      TableFixed(cfg, Step(cfg, st, file, s[0], stack), file, s[1..], stack);
    }
  }

  /** Whatever its conditionals and includes, a source without define and undef lines, with headers
      that close what they open, is extended conservatively by both mode. */
  lemma FixedTablesExtend(sel: Config, macros: Table, file: string, s: seq<Logical>)
    requires !sel.both && NoTableLines(s) && NoTableHeaders(sel)
    requires SplicesClose(sel.(both := true), Fresh(macros), file, s, [file])
    ensures Emitted(sel, Fresh(macros), file, s, [file])
      == Certain(Emitted(sel.(both := true), Fresh(macros), file, s, [file]))
  {
    var both := sel.(both := true);
    TableFixed(both, Fresh(macros), file, s, [file]);
    SafeIffKept(both, Fresh(macros), file, s, [file]);
    BothExtendsSelectOnUnits(sel, macros, file, s);
  }

  // -- guarded headers -------------------------------------------------------------------------------

  /** The lines of a guarded header. */
  predicate IsGuarded(s: seq<Logical>, m: MacroDef, body: seq<Logical>) {
    && |s| == |body| + 3 && s == [s[0], s[1]] + (body + [s[|s| - 1]])
    && OpensGuard(s[0], s[1], m) && s[|s| - 1].directive.Endif?
    && forall l :: l in body ==> l.directive.Text?
  }

  lemma {:induction false} TextKeeps(cfg: Config, st: State, file: string, body: seq<Logical>, stack: seq<string>)
    requires forall l :: l in body ==> l.directive.Text?
    ensures var end := Run(cfg, st, file, body, stack); end.macros == st.macros && end.cond == st.cond
    ensures !Emitting(st.cond) ==> Emitted(cfg, st, file, body, stack) == []
    ensures Emitting(st.cond) && body != [] ==> Emitted(cfg, st, file, body, stack) != []
    ensures AmbiguousNow(st.cond) ==> Certain(Emitted(cfg, st, file, body, stack)) == []
    decreases |body|
  {
    if body != [] {
      assert body[0] in body && forall l :: l in body[1..] ==> l in body;
      StepState(cfg, st, file, body[0]);
      TextKeeps(cfg, Step(cfg, st, file, body[0], stack), file, body[1..], stack);
      var origin := LineOrigin(file, body[0].line, true);
      if AmbiguousNow(st.cond) {
        CertainStamp(SplitLines(ExpandText(cfg, st.macros, body[0].raw, origin)), origin);
        assert [body[0]] + body[1..] == body;
        SilentOne(cfg, st, file, body[0], body[1..], stack);
      }
    }
  }

  /** What a guarded header does: nothing when its name is defined or the region is dead, else
      it defines the name; it emits as certainly as the region it is spliced in. */
  lemma GuardedRun(cfg: Config, st: State, file: string, s: seq<Logical>, m: MacroDef, body: seq<Logical>,
                   stack: seq<string>)
    requires IsGuarded(s, m, body)
    ensures var end := Run(cfg, st, file, s, stack);
      && end.cond == st.cond
      && end.macros == (if Emitting(st.cond) && m.name !in st.macros then st.macros[m.name := m] else st.macros)
    ensures m.name in st.macros ==> Emitted(cfg, st, file, s, stack) == []
    ensures Emitting(st.cond) && m.name !in st.macros && body != [] ==> Emitted(cfg, st, file, s, stack) != []
    ensures AmbiguousNow(st.cond) ==> Certain(Emitted(cfg, st, file, s, stack)) == []
  {
    var s1 := PlainStep(cfg, st, file, s[0]);
    var s2 := PlainStep(cfg, s1, file, s[1]);
    GuardOpens(cfg, st, file, s[0], s[1], m);
    StepState(cfg, s1, file, s[1]);
    TextKeeps(cfg, s2, file, body, stack);
    GuardedParts(cfg, st, file, s, m, body, stack);
    StepState(cfg, Run(cfg, s2, file, body, stack), file, s[|s| - 1]);
  }

  lemma GuardedParts(cfg: Config, st: State, file: string, s: seq<Logical>, m: MacroDef, body: seq<Logical>,
                     stack: seq<string>)
    requires IsGuarded(s, m, body)
    ensures var s2 := PlainStep(cfg, PlainStep(cfg, st, file, s[0]), file, s[1]);
      && Run(cfg, st, file, s, stack) == PlainStep(cfg, Run(cfg, s2, file, body, stack), file, s[|s| - 1])
      && Emitted(cfg, st, file, s, stack) == Emitted(cfg, s2, file, body, stack)
  {
    var open, def, close := s[0], s[1], s[|s| - 1];
    var s1 := PlainStep(cfg, st, file, open);
    var s2 := PlainStep(cfg, s1, file, def);
    var s3 := Run(cfg, s2, file, body, stack);
    assert s == [open] + ([def] + (body + [close])) && [close] == [close] + [];
    RunOne(cfg, st, file, open, [def] + (body + [close]), stack);
    RunOne(cfg, s1, file, def, body + [close], stack);
    RunConcat(cfg, s2, file, body, [close], stack);
    RunOne(cfg, s3, file, close, [], stack);
    EmittedOne(cfg, st, file, open, [def] + (body + [close]), stack);
    EmittedOne(cfg, s1, file, def, body + [close], stack);
    EmittedConcat(cfg, s2, file, body, [close], stack);
    EmittedOne(cfg, s3, file, close, [], stack);
  }

  /** The same of the line that splices it. */
  lemma GuardedLine(cfg: Config, st: State, file: string, l: Logical, stack: seq<string>, h: string,
                    m: MacroDef, body: seq<Logical>)
    requires Spliced(cfg, st, file, l, stack) == Some(h) && IsGuarded(Group(cfg.files[h], 0), m, body)
    ensures var end := Step(cfg, st, file, l, stack);
      && end.cond == st.cond
      && end.macros == if m.name in st.macros then st.macros else st.macros[m.name := m]
    ensures m.name in st.macros ==> LineText(cfg, st, file, l, stack) == []
    ensures m.name !in st.macros && body != [] ==> LineText(cfg, st, file, l, stack) != []
    ensures AmbiguousNow(st.cond) ==> Certain(LineText(cfg, st, file, l, stack)) == []
  {
    StepState(cfg, st, file, l);
    GuardedRun(cfg, Entered(cfg, st, file, l, h), h, Group(cfg.files[h], 0), m, body, stack + [h]);
  }

  /** A guarded header is safe to splice anywhere but in an alternative arm that would
      be the first to see it. */
  lemma GuardedHeaderIff(cfg: Config, st: State, file: string, l: Logical, stack: seq<string>, h: string,
                         m: MacroDef, body: seq<Logical>)
    requires Sound(st.cond) && Spliced(cfg, st, file, l, stack) == Some(h)
    requires IsGuarded(Group(cfg.files[h], 0), m, body)
    ensures LineSafe(cfg, st, file, l, stack) <==> (Uncertain(st) ==> m.name in st.macros)
  {
    if Uncertain(st) {
      GuardedLine(cfg, st, file, l, stack, h, m, body);
    } else {
      var s, entered := Group(cfg.files[h], 0), Entered(cfg, st, file, l, h);
      StepState(cfg, st, file, l);
      GuardedLinesAreSafe(cfg, entered, h, s[0], s[1], m, body, s[|s| - 1], stack + [h]);
    }
  }

  function Shared(both: bool): Config {
    Config(both, map["g.svh" := [Line(Ifndef(Some("G")), "", false), Line(Define(Some(GuardMacro())), "", false),
                                 Line(Text, "x", false), Line(Endif, "", false)]],
           map[("a.sv", "g.svh") := "g.svh"], {"g.svh"}, 8, 8)
  }

  function GuardMacro(): MacroDef {
    MacroDef("G", None, "", "g.svh", 2)
  }

  /** The header is included under a feature flag, then unconditionally. */
  function TwiceIncluded(): seq<Logical> {
    [Logical(Ifdef(Some("FEATURE")), "", 1, 1), Logical(Include("g.svh"), "", 2, 1),
     Logical(Endif, "", 3, 1), Logical(Include("g.svh"), "", 4, 1)]
  }

  /** The alternative arm defines the guard, so the second include is skipped: text that select
      mode emits with full confidence is only ever emitted as ambiguous. */
  lemma GuardInAlternativeArm()
    ensures var s, sel, both := TwiceIncluded(), Shared(false), Shared(true);
      && !NoUncertainChange(both, Fresh(map[]), "a.sv", s, ["a.sv"])
      && Emitted(sel, Fresh(map[]), "a.sv", s, ["a.sv"]) != []
      && Certain(Emitted(both, Fresh(map[]), "a.sv", s, ["a.sv"])) == []
  {
    var s := TwiceIncluded();
    SharedHeader(true);
    SharedHeader(false);
    TwiceInSelect(Shared(false), "a.sv", s, ["a.sv"], "g.svh", GuardMacro(), [Logical(Text, "x", 3, 1)]);
    TwiceInBoth(Shared(true), "a.sv", s, ["a.sv"], "g.svh", GuardMacro(), [Logical(Text, "x", 3, 1)]);
  }

  lemma SharedHeader(both: bool)
    ensures var cfg, s := Shared(both), TwiceIncluded();
      && IsGuarded(Group(cfg.files["g.svh"], 0), GuardMacro(), [Logical(Text, "x", 3, 1)])
      && forall st: State :: Emitting(st.cond) ==>
           && Spliced(cfg, st, "a.sv", s[1], ["a.sv"]) == Some("g.svh")
           && Spliced(cfg, st, "a.sv", s[3], ["a.sv"]) == Some("g.svh")
  {
    SharedLines(both);
    forall st: State | Emitting(st.cond)
      ensures Spliced(Shared(both), st, "a.sv", TwiceIncluded()[1], ["a.sv"]) == Some("g.svh")
      ensures Spliced(Shared(both), st, "a.sv", TwiceIncluded()[3], ["a.sv"]) == Some("g.svh")
    {
      SharedIsSpliced(both, st, TwiceIncluded()[1]);
      SharedIsSpliced(both, st, TwiceIncluded()[3]);
    }
  }

  lemma SharedIsSpliced(both: bool, st: State, l: Logical)
    requires l.directive == Include("g.svh") && Emitting(st.cond)
    ensures Spliced(Shared(both), st, "a.sv", l, ["a.sv"]) == Some("g.svh")
  {
    assert "g.svh"[0] != "a.sv"[0];
    assert '`' !in "g.svh";
  }

  lemma SharedLines(both: bool)
    ensures IsGuarded(Group(Shared(both).files["g.svh"], 0), GuardMacro(), [Logical(Text, "x", 3, 1)])
  {
    var lines := Shared(both).files["g.svh"];
    assert Group(lines, 3) == [Logical(Endif, "", 4, 1)];
    assert Group(lines, 2) == [Logical(Text, "x", 3, 1)] + Group(lines, 3);
  }

  /** Two includes of one guarded header, the first of them under a flag that is not defined. */
  ghost predicate IncludesTwice(cfg: Config, file: string, s: seq<Logical>, stack: seq<string>, h: string,
                                m: MacroDef, body: seq<Logical>) {
    && |s| == 4 && s[0].directive.Ifdef? && s[2].directive.Endif?
    && s[1].directive.Include? && s[3].directive.Include?
    && h in cfg.files && IsGuarded(Group(cfg.files[h], 0), m, body)
    && forall st: State :: Emitting(st.cond) ==>
         && Spliced(cfg, st, file, s[1], stack) == Some(h)
         && Spliced(cfg, st, file, s[3], stack) == Some(h)
  }

  lemma FourLines(cfg: Config, st: State, file: string, s: seq<Logical>, stack: seq<string>)
    requires |s| == 4
    ensures var s1 := Step(cfg, st, file, s[0], stack);
      var s2 := Step(cfg, s1, file, s[1], stack);
      var s3 := Step(cfg, s2, file, s[2], stack);
      Emitted(cfg, st, file, s, stack) ==
        LineText(cfg, st, file, s[0], stack) + (LineText(cfg, s1, file, s[1], stack) +
        (LineText(cfg, s2, file, s[2], stack) + LineText(cfg, s3, file, s[3], stack)))
  {
    var s1 := Step(cfg, st, file, s[0], stack);
    var s2 := Step(cfg, s1, file, s[1], stack);
    var s3 := Step(cfg, s2, file, s[2], stack);
    assert s == [s[0]] + s[1..] && s[1..] == [s[1]] + s[2..] && s[2..] == [s[2]] + s[3..] && s[3..] == [s[3]] + [];
    EmittedOne(cfg, st, file, s[0], s[1..], stack);
    EmittedOne(cfg, s1, file, s[1], s[2..], stack);
    EmittedOne(cfg, s2, file, s[2], s[3..], stack);
    EmittedOne(cfg, s3, file, s[3], [], stack);
  }

  lemma TwiceInSelect(sel: Config, file: string, s: seq<Logical>, stack: seq<string>, h: string, m: MacroDef,
                      body: seq<Logical>)
    requires !sel.both && IncludesTwice(sel, file, s, stack, h, m, body) && body != []
    ensures Emitted(sel, Fresh(map[]), file, s, stack) != []
  {
    var s1 := Step(sel, Fresh(map[]), file, s[0], stack);
    FlagOpens(sel, Fresh(map[]), file, s[0], stack);
    assert s1.cond[0] in s1.cond;
    var s2 := Step(sel, s1, file, s[1], stack);
    StepState(sel, s1, file, s[1]);
    var s3 := Step(sel, s2, file, s[2], stack);
    GroupCloses(sel, s2, file, s[2], stack);
    GuardedLine(sel, s3, file, s[3], stack, h, m, body);
    FourLines(sel, Fresh(map[]), file, s, stack);
  }

  lemma FlagOpens(cfg: Config, st: State, file: string, l: Logical, stack: seq<string>)
    requires st.cond == [] && st.macros == map[] && l.directive.Ifdef?
    ensures var next := Step(cfg, st, file, l, stack);
      next.cond == [Frame(false, false, false, cfg.both)] && next.macros == map[]
    ensures LineText(cfg, st, file, l, stack) == []
  {
    StepState(cfg, st, file, l);
  }

  lemma GroupCloses(cfg: Config, st: State, file: string, l: Logical, stack: seq<string>)
    requires |st.cond| == 1 && l.directive.Endif?
    ensures Step(cfg, st, file, l, stack).cond == [] && Step(cfg, st, file, l, stack).macros == st.macros
    ensures LineText(cfg, st, file, l, stack) == []
  {
    StepState(cfg, st, file, l);
  }

  lemma TwiceInBoth(both: Config, file: string, s: seq<Logical>, stack: seq<string>, h: string, m: MacroDef,
                    body: seq<Logical>)
    requires both.both && IncludesTwice(both, file, s, stack, h, m, body)
    ensures !NoUncertainChange(both, Fresh(map[]), file, s, stack)
    ensures Certain(Emitted(both, Fresh(map[]), file, s, stack)) == []
  {
    var s1, s2, s3 := TwiceStates(both, file, s, stack, h, m, body);
    GuardedHeaderIff(both, s1, file, s[1], stack, h, m, body);
    assert s[1..][0] == s[1];
    FourLines(both, Fresh(map[]), file, s, stack);
    assert Emitted(both, Fresh(map[]), file, s, stack) == LineText(both, s1, file, s[1], stack);
  }

  lemma TwiceStates(both: Config, file: string, s: seq<Logical>, stack: seq<string>, h: string, m: MacroDef,
                    body: seq<Logical>)
    returns (s1: State, s2: State, s3: State)
    requires both.both && IncludesTwice(both, file, s, stack, h, m, body)
    ensures s1 == Step(both, Fresh(map[]), file, s[0], stack) && s2 == Step(both, s1, file, s[1], stack)
    ensures s3 == Step(both, s2, file, s[2], stack)
    ensures Uncertain(s1) && Sound(s1.cond) && m.name !in s1.macros && Spliced(both, s1, file, s[1], stack) == Some(h)
    ensures Certain(LineText(both, s1, file, s[1], stack)) == []
    ensures LineText(both, s2, file, s[2], stack) == [] && LineText(both, s3, file, s[3], stack) == []
  {
    s1 := Step(both, Fresh(map[]), file, s[0], stack);
    FlagOpens(both, Fresh(map[]), file, s[0], stack);
    OnlyAlternative(s1.cond);
    s2 := Step(both, s1, file, s[1], stack);
    GuardedLine(both, s1, file, s[1], stack, h, m, body);
    s3 := Step(both, s2, file, s[2], stack);
    GroupCloses(both, s2, file, s[2], stack);
    GuardedLine(both, s3, file, s[3], stack, h, m, body);
  }

  lemma OnlyAlternative(cond: seq<Frame>)
    requires cond == [Frame(false, false, false, true)]
    ensures Emitting(cond) && AmbiguousNow(cond) && Sound(cond)
  {
    assert cond[0] in cond && Emitting(cond[..0]);
  }
}
