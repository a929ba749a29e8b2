/** Both-branches mode extends select mode (`_emitting`, `_ambiguous` in
    src/hdl_kgraph/parser/preprocessor.py). */
module BothBranches {
  import opened Schema
  import opened MacroExpansion
  import opened Preprocessor
  import Conditionals

  /** The text lines one step emits, with their origins. */
  function TextOf(cfg: Config, st: State, file: string, l: Logical): seq<(string, LineOrigin)> {
    if l.directive.Text? && Emitting(st.cond) then
      var origin := LineOrigin(file, l.line, AmbiguousNow(st.cond));
      Stamp(SplitLines(ExpandText(cfg, st.macros, l.raw, origin)), origin)
    else []
  }

  function Stamp(lines: seq<string>, origin: LineOrigin): seq<(string, LineOrigin)> {
    seq(|lines|, i requires 0 <= i < |lines| => (lines[i], origin))
  }

  function LineText(cfg: Config, st: State, file: string, l: Logical, stack: seq<string>): seq<(string, LineOrigin)>
    decreases DepthLeft(cfg, stack), 0
  {
    match Spliced(cfg, st, file, l, stack)
    case Some(h) => Emitted(cfg, Entered(cfg, st, file, l, h), h, Group(cfg.files[h], 0), stack + [h])
    case None => TextOf(cfg, st, file, l)
  }

  /** All emitted text lines of a run, in order, those of spliced headers among them. */
  function Emitted(cfg: Config, st: State, file: string, s: seq<Logical>, stack: seq<string>)
    : seq<(string, LineOrigin)>
    decreases DepthLeft(cfg, stack), |s|
  {
    if s == [] then []
    else LineText(cfg, st, file, s[0], stack) + Emitted(cfg, Step(cfg, st, file, s[0], stack), file, s[1..], stack)
  }

  /** The lines not stamped ambiguous. */
  function Certain(lines: seq<(string, LineOrigin)>): seq<(string, LineOrigin)> {
    if lines == [] then []
    else (if lines[0].1.ambiguous then [] else [lines[0]]) + Certain(lines[1..])
  }

  lemma {:induction false} CertainConcat(a: seq<(string, LineOrigin)>, b: seq<(string, LineOrigin)>)
    ensures Certain(a + b) == Certain(a) + Certain(b)
  {
    if a == [] {
      assert a + b == b;
    } else {
      assert (a + b)[1..] == a[1..] + b;
      CertainConcat(a[1..], b);
    }
  }

  lemma {:induction false} CertainStamp(lines: seq<string>, origin: LineOrigin)
    ensures Certain(Stamp(lines, origin)) == if origin.ambiguous then [] else Stamp(lines, origin)
  {
    if lines != [] {
      var all := Stamp(lines, origin);
      assert all[1..] == Stamp(lines[1..], origin);
      CertainStamp(lines[1..], origin);
      assert all == [all[0]] + all[1..];
    }
  }

  // -- the two stacks stay in step ----------------------------------------------------------------

  /** A frame is dead exactly when what encloses it does not emit. */
  ghost predicate Sound(cond: seq<Frame>) {
    forall i :: 0 <= i < |cond| ==> (cond[i].dead <==> !Emitting(cond[..i]))
  }

  /** Same choices in both modes; select mode has no ambiguous frame. */
  ghost predicate InStep(cs: seq<Frame>, cb: seq<Frame>) {
    && |cs| == |cb| && Sound(cs) && Sound(cb)
    && (forall i :: 0 <= i < |cs| ==>
          !cs[i].ambiguous && cs[i].selected == cb[i].selected && cs[i].everSelected == cb[i].everSelected)
  }

  predicate AllSelected(cond: seq<Frame>) {
    forall f :: f in cond ==> f.selected
  }

  lemma {:induction false} SelectedIsLive(cond: seq<Frame>)
    requires Sound(cond) && AllSelected(cond)
    ensures Emitting(cond) && !AmbiguousNow(cond)
  {
    if cond != [] {
      var k := |cond| - 1;
      forall i | 0 <= i < k ensures cond[..k][..i] == cond[..i] {}
      SelectedIsLive(cond[..k]);
      assert !cond[k].dead;
      assert cond == cond[..k] + [cond[k]];
    }
  }

  /** Select mode emits exactly where both mode emits without ambiguity. */
  lemma EmitsAlike(cs: seq<Frame>, cb: seq<Frame>)
    requires InStep(cs, cb)
    ensures Emitting(cs) <==> Emitting(cb) && !AmbiguousNow(cb)
  {
    if Emitting(cs) {
      forall f | f in cb ensures f.selected {
        var i :| 0 <= i < |cb| && cb[i] == f;
        assert cs[i] in cs;
      }
      SelectedIsLive(cb);
    }
    if Emitting(cb) && !AmbiguousNow(cb) {
      forall f | f in cs ensures f.selected {
        var i :| 0 <= i < |cs| && cs[i] == f;
        assert cb[i] in cb;
      }
      SelectedIsLive(cs);
    }
  }

  lemma SoundPush(cond: seq<Frame>, f: Frame)
    requires Sound(cond) && (f.dead <==> !Emitting(cond))
    ensures Sound(cond + [f])
  {
    forall i | 0 <= i < |cond + [f]| ensures (cond + [f])[i].dead <==> !Emitting((cond + [f])[..i]) {
      assert (cond + [f])[..i] == cond[..i];
      if i == |cond| { assert cond[..i] == cond; }
    }
  }

  lemma SoundTop(cond: seq<Frame>, f: Frame)
    requires Sound(cond) && cond != [] && f.dead == cond[|cond| - 1].dead
    ensures Sound(cond[|cond| - 1 := f]) && Sound(cond[..|cond| - 1])
  {
    var k := |cond| - 1;
    forall i | 0 <= i < |cond| ensures cond[k := f][..i] == cond[..i] {}
    forall i | 0 <= i < k ensures cond[..k][..i] == cond[..i] {}
  }

  lemma ConditionalInStep(cs: seq<Frame>, cb: seq<Frame>, t: Table, d: Directive)
    requires InStep(cs, cb) && IsConditional(d)
    ensures InStep(HandleConditional(cs, t, d, false), HandleConditional(cb, t, d, true))
  {
    var ns, nb := HandleConditional(cs, t, d, false), HandleConditional(cb, t, d, true);
    if d.Ifdef? || d.Ifndef? {
      SoundPush(cs, ns[|cs|]);
      SoundPush(cb, nb[|cb|]);
    } else if cs != [] {
      var k := |cs| - 1;
      if d.Endif? {
        SoundTop(cs, cs[k]);
        SoundTop(cb, cb[k]);
      } else {
        SoundTop(cs, ns[k]);
        SoundTop(cb, nb[k]);
      }
    }
  }

  lemma NotAmbiguous(cs: seq<Frame>, cb: seq<Frame>)
    requires InStep(cs, cb)
    ensures !AmbiguousNow(cs)
  {
    forall f | f in cs ensures !f.ambiguous {
      var i :| 0 <= i < |cs| && cs[i] == f;
    }
  }

  // -- where the modes agree -----------------------------------------------------------------------

  /** Both mode emits here, but only as an alternative that select mode skips. */
  predicate Uncertain(st: State) {
    Emitting(st.cond) && AmbiguousNow(st.cond)
  }

  /** The same arms are taken; ambiguity aside, nothing differs. */
  ghost predicate SameChoices(before: seq<Frame>, after: seq<Frame>) {
    && |before| == |after| && Sound(after)
    && forall i :: 0 <= i < |before| ==>
         before[i].selected == after[i].selected && before[i].everSelected == after[i].everSelected
  }

  /** An uncertain line changes no macro; an uncertain header, besides, takes no arm and
      emits nothing certain. A header spliced for certain is safe line by line. */
  ghost predicate LineSafe(cfg: Config, st: State, file: string, l: Logical, stack: seq<string>)
    decreases DepthLeft(cfg, stack), 0
  {
    if Uncertain(st) then
      var next := Step(cfg, st, file, l, stack);
      && next.macros == st.macros
      && (Spliced(cfg, st, file, l, stack).Some? ==>
            SameChoices(st.cond, next.cond) && Certain(LineText(cfg, st, file, l, stack)) == [])
    else
      match Spliced(cfg, st, file, l, stack)
      case Some(h) =>
        NoUncertainChange(cfg, Entered(cfg, st, file, l, h), h, Group(cfg.files[h], 0), stack + [h])
      case None => true
  }

  ghost predicate NoUncertainChange(cfg: Config, st: State, file: string, s: seq<Logical>, stack: seq<string>)
    decreases DepthLeft(cfg, stack), |s|
  {
    s == [] ||
    (LineSafe(cfg, st, file, s[0], stack) &&
     NoUncertainChange(cfg, Step(cfg, st, file, s[0], stack), file, s[1..], stack))
  }

  /** Equal tables and the same choices. */
  ghost predicate Alike(ss: State, sb: State) {
    ss.macros == sb.macros && InStep(ss.cond, sb.cond)
  }

  /** One line emits alike, its spliced lines included. */
  ghost predicate LineAgrees(sel: Config, both: Config, ss: State, sb: State, file: string, l: Logical,
                             stack: seq<string>)
    requires both == sel.(both := true)
    decreases DepthLeft(sel, stack), 0
  {
    && LineText(sel, ss, file, l, stack) == Certain(LineText(both, sb, file, l, stack))
    && match Spliced(sel, ss, file, l, stack)
       case Some(h) =>
         Agrees(sel, both, Entered(sel, ss, file, l, h), Entered(both, sb, file, l, h), h,
                Group(sel.files[h], 0), stack + [h])
       case None => true
  }

  /** At every position both runs reach, in headers too: equal tables, the same choices,
      and the lines select mode emits are the certain lines of both mode. */
  ghost predicate Agrees(sel: Config, both: Config, ss: State, sb: State, file: string, s: seq<Logical>,
                         stack: seq<string>)
    requires both == sel.(both := true)
    decreases DepthLeft(sel, stack), |s|
  {
    && Alike(ss, sb)
    && (s != [] ==>
          && LineAgrees(sel, both, ss, sb, file, s[0], stack)
          && Agrees(sel, both, Step(sel, ss, file, s[0], stack), Step(both, sb, file, s[0], stack),
                    file, s[1..], stack))
  }

  /** The two runs read a line alike: same text when it is certain, nothing when it is not. */
  lemma TextAlike(sel: Config, both: Config, ss: State, sb: State, file: string, l: Logical)
    requires !sel.both && both == sel.(both := true) && Alike(ss, sb)
    ensures TextOf(sel, ss, file, l) == Certain(TextOf(both, sb, file, l))
  {
    EmitsAlike(ss.cond, sb.cond);
    NotAmbiguous(ss.cond, sb.cond);
    var origin := LineOrigin(file, l.line, AmbiguousNow(sb.cond));
    CertainStamp(SplitLines(ExpandText(both, sb.macros, l.raw, origin)), origin);
  }

  /** A line that splices no header keeps the choices, and the tables unless it is uncertain. */
  lemma PlainAlike(sel: Config, both: Config, ss: State, sb: State, file: string, l: Logical)
    requires !sel.both && both == sel.(both := true) && Alike(ss, sb)
    ensures var ns, nb := PlainStep(sel, ss, file, l), PlainStep(both, sb, file, l);
      && InStep(ns.cond, nb.cond)
      && (Uncertain(sb) ==> ns.macros == ss.macros)
      && (!Uncertain(sb) ==> ns.macros == nb.macros)
  {
    EmitsAlike(ss.cond, sb.cond);
    StepState(sel, ss, file, l);
    StepState(both, sb, file, l);
    if IsConditional(l.directive) {
      ConditionalInStep(ss.cond, sb.cond, ss.macros, l.directive);
    }
  }

  /** The runs splice the same header, except where only both mode runs at all. */
  lemma SplicedAlike(sel: Config, both: Config, ss: State, sb: State, file: string, l: Logical, stack: seq<string>)
    requires !sel.both && both == sel.(both := true) && Alike(ss, sb)
    ensures Uncertain(sb) ==> Spliced(sel, ss, file, l, stack) == None
    ensures !Uncertain(sb) ==> Spliced(sel, ss, file, l, stack) == Spliced(both, sb, file, l, stack)
  {
    EmitsAlike(ss.cond, sb.cond);
    NotAmbiguous(ss.cond, sb.cond);
  }

  lemma SameChoicesInStep(cs: seq<Frame>, cb: seq<Frame>, nb: seq<Frame>)
    requires InStep(cs, cb)
    ensures InStep(cs, nb) <==> SameChoices(cb, nb)
  {
  }

  /** Runs that agree end alike and emit the same certain lines. */
  lemma {:induction false} AgreeingRuns(sel: Config, both: Config, ss: State, sb: State, file: string,
                                        s: seq<Logical>, stack: seq<string>)
    requires !sel.both && both == sel.(both := true) && Agrees(sel, both, ss, sb, file, s, stack)
    ensures Alike(Run(sel, ss, file, s, stack), Run(both, sb, file, s, stack))
    ensures Emitted(sel, ss, file, s, stack) == Certain(Emitted(both, sb, file, s, stack))
    decreases |s|
  {
    if s != [] {
      var ns, nb := Step(sel, ss, file, s[0], stack), Step(both, sb, file, s[0], stack);
      AgreeingRuns(sel, both, ns, nb, file, s[1..], stack);
      CertainConcat(LineText(both, sb, file, s[0], stack), Emitted(both, nb, file, s[1..], stack));
    }
  }

  /** A line agrees and leaves the runs alike exactly when it is safe. */
  lemma {:induction false} LineAgreesIff(sel: Config, both: Config, ss: State, sb: State, file: string,
                                         l: Logical, stack: seq<string>)
    requires !sel.both && both == sel.(both := true) && Alike(ss, sb)
    ensures LineSafe(both, sb, file, l, stack) <==>
      LineAgrees(sel, both, ss, sb, file, l, stack)
      && Alike(Step(sel, ss, file, l, stack), Step(both, sb, file, l, stack))
    decreases DepthLeft(sel, stack), 0
  {
    SplicedAlike(sel, both, ss, sb, file, l, stack);
    PlainAlike(sel, both, ss, sb, file, l);
    TextAlike(sel, both, ss, sb, file, l);
    var nb := Step(both, sb, file, l, stack);
    if Uncertain(sb) {
      UncertainLine(sel, both, ss, sb, file, l, stack);
    } else {
      match Spliced(sel, ss, file, l, stack)
      case None =>
      case Some(h) =>
        var es, eb := Entered(sel, ss, file, l, h), Entered(both, sb, file, l, h);
        AgreesIff(sel, both, es, eb, h, Group(sel.files[h], 0), stack + [h]);
        if Agrees(sel, both, es, eb, h, Group(sel.files[h], 0), stack + [h]) {
          AgreeingRuns(sel, both, es, eb, h, Group(sel.files[h], 0), stack + [h]);
        }
    }
  }

  lemma UncertainLine(sel: Config, both: Config, ss: State, sb: State, file: string, l: Logical, stack: seq<string>)
    requires !sel.both && both == sel.(both := true) && Alike(ss, sb) && Uncertain(sb)
    ensures LineSafe(both, sb, file, l, stack) <==>
      LineAgrees(sel, both, ss, sb, file, l, stack)
      && Alike(Step(sel, ss, file, l, stack), Step(both, sb, file, l, stack))
  {
    SplicedAlike(sel, both, ss, sb, file, l, stack);
    PlainAlike(sel, both, ss, sb, file, l);
    TextAlike(sel, both, ss, sb, file, l);
    EmitsAlike(ss.cond, sb.cond);
    var ns, nb := Step(sel, ss, file, l, stack), Step(both, sb, file, l, stack);
    assert ns.macros == ss.macros;
    if Spliced(both, sb, file, l, stack).Some? {
      assert ns.cond == ss.cond && TextOf(sel, ss, file, l) == [];
      SameChoicesInStep(ss.cond, sb.cond, nb.cond);
    } else {
      assert nb.cond == PlainStep(both, sb, file, l).cond && ns.cond == PlainStep(sel, ss, file, l).cond;
    }
  }

  /** The exact condition: the two modes agree at every position, in headers too, if and
      only if no uncertain line changes what a later line depends on. */
  lemma {:induction false} AgreesIff(sel: Config, both: Config, ss: State, sb: State, file: string,
                                     s: seq<Logical>, stack: seq<string>)
    requires !sel.both && both == sel.(both := true) && Alike(ss, sb)
    ensures Agrees(sel, both, ss, sb, file, s, stack) <==> NoUncertainChange(both, sb, file, s, stack)
    decreases DepthLeft(sel, stack), |s|
  {
    if s != [] {
      LineAgreesIff(sel, both, ss, sb, file, s[0], stack);
      var ns, nb := Step(sel, ss, file, s[0], stack), Step(both, sb, file, s[0], stack);
      if Alike(ns, nb) {
        AgreesIff(sel, both, ns, nb, file, s[1..], stack);
      }
    }
  }

  /** Hence the conservative extension, for every stream that meets the condition. */
  lemma BothExtendsSelect(sel: Config, both: Config, ss: State, sb: State, file: string, s: seq<Logical>,
                          stack: seq<string>)
    requires !sel.both && both == sel.(both := true) && Alike(ss, sb)
    requires NoUncertainChange(both, sb, file, s, stack)
    ensures Emitted(sel, ss, file, s, stack) == Certain(Emitted(both, sb, file, s, stack))
    ensures Run(sel, ss, file, s, stack).macros == Run(both, sb, file, s, stack).macros
  {
    AgreesIff(sel, both, ss, sb, file, s, stack);
    AgreeingRuns(sel, both, ss, sb, file, s, stack);
  }

  /** A unit from its start: the two modes agree throughout if and only if the condition holds. */
  lemma UnitsAgreeIff(sel: Config, macros: Table, file: string, s: seq<Logical>)
    requires !sel.both
    ensures var both := sel.(both := true);
      (Agrees(sel, both, Fresh(macros), Fresh(macros), file, s, [file])
       <==> NoUncertainChange(both, Fresh(macros), file, s, [file]))
  {
    AgreesIff(sel, sel.(both := true), Fresh(macros), Fresh(macros), file, s, [file]);
  }

  /** The lines of a unit that both mode does not stamp are exactly select mode's lines. */
  lemma BothExtendsSelectOnUnits(sel: Config, macros: Table, file: string, s: seq<Logical>)
    requires !sel.both && NoUncertainChange(sel.(both := true), Fresh(macros), file, s, [file])
    ensures Emitted(sel, Fresh(macros), file, s, [file])
      == Certain(Emitted(sel.(both := true), Fresh(macros), file, s, [file]))
    ensures Run(sel, Fresh(macros), file, s, [file]).macros
      == Run(sel.(both := true), Fresh(macros), file, s, [file]).macros
  {
    BothExtendsSelect(sel, sel.(both := true), Fresh(macros), Fresh(macros), file, s, [file]);
  }

  // -- what meets the condition ----------------------------------------------------------------------

  /** Plain text changes nothing. */
  lemma {:induction false} TextIsSafe(both: Config, st: State, file: string, body: seq<Logical>, tail: seq<Logical>,
                                      stack: seq<string>)
    requires forall l :: l in body ==> l.directive.Text?
    requires forall after: State :: after.macros == st.macros && after.cond == st.cond ==>
      NoUncertainChange(both, after, file, tail, stack)
    ensures NoUncertainChange(both, st, file, body + tail, stack)
    decreases |body|
  {
    if body == [] {
      assert body + tail == tail;
    } else {
      var all := body + tail;
      assert body[0] in body && all[0] == body[0] && all[1..] == body[1..] + tail;
      var next := Step(both, st, file, body[0], stack);
      assert next.macros == st.macros && next.cond == st.cond;
      TextIsSafe(both, next, file, body[1..], tail, stack);
    }
  }

  predicate OpensGuard(open: Logical, def: Logical, m: MacroDef) {
    open.directive == Ifndef(Some(m.name)) && def.directive == Define(Some(m))
  }

  /** The first two lines of an `ifndef guard are safe everywhere but in an alternative arm
      whose table lacks the name: there both mode runs the `define, and select mode does not. */
  lemma GuardIsSafeIff(both: Config, st: State, file: string, open: Logical, def: Logical, m: MacroDef,
                       rest: seq<Logical>, stack: seq<string>)
    requires OpensGuard(open, def, m)
    ensures var s2 := Step(both, Step(both, st, file, open, stack), file, def, stack);
      NoUncertainChange(both, st, file, [open, def] + rest, stack) <==>
      (Uncertain(st) ==> m.name in st.macros) && NoUncertainChange(both, s2, file, rest, stack)
  {
    var s := [open, def] + rest;
    var s1 := Step(both, st, file, open, stack);
    GuardOpens(both, st, file, open, def, m);
    assert LineSafe(both, s1, file, def, stack) <==> !Uncertain(s1) by {
      if Uncertain(s1) { assert m.name in Step(both, s1, file, def, stack).macros; }
    }
    assert s[1..] == [def] + rest && s[1..][1..] == rest;
    assert NoUncertainChange(both, st, file, s, stack) <==> NoUncertainChange(both, s1, file, s[1..], stack);
  }

  /** Behind the `ifndef lines are live where they were and the name is new, as certain as before. */
  lemma GuardOpens(cfg: Config, st: State, file: string, open: Logical, def: Logical, m: MacroDef)
    requires OpensGuard(open, def, m)
    ensures var s1 := PlainStep(cfg, st, file, open);
      && s1.macros == st.macros && |s1.cond| == |st.cond| + 1 && s1.cond[..|st.cond|] == st.cond
      && (Emitting(s1.cond) <==> Emitting(st.cond) && m.name !in st.macros)
      && (AmbiguousNow(s1.cond) <==> AmbiguousNow(st.cond))
      && (m.name in st.macros ==> PlainStep(cfg, s1, file, def).macros == st.macros)
      && PlainStep(cfg, s1, file, def).cond == s1.cond
  {
    var s1 := PlainStep(cfg, st, file, open);
    StepState(cfg, st, file, open);
    StepState(cfg, s1, file, def);
    var top := s1.cond[|st.cond|];
    assert s1.cond == st.cond + [top];
    assert top in s1.cond && (top.ambiguous ==> top.selected);
    assert forall f :: f in s1.cond <==> f in st.cond || f == top;
  }

  /** So a unit that is one guard, or a default-`define fallback (no body), meets the condition
      whatever is defined before it. */
  lemma GuardedUnitsAreSafe(both: Config, macros: Table, file: string, open: Logical, def: Logical, m: MacroDef,
                            body: seq<Logical>, close: Logical)
    requires OpensGuard(open, def, m) && close.directive.Endif? && forall l :: l in body ==> l.directive.Text?
    ensures NoUncertainChange(both, Fresh(macros), file, [open, def] + (body + [close]), [file])
  {
    GuardedLinesAreSafe(both, Fresh(macros), file, open, def, m, body, close, [file]);
  }

  lemma GuardedLinesAreSafe(both: Config, st: State, file: string, open: Logical, def: Logical, m: MacroDef,
                            body: seq<Logical>, close: Logical, stack: seq<string>)
    requires OpensGuard(open, def, m) && close.directive.Endif? && forall l :: l in body ==> l.directive.Text?
    requires Uncertain(st) ==> m.name in st.macros
    ensures NoUncertainChange(both, st, file, [open, def] + (body + [close]), stack)
  {
    var s2 := Step(both, Step(both, st, file, open, stack), file, def, stack);
    forall after: State ensures NoUncertainChange(both, after, file, [close], stack) {
      assert [close][1..] == [];
    }
    TextIsSafe(both, s2, file, body, [close], stack);
    GuardIsSafeIff(both, st, file, open, def, m, body + [close], stack);
  }

  // -- a `define in an alternative arm breaks the extension -----------------------------------------

  function Lines(): seq<Logical> {
    [Logical(Ifdef(Some("A")), "", 1, 1),
     Logical(Define(Some(MacroDef("B", None, "", "a.sv", 2))), "", 2, 1),
     Logical(Endif, "", 3, 1),
     Logical(Ifdef(Some("B")), "", 4, 1),
     Logical(Text, "x", 5, 1)]
  }

  /** Both mode runs the `define of the arm it only emits as ambiguous, and a later test sees it. */
  lemma DefinesBreakTheExtension(sel: Config)
    requires !sel.both
    ensures Emitted(sel, Fresh(map[]), "a.sv", Lines(), ["a.sv"]) == []
    ensures Certain(Emitted(sel.(both := true), Fresh(map[]), "a.sv", Lines(), ["a.sv"])) != []
  {
    SelectSkips(sel);
    BothEmits(sel.(both := true));
  }

  /** The view after the first `n` of these lines, in the given mode. */
  function After(both: bool, n: nat): View
    requires n <= 4
  {
    if n == 0 then View([], map[]) else After(both, n - 1).Next(Lines()[n - 1].directive, both)
  }

  lemma AfterSelect()
    ensures After(false, 4).cond == [Frame(false, false, false, false)]
  {
    var off := Frame(false, false, false, false);
    assert off in [off];
    var v0, v1 := View([], map[]), View([off], map[]);
    assert v0.Next(Lines()[0].directive, false).cond == v1.cond;
    assert v1.Next(Lines()[1].directive, false) == v1;
    assert v1.Next(Lines()[2].directive, false).cond == v0.cond;
    assert v0.Next(Lines()[3].directive, false).cond == v1.cond;
    assert After(false, 2) == v1 && After(false, 3) == v0;
  }

  lemma AfterBoth()
    ensures After(true, 4).cond == [Frame(false, true, true, false)]
  {
    var v0, v1 := View([], map[]), View([Frame(false, false, false, true)], map[]);
    assert v0.Next(Lines()[0].directive, true).cond == v1.cond;
    var v2 := v1.Next(Lines()[1].directive, true);
    assert v2.cond == v1.cond && "B" in v2.macros;
    var v3 := v2.Next(Lines()[2].directive, true);
    assert v3.cond == [] && v3.macros == v2.macros;
    assert v3.Next(Lines()[3].directive, true).cond == [Frame(false, true, true, false)];
    assert After(true, 2) == v2 && After(true, 3) == v3;
  }

  lemma SelectSkips(sel: Config)
    requires !sel.both
    ensures Emitted(sel, Fresh(map[]), "a.sv", Lines(), ["a.sv"]) == []
  {
    var st := LastLine(sel, Lines(), 4);
    AfterSelect();
    assert st.cond[0] in st.cond;
  }

  lemma BothEmits(both: Config)
    requires both.both
    ensures Certain(Emitted(both, Fresh(map[]), "a.sv", Lines(), ["a.sv"])) != []
  {
    var st := LastLine(both, Lines(), 4);
    AfterBoth();
    LiveTextIsCertain(both, st, "a.sv", Lines()[4]);
  }

  lemma LiveTextIsCertain(cfg: Config, st: State, file: string, l: Logical)
    requires l.directive.Text? && Emitting(st.cond) && !AmbiguousNow(st.cond)
    ensures Certain(TextOf(cfg, st, file, l)) != []
  {
    var origin := LineOrigin(file, l.line, false);
    CertainStamp(SplitLines(ExpandText(cfg, st.macros, l.raw, origin)), origin);
  }

  /** The first `n` lines emit nothing: the unit emits what the others emit from the state they leave. */
  lemma {:induction false} LastLine(cfg: Config, s: seq<Logical>, n: nat) returns (st: State)
    requires s == Lines() && n <= 4
    ensures View(st.cond, st.macros) == After(cfg.both, n)
    ensures Emitted(cfg, Fresh(map[]), "a.sv", s, ["a.sv"]) == Emitted(cfg, st, "a.sv", s[n..], ["a.sv"])
    ensures n == 4 ==> Emitted(cfg, st, "a.sv", s[n..], ["a.sv"]) == TextOf(cfg, st, "a.sv", s[n])
  {
    if n == 0 {
      st := Fresh(map[]);
      assert s[0..] == s;
    } else {
      var before := LastLine(cfg, s, n - 1);
      st := PlainStep(cfg, before, "a.sv", s[n - 1]);
      StepState(cfg, before, "a.sv", s[n - 1]);
      SilentLine(cfg, before, s, n - 1);
      assert s[4..][1..] == [];
    }
  }

  lemma SilentLine(cfg: Config, st: State, s: seq<Logical>, i: nat)
    requires i < |s| && !s[i].directive.Include? && !s[i].directive.Text?
    ensures Emitted(cfg, st, "a.sv", s[i..], ["a.sv"]) ==
      Emitted(cfg, PlainStep(cfg, st, "a.sv", s[i]), "a.sv", s[i + 1..], ["a.sv"])
  {
    assert s[i..][1..] == s[i + 1..];
  }

  // -- one arm per chain -------------------------------------------------------------------------------

  /** A selected arm has been recorded as taken. */
  ghost predicate TakenRecorded(cond: seq<Frame>) {
    forall f :: f in cond ==> f.selected ==> f.everSelected
  }

  lemma StepRecords(cfg: Config, st: State, file: string, l: Logical)
    requires TakenRecorded(st.cond)
    ensures TakenRecorded(PlainStep(cfg, st, file, l).cond)
  {
  }

  /** From a unit's start, in either mode and through every spliced header. */
  lemma {:induction false} RunRecords(cfg: Config, st: State, file: string, s: seq<Logical>, stack: seq<string>)
    requires TakenRecorded(st.cond)
    ensures TakenRecorded(Run(cfg, st, file, s, stack).cond)
    decreases DepthLeft(cfg, stack), |s|
  {
    if s != [] {
      StepRecords(cfg, st, file, s[0]);
      var h := Spliced(cfg, st, file, s[0], stack);
      if h.Some? {
        var entered := Entered(cfg, st, file, s[0], h.value);
        RunRecords(cfg, entered, h.value, Group(cfg.files[h.value], 0), stack + [h.value]);
      }
      RunRecords(cfg, Step(cfg, st, file, s[0], stack), file, s[1..], stack);
    }
  }

  /** The conditional at depth `d` is open before every line of `s`, those of spliced
      headers among them, and after the last. */
  ghost predicate StaysOpen(cfg: Config, st: State, file: string, s: seq<Logical>, stack: seq<string>, d: nat)
    decreases DepthLeft(cfg, stack), |s|
  {
    && |st.cond| > d
    && (s != [] ==>
          && LineStaysOpen(cfg, st, file, s[0], stack, d)
          && StaysOpen(cfg, Step(cfg, st, file, s[0], stack), file, s[1..], stack, d))
  }

  ghost predicate LineStaysOpen(cfg: Config, st: State, file: string, l: Logical, stack: seq<string>, d: nat)
    decreases DepthLeft(cfg, stack), 0
  {
    match Spliced(cfg, st, file, l, stack)
    case Some(h) => StaysOpen(cfg, Entered(cfg, st, file, l, h), h, Group(cfg.files[h], 0), stack + [h], d)
    case None => true
  }

  /** Some line, in `s` or in a spliced header, starts another arm of the conditional at depth `d`. */
  ghost predicate ChangesArm(cfg: Config, st: State, file: string, s: seq<Logical>, stack: seq<string>, d: nat)
    decreases DepthLeft(cfg, stack), |s|
  {
    s != [] &&
    (LineChangesArm(cfg, st, file, s[0], stack, d) ||
     ChangesArm(cfg, Step(cfg, st, file, s[0], stack), file, s[1..], stack, d))
  }

  ghost predicate LineChangesArm(cfg: Config, st: State, file: string, l: Logical, stack: seq<string>, d: nat)
    decreases DepthLeft(cfg, stack), 0
  {
    match Spliced(cfg, st, file, l, stack)
    case Some(h) => ChangesArm(cfg, Entered(cfg, st, file, l, h), h, Group(cfg.files[h], 0), stack + [h], d)
    case None => |st.cond| == d + 1 && (l.directive.Elsif? || l.directive.Else?)
  }

  /** Once some arm has been taken that stays so, and a later arm of the same conditional is not selected. */
  lemma {:induction false} TakenOnce(cfg: Config, st: State, file: string, s: seq<Logical>, stack: seq<string>, d: nat)
    requires StaysOpen(cfg, st, file, s, stack, d) && st.cond[d].everSelected
    ensures var end := Run(cfg, st, file, s, stack).cond;
      && |end| > d && end[d].everSelected
      && (!st.cond[d].selected || ChangesArm(cfg, st, file, s, stack, d) ==> !end[d].selected)
    decreases DepthLeft(cfg, stack), |s|
  {
    if s != [] {
      var next := Step(cfg, st, file, s[0], stack);
      assert |next.cond| > d;
      LineTakenOnce(cfg, st, file, s[0], stack, d);
      TakenOnce(cfg, next, file, s[1..], stack, d);
    }
  }

  lemma {:induction false} LineTakenOnce(cfg: Config, st: State, file: string, l: Logical, stack: seq<string>, d: nat)
    requires |st.cond| > d && st.cond[d].everSelected && LineStaysOpen(cfg, st, file, l, stack, d)
    requires |Step(cfg, st, file, l, stack).cond| > d
    ensures var end := Step(cfg, st, file, l, stack).cond;
      && end[d].everSelected
      && (!st.cond[d].selected || LineChangesArm(cfg, st, file, l, stack, d) ==> !end[d].selected)
    decreases DepthLeft(cfg, stack), 0
  {
    StepState(cfg, st, file, l);
    var h := Spliced(cfg, st, file, l, stack);
    if h.Some? {
      TakenOnce(cfg, Entered(cfg, st, file, l, h.value), h.value, Group(cfg.files[h.value], 0), stack + [h.value], d);
    }
  }

  /** In either mode, at most one arm of a conditional is ever the selected one: if it is
      selected after `a`, stays open through `b`, and `b` moves on to another arm, that arm
      is not selected. */
  lemma AtMostOneArmSelected(cfg: Config, macros: Table, file: string, a: seq<Logical>, b: seq<Logical>, d: nat)
    requires var mid := Run(cfg, Fresh(macros), file, a, [file]);
      && StaysOpen(cfg, mid, file, b, [file], d) && mid.cond[d].selected
      && ChangesArm(cfg, mid, file, b, [file], d)
    ensures var end := Run(cfg, Fresh(macros), file, a + b, [file]).cond; |end| > d && !end[d].selected
  {
    var mid := Run(cfg, Fresh(macros), file, a, [file]);
    RunRecords(cfg, Fresh(macros), file, a, [file]);
    assert mid.cond[d] in mid.cond;
    TakenOnce(cfg, mid, file, b, [file], d);
    Conditionals.RunConcat(cfg, Fresh(macros), file, a, b, [file]);
  }
}
