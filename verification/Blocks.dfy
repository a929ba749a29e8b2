/** What a unit's lines mean in either conditional mode, group by group and without a frame stack:
    which lines are compiled, which only as alternatives, and what each does to the output, the
    macro table and the log (src/hdl_kgraph/parser/preprocessor.py). */
module Blocks {
  import opened Schema
  import opened MacroExpansion
  import opened Preprocessor
  import opened Conditionals

  /** What preprocessing leaves behind. */
  datatype Result = Result(
    macros: Table, out: seq<string>, lineMap: seq<LineOrigin>, events: seq<MacroEvent>, included: set<string>)

  function Of(st: State): Result {
    Result(st.macros, st.out, st.lineMap, st.events, st.included)
  }

  // -- one line ---------------------------------------------------------------------------------------

  /** Empty output lines for the source lines from `line` on. */
  function Blanks(r: Result, file: string, line: nat, count: nat): (n: Result)
    ensures n.macros == r.macros && n.events == r.events && n.included == r.included
    ensures |n.out| == |r.out| + count && |n.lineMap| == |r.lineMap| + count
    decreases count
  {
    if count == 0 then r
    else
      var before := Blanks(r, file, line, count - 1);
      before.(out := before.out + [""], lineMap := before.lineMap + [LineOrigin(file, line + count - 1, false)])
  }

  /** Output lines that all come from one source line. */
  function Put(r: Result, lines: seq<string>, origin: LineOrigin): Result
    decreases |lines|
  {
    if lines == [] then r
    else
      var n := |lines| - 1;
      var before := Put(r, lines[..n], origin);
      before.(out := before.out + [lines[n]], lineMap := before.lineMap + [origin])
  }

  /** The header that an `include names: quoted as written or through macros, found from its file,
      allowed, and neither open already nor too deep. */
  function Header(cfg: Config, t: Table, file: string, l: Logical, alternative: bool, stack: seq<string>)
    : Option<string>
    requires l.directive.Include?
  {
    var arg := l.directive.arg;
    var text := if '`' !in arg then arg
                else Expand(t, cfg.maxExpansionDepth, arg, 0, LineOrigin(file, l.line, alternative), []);
    if (file, text) in cfg.resolve && cfg.resolve[(file, text)] in cfg.allowed &&
       cfg.resolve[(file, text)] !in stack && |stack| < cfg.maxIncludeDepth
    then Some(cfg.resolve[(file, text)])
    else None
  }

  /** A line that is not a conditional; `alternative` when normal evaluation would not compile it. */
  function CompiledLine(cfg: Config, file: string, l: Logical, live: bool, alternative: bool, r: Result,
                        stack: seq<string>): Result
    decreases DepthLeft(cfg, stack), 0
  {
    match l.directive
    case Define(m) =>
      var n := Blanks(r, file, l.line, l.span);
      if live && m.Some? then
        n.(macros := n.macros[m.value.name := m.value], events := n.events + [Defined(m.value)])
      else n
    case Undef(name) =>
      var n := Blanks(r, file, l.line, 1);
      if live && name.Some? then n.(macros := n.macros - {name.value}, events := n.events + [Undefined(name.value)])
      else n
    case Include(_) =>
      var n := Blanks(r, file, l.line, 1);
      if live && Header(cfg, r.macros, file, l, alternative, stack).Some? then
        var h := Header(cfg, r.macros, file, l, alternative, stack).value;
        var entered := n.(included := n.included + {h});
        if h !in cfg.files then entered
        else Compiled(cfg, h, HeaderBlock(cfg, h), true, alternative, entered, stack + [h])
      else n
    case _ =>
      if live then
        var origin := LineOrigin(file, l.line, alternative);
        Put(r, SplitLines(Expand(r.macros, cfg.maxExpansionDepth, l.raw, 0, origin, [])), origin)
      else Blanks(r, file, l.line, 1)
  }

  // -- groups -----------------------------------------------------------------------------------------

  predicate Defines(t: Table, name: Option<string>) {
    match name
    case Some(n) => n in t
    case None => false
  }

  predicate Holds(t: Table, d: Directive) {
    match d
    case Ifdef(name) => Defines(t, name)
    case Ifndef(name) => !Defines(t, name)
    case Elsif(name) => Defines(t, name)
    case _ => true
  }

  /** The test is on a name that is not defined, so that both mode keeps the other arms, too. */
  predicate Loosens(cfg: Config, t: Table, d: Directive) {
    cfg.both &&
    match d
    case Ifdef(name) => !Defines(t, name)
    case Ifndef(name) => !Defines(t, name)
    case Elsif(name) => !Defines(t, name)
    case _ => false
  }

  /** A group is compiled when its enclosing groups are and it is the selected arm, or as an
      alternative when the chain has tested an undefined name so far. */
  function Compiled(cfg: Config, file: string, b: Block, live: bool, alternative: bool, r: Result, stack: seq<string>)
    : Result
    decreases DepthLeft(cfg, stack), 1, b
  {
    match b
    case Nil => r
    case Leaf(line, rest) =>
      Compiled(cfg, file, rest, live, alternative, CompiledLine(cfg, file, line, live, alternative, r, stack), stack)
    case Stray(line, rest) => Compiled(cfg, file, rest, live, alternative, Blanks(r, file, line.line, 1), stack)
    case Chain(head, body, arms, rest) =>
      var selected, loose := Holds(r.macros, head.directive), Loosens(cfg, r.macros, head.directive);
      var first := Compiled(cfg, file, body, live && (selected || loose), alternative || !selected,
                         Blanks(r, file, head.line, 1), stack);
      Compiled(cfg, file, rest, live, alternative,
            CompiledRest(cfg, file, arms, live, alternative, selected, loose, first, stack), stack)
  }

  /** The other arms of a chain: the first whose test holds is selected if none before it was. */
  function CompiledRest(cfg: Config, file: string, a: Arms, live: bool, alternative: bool, taken: bool, loose: bool,
                        r: Result, stack: seq<string>): Result
    decreases DepthLeft(cfg, stack), 1, a
  {
    match a
    case Close(tail) => Blanks(r, file, tail.line, 1)
    case Cut => r
    case Arm(head, body, more) =>
      var selected := !taken && Holds(r.macros, head.directive);
      var looser := loose || Loosens(cfg, r.macros, head.directive);
      var next := Compiled(cfg, file, body, live && (selected || looser), alternative || !selected,
                        Blanks(r, file, head.line, 1), stack);
      CompiledRest(cfg, file, more, live, alternative, taken || selected, looser, next, stack)
  }

  // -- the machine computes it ------------------------------------------------------------------------

  lemma {:induction false} BlanksIs(st: State, file: string, line: nat, count: nat)
    ensures Of(EmitBlanks(st, file, line, count)) == Blanks(Of(st), file, line, count)
    decreases count
  {
    if count == 0 {
      assert Repeat("", 0) == [] && BlankOrigins(file, line, 0) == [];
    } else {
      BlanksIs(st, file, line, count - 1);
      assert Repeat("", count) == Repeat("", count - 1) + [""];
      var last := LineOrigin(file, line + count - 1, false);
      assert BlankOrigins(file, line, count) == BlankOrigins(file, line, count - 1) + [last];
    }
  }

  lemma {:induction false} PutIs(r: Result, lines: seq<string>, origin: LineOrigin)
    ensures Put(r, lines, origin) == r.(out := r.out + lines, lineMap := r.lineMap + Repeat(origin, |lines|))
    decreases |lines|
  {
    if lines == [] {
      assert r.out + lines == r.out && r.lineMap + Repeat(origin, 0) == r.lineMap;
    } else {
      var n := |lines| - 1;
      PutIs(r, lines[..n], origin);
      assert r.out + lines == r.out + lines[..n] + [lines[n]];
      assert Repeat(origin, |lines|) == Repeat(origin, n) + [origin];
    }
  }

  lemma PushIs(cond: seq<Frame>, f: Frame)
    ensures Emitting(cond + [f]) <==> Emitting(cond) && !f.dead && (f.selected || f.ambiguous)
    ensures AmbiguousNow(cond + [f]) <==> AmbiguousNow(cond) || (!f.dead && f.ambiguous && !f.selected)
  {
    assert f in cond + [f];
  }

  /** The region a stack stands for. */
  ghost predicate Region(cond: seq<Frame>, live: bool, alternative: bool) {
    live == Emitting(cond) && (live ==> alternative == AmbiguousNow(cond))
  }

  lemma HeaderIs(cfg: Config, st: State, file: string, l: Logical, stack: seq<string>)
    requires l.directive.Include?
    ensures HeaderOf(cfg, st, file, l, stack) == Header(cfg, st.macros, file, l, AmbiguousNow(st.cond), stack)
  {
  }

  /** A line that splices no header. */
  lemma PlainIs(cfg: Config, st: State, file: string, l: Logical, live: bool, alternative: bool)
    requires !IsConditional(l.directive) && Region(st.cond, live, alternative) && !(l.directive.Include? && live)
    ensures PlainStep(cfg, st, file, l).cond == st.cond
    ensures forall stack ::
      Of(PlainStep(cfg, st, file, l)) == CompiledLine(cfg, file, l, live, alternative, Of(st), stack)
  {
    BlanksIs(st, file, l.line, l.span);
    BlanksIs(st, file, l.line, 1);
    if l.directive.Text? && live {
      var origin := LineOrigin(file, l.line, alternative);
      PutIs(Of(st), SplitLines(Expand(st.macros, cfg.maxExpansionDepth, l.raw, 0, origin, [])), origin);
    }
  }

  lemma {:induction false} LineIs(cfg: Config, st: State, file: string, l: Logical, live: bool, alternative: bool,
                                  stack: seq<string>)
    requires !IsConditional(l.directive) && Region(st.cond, live, alternative) && LineCloses(cfg, st, file, l, stack)
    ensures var end := Step(cfg, st, file, l, stack);
      Of(end) == CompiledLine(cfg, file, l, live, alternative, Of(st), stack) && end.cond == st.cond
    decreases DepthLeft(cfg, stack), 0
  {
    if l.directive.Include? && live {
      BlanksIs(st, file, l.line, 1);
      HeaderIs(cfg, st, file, l, stack);
      match Spliced(cfg, st, file, l, stack)
      case None =>
      case Some(h) =>
        HeaderFlat(cfg, h);
        var entered := Entered(cfg, st, file, l, h);
        GroupIs(cfg, entered, h, HeaderBlock(cfg, h), st.cond == [], true, alternative, stack + [h]);
    } else {
      PlainIs(cfg, st, file, l, live, alternative);
    }
  }

  lemma {:induction false} GroupIs(cfg: Config, st: State, file: string, b: Block, top: bool, live: bool,
                                   alternative: bool, stack: seq<string>)
    requires Region(st.cond, live, alternative) && Shaped(b, top) && (top ==> st.cond == [])
    requires SplicesClose(cfg, st, file, Flatten(b), stack)
    ensures var end := Run(cfg, st, file, Flatten(b), stack);
      && Of(end) == Compiled(cfg, file, b, live, alternative, Of(st), stack) && (!IsOpen(b) ==> end.cond == st.cond)
    decreases DepthLeft(cfg, stack), 1, b, 1
  {
    match b
    case Nil =>
    case Leaf(line, rest) =>
      RunOne(cfg, st, file, line, Flatten(rest), stack);
      ClosesOne(cfg, st, file, line, Flatten(rest), stack);
      LineIs(cfg, st, file, line, live, alternative, stack);
      GroupIs(cfg, Step(cfg, st, file, line, stack), file, rest, top, live, alternative, stack);
    case Stray(line, rest) =>
      RunOne(cfg, st, file, line, Flatten(rest), stack);
      ClosesOne(cfg, st, file, line, Flatten(rest), stack);
      BlanksIs(st, file, line.line, 1);
      GroupIs(cfg, Step(cfg, st, file, line, stack), file, rest, top, live, alternative, stack);
    case Chain(_, _, _, _) =>
      ChainIs(cfg, st, file, b, top, live, alternative, stack);
  }

  /** The frame that a chain's first arm or a later one leaves on the stack. */
  ghost predicate Carries(outer: seq<Frame>, frame: Frame, live: bool, taken: bool, loose: bool) {
    frame.dead == !live && live == Emitting(outer) && frame.everSelected == taken && (live ==> frame.ambiguous == loose)
  }

  lemma HeadIs(cfg: Config, st: State, file: string, head: Logical, live: bool, alternative: bool)
    returns (frame: Frame)
    requires Region(st.cond, live, alternative) && Opens(head.directive)
    ensures var selected, loose := Holds(st.macros, head.directive), Loosens(cfg, st.macros, head.directive);
      && PlainStep(cfg, st, file, head).cond == st.cond + [frame]
      && Carries(st.cond, frame, live, selected, loose)
      && Region(st.cond + [frame], live && (selected || loose), alternative || !selected)
    ensures Of(PlainStep(cfg, st, file, head)) == Blanks(Of(st), file, head.line, 1)
  {
    frame := Opened(Emitting(st.cond), IsDefined(st.macros, head.directive.name),
                    Holds(st.macros, head.directive), cfg.both);
    PushIs(st.cond, frame);
    BlanksIs(st.(cond := st.cond + [frame]), file, head.line, 1);
  }

  lemma ArmIs(cfg: Config, st: State, file: string, outer: seq<Frame>, frame: Frame, head: Logical, live: bool,
              alternative: bool, taken: bool, loose: bool) returns (next: Frame)
    requires st.cond == outer + [frame] && Carries(outer, frame, live, taken, loose) && Region(outer, live, alternative)
    requires ContinuesChain(head.directive)
    ensures var selected := !taken && Holds(st.macros, head.directive);
      var looser := loose || Loosens(cfg, st.macros, head.directive);
      && PlainStep(cfg, st, file, head).cond == outer + [next]
      && Carries(outer, next, live, taken || selected, looser)
      && Region(outer + [next], live && (selected || looser), alternative || !selected)
    ensures Of(PlainStep(cfg, st, file, head)) == Blanks(Of(st), file, head.line, 1)
  {
    var d := head.directive;
    next := if d.Else? then LastArm(frame) else NextArm(frame, IsDefined(st.macros, d.name), cfg.both);
    PushIs(outer, next);
    BlanksIs(st.(cond := outer + [next]), file, head.line, 1);
  }

  lemma {:induction false} ChainIs(cfg: Config, st: State, file: string, b: Block, top: bool, live: bool,
                                   alternative: bool, stack: seq<string>)
    requires b.Chain? && Region(st.cond, live, alternative) && Shaped(b, top) && (top ==> st.cond == [])
    requires SplicesClose(cfg, st, file, Flatten(b), stack)
    ensures var end := Run(cfg, st, file, Flatten(b), stack);
      && Of(end) == Compiled(cfg, file, b, live, alternative, Of(st), stack) && (!IsOpen(b) ==> end.cond == st.cond)
    decreases DepthLeft(cfg, stack), 1, b, 0
  {
    var Chain(head, body, arms, rest) := b;
    var s0 := PlainStep(cfg, st, file, head);
    var selected, loose := Holds(st.macros, head.directive), Loosens(cfg, st.macros, head.directive);
    var frame := HeadIs(cfg, st, file, head, live, alternative);
    ChainRuns(cfg, st, file, b, stack);
    ChainCloses(cfg, st, file, b, stack);
    GroupIs(cfg, s0, file, body, false, live && (selected || loose), alternative || !selected, stack);
    var s1 := Run(cfg, s0, file, Flatten(body), stack);
    if IsOpen(body) {
      assert FlattenArms(arms) == [] && Flatten(rest) == [];
    } else {
      RestIs(cfg, s1, file, st.cond, frame, arms, live, alternative, selected, loose, stack);
      if !ArmsOpen(arms) {
        GroupIs(cfg, Run(cfg, s1, file, FlattenArms(arms), stack), file, rest, top, live, alternative, stack);
      }
    }
  }

  lemma {:induction false} RestIs(cfg: Config, st: State, file: string, outer: seq<Frame>, frame: Frame, a: Arms,
                                  live: bool, alternative: bool, taken: bool, loose: bool, stack: seq<string>)
    requires st.cond == outer + [frame] && Carries(outer, frame, live, taken, loose) && Region(outer, live, alternative)
    requires ShapedArms(a) && SplicesClose(cfg, st, file, FlattenArms(a), stack)
    ensures var end := Run(cfg, st, file, FlattenArms(a), stack);
      && Of(end) == CompiledRest(cfg, file, a, live, alternative, taken, loose, Of(st), stack)
      && (!ArmsOpen(a) ==> end.cond == outer)
    decreases DepthLeft(cfg, stack), 1, a, 0
  {
    match a
    case Cut =>
    case Close(tail) =>
      RunOne(cfg, st, file, tail, [], stack);
      assert [tail] + [] == [tail];
      assert st.cond[..|st.cond| - 1] == outer;
      BlanksIs(st.(cond := outer), file, tail.line, 1);
    case Arm(head, body, more) =>
      var selected := !taken && Holds(st.macros, head.directive);
      var looser := loose || Loosens(cfg, st.macros, head.directive);
      var next := ArmIs(cfg, st, file, outer, frame, head, live, alternative, taken, loose);
      var s0 := PlainStep(cfg, st, file, head);
      ArmRuns(cfg, st, file, a, stack);
      ArmCloses(cfg, st, file, a, stack);
      GroupIs(cfg, s0, file, body, false, live && (selected || looser), alternative || !selected, stack);
      if !IsOpen(body) {
        RestIs(cfg, Run(cfg, s0, file, Flatten(body), stack), file, outer, next, more, live, alternative,
               taken || selected, looser, stack);
      } else {
        assert ArmsOpen(more);
      }
  }

  /** In either mode a unit leaves behind what the groups it parses into do, when the headers it
      splices close what they open. */
  lemma UnitIsBlockEvaluation(cfg: Config, macros: Table, file: string, s: seq<Logical>, stack: seq<string>)
    requires SplicesClose(cfg, Fresh(macros), file, s, stack)
    ensures var b := Parse(s, true).0;
      Of(Run(cfg, Fresh(macros), file, s, stack)) ==
      Compiled(cfg, file, b, true, false, Result(macros, [], [], [], {}), stack)
  {
    ParseRoundTrip(s, true);
    var b := Parse(s, true).0;
    assert Flatten(b) + [] == Flatten(b);
    GroupIs(cfg, Fresh(macros), file, b, true, true, false, stack);
  }
}
