/** The frame-stack machine against the block structure of section 22.6 of IEEE Std
    1800-2017 (`_Frame`, `_handle_conditional` in src/hdl_kgraph/parser/preprocessor.py). */
module Conditionals {
  import opened Schema
  import opened MacroExpansion
  import opened Preprocessor

  // -- the nested reading of a directive stream --------------------------------------------

  datatype Block =
    | Nil
    | Leaf(line: Logical, rest: Block)
    | Stray(line: Logical, rest: Block)  // `elsif, `else or `endif with nothing open
    | Chain(head: Logical, body: Block, arms: Arms, rest: Block)

  datatype Arms =
    | Close(tail: Logical)
    | Cut  // the stream ended first
    | Arm(head: Logical, body: Block, more: Arms)

  function Flatten(b: Block): seq<Logical> {
    match b
    case Nil => []
    case Leaf(line, rest) => [line] + Flatten(rest)
    case Stray(line, rest) => [line] + Flatten(rest)
    case Chain(head, body, arms, rest) => [head] + Flatten(body) + FlattenArms(arms) + Flatten(rest)
  }

  function FlattenArms(a: Arms): seq<Logical> {
    match a
    case Close(tail) => [tail]
    case Cut => []
    case Arm(head, body, more) => [head] + Flatten(body) + FlattenArms(more)
  }

  predicate Opens(d: Directive) {
    d.Ifdef? || d.Ifndef?
  }

  predicate ContinuesChain(d: Directive) {
    d.Elsif? || d.Else?
  }

  /** The stream ended inside this block. */
  predicate IsOpen(b: Block) {
    match b
    case Nil => false
    case Leaf(_, rest) => IsOpen(rest)
    case Stray(_, rest) => IsOpen(rest)
    case Chain(_, _, arms, rest) => ArmsOpen(arms) || IsOpen(rest)
  }

  predicate ArmsOpen(a: Arms) {
    match a
    case Close(_) => false
    case Cut => true
    case Arm(_, _, more) => ArmsOpen(more)
  }

  /** Directives stand where the grammar has them; nothing follows an unterminated block. */
  predicate Shaped(b: Block, top: bool) {
    match b
    case Nil => true
    case Leaf(line, rest) => !IsConditional(line.directive) && Shaped(rest, top)
    case Stray(line, rest) => top && (ContinuesChain(line.directive) || line.directive.Endif?) && Shaped(rest, top)
    case Chain(head, body, arms, rest) =>
      && Opens(head.directive) && Shaped(body, false) && ShapedArms(arms) && Shaped(rest, top)
      && (IsOpen(body) ==> arms.Cut?) && (ArmsOpen(arms) ==> rest.Nil?)
  }

  predicate ShapedArms(a: Arms) {
    match a
    case Close(tail) => tail.directive.Endif?
    case Cut => true
    case Arm(head, body, more) =>
      ContinuesChain(head.directive) && Shaped(body, false) && ShapedArms(more) && (IsOpen(body) ==> more.Cut?)
  }

  // -- every stream has such a reading ----------------------------------------------------------

  function Parse(s: seq<Logical>, top: bool): (r: (Block, seq<Logical>))
    ensures |r.1| <= |s|
    decreases |s|, 0
  {
    if s == [] then (Nil, [])
    else
      var d := s[0].directive;
      if !IsConditional(d) then
        var (rest, left) := Parse(s[1..], top);
        (Leaf(s[0], rest), left)
      else if Opens(d) then
        var (body, left) := Parse(s[1..], false);
        var (arms, left') := ParseArms(left);
        var (rest, left'') := Parse(left', top);
        (Chain(s[0], body, arms, rest), left'')
      else if top then
        var (rest, left) := Parse(s[1..], top);
        (Stray(s[0], rest), left)
      else (Nil, s)
  }

  function ParseArms(s: seq<Logical>): (r: (Arms, seq<Logical>))
    ensures |r.1| <= |s|
    decreases |s|, 1
  {
    if s == [] then (Cut, [])
    else if ContinuesChain(s[0].directive) then
      var (body, left) := Parse(s[1..], false);
      var (more, left') := ParseArms(left);
      (Arm(s[0], body, more), left')
    else (Close(s[0]), s[1..])
  }

  predicate StopsAtArm(s: seq<Logical>) {
    s == [] || ContinuesChain(s[0].directive) || s[0].directive.Endif?
  }

  lemma Reassociate(h: Logical, a: seq<Logical>, b: seq<Logical>, c: seq<Logical>, left: seq<Logical>)
    ensures ([h] + a + b + c) + left == [h] + (a + (b + (c + left)))
  {
  }

  /** The block and what is left spell the stream again. */
  ghost predicate Spells(s: seq<Logical>, top: bool, b: Block, left: seq<Logical>) {
    && Flatten(b) + left == s && Shaped(b, top) && (IsOpen(b) ==> left == [])
    && (if top then left == [] else StopsAtArm(left))
  }

  ghost predicate SpellsArms(s: seq<Logical>, a: Arms, left: seq<Logical>) {
    FlattenArms(a) + left == s && ShapedArms(a) && (ArmsOpen(a) ==> left == []) && (s == [] ==> a.Cut?)
  }

  lemma {:induction false} ParseRoundTrip(s: seq<Logical>, top: bool)
    ensures Spells(s, top, Parse(s, top).0, Parse(s, top).1)
    decreases |s|, 0
  {
    if s != [] {
      var d := s[0].directive;
      if IsConditional(d) && Opens(d) {
        var p1 := Parse(s[1..], false);
        var p2 := ParseArms(p1.1);
        var p3 := Parse(p2.1, top);
        ParseRoundTrip(s[1..], false);
        ParseArmsRoundTrip(p1.1);
        ParseRoundTrip(p2.1, top);
        assert Parse(s, top) == (Chain(s[0], p1.0, p2.0, p3.0), p3.1);
        ChainSpells(s, top, p1, p2, p3);
      } else if !IsConditional(d) || top {
        var p := Parse(s[1..], top);
        ParseRoundTrip(s[1..], top);
        LineSpells(s, top, p);
        assert Parse(s, top) == (if IsConditional(d) then Stray(s[0], p.0) else Leaf(s[0], p.0), p.1);
      }
    }
  }

  lemma LineSpells(s: seq<Logical>, top: bool, p: (Block, seq<Logical>))
    requires s != [] && !Opens(s[0].directive) && (IsConditional(s[0].directive) ==> top)
    requires Spells(s[1..], top, p.0, p.1)
    ensures Spells(s, top, if IsConditional(s[0].directive) then Stray(s[0], p.0) else Leaf(s[0], p.0), p.1)
  {
    assert ([s[0]] + Flatten(p.0)) + p.1 == [s[0]] + (Flatten(p.0) + p.1) == s;
  }

  lemma ChainSpells(s: seq<Logical>, top: bool, p1: (Block, seq<Logical>), p2: (Arms, seq<Logical>),
                    p3: (Block, seq<Logical>))
    requires s != [] && Opens(s[0].directive)
    requires Spells(s[1..], false, p1.0, p1.1) && SpellsArms(p1.1, p2.0, p2.1) && Spells(p2.1, top, p3.0, p3.1)
    requires p2.1 == [] ==> p3.0 == Nil
    ensures Spells(s, top, Chain(s[0], p1.0, p2.0, p3.0), p3.1)
  {
    Reassociate(s[0], Flatten(p1.0), FlattenArms(p2.0), Flatten(p3.0), p3.1);
    assert s == [s[0]] + s[1..];
  }

  lemma {:induction false} ParseArmsRoundTrip(s: seq<Logical>)
    requires StopsAtArm(s)
    ensures SpellsArms(s, ParseArms(s).0, ParseArms(s).1)
    decreases |s|, 1
  {
    if s != [] && ContinuesChain(s[0].directive) {
      var p1 := Parse(s[1..], false);
      var p2 := ParseArms(p1.1);
      ParseRoundTrip(s[1..], false);
      ParseArmsRoundTrip(p1.1);
      assert ParseArms(s) == (Arm(s[0], p1.0, p2.0), p2.1);
      Reassociate(s[0], Flatten(p1.0), FlattenArms(p2.0), [], p2.1);
      assert [s[0]] + Flatten(p1.0) + FlattenArms(p2.0) + [] == [s[0]] + Flatten(p1.0) + FlattenArms(p2.0);
      assert [] + p2.1 == p2.1;
      assert s == [s[0]] + s[1..];
    } else if s != [] {
      assert [s[0]] + s[1..] == s;
    }
  }

  // -- recursive evaluation, without frames -----------------------------------------------------------

  predicate TestHolds(t: Table, d: Directive) {
    match d
    case Ifdef(name) => IsDefined(t, name)
    case Ifndef(name) => !IsDefined(t, name)
    case Elsif(name) => IsDefined(t, name)
    case _ => true
  }

  /** One line that is not a conditional, in a live or a dead region; a live `include
      evaluates the header's own block. */
  function EvalLine(cfg: Config, file: string, l: Logical, live: bool, st: State, stack: seq<string>): State
    decreases DepthLeft(cfg, stack), 0
  {
    if !live then EmitBlanks(st, file, l.line, if l.directive.Define? then l.span else 1)
    else
      match Spliced(cfg, st, file, l, stack)
      case Some(h) => Eval(cfg, h, HeaderBlock(cfg, h), true, Entered(cfg, st, file, l, h), stack + [h])
      case None => Step(cfg, st, file, l, stack)
  }

  function HeaderBlock(cfg: Config, h: string): Block
    requires h in cfg.files
  {
    Parse(Group(cfg.files[h], 0), true).0
  }

  /** Section 22.6: a group of lines is compiled when its enclosing groups are and its own test holds. */
  function Eval(cfg: Config, file: string, b: Block, live: bool, st: State, stack: seq<string>): State
    decreases DepthLeft(cfg, stack), 1, b
  {
    match b
    case Nil => st
    case Leaf(line, rest) => Eval(cfg, file, rest, live, EvalLine(cfg, file, line, live, st, stack), stack)
    case Stray(line, rest) => Eval(cfg, file, rest, live, EmitBlanks(st, file, line.line, 1), stack)
    case Chain(head, body, arms, rest) =>
      var taken := TestHolds(st.macros, head.directive);
      var first := Eval(cfg, file, body, live && taken, EmitBlanks(st, file, head.line, 1), stack);
      Eval(cfg, file, rest, live, EvalArms(cfg, file, arms, live, taken, first, stack), stack)
  }

  /** The remaining arms: the first whose test holds is compiled if none before it was. */
  function EvalArms(cfg: Config, file: string, a: Arms, live: bool, taken: bool, st: State, stack: seq<string>): State
    decreases DepthLeft(cfg, stack), 1, a
  {
    match a
    case Close(tail) => EmitBlanks(st, file, tail.line, 1)
    case Cut => st
    case Arm(head, body, more) =>
      var now := !taken && TestHolds(st.macros, head.directive);
      var next := Eval(cfg, file, body, live && now, EmitBlanks(st, file, head.line, 1), stack);
      EvalArms(cfg, file, more, live, taken || now || head.directive.Else?, next, stack)
  }

  // -- the machine computes the recursive evaluation ------------------------------------------------------

  predicate NoIncludes(s: seq<Logical>) {
    forall l :: l in s ==> !l.directive.Include?
  }

  /** `h`, spliced with these groups open, closes what it opens and touches none of them. */
  predicate Closes(cfg: Config, cond: seq<Frame>, h: string)
    requires h in cfg.files
  {
    Shaped(HeaderBlock(cfg, h), cond == []) && !IsOpen(HeaderBlock(cfg, h))
  }

  ghost predicate LineCloses(cfg: Config, st: State, file: string, l: Logical, stack: seq<string>)
    decreases DepthLeft(cfg, stack), 0
  {
    match Spliced(cfg, st, file, l, stack)
    case None => true
    case Some(h) =>
      && Closes(cfg, st.cond, h)
      && SplicesClose(cfg, Entered(cfg, st, file, l, h), h, Group(cfg.files[h], 0), stack + [h])
  }

  /** Every header this run splices, at any depth, closes what it opens. Files it never
      splices do not matter, nor do stray directives where nothing is open. */
  ghost predicate SplicesClose(cfg: Config, st: State, file: string, s: seq<Logical>, stack: seq<string>)
    decreases DepthLeft(cfg, stack), |s|
  {
    s == [] ||
    (LineCloses(cfg, st, file, s[0], stack) &&
     SplicesClose(cfg, Step(cfg, st, file, s[0], stack), file, s[1..], stack))
  }

  /** In select mode no frame is ambiguous. */
  predicate NoneAmbiguous(cond: seq<Frame>) {
    forall f :: f in cond ==> !f.ambiguous
  }

  function Bare(st: State): State {
    st.(cond := [])
  }

  lemma {:induction false} RunConcat(cfg: Config, st: State, file: string, a: seq<Logical>, b: seq<Logical>,
                                     stack: seq<string>)
    ensures Run(cfg, st, file, a + b, stack) == Run(cfg, Run(cfg, st, file, a, stack), file, b, stack)
    decreases |a|
  {
    if a == [] {
      assert a + b == b;
    } else {
      assert (a + b)[1..] == a[1..] + b;
      RunConcat(cfg, Step(cfg, st, file, a[0], stack), file, a[1..], b, stack);
    }
  }

  lemma {:induction false} ClosesConcat(cfg: Config, st: State, file: string, a: seq<Logical>, b: seq<Logical>,
                                        stack: seq<string>)
    ensures SplicesClose(cfg, st, file, a + b, stack) <==>
      SplicesClose(cfg, st, file, a, stack) && SplicesClose(cfg, Run(cfg, st, file, a, stack), file, b, stack)
    decreases |a|
  {
    if a == [] {
      assert a + b == b;
    } else {
      assert (a + b)[1..] == a[1..] + b;
      ClosesConcat(cfg, Step(cfg, st, file, a[0], stack), file, a[1..], b, stack);
    }
  }

  lemma RunOne(cfg: Config, st: State, file: string, l: Logical, s: seq<Logical>, stack: seq<string>)
    ensures Run(cfg, st, file, [l] + s, stack) == Run(cfg, Step(cfg, st, file, l, stack), file, s, stack)
  {
    assert ([l] + s)[1..] == s;
  }

  /** Running an arm: its head, its body, then the remaining arms. */
  lemma ArmRuns(cfg: Config, st: State, file: string, a: Arms, stack: seq<string>)
    requires a.Arm? && !a.head.directive.Include?
    ensures Run(cfg, st, file, FlattenArms(a), stack) ==
      Run(cfg, Run(cfg, PlainStep(cfg, st, file, a.head), file, Flatten(a.body), stack),
          file, FlattenArms(a.more), stack)
  {
    assert FlattenArms(a) == [a.head] + (Flatten(a.body) + FlattenArms(a.more));
    RunOne(cfg, st, file, a.head, Flatten(a.body) + FlattenArms(a.more), stack);
    RunConcat(cfg, PlainStep(cfg, st, file, a.head), file, Flatten(a.body), FlattenArms(a.more), stack);
  }

  /** Running a chain: its head, its body, its arms, then what follows. */
  lemma ChainRuns(cfg: Config, st: State, file: string, b: Block, stack: seq<string>)
    requires b.Chain? && !b.head.directive.Include?
    ensures Run(cfg, st, file, Flatten(b), stack) ==
      Run(cfg, Run(cfg, Run(cfg, PlainStep(cfg, st, file, b.head), file, Flatten(b.body), stack),
                   file, FlattenArms(b.arms), stack), file, Flatten(b.rest), stack)
  {
    var Chain(head, body, arms, rest) := b;
    var s0 := PlainStep(cfg, st, file, head);
    var flat := Flatten(body) + FlattenArms(arms) + Flatten(rest);
    assert Flatten(b) == [head] + flat;
    RunOne(cfg, st, file, head, flat, stack);
    RunConcat(cfg, s0, file, Flatten(body) + FlattenArms(arms), Flatten(rest), stack);
    RunConcat(cfg, s0, file, Flatten(body), FlattenArms(arms), stack);
  }

  lemma ClosesOne(cfg: Config, st: State, file: string, l: Logical, s: seq<Logical>, stack: seq<string>)
    ensures SplicesClose(cfg, st, file, [l] + s, stack) <==>
      LineCloses(cfg, st, file, l, stack) && SplicesClose(cfg, Step(cfg, st, file, l, stack), file, s, stack)
  {
    assert ([l] + s)[1..] == s;
  }

  lemma ArmCloses(cfg: Config, st: State, file: string, a: Arms, stack: seq<string>)
    requires a.Arm? && !a.head.directive.Include? && SplicesClose(cfg, st, file, FlattenArms(a), stack)
    ensures var s0 := PlainStep(cfg, st, file, a.head);
            && SplicesClose(cfg, s0, file, Flatten(a.body), stack)
            && SplicesClose(cfg, Run(cfg, s0, file, Flatten(a.body), stack), file, FlattenArms(a.more), stack)
  {
    assert FlattenArms(a) == [a.head] + (Flatten(a.body) + FlattenArms(a.more));
    ClosesOne(cfg, st, file, a.head, Flatten(a.body) + FlattenArms(a.more), stack);
    ClosesConcat(cfg, PlainStep(cfg, st, file, a.head), file, Flatten(a.body), FlattenArms(a.more), stack);
  }

  lemma ChainCloses(cfg: Config, st: State, file: string, b: Block, stack: seq<string>)
    requires b.Chain? && !b.head.directive.Include? && SplicesClose(cfg, st, file, Flatten(b), stack)
    ensures var s0 := PlainStep(cfg, st, file, b.head);
            var s1 := Run(cfg, s0, file, Flatten(b.body), stack);
            && SplicesClose(cfg, s0, file, Flatten(b.body), stack)
            && SplicesClose(cfg, s1, file, FlattenArms(b.arms), stack)
            && SplicesClose(cfg, Run(cfg, s1, file, FlattenArms(b.arms), stack), file, Flatten(b.rest), stack)
  {
    var Chain(head, body, arms, rest) := b;
    var s0 := PlainStep(cfg, st, file, head);
    var tail := FlattenArms(arms) + Flatten(rest);
    assert Flatten(b) == [head] + (Flatten(body) + tail);
    ClosesOne(cfg, st, file, head, Flatten(body) + tail, stack);
    ClosesConcat(cfg, s0, file, Flatten(body), tail, stack);
    ClosesConcat(cfg, Run(cfg, s0, file, Flatten(body), stack), file, FlattenArms(arms), Flatten(rest), stack);
  }

  lemma EmittingPush(cond: seq<Frame>, f: Frame)
    ensures Emitting(cond + [f]) <==> Emitting(cond) && !f.dead && (f.selected || f.ambiguous)
    ensures NoneAmbiguous(cond + [f]) <==> NoneAmbiguous(cond) && !f.ambiguous
  {
    assert f in cond + [f];
  }

  /** A line under a stack acts as it does alone, in the region the stack makes live or dead. */
  lemma {:induction false} LineIsEval(cfg: Config, st: State, file: string, l: Logical, stack: seq<string>)
    requires !cfg.both && NoneAmbiguous(st.cond) && !IsConditional(l.directive)
    requires LineCloses(cfg, st, file, l, stack)
    ensures var end := Step(cfg, st, file, l, stack);
            Bare(end) == EvalLine(cfg, file, l, Emitting(st.cond), Bare(st), stack) && end.cond == st.cond
    decreases DepthLeft(cfg, stack), 0
  {
    AloneAlike(cfg, st, file, l, stack);
    match Spliced(cfg, st, file, l, stack)
    case None =>
    case Some(h) =>
      HeaderFlat(cfg, h);
      MachineIsEval(cfg, Entered(cfg, st, file, l, h), h, HeaderBlock(cfg, h), st.cond == [], stack + [h]);
  }

  lemma HeaderFlat(cfg: Config, h: string)
    requires h in cfg.files
    ensures Flatten(HeaderBlock(cfg, h)) == Group(cfg.files[h], 0)
  {
    ParseRoundTrip(Group(cfg.files[h], 0), true);
    assert Flatten(HeaderBlock(cfg, h)) + [] == Flatten(HeaderBlock(cfg, h));
  }

  /** Without its stack a live line splices the same header and otherwise acts the same. */
  lemma AloneAlike(cfg: Config, st: State, file: string, l: Logical, stack: seq<string>)
    requires !cfg.both && NoneAmbiguous(st.cond) && !IsConditional(l.directive)
    ensures PlainStep(cfg, st, file, l).cond == st.cond
    ensures !Emitting(st.cond) ==> Bare(PlainStep(cfg, st, file, l)) == EvalLine(cfg, file, l, false, Bare(st), stack)
    ensures Emitting(st.cond) ==>
      && Bare(PlainStep(cfg, st, file, l)) == PlainStep(cfg, Bare(st), file, l)
      && Spliced(cfg, Bare(st), file, l, stack) == Spliced(cfg, st, file, l, stack)
      && (l.directive.Include? ==> HeaderOf(cfg, Bare(st), file, l, stack) == HeaderOf(cfg, st, file, l, stack))
  {
    assert Emitting([]);
    assert !AmbiguousNow(st.cond) && !AmbiguousNow([]);
  }

  /** On every nested block the machine emits the lines and leaves the macro table of the
      recursive evaluation, and pops what it pushed. */
  lemma {:induction false} MachineIsEval(cfg: Config, st: State, file: string, b: Block, top: bool, stack: seq<string>)
    requires !cfg.both && NoneAmbiguous(st.cond) && Shaped(b, top) && (top ==> st.cond == [])
    requires SplicesClose(cfg, st, file, Flatten(b), stack)
    ensures var end := Run(cfg, st, file, Flatten(b), stack);
            && Bare(end) == Eval(cfg, file, b, Emitting(st.cond), Bare(st), stack)
            && NoneAmbiguous(end.cond) && (!IsOpen(b) ==> end.cond == st.cond)
    decreases DepthLeft(cfg, stack), 1, b, 1
  {
    match b
    case Nil =>
    case Leaf(line, rest) =>
      RunOne(cfg, st, file, line, Flatten(rest), stack);
      ClosesOne(cfg, st, file, line, Flatten(rest), stack);
      LineIsEval(cfg, st, file, line, stack);
      MachineIsEval(cfg, Step(cfg, st, file, line, stack), file, rest, top, stack);
    case Stray(line, rest) =>
      RunOne(cfg, st, file, line, Flatten(rest), stack);
      ClosesOne(cfg, st, file, line, Flatten(rest), stack);
      MachineIsEval(cfg, Step(cfg, st, file, line, stack), file, rest, top, stack);
    case Chain(head, body, arms, rest) =>
      ChainIsEval(cfg, st, file, b, top, stack);
  }

  function HeadFrame(st: State, d: Directive): Frame
    requires Opens(d)
  {
    Opened(Emitting(st.cond), IsDefined(st.macros, d.name), TestHolds(st.macros, d), false)
  }

  /** The line that opens a chain pushes a frame, live when the test holds in a live region. */
  lemma ChainOpens(cfg: Config, st: State, file: string, head: Logical)
    requires !cfg.both && NoneAmbiguous(st.cond) && Opens(head.directive)
    ensures var frame := HeadFrame(st, head.directive);
            && PlainStep(cfg, st, file, head).cond == st.cond + [frame]
            && Bare(PlainStep(cfg, st, file, head)) == EmitBlanks(Bare(st), file, head.line, 1)
            && NoneAmbiguous(st.cond + [frame]) && frame.dead == !Emitting(st.cond)
            && (Emitting(st.cond + [frame]) <==> Emitting(st.cond) && TestHolds(st.macros, head.directive))
            && frame.everSelected == TestHolds(st.macros, head.directive)
  {
    EmittingPush(st.cond, HeadFrame(st, head.directive));
  }

  lemma {:induction false} ChainIsEval(cfg: Config, st: State, file: string, b: Block, top: bool, stack: seq<string>)
    requires b.Chain? && !cfg.both && NoneAmbiguous(st.cond) && Shaped(b, top) && (top ==> st.cond == [])
    requires SplicesClose(cfg, st, file, Flatten(b), stack)
    ensures var end := Run(cfg, st, file, Flatten(b), stack);
            && Bare(end) == Eval(cfg, file, b, Emitting(st.cond), Bare(st), stack)
            && NoneAmbiguous(end.cond) && (!IsOpen(b) ==> end.cond == st.cond)
    decreases DepthLeft(cfg, stack), 1, b, 0
  {
    var Chain(head, body, arms, rest) := b;
    var live := Emitting(st.cond);
    var frame := HeadFrame(st, head.directive);
    var s0 := PlainStep(cfg, st, file, head);
    ChainOpens(cfg, st, file, head);
    ChainRuns(cfg, st, file, b, stack);
    ChainCloses(cfg, st, file, b, stack);
    MachineIsEval(cfg, s0, file, body, false, stack);
    var s1 := Run(cfg, s0, file, Flatten(body), stack);
    if IsOpen(body) {
      assert FlattenArms(arms) == [] && Flatten(rest) == [];
    } else {
      ArmsAreEval(cfg, s1, file, st.cond, frame, arms, stack);
      var s2 := Run(cfg, s1, file, FlattenArms(arms), stack);
      if !ArmsOpen(arms) {
        MachineIsEval(cfg, s2, file, rest, top, stack);
      }
    }
  }

  lemma {:induction false} ArmsAreEval(cfg: Config, st: State, file: string, outer: seq<Frame>, frame: Frame, a: Arms,
                                       stack: seq<string>)
    requires !cfg.both && st.cond == outer + [frame] && NoneAmbiguous(st.cond) && ShapedArms(a)
    requires SplicesClose(cfg, st, file, FlattenArms(a), stack)
    requires frame.dead == !Emitting(outer)
    ensures var end := Run(cfg, st, file, FlattenArms(a), stack);
            && Bare(end) == EvalArms(cfg, file, a, Emitting(outer), frame.everSelected, Bare(st), stack)
            && NoneAmbiguous(end.cond) && (!ArmsOpen(a) ==> end.cond == outer)
    decreases DepthLeft(cfg, stack), 1, a, 0
  {
    EmittingPush(outer, frame);
    match a
    case Cut =>
    case Close(tail) =>
      RunOne(cfg, st, file, tail, [], stack);
      assert [tail] + [] == [tail];
      assert st.cond[..|st.cond| - 1] == outer;
    case Arm(head, body, more) =>
      var next := ArmFrame(st.macros, frame, head.directive);
      var s0 := PlainStep(cfg, st, file, head);
      ArmOpens(cfg, st, file, outer, frame, head);
      ArmRuns(cfg, st, file, a, stack);
      ArmCloses(cfg, st, file, a, stack);
      MachineIsEval(cfg, s0, file, body, false, stack);
      if !IsOpen(body) {
        ArmsAreEval(cfg, Run(cfg, s0, file, Flatten(body), stack), file, outer, next, more, stack);
      } else {
        assert ArmsOpen(more);
      }
  }

  function ArmFrame(t: Table, frame: Frame, d: Directive): Frame
    requires ContinuesChain(d)
  {
    if d.Else? then LastArm(frame) else NextArm(frame, IsDefined(t, d.name), false)
  }

  /** The line that opens an arm replaces the top frame by the arm's, live when the arm is taken. */
  lemma ArmOpens(cfg: Config, st: State, file: string, outer: seq<Frame>, frame: Frame, head: Logical)
    requires !cfg.both && st.cond == outer + [frame] && NoneAmbiguous(st.cond) && ContinuesChain(head.directive)
    requires frame.dead == !Emitting(outer)
    ensures var next := ArmFrame(st.macros, frame, head.directive);
            var now := !frame.everSelected && TestHolds(st.macros, head.directive);
            && PlainStep(cfg, st, file, head).cond == outer + [next]
            && Bare(PlainStep(cfg, st, file, head)) == EmitBlanks(Bare(st), file, head.line, 1)
            && NoneAmbiguous(outer + [next]) && next.dead == frame.dead
            && (Emitting(outer + [next]) <==> Emitting(outer) && now)
            && next.everSelected == (frame.everSelected || now || head.directive.Else?)
  {
    EmittingPush(outer, frame);
    EmittingPush(outer, ArmFrame(st.macros, frame, head.directive));
  }

  /** Every stream, well nested or not: the select-mode machine agrees with recursive evaluation
      of the blocks the stream parses into. The headers it splices must close what they open. */
  lemma SelectModeIsBlockEvaluation(cfg: Config, macros: Table, file: string, s: seq<Logical>, stack: seq<string>)
    requires !cfg.both && SplicesClose(cfg, Fresh(macros), file, s, stack)
    ensures var b := Parse(s, true).0;
            && Flatten(b) == s
            && Bare(Run(cfg, Fresh(macros), file, s, stack)) == Eval(cfg, file, b, true, Fresh(macros), stack)
  {
    ParseRoundTrip(s, true);
    var b := Parse(s, true).0;
    assert Flatten(b) + [] == Flatten(b);
    MachineIsEval(cfg, Fresh(macros), file, b, true, stack);
  }

  /** Every file `include can reach closes the groups it opens, and no others. */
  predicate HeadersClose(cfg: Config) {
    forall h :: h in cfg.files ==> Shaped(HeaderBlock(cfg, h), false) && !IsOpen(HeaderBlock(cfg, h))
  }

  lemma {:induction false} ShapedAtTop(b: Block)
    requires Shaped(b, false)
    ensures Shaped(b, true)
    decreases b
  {
    match b
    case Nil =>
    case Leaf(_, rest) => ShapedAtTop(rest);
    case Stray(_, _) =>
    case Chain(_, _, _, rest) => ShapedAtTop(rest);
  }

  /** Two premises on the text alone: no include, or only closed files to include. */
  lemma {:induction false} ClosedFilesClose(cfg: Config, st: State, file: string, s: seq<Logical>, stack: seq<string>)
    requires HeadersClose(cfg) || NoIncludes(s)
    ensures SplicesClose(cfg, st, file, s, stack)
    decreases DepthLeft(cfg, stack), |s|
  {
    if s != [] {
      assert s[0] in s && forall l :: l in s[1..] ==> l in s;
      var h := Spliced(cfg, st, file, s[0], stack);
      if h.Some? {
        ShapedAtTop(HeaderBlock(cfg, h.value));
        var entered := Entered(cfg, st, file, s[0], h.value);
        ClosedFilesClose(cfg, entered, h.value, Group(cfg.files[h.value], 0), stack + [h.value]);
      }
      ClosedFilesClose(cfg, Step(cfg, st, file, s[0], stack), file, s[1..], stack);
    }
  }

  // -- a header that closes its includer's group ------------------------------------------------------

  /** `h` holds a single endif; this unit includes it inside a group. */
  function Leaky(): Config {
    Config(false, map["h" := [Line(Endif, "", false)]], map[("a.sv", "h") := "h"], {"h"}, 8, 8)
  }

  function LeakyUnit(): seq<Logical> {
    [Logical(Ifndef(Some("A")), "", 1, 1),
     Logical(Include("h"), "", 2, 1),
     Logical(Else, "", 3, 1),
     Logical(Define(Some(MacroDef("B", None, "", "a.sv", 4))), "", 4, 1),
     Logical(Endif, "", 5, 1)]
  }

  /** The machine's stack outlives a file: the header's endif ends the includer's group, so the
      define of the other arm runs, which block evaluation leaves out. */
  lemma UnclosedHeaderLeaks()
    ensures var cfg, s := Leaky(), LeakyUnit();
            && "B" in Run(cfg, Fresh(map[]), "a.sv", s, ["a.sv"]).macros
            && "B" !in Eval(cfg, "a.sv", Parse(s, true).0, true, Fresh(map[]), ["a.sv"]).macros
  {
    LeakyRun(Leaky(), LeakyUnit());
    LeakyEval(Leaky(), LeakyUnit());
  }

  lemma HeaderIsSpliced(cfg: Config, st: State)
    requires cfg == Leaky() && Emitting(st.cond)
    ensures Spliced(cfg, st, "a.sv", LeakyUnit()[1], ["a.sv"]) == Some("h")
    ensures Group(cfg.files["h"], 0) == [Logical(Endif, "", 1, 1)]
  {
    assert "h"[0] != "a.sv"[0];
    assert '`' !in "h";
  }

  /** Without includes, a run does to groups and table what its directives do. */
  function ViewAfter(v: View, s: seq<Logical>, both: bool): View
    decreases |s|
  {
    if s == [] then v else ViewAfter(v.Next(s[0].directive, both), s[1..], both)
  }

  lemma {:induction false} RunView(cfg: Config, st: State, file: string, s: seq<Logical>, stack: seq<string>)
    requires NoIncludes(s)
    ensures var end := Run(cfg, st, file, s, stack);
      View(end.cond, end.macros) == ViewAfter(View(st.cond, st.macros), s, cfg.both)
    decreases |s|
  {
    if s != [] {
      StepState(cfg, st, file, s[0]);
      assert s[0] in s;
      RunView(cfg, Step(cfg, st, file, s[0], stack), file, s[1..], stack);
    }
  }

  lemma LeakyRun(cfg: Config, s: seq<Logical>)
    requires cfg == Leaky() && s == LeakyUnit()
    ensures "B" in Run(cfg, Fresh(map[]), "a.sv", s, ["a.sv"]).macros
  {
    var start, close := Fresh(map[]), Logical(Endif, "", 1, 1);
    var inGroup := Step(cfg, start, "a.sv", s[0], ["a.sv"]);
    StepState(cfg, start, "a.sv", s[0]);
    assert inGroup.cond == [Frame(false, true, true, false)] && inGroup.macros == map[];
    HeaderIsSpliced(cfg, inGroup);
    var inside := Entered(cfg, inGroup, "a.sv", s[1], "h");
    StepState(cfg, inGroup, "a.sv", s[1]);
    var left := Step(cfg, inGroup, "a.sv", s[1], ["a.sv"]);
    assert left == Run(cfg, inside, "h", [close], ["a.sv"] + ["h"]);
    RunView(cfg, inside, "h", [close], ["a.sv"] + ["h"]);
    LeakyViews(close, s);
    RunView(cfg, left, "a.sv", s[2..], ["a.sv"]);
    assert s[1..][1..] == s[2..];
  }

  lemma LeakyViews(close: Logical, s: seq<Logical>)
    requires close.directive.Endif? && s == LeakyUnit()
    ensures ViewAfter(View([Frame(false, true, true, false)], map[]), [close], false) == View([], map[])
    ensures "B" in ViewAfter(View([], map[]), s[2..], false).macros
  {
    assert [close][1..] == [] && s[2..][1..] == s[3..] && s[3..][1..] == s[4..] && s[4..][1..] == [];
    var v := View([], map[]);
    assert v.Next(s[2].directive, false) == v;
    var w := v.Next(s[3].directive, false);
    assert Emitting([]) && "B" in w.macros && w.cond == [];
    assert w.Next(s[4].directive, false) == w;
    assert ViewAfter(w, s[4..], false) == w;
  }

  lemma LeakyParse(s: seq<Logical>)
    requires s == LeakyUnit()
    ensures Parse(s, true).0 == Chain(s[0], Leaf(s[1], Nil), Arm(s[2], Leaf(s[3], Nil), Close(s[4])), Nil)
  {
    assert s[1..][1..] == s[2..] && s[2..][1..] == s[3..] && s[3..][1..] == s[4..] && s[4..][1..] == [];
    assert Parse(s[4..], false) == (Nil, s[4..]);
    assert Parse(s[3..], false) == (Leaf(s[3], Nil), s[4..]);
    assert ParseArms(s[4..]) == (Close(s[4]), []);
    assert ParseArms(s[2..]) == (Arm(s[2], Leaf(s[3], Nil), Close(s[4])), []);
    assert Parse(s[2..], false) == (Nil, s[2..]);
    assert Parse(s[1..], false) == (Leaf(s[1], Nil), s[2..]);
  }

  lemma StrayAlone(l: Logical)
    requires l.directive.Endif?
    ensures Parse([l], true).0 == Stray(l, Nil)
  {
    assert [l][1..] == [];
  }

  /** Including `h` by itself leaves the table alone. */
  lemma LeakyInclude(cfg: Config, st: State)
    requires cfg == Leaky() && Emitting(st.cond)
    ensures EvalLine(cfg, "a.sv", LeakyUnit()[1], true, st, ["a.sv"]).macros == st.macros
  {
    var l, close := LeakyUnit()[1], Logical(Endif, "", 1, 1);
    HeaderIsSpliced(cfg, st);
    StrayAlone(close);
    var inside := Entered(cfg, st, "a.sv", l, "h");
    StepState(cfg, st, "a.sv", l);
    assert EvalLine(cfg, "a.sv", l, true, st, ["a.sv"]) ==
           Eval(cfg, "h", Stray(close, Nil), true, inside, ["a.sv"] + ["h"]);
  }

  /** When the first group is taken, the other contributes nothing to the table. */
  lemma FirstGroupOnly(cfg: Config, file: string, head: Logical, line: Logical, arm: Logical, other: Logical,
                       tail: Logical, st: State, stack: seq<string>)
    requires TestHolds(st.macros, head.directive)
    ensures Eval(cfg, file, Chain(head, Leaf(line, Nil), Arm(arm, Leaf(other, Nil), Close(tail)), Nil), true, st,
                 stack).macros ==
      EvalLine(cfg, file, line, true, EmitBlanks(st, file, head.line, 1), stack).macros
  {
    var first := EvalLine(cfg, file, line, true, EmitBlanks(st, file, head.line, 1), stack);
    assert Eval(cfg, file, Leaf(line, Nil), true, EmitBlanks(st, file, head.line, 1), stack) == first;
    var armed := EmitBlanks(first, file, arm.line, 1);
    assert Eval(cfg, file, Leaf(other, Nil), false, armed, stack).macros == armed.macros;
    var arms := Arm(arm, Leaf(other, Nil), Close(tail));
    assert EvalArms(cfg, file, arms, true, true, first, stack).macros == armed.macros;
  }

  lemma LeakyEval(cfg: Config, s: seq<Logical>)
    requires cfg == Leaky() && s == LeakyUnit()
    ensures "B" !in Eval(cfg, "a.sv", Parse(s, true).0, true, Fresh(map[]), ["a.sv"]).macros
  {
    LeakyParse(s);
    FirstGroupOnly(cfg, "a.sv", s[0], s[1], s[2], s[3], s[4], Fresh(map[]), ["a.sv"]);
    LeakyInclude(cfg, EmitBlanks(Fresh(map[]), "a.sv", 1, 1));
  }
}
