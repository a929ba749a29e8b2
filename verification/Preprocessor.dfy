/** The SystemVerilog preprocessor (src/hdl_kgraph/parser/preprocessor.py): the line
    loop, the conditional stack, includes and the macro-event log. */
module Preprocessor {
  import opened Schema
  import opened MacroExpansion

  /** What the directive regex makes of a line. */
  datatype Directive =
    | Define(macro: Option<MacroDef>)  // None: malformed, ignored
    | Undef(name: Option<string>)
    | Ifdef(name: Option<string>)
    | Ifndef(name: Option<string>)
    | Elsif(name: Option<string>)
    | Else
    | Endif
    | Include(arg: string)
    | Text

  /** One physical line; `continued` when it ends in a backslash. */
  datatype Line = Line(directive: Directive, raw: string, continued: bool)

  /** One line as the loop consumes it: a `define takes its continuations with it. */
  datatype Logical = Logical(directive: Directive, raw: string, line: nat, span: nat)

  /** One conditional nesting level. */
  datatype Frame = Frame(dead: bool, selected: bool, everSelected: bool, ambiguous: bool)

  datatype MacroEvent = Defined(macro: MacroDef) | Undefined(name: string)

  datatype State = State(
    macros: Table,
    cond: seq<Frame>,
    out: seq<string>,
    lineMap: seq<LineOrigin>,
    events: seq<MacroEvent>,
    included: set<string>)

  /** Options and the files `include can reach. */
  datatype Config = Config(
    both: bool,
    files: map<string, seq<Line>>,
    resolve: map<(string, string), string>,
    allowed: set<string>,
    maxIncludeDepth: nat,
    maxExpansionDepth: nat)

  // -- logical lines ------------------------------------------------------------------------

  /** How many lines a `define at `i` continues over. */
  function Continuations(lines: seq<Line>, i: nat): (n: nat)
    requires i < |lines|
    ensures i + n < |lines|
    decreases |lines| - i
  {
    if lines[i].continued && i + 1 < |lines| then 1 + Continuations(lines, i + 1) else 0
  }

  function Consumed(lines: seq<Line>, i: nat): (n: nat)
    requires i < |lines|
    ensures 1 <= n <= |lines| - i
  {
    if lines[i].directive.Define? then 1 + Continuations(lines, i) else 1
  }

  function Group(lines: seq<Line>, i: nat): seq<Logical>
    requires i <= |lines|
    decreases |lines| - i
  {
    if i == |lines| then []
    else
      var n := Consumed(lines, i);
      [Logical(lines[i].directive, lines[i].raw, i + 1, n)] + Group(lines, i + n)
  }

  // -- the conditional stack ------------------------------------------------------------------

  predicate Emitting(cond: seq<Frame>) {
    forall f :: f in cond ==> !f.dead && (f.selected || f.ambiguous)
  }

  predicate AmbiguousNow(cond: seq<Frame>) {
    exists f :: f in cond && !f.dead && f.ambiguous && !f.selected
  }

  predicate IsDefined(t: Table, name: Option<string>) {
    name.Some? && name.value in t
  }

  predicate IsConditional(d: Directive) {
    d.Ifdef? || d.Ifndef? || d.Elsif? || d.Else? || d.Endif?
  }

  /** The frame an `ifdef or `ifndef pushes. */
  function Opened(live: bool, defined: bool, selected: bool, both: bool): Frame {
    Frame(!live, selected, selected, both && !defined && live)
  }

  /** `elsif: selected when no earlier arm was and the name is defined. */
  function NextArm(f: Frame, defined: bool, both: bool): Frame {
    var selected := !f.everSelected && defined;
    Frame(f.dead, selected, f.everSelected || selected, f.ambiguous || (both && !defined && !f.dead))
  }

  /** `else: selected when no earlier arm was. */
  function LastArm(f: Frame): Frame {
    Frame(f.dead, !f.everSelected, true, f.ambiguous)
  }

  /** `_handle_conditional`; a stray `elsif, `else or `endif changes nothing. */
  function HandleConditional(cond: seq<Frame>, t: Table, d: Directive, both: bool): seq<Frame>
    requires IsConditional(d)
  {
    match d
    case Ifdef(name) => cond + [Opened(Emitting(cond), IsDefined(t, name), IsDefined(t, name), both)]
    case Ifndef(name) => cond + [Opened(Emitting(cond), IsDefined(t, name), !IsDefined(t, name), both)]
    case Elsif(name) =>
      if cond == [] then cond else cond[|cond| - 1 := NextArm(cond[|cond| - 1], IsDefined(t, name), both)]
    case Else => if cond == [] then cond else cond[|cond| - 1 := LastArm(cond[|cond| - 1])]
    case _ => if cond == [] then cond else cond[..|cond| - 1]
  }

  // -- one line -----------------------------------------------------------------------------------

  function SplitLines(s: string): (r: seq<string>)
    ensures r != []
    decreases |s|
  {
    var k := NewlineAt(s, 0);
    if k == |s| then [s] else [s[..k]] + SplitLines(s[k + 1..])
  }

  function NewlineAt(s: string, pos: nat): (k: nat)
    requires pos <= |s|
    ensures pos <= k <= |s|
    decreases |s| - pos
  {
    if pos == |s| || s[pos] == '\n' then pos else NewlineAt(s, pos + 1)
  }

  function ExpandText(cfg: Config, t: Table, text: string, origin: LineOrigin): string {
    Expand(t, cfg.maxExpansionDepth, text, 0, origin, [])
  }

  function Repeat<T>(x: T, n: nat): (r: seq<T>)
    ensures |r| == n && forall i :: 0 <= i < n ==> r[i] == x
  {
    seq(n, _ => x)
  }

  function BlankOrigins(file: string, line: nat, count: nat): (r: seq<LineOrigin>)
    ensures |r| == count
  {
    seq(count, i requires 0 <= i < count => LineOrigin(file, line + i, false))
  }

  function EmitBlanks(st: State, file: string, line: nat, count: nat): State {
    st.(out := st.out + Repeat("", count), lineMap := st.lineMap + BlankOrigins(file, line, count))
  }

  function DefineMacro(st: State, m: MacroDef): State {
    st.(macros := st.macros[m.name := m], events := st.events + [Defined(m)])
  }

  function UndefMacro(st: State, name: string): State {
    st.(macros := st.macros - {name}, events := st.events + [Undefined(name)])
  }

  function EmitText(cfg: Config, st: State, file: string, l: Logical): State {
    var origin := LineOrigin(file, l.line, AmbiguousNow(st.cond));
    var lines := SplitLines(ExpandText(cfg, st.macros, l.raw, origin));
    st.(out := st.out + lines, lineMap := st.lineMap + Repeat(origin, |lines|))
  }

  /** Every line but a live `include. */
  function PlainStep(cfg: Config, st: State, file: string, l: Logical): State {
    var d := l.directive;
    if d.Define? then
      EmitBlanks(if Emitting(st.cond) && d.macro.Some? then DefineMacro(st, d.macro.value) else st,
                 file, l.line, l.span)
    else if IsConditional(d) then
      EmitBlanks(st.(cond := HandleConditional(st.cond, st.macros, d, cfg.both)), file, l.line, 1)
    else if !Emitting(st.cond) then EmitBlanks(st, file, l.line, 1)
    else if d.Undef? then EmitBlanks(if d.name.Some? then UndefMacro(st, d.name.value) else st, file, l.line, 1)
    else if d.Include? then EmitBlanks(st, file, l.line, 1)
    else EmitText(cfg, st, file, l)
  }

  /** The macro table after a line that splices no header, in a live or a dead region. */
  function TableAfter(t: Table, d: Directive, live: bool): Table {
    if live && d.Define? && d.macro.Some? then t[d.macro.value.name := d.macro.value]
    else if live && d.Undef? && d.name.Some? then t - {d.name.value}
    else t
  }

  /** The open groups and the macro table, and what a line that splices no header makes of them. */
  datatype View = View(cond: seq<Frame>, macros: Table) {
    function Next(d: Directive, both: bool): View {
      View(if IsConditional(d) then HandleConditional(cond, macros, d, both) else cond,
           TableAfter(macros, d, Emitting(cond)))
    }
  }

  lemma StepState(cfg: Config, st: State, file: string, l: Logical)
    ensures var next := PlainStep(cfg, st, file, l);
      View(next.cond, next.macros) == View(st.cond, st.macros).Next(l.directive, cfg.both)
  {
  }

  // -- includes and the whole run -------------------------------------------------------------------

  function DepthLeft(cfg: Config, stack: seq<string>): nat {
    if |stack| <= cfg.maxIncludeDepth then cfg.maxIncludeDepth - |stack| else 0
  }

  /** The header a live `include splices, if it resolves, is allowed, and is neither
      a cycle nor too deep. */
  function HeaderOf(cfg: Config, st: State, file: string, l: Logical, stack: seq<string>): (h: Option<string>)
    requires l.directive.Include?
    ensures h.Some? ==> h.value !in stack && |stack| < cfg.maxIncludeDepth
  {
    var arg := l.directive.arg;
    var origin := LineOrigin(file, l.line, AmbiguousNow(st.cond));
    var key := (file, if '`' in arg then ExpandText(cfg, st.macros, arg, origin) else arg);
    if key !in cfg.resolve || cfg.resolve[key] !in cfg.allowed then None
    else
      var header := cfg.resolve[key];
      if header in stack || |stack| >= cfg.maxIncludeDepth then None else Some(header)
  }

  /** The header whose lines a live `include splices in, if any. */
  function Spliced(cfg: Config, st: State, file: string, l: Logical, stack: seq<string>): (h: Option<string>)
    ensures h.Some? ==> h.value in cfg.files && h.value !in stack && |stack| < cfg.maxIncludeDepth
  {
    if !l.directive.Include? || !Emitting(st.cond) then None
    else
      var h := HeaderOf(cfg, st, file, l, stack);
      if h.Some? && h.value in cfg.files then h else None
  }

  /** The state a spliced header starts in. */
  function Entered(cfg: Config, st: State, file: string, l: Logical, header: string): State {
    var next := PlainStep(cfg, st, file, l);
    next.(included := next.included + {header})
  }

  function Step(cfg: Config, st: State, file: string, l: Logical, stack: seq<string>): State
    decreases DepthLeft(cfg, stack), 0
  {
    var next := PlainStep(cfg, st, file, l);
    if l.directive.Include? && Emitting(st.cond) && HeaderOf(cfg, st, file, l, stack).Some? then
      var header := HeaderOf(cfg, st, file, l, stack).value;
      var seen := next.(included := next.included + {header});
      if header in cfg.files then
        Run(cfg, seen, header, Group(cfg.files[header], 0), stack + [header])
      else seen
    else next
  }

  function Run(cfg: Config, st: State, file: string, s: seq<Logical>, stack: seq<string>): State
    decreases DepthLeft(cfg, stack), |s|
  {
    if s == [] then st else Run(cfg, Step(cfg, st, file, s[0], stack), file, s[1..], stack)
  }

  /** The run over the lines from `i` on takes one step per logical line. */
  lemma RunGroup(cfg: Config, st: State, file: string, lines: seq<Line>, i: nat, stack: seq<string>)
    requires i < |lines|
    ensures var n := Consumed(lines, i);
      Run(cfg, st, file, Group(lines, i), stack) ==
      Run(cfg, Step(cfg, st, file, Logical(lines[i].directive, lines[i].raw, i + 1, n), stack),
          file, Group(lines, i + n), stack)
  {
    assert Group(lines, i)[1..] == Group(lines, i + Consumed(lines, i));
  }

  function Fresh(macros: Table): State {
    State(macros, [], [], [], [], {})
  }

  class Machine {
    const cfg: Config
    var macros: Table
    var cond: seq<Frame>
    var out: seq<string>
    var lineMap: seq<LineOrigin>
    var events: seq<MacroEvent>
    var included: set<string>

    constructor (cfg: Config, macros: Table)
      ensures this.cfg == cfg && St() == Fresh(macros)
    {
      this.cfg := cfg;
      this.macros := macros;
      cond, out, lineMap, events, included := [], [], [], [], {};
    }

    ghost function St(): State
      reads this
    {
      State(macros, cond, out, lineMap, events, included)
    }

    method Blanks(file: string, line: nat, count: nat)
      modifies this`out, this`lineMap
      ensures St() == EmitBlanks(old(St()), file, line, count)
    {
      out := out + Repeat("", count);
      lineMap := lineMap + BlankOrigins(file, line, count);
    }

    method TextLine(file: string, l: Logical)
      modifies this`out, this`lineMap
      ensures St() == EmitText(cfg, old(St()), file, l)
    {
      var origin := LineOrigin(file, l.line, AmbiguousNow(cond));
      var lines := SplitLines(ExpandText(cfg, macros, l.raw, origin));
      for i := 0 to |lines|
        invariant out == old(out) + lines[..i] && lineMap == old(lineMap) + Repeat(origin, i)
      {
        out := out + [lines[i]];
        lineMap := lineMap + [origin];
      }
    }

    method IncludeLine(file: string, l: Logical, stack: seq<string>)
      requires l.directive.Include? && Emitting(cond)
      modifies this
      ensures St() == Step(cfg, old(St()), file, l, stack)
      decreases DepthLeft(cfg, stack), 0
    {
      Blanks(file, l.line, 1);
      var header := HeaderOf(cfg, State(macros, cond, out, lineMap, events, included), file, l, stack);
      if header.None? {
        return;
      }
      included := included + {header.value};
      if header.value in cfg.files {
        Process(header.value, cfg.files[header.value], stack + [header.value]);
      }
    }

    /** One logical line: a directive, an included file, or text. */
    method ProcessLine(file: string, l: Logical, stack: seq<string>)
      modifies this
      ensures St() == Step(cfg, old(St()), file, l, stack)
      decreases DepthLeft(cfg, stack), 1
    {
      var d := l.directive;
      if d.Define? {
        if Emitting(cond) && d.macro.Some? {
          macros := macros[d.macro.value.name := d.macro.value];
          events := events + [Defined(d.macro.value)];
        }
        Blanks(file, l.line, l.span);
      } else if IsConditional(d) {
        cond := HandleConditional(cond, macros, d, cfg.both);
        Blanks(file, l.line, 1);
      } else if d.Undef? && Emitting(cond) {
        if d.name.Some? {
          macros := macros - {d.name.value};
          events := events + [Undefined(d.name.value)];
        }
        Blanks(file, l.line, 1);
      } else if d.Include? && Emitting(cond) {
        IncludeLine(file, l, stack);
      } else if !Emitting(cond) {
        Blanks(file, l.line, 1);
      } else {
        TextLine(file, l);
      }
    }

    /** The inner loop: a define takes the lines its backslashes continue over. */
    method JoinLines(lines: seq<Line>, i: nat) returns (consumed: nat)
      requires i < |lines|
      ensures consumed == Consumed(lines, i)
    {
      consumed := 1;
      if lines[i].directive.Define? {
        while lines[i + consumed - 1].continued && i + consumed < |lines|
          invariant 1 <= consumed <= |lines| - i
          invariant consumed + Continuations(lines, i + consumed - 1) == Consumed(lines, i)
        {
          consumed := consumed + 1;
        }
      }
    }

    /** `_process`: the line loop over one file, recursing into includes. */
    method Process(file: string, lines: seq<Line>, stack: seq<string>)
      modifies this
      ensures St() == Run(cfg, old(St()), file, Group(lines, 0), stack)
      decreases DepthLeft(cfg, stack), |lines| + 1
    {
      var i := 0;
      while i < |lines|
        invariant i <= |lines|
        invariant Run(cfg, St(), file, Group(lines, i), stack) == Run(cfg, old(St()), file, Group(lines, 0), stack)
        decreases |lines| - i
      {
        var consumed := JoinLines(lines, i);
        var l := Logical(lines[i].directive, lines[i].raw, i + 1, consumed);
        RunGroup(cfg, St(), file, lines, i, stack);
        ProcessLine(file, l, stack);
        i := i + consumed;
      }
    }

    /** `preprocess`: one compilation unit against the shared macro table. */
    method Preprocess(path: string, lines: seq<Line>) returns (unterminated: bool)
      modifies this
      ensures var end := Run(cfg, Fresh(old(macros)), path, Group(lines, 0), [path]);
              St() == end.(cond := []) && (unterminated <==> end.cond != [])
    {
      cond, out, lineMap, events, included := [], [], [], [], {};
      Process(path, lines, [path]);
      unterminated := cond != [];
      cond := [];
    }
  }
}
