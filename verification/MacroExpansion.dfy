/** Macro expansion of one source line (`_expand`, `_expand_one`, `_scan_parens`,
    `_split_top_commas` in src/hdl_kgraph/parser/preprocessor.py; the text-macro
    directives are those of section 22.5 of IEEE Std 1800-2017). */
module MacroExpansion {
  import opened Collections
  import opened Schema

  datatype Param = Param(name: string, default: Option<string>)

  /** One macro; `params` is None for object-like macros. */
  datatype MacroDef = MacroDef(name: string, params: Option<seq<Param>>, body: string, file: string, line: nat)

  type Table = map<string, MacroDef>

  /** Original location of an expanded line. */
  datatype LineOrigin = LineOrigin(file: string, line: nat, ambiguous: bool)

  const PASSED_THROUGH: set<string> := {
    "timescale", "default_nettype", "resetall", "celldefine", "endcelldefine", "pragma", "line",
    "unconnected_drive", "nounconnected_drive", "begin_keywords", "end_keywords",
    "ifdef", "ifndef", "elsif", "else", "endif", "define", "undef", "include" }

  predicate IsWord(c: char) {
    'a' <= c <= 'z' || 'A' <= c <= 'Z' || '0' <= c <= '9' || c == '_'
  }

  /** Where the next macro use at or after `pos` starts; the end when there is none. */
  function FindUse(text: string, pos: nat): (k: nat)
    requires pos <= |text|
    ensures pos <= k <= |text|
    ensures k < |text| ==> text[k] == '`' && k + 1 < |text| && IsWord(text[k + 1])
    decreases |text| - pos
  {
    if pos == |text| then pos
    else if text[pos] == '`' && pos + 1 < |text| && IsWord(text[pos + 1]) then pos
    else FindUse(text, pos + 1)
  }

  function WordEnd(text: string, pos: nat): (k: nat)
    requires pos <= |text|
    ensures pos <= k <= |text|
    decreases |text| - pos
  {
    if pos < |text| && IsWord(text[pos]) then WordEnd(text, pos + 1) else pos
  }

  function SkipBlanks(text: string, pos: nat): (k: nat)
    requires pos <= |text|
    ensures pos <= k <= |text|
    decreases |text| - pos
  {
    if pos < |text| && (text[pos] == ' ' || text[pos] == '\t') then SkipBlanks(text, pos + 1) else pos
  }

  /** Index just past the parenthesis closing the group opened before `index`; None when it stays open. */
  function ScanParens(text: string, index: nat, depth: nat, inString: bool): (end: Option<nat>)
    requires 0 < index <= |text| && depth > 0
    ensures end.Some? ==> index < end.value <= |text|
    decreases |text| - index
  {
    if index == |text| then None
    else
      var c := text[index];
      if inString then ScanParens(text, index + 1, depth, !(c == '"' && text[index - 1] != '\\'))
      else if c == '"' then ScanParens(text, index + 1, depth, true)
      else if c == '(' then ScanParens(text, index + 1, depth + 1, false)
      else if c == ')' then
        if depth == 1 then Some(index + 1) else ScanParens(text, index + 1, depth - 1, false)
      else ScanParens(text, index + 1, depth, false)
  }

  /** Split on the commas outside brackets and strings. */
  function SplitTopCommas(text: string, start: nat, index: nat, depth: int, inString: bool): seq<string>
    requires start <= index <= |text|
    decreases |text| - index
  {
    if index == |text| then [text[start..]]
    else
      var c := text[index];
      if inString then
        SplitTopCommas(text, start, index + 1, depth, !(c == '"' && index > 0 && text[index - 1] != '\\'))
      else if c == '"' then SplitTopCommas(text, start, index + 1, depth, true)
      else if c in "([{" then SplitTopCommas(text, start, index + 1, depth + 1, false)
      else if c in ")]}" then SplitTopCommas(text, start, index + 1, depth - 1, false)
      else if c == ',' && depth == 0 then
        [text[start..index]] + SplitTopCommas(text, index + 1, index + 1, depth, false)
      else SplitTopCommas(text, start, index + 1, depth, false)
  }

  predicate IsSpace(c: char) {
    c == ' ' || '\t' <= c <= '\r'
  }

  function Strip(s: string): string
    decreases |s|
  {
    if s == "" then s
    else if IsSpace(s[0]) then Strip(s[1..])
    else if IsSpace(s[|s| - 1]) then Strip(s[..|s| - 1])
    else s
  }

  function StripAll(ss: seq<string>): seq<string> {
    seq(|ss|, i requires 0 <= i < |ss| => Strip(ss[i]))
  }

  /** Argument, default, or empty text for each parameter. */
  function Bind(params: seq<Param>, args: seq<string>): map<string, string> {
    if params == [] then map[]
    else
      var last := |params| - 1;
      var p := params[last];
      Bind(params[..last], if |args| > last then args[..last] else args)[p.name :=
        if |args| > last && args[last] != "" then args[last]
        else if p.default.Some? then p.default.value else ""]
  }

  /** Replace every whole word that is a parameter, in one pass. */
  function Substitute(body: string, pos: nat, bindings: map<string, string>): string
    requires pos <= |body|
    decreases |body| - pos
  {
    if pos == |body| then ""
    else if IsWord(body[pos]) then
      var end := WordEnd(body, pos + 1);
      var word := body[pos..end];
      (if word in bindings then bindings[word] else word) + Substitute(body, end, bindings)
    else [body[pos]] + Substitute(body, pos + 1, bindings)
  }

  function Replace(s: string, old_: string, new_: string): string
    requires old_ != ""
    decreases |s|
  {
    if |s| < |old_| then s
    else if old_ <= s then new_ + Replace(s[|old_|..], old_, new_)
    else [s[0]] + Replace(s[1..], old_, new_)
  }

  /** Stringification and token pasting, textually. */
  function MacroOperators(body: string): string {
    Replace(Replace(Replace(body, "`\\`\"", "\\\""), "`\"", "\""), "``", "")
  }

  /** The replacement text of one use and the position after it. */
  function ExpandOne(macro: MacroDef, text: string, pos: nat): (r: (string, nat))
    requires pos <= |text|
    ensures pos <= r.1 <= |text|
  {
    if macro.params.None? then (MacroOperators(macro.body), pos)
    else
      var open := SkipBlanks(text, pos);
      var end := if open < |text| && text[open] == '(' then ScanParens(text, open + 1, 1, false) else None;
      if end.None? then ("`" + macro.name, open)
      else
        var inner := text[open + 1..end.value - 1];
        var args := if Strip(inner) == "" then [] else StripAll(SplitTopCommas(inner, 0, 0, 0, false));
        var params := macro.params.value;
        var bindings := Bind(params, if |args| > |params| then args[..|params|] else args);
        (MacroOperators(Substitute(macro.body, 0, bindings)), end.value)
  }

  function Digits(n: nat): string {
    if n < 10 then ["0123456789"[n]] else Digits(n / 10) + ["0123456789"[n % 10]]
  }

  // -- the recursive expansion -------------------------------------------------------------

  function Names(stack: seq<string>): set<string> {
    set n | n in stack
  }

  lemma {:induction false} DistinctSize(stack: seq<string>)
    requires NoDup(stack)
    ensures |Names(stack)| == |stack|
  {
    if stack != [] {
      var last := |stack| - 1;
      DistinctSize(stack[..last]);
      assert stack == stack[..last] + [stack[last]];
      assert Names(stack) == Names(stack[..last]) + {stack[last]};
    }
  }

  /** The text a use stands for when no macro is expanded: `__FILE__` and `__LINE__`, and as it is
      written a language directive, a macro being expanded or an unknown name. */
  function Fixed(t: Table, name: string, written: string, origin: LineOrigin, stack: seq<string>): (r: Option<string>)
    ensures r.None? ==> name in t && name !in stack
  {
    if name == "__FILE__" then Some("\"" + origin.file + "\"")
    else if name == "__LINE__" then Some(Digits(origin.line))
    else if name in PASSED_THROUGH || name in stack || name !in t then Some(written)
    else None
  }

  /** `_expand`. The stack of macros being expanded stays distinct and defined, and
      (names off the stack, remaining text) decreases. */
  function Expand(t: Table, limit: nat, text: string, pos: nat, origin: LineOrigin, stack: seq<string>): string
    requires pos <= |text| && NoDup(stack) && Names(stack) <= t.Keys
    decreases t.Keys - Names(stack), |text| - pos, 1
  {
    var k := FindUse(text, pos);
    if k == |text| then text[pos..]
    else text[pos..k] + ExpandUse(t, limit, text, k, origin, stack)
  }

  /** The text from the use at `k` on. */
  function ExpandUse(t: Table, limit: nat, text: string, k: nat, origin: LineOrigin, stack: seq<string>): string
    requires k < |text| && NoDup(stack) && Names(stack) <= t.Keys
    decreases t.Keys - Names(stack), |text| - k, 0
  {
    var end := WordEnd(text, k + 1);
    var name := text[k + 1..end];
    match Fixed(t, name, text[k..end], origin, stack)
    case Some(same) => same + Expand(t, limit, text, end, origin, stack)
    case None =>
      var (replacement, after) := ExpandOne(t[name], text, end);
      Rescan(t, limit, replacement, origin, stack, name) + Expand(t, limit, text, after, origin, stack)
  }

  /** The replacement is expanded again with `name` on the stack, unless the depth limit is reached. */
  function Rescan(t: Table, limit: nat, replacement: string, origin: LineOrigin, stack: seq<string>,
                  name: string): string
    requires NoDup(stack) && Names(stack) <= t.Keys && name in t && name !in stack
    decreases t.Keys - Names(stack), 0
  {
    Pushed(t, stack, name);
    if |stack| >= limit then replacement
    else Expand(t, limit, replacement, 0, origin, stack + [name])
  }

  lemma Pushed(t: Table, stack: seq<string>, name: string)
    requires NoDup(stack) && Names(stack) <= t.Keys && name in t && name !in stack
    ensures NoDup(stack + [name]) && Names(stack + [name]) <= t.Keys
    ensures t.Keys - Names(stack + [name]) < t.Keys - Names(stack)
  {
    assert Names(stack + [name]) == Names(stack) + {name};
    assert name in t.Keys - Names(stack);
  }

  /** A stack of defined names other than `name` is shorter than the table. */
  lemma StackShorterThanTable(t: Table, stack: seq<string>, name: string)
    requires NoDup(stack) && Names(stack) <= t.Keys && name in t && name !in stack
    ensures |stack| < |t|
  {
    DistinctSize(stack);
    SubsetSize(Names(stack), t.Keys - {name});
    assert |t.Keys - {name}| == |t.Keys| - 1;
    assert |t| == |t.Keys|;
  }

  lemma {:induction false} SubsetSize(a: set<string>, b: set<string>)
    requires a <= b
    ensures |a| <= |b|
  {
    assert b == a + (b - a);
  }

  /** With at least as many levels as names the depth limit never decides anything:
      every such limit gives the same text, that of unlimited expansion. */
  lemma {:induction false} DepthLimitUnreachable(t: Table, limit: nat, other: nat, text: string, pos: nat,
                                                 origin: LineOrigin, stack: seq<string>)
    requires pos <= |text| && NoDup(stack) && Names(stack) <= t.Keys
    requires |t| <= limit && |t| <= other
    ensures Expand(t, limit, text, pos, origin, stack) == Expand(t, other, text, pos, origin, stack)
    decreases t.Keys - Names(stack), |text| - pos, 1
  {
    if FindUse(text, pos) < |text| {
      UseAlike(t, limit, other, text, FindUse(text, pos), origin, stack);
    }
  }

  lemma {:induction false} UseAlike(t: Table, limit: nat, other: nat, text: string, k: nat,
                                    origin: LineOrigin, stack: seq<string>)
    requires k < |text| && NoDup(stack) && Names(stack) <= t.Keys
    requires |t| <= limit && |t| <= other
    ensures ExpandUse(t, limit, text, k, origin, stack) == ExpandUse(t, other, text, k, origin, stack)
    decreases t.Keys - Names(stack), |text| - k, 0
  {
    var end := WordEnd(text, k + 1);
    var name := text[k + 1..end];
    if Fixed(t, name, text[k..end], origin, stack).Some? {
      DepthLimitUnreachable(t, limit, other, text, end, origin, stack);
    } else {
      var (replacement, after) := ExpandOne(t[name], text, end);
      RescanAlike(t, limit, other, replacement, origin, stack, name);
      DepthLimitUnreachable(t, limit, other, text, after, origin, stack);
    }
  }

  lemma {:induction false} RescanAlike(t: Table, limit: nat, other: nat, replacement: string, origin: LineOrigin,
                                       stack: seq<string>, name: string)
    requires NoDup(stack) && Names(stack) <= t.Keys && name in t && name !in stack
    requires |t| <= limit && |t| <= other
    ensures Rescan(t, limit, replacement, origin, stack, name) == Rescan(t, other, replacement, origin, stack, name)
    decreases t.Keys - Names(stack), 0
  {
    StackShorterThanTable(t, stack, name);
    Pushed(t, stack, name);
    DepthLimitUnreachable(t, limit, other, replacement, 0, origin, stack + [name]);
  }
}
