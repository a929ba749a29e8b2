/** What text a line of source becomes: the next macro use and what it contributes, for each
    kind of use (`_expand` and `_expand_one` in src/hdl_kgraph/parser/preprocessor.py). */
module MacroText {
  import opened Collections
  import opened Schema
  import opened MacroExpansion
  import opened MacroScan

  /** The first use at or after `pos` is at `k`, and its name ends at `end`. */
  predicate NextUse(text: string, pos: nat, k: nat, end: nat) {
    pos <= k && UseAt(text, k) && (forall j :: pos <= j < k ==> !UseAt(text, j)) && WordRun(text, k + 1, end)
  }

  predicate Directive(name: string) {
    || name == "ifdef" || name == "ifndef" || name == "elsif" || name == "else" || name == "endif"
    || name == "define" || name == "undef" || name == "include"
    || name == "timescale" || name == "default_nettype" || name == "resetall" || name == "line" || name == "pragma"
    || name == "celldefine" || name == "endcelldefine" || name == "begin_keywords" || name == "end_keywords"
    || name == "unconnected_drive" || name == "nounconnected_drive"
  }

  /** The macros that a use of `name` expands. */
  predicate Expands(t: Table, stack: seq<string>, name: string) {
    name in t && name !in stack && !Directive(name) && name != "__FILE__" && name != "__LINE__"
  }

  ghost predicate Stacked(t: Table, stack: seq<string>) {
    NoDup(stack) && Names(stack) <= t.Keys
  }

  /** The rest of the text once the use at `k` is found. */
  lemma FindsUse(text: string, pos: nat, k: nat, end: nat)
    requires NextUse(text, pos, k, end)
    ensures FindUse(text, pos) == k && WordEnd(text, k + 1) == end && pos <= k < end <= |text| && k + 1 < end
  {
    FirstUse(text, pos);
    WordEndIff(text, k + 1, end);
  }

  lemma NoUse(t: Table, limit: nat, text: string, pos: nat, origin: LineOrigin, stack: seq<string>)
    requires pos <= |text| && Stacked(t, stack) && forall j :: pos <= j < |text| ==> !UseAt(text, j)
    ensures Expand(t, limit, text, pos, origin, stack) == text[pos..]
  {
    FirstUse(text, pos);
  }

  /** The number in decimal, without leading zeros. */
  predicate Decimal(digits: string, n: nat) {
    && Written(digits) == n && digits != "" && (digits[0] == '0' ==> n == 0)
    && forall c :: c in digits ==> '0' <= c <= '9'
  }

  lemma FixedUse(t: Table, limit: nat, text: string, pos: nat, k: nat, end: nat, origin: LineOrigin,
                 stack: seq<string>, same: string)
    requires NextUse(text, pos, k, end) && end <= |text| && Stacked(t, stack)
    requires Fixed(t, text[k + 1..end], text[k..end], origin, stack) == Some(same)
    ensures Expand(t, limit, text, pos, origin, stack) ==
            text[pos..k] + same + Expand(t, limit, text, end, origin, stack)
  {
    FindsUse(text, pos, k, end);
    var a, b := text[pos..k], Expand(t, limit, text, end, origin, stack);
    assert ExpandUse(t, limit, text, k, origin, stack) == same + b;
    assert a + (same + b) == a + same + b;
  }

  /** The file's name, quoted. */
  lemma FileUse(t: Table, limit: nat, text: string, pos: nat, k: nat, end: nat, origin: LineOrigin, stack: seq<string>)
    requires NextUse(text, pos, k, end) && end <= |text| && Stacked(t, stack) && text[k + 1..end] == "__FILE__"
    ensures Expand(t, limit, text, pos, origin, stack) ==
            text[pos..k] + ("\"" + origin.file + "\"") + Expand(t, limit, text, end, origin, stack)
  {
    FixedUse(t, limit, text, pos, k, end, origin, stack, "\"" + origin.file + "\"");
  }

  /** The line number, in decimal. */
  lemma LineUse(t: Table, limit: nat, text: string, pos: nat, k: nat, end: nat, origin: LineOrigin, stack: seq<string>)
    returns (digits: string)
    requires NextUse(text, pos, k, end) && end <= |text| && Stacked(t, stack) && text[k + 1..end] == "__LINE__"
    ensures Decimal(digits, origin.line)
    ensures Expand(t, limit, text, pos, origin, stack) ==
            text[pos..k] + digits + Expand(t, limit, text, end, origin, stack)
  {
    digits := Digits(origin.line);
    DigitsWrite(origin.line);
    assert "__LINE__"[2] != "__FILE__"[2];
    FixedUse(t, limit, text, pos, k, end, origin, stack, digits);
  }

  /** Directives, unknown names and macros being expanded stay as they are written. */
  lemma KeptUse(t: Table, limit: nat, text: string, pos: nat, k: nat, end: nat, origin: LineOrigin, stack: seq<string>)
    requires NextUse(text, pos, k, end) && end <= |text| && Stacked(t, stack)
    requires text[k + 1..end] != "__FILE__" && text[k + 1..end] != "__LINE__"
    requires !Expands(t, stack, text[k + 1..end])
    ensures Expand(t, limit, text, pos, origin, stack) == text[pos..end] + Expand(t, limit, text, end, origin, stack)
  {
    FixedName(t, text[k + 1..end], text[k..end], origin, stack);
    FixedUse(t, limit, text, pos, k, end, origin, stack, text[k..end]);
    Joins(text, pos, k, end);
  }

  lemma Joins(text: string, pos: nat, k: nat, end: nat)
    requires pos <= k <= end <= |text|
    ensures text[pos..k] + text[k..end] == text[pos..end]
  {
  }

  lemma FixedName(t: Table, name: string, written: string, origin: LineOrigin, stack: seq<string>)
    requires name != "__FILE__" && name != "__LINE__"
    ensures Fixed(t, name, written, origin, stack) == if Expands(t, stack, name) then None else Some(written)
  {
  }

  // -- the macros -------------------------------------------------------------------------------------

  /** The expansion of a replacement text while `name` is being expanded. */
  lemma RescanIs(t: Table, limit: nat, replacement: string, origin: LineOrigin, stack: seq<string>, name: string)
    requires Stacked(t, stack) && Expands(t, stack, name)
    ensures Stacked(t, stack + [name])
    ensures |stack| < limit ==>
      Rescan(t, limit, replacement, origin, stack, name) == Expand(t, limit, replacement, 0, origin, stack + [name])
    ensures |stack| >= limit ==> Rescan(t, limit, replacement, origin, stack, name) == replacement
  {
    Pushed(t, stack, name);
  }

  /** The use of a macro and the text after it. */
  lemma ExpandedUse(t: Table, limit: nat, text: string, pos: nat, k: nat, end: nat, origin: LineOrigin,
                    stack: seq<string>, replacement: string, after: nat)
    requires NextUse(text, pos, k, end) && end <= |text| && Stacked(t, stack)
    requires Expands(t, stack, text[k + 1..end]) && ExpandOne(t[text[k + 1..end]], text, end) == (replacement, after)
    ensures Expand(t, limit, text, pos, origin, stack) ==
            text[pos..k] + Rescan(t, limit, replacement, origin, stack, text[k + 1..end]) +
            Expand(t, limit, text, after, origin, stack)
  {
    FindsUse(text, pos, k, end);
    var name := text[k + 1..end];
    assert Fixed(t, name, text[k..end], origin, stack).None?;
    var a, b := text[pos..k], Rescan(t, limit, replacement, origin, stack, name);
    var c := Expand(t, limit, text, after, origin, stack);
    assert ExpandUse(t, limit, text, k, origin, stack) == b + c;
    assert a + (b + c) == a + b + c;
  }

  lemma RescannedUse(t: Table, limit: nat, text: string, pos: nat, k: nat, end: nat, origin: LineOrigin,
                     stack: seq<string>, replacement: string, after: nat)
    requires NextUse(text, pos, k, end) && end <= |text| && Stacked(t, stack) && |stack| < limit
    requires Expands(t, stack, text[k + 1..end]) && ExpandOne(t[text[k + 1..end]], text, end) == (replacement, after)
    ensures Stacked(t, stack + [text[k + 1..end]])
    ensures Expand(t, limit, text, pos, origin, stack) ==
            text[pos..k] + Expand(t, limit, replacement, 0, origin, stack + [text[k + 1..end]]) +
            Expand(t, limit, text, after, origin, stack)
  {
    ExpandedUse(t, limit, text, pos, k, end, origin, stack, replacement, after);
    RescanIs(t, limit, replacement, origin, stack, text[k + 1..end]);
  }

  /** A use of a macro without parameters contributes its body, expanded in turn. */
  lemma ObjectUse(t: Table, limit: nat, text: string, pos: nat, k: nat, end: nat, origin: LineOrigin,
                  stack: seq<string>)
    requires NextUse(text, pos, k, end) && end <= |text| && Stacked(t, stack) && |stack| < limit
    requires var name := text[k + 1..end]; Expands(t, stack, name) && t[name].params.None?
    ensures Stacked(t, stack + [text[k + 1..end]])
    ensures var name := text[k + 1..end];
      Expand(t, limit, text, pos, origin, stack) ==
      text[pos..k] + Expand(t, limit, MacroOperators(t[name].body), 0, origin, stack + [name]) +
      Expand(t, limit, text, end, origin, stack)
  {
    var name := text[k + 1..end];
    RescannedUse(t, limit, text, pos, k, end, origin, stack, MacroOperators(t[name].body), end);
  }

  /** The arguments between the parentheses: none when all is blank, else the pieces between
      the top-level commas without the blanks around them. */
  ghost predicate Arguments(inner: string, args: seq<string>) {
    if Spaces(inner) then args == []
    else exists cuts: seq<nat> :: AreCuts(inner, 0, cuts) && ArgumentsAt(inner, cuts, args)
  }

  ghost predicate ArgumentsAt(inner: string, cuts: seq<nat>, args: seq<string>)
    requires AreCuts(inner, 0, cuts)
  {
    && (forall x :: 0 <= x < |cuts| ==> cuts[x] < |inner|) && |args| == |cuts| + 1
    && (forall i :: 0 <= i < |args| ==> TrimmedOf(Pieces(inner, 0, cuts)[i], args[i]))
  }

  ghost predicate TrimmedOf(piece: string, arg: string) {
    Trimmed(arg) && exists before, after :: piece == before + arg + after && Spaces(before) && Spaces(after)
  }

  /** Every parameter has its value, and nothing else has one. */
  ghost predicate Bound(params: seq<Param>, args: seq<string>, bindings: map<string, string>) {
    && (forall name :: name in bindings <==> HasParam(params, name))
    && (forall i: nat :: LastOfName(params, i) ==> BoundAt(params, args, bindings, i))
  }

  predicate BoundAt(params: seq<Param>, args: seq<string>, bindings: map<string, string>, i: nat)
    requires i < |params|
  {
    params[i].name in bindings && Value(params[i], args, i, bindings[params[i].name])
  }

  lemma ArgumentsOf(inner: string) returns (args: seq<string>)
    ensures args == if Strip(inner) == "" then [] else StripAll(SplitTopCommas(inner, 0, 0, 0, false))
    ensures Arguments(inner, args)
  {
    args := if Strip(inner) == "" then [] else StripAll(SplitTopCommas(inner, 0, 0, 0, false));
    BlankIff(inner);
    var cuts := SplitIsAtTopCommas(inner);
    var pieces := Pieces(inner, 0, cuts);
    if Strip(inner) != "" {
      forall i | 0 <= i < |args| ensures TrimmedOf(pieces[i], args[i]) {
        var before, after := StripIs(pieces[i]);
      }
      assert ArgumentsAt(inner, cuts, args);
    }
  }

  lemma BlankIff(s: string)
    ensures Strip(s) == "" <==> Spaces(s)
  {
    var before, after := StripIs(s);
    if Strip(s) != "" {
      assert Strip(s)[0] in s;
    }
  }

  lemma BoundBy(params: seq<Param>, args: seq<string>)
    ensures Bound(params, args, Bind(params, if |args| > |params| then args[..|params|] else args))
  {
    var used := if |args| > |params| then args[..|params|] else args;
    forall name ensures name in Bind(params, used) <==> HasParam(params, name) {
      BoundNames(params, used, name);
    }
    forall i: nat | LastOfName(params, i) ensures BoundAt(params, args, Bind(params, used), i) {
      BindIs(params, used, i);
      assert i < |used| ==> used[i] == args[i];
    }
  }

  /** The text of a call: the body with each parameter replaced by its argument. */
  ghost predicate CallText(macro: MacroDef, inner: string, replacement: string) {
    exists args, bindings ::
      && macro.params.Some? && Arguments(inner, args) && Bound(macro.params.value, args, bindings)
      && replacement == MacroOperators(Filled(macro.body, bindings))
  }

  /** The parenthesised arguments of a call after its name: blanks, then a group up to `close`. */
  predicate CallGroup(text: string, end: nat, open: nat, close: nat) {
    BlankRun(text, end, open) && open < |text| && text[open] == '(' && Closes(text, open + 1, close)
  }

  /** What the arguments between the parentheses make of the body. */
  function CallReplacement(macro: MacroDef, inner: string): string
    requires macro.params.Some?
  {
    var args := if Strip(inner) == "" then [] else StripAll(SplitTopCommas(inner, 0, 0, 0, false));
    var params := macro.params.value;
    MacroOperators(Filled(macro.body, Bind(params, if |args| > |params| then args[..|params|] else args)))
  }

  lemma CallReplacementIs(macro: MacroDef, inner: string)
    requires macro.params.Some?
    ensures CallText(macro, inner, CallReplacement(macro, inner))
  {
    var args := ArgumentsOf(inner);
    BoundBy(macro.params.value, args);
  }

  lemma ExpandOneIs(macro: MacroDef, text: string, end: nat, open: nat, close: nat)
    requires macro.params.Some? && CallGroup(text, end, open, close)
    ensures ExpandOne(macro, text, end) == (CallReplacement(macro, text[open + 1..close]), close + 1)
  {
    SkipBlanksIff(text, end, open);
    ScanParensIff(text, open + 1);
    CallValue(macro, text, end, open, close);
  }

  lemma CallValue(macro: MacroDef, text: string, end: nat, open: nat, close: nat)
    requires macro.params.Some? && end <= |text| && SkipBlanks(text, end) == open && open < |text| && text[open] == '('
    requires ScanParens(text, open + 1, 1, false) == Some(close + 1)
    ensures ExpandOne(macro, text, end) == (CallReplacement(macro, text[open + 1..close]), close + 1)
  {
  }

  /** A call contributes the text of its macro, expanded in turn, and is over after its parenthesis. */
  lemma CallUse(t: Table, limit: nat, text: string, pos: nat, k: nat, end: nat, open: nat, close: nat,
                origin: LineOrigin, stack: seq<string>)
    requires NextUse(text, pos, k, end) && end <= |text| && Stacked(t, stack) && |stack| < limit
    requires var name := text[k + 1..end]; Expands(t, stack, name) && t[name].params.Some?
    requires CallGroup(text, end, open, close)
    ensures Stacked(t, stack + [text[k + 1..end]])
    ensures var replacement := CallReplacement(t[text[k + 1..end]], text[open + 1..close]);
      Expand(t, limit, text, pos, origin, stack) ==
      text[pos..k] + Expand(t, limit, replacement, 0, origin, stack + [text[k + 1..end]]) +
      Expand(t, limit, text, close + 1, origin, stack)
  {
    var macro := t[text[k + 1..end]];
    ExpandOneIs(macro, text, end, open, close);
    RescannedUse(t, limit, text, pos, k, end, origin, stack, CallReplacement(macro, text[open + 1..close]), close + 1);
  }

  /** A macro with parameters whose arguments do not open, or do not close on the line: only its
      name stays, without the blanks after it. */
  lemma UnclosedUse(t: Table, limit: nat, text: string, pos: nat, k: nat, end: nat, open: nat,
                    origin: LineOrigin, stack: seq<string>)
    requires NextUse(text, pos, k, end) && end <= |text| && Stacked(t, stack)
    requires var name := text[k + 1..end]; Expands(t, stack, name) && t[name].params.Some? && t[name].name == name
    requires BlankRun(text, end, open) && forall close: nat :: !CallGroup(text, end, open, close)
    ensures Expand(t, limit, text, pos, origin, stack) == text[pos..end] + Expand(t, limit, text, open, origin, stack)
  {
    var name := text[k + 1..end];
    var replacement := "`" + name;
    OpenCallIs(t[name], text, end, open);
    ExpandedUse(t, limit, text, pos, k, end, origin, stack, replacement, open);
    RescanName(t, limit, name, origin, stack);
    UseText(text, pos, k, end);
  }

  lemma UseText(text: string, pos: nat, k: nat, end: nat)
    requires pos <= k < end <= |text| && text[k] == '`'
    ensures text[pos..k] + ("`" + text[k + 1..end]) == text[pos..end]
  {
  }

  lemma OpenCallIs(macro: MacroDef, text: string, end: nat, open: nat)
    requires macro.params.Some? && BlankRun(text, end, open) && forall close: nat :: !CallGroup(text, end, open, close)
    ensures ExpandOne(macro, text, end) == ("`" + macro.name, open)
  {
    SkipBlanksIff(text, end, open);
    if open < |text| && text[open] == '(' {
      ScanParensIff(text, open + 1);
      var from := open + 1;
      forall close: nat ensures !Closes(text, from, close) {
        assert !CallGroup(text, end, open, close);
      }
    }
  }

  /** The name alone is not expanded again. */
  lemma RescanName(t: Table, limit: nat, name: string, origin: LineOrigin, stack: seq<string>)
    requires Stacked(t, stack) && Expands(t, stack, name) && name != "" && AllWord(name)
    ensures Rescan(t, limit, "`" + name, origin, stack, name) == "`" + name
  {
    var text := "`" + name;
    RescanIs(t, limit, text, origin, stack, name);
    if |stack| < limit {
      assert NextUse(text, 0, 0, |text|);
      assert text[1..|text|] == name && text[0..|text|] == text;
      KeptUse(t, limit, text, 0, 0, |text|, origin, stack + [name]);
      NoUse(t, limit, text, |text|, origin, stack + [name]);
    }
  }

  // -- worked example -----------------------------------------------------------------------------------

  /** A macro ADD of one parameter `a` over the body `a+1`, used as ADD(x) in a text that goes on. */
  lemma AddExample(limit: nat, rest: string, origin: LineOrigin)
    requires limit > 0 && '`' !in rest
    ensures var t := map["ADD" := MacroDef("ADD", Some([Param("a", None)]), "a+1", "d.svh", 1)];
      Expand(t, limit, "y = `ADD( x )" + rest, 0, origin, []) == "y = x+1" + rest
  {
    var macro := MacroDef("ADD", Some([Param("a", None)]), "a+1", "d.svh", 1);
    var t := map["ADD" := macro];
    var text := "y = `ADD( x )" + rest;
    AddPrefix(text);
    AddGroup(text);
    assert text[13..] == rest;
    AddUse(t, limit, text, rest, origin);
  }

  /** The first use in the text is a call of `name` at `k` with these arguments. */
  predicate CallsFirst(text: string, k: nat, end: nat, open: nat, close: nat, name: string, inner: string) {
    && NextUse(text, 0, k, end) && end <= |text| && text[k + 1..end] == name
    && CallGroup(text, end, open, close) && text[open + 1..close] == inner
  }

  lemma FirstCall(t: Table, limit: nat, text: string, k: nat, end: nat, open: nat, close: nat, name: string,
                  inner: string, origin: LineOrigin)
    requires limit > 0 && CallsFirst(text, k, end, open, close, name, inner)
    requires Expands(t, [], name) && t[name].params.Some?
    ensures Stacked(t, [name])
    ensures Expand(t, limit, text, 0, origin, []) ==
            text[0..k] + Expand(t, limit, CallReplacement(t[name], inner), 0, origin, [name]) +
            Expand(t, limit, text, close + 1, origin, [])
  {
    assert [] + [name] == [name];
    CallUse(t, limit, text, 0, k, end, open, close, origin, []);
  }

  lemma AddReplacement(macro: MacroDef)
    requires macro.params == Some([Param("a", None)]) && macro.body == "a+1"
    ensures CallReplacement(macro, " x ") == "x+1"
  {
    CallReplacementIs(macro, " x ");
    AddTextIs(macro, CallReplacement(macro, " x "));
  }

  lemma AddUse(t: Table, limit: nat, text: string, rest: string, origin: LineOrigin)
    requires limit > 0 && '`' !in rest && CallsFirst(text, 4, 8, 8, 12, "ADD", " x ")
    requires text[0..4] == "y = " && text[13..] == rest
    requires "ADD" in t && t["ADD"].params == Some([Param("a", None)]) && t["ADD"].body == "a+1"
    ensures Expand(t, limit, text, 0, origin, []) == "y = x+1" + rest
  {
    assert Expands(t, [], "ADD");
    FirstCall(t, limit, text, 4, 8, 8, 12, "ADD", " x ", origin);
    AddReplacement(t["ADD"]);
    NoUse(t, limit, "x+1", 0, origin, ["ADD"]);
    NoUseBehind(t, limit, text, 13, rest, origin);
    AddConcat(rest);
  }

  lemma AddConcat(rest: string)
    ensures "y = " + "x+1" + rest == "y = x+1" + rest
  {
    assert "y = " + "x+1" == "y = x+1";
  }

  lemma NoUseBehind(t: Table, limit: nat, text: string, pos: nat, rest: string, origin: LineOrigin)
    requires pos <= |text| && text[pos..] == rest && '`' !in rest
    ensures Expand(t, limit, text, pos, origin, []) == rest
  {
    forall j: nat | pos <= j < |text| ensures !UseAt(text, j) {
      assert text[j] == rest[j - pos] && rest[j - pos] in rest;
    }
    NoUse(t, limit, text, pos, origin, []);
  }

  lemma AddPrefix(text: string)
    requires "y = `ADD( x )" <= text
    ensures NextUse(text, 0, 4, 8) && text[5..8] == "ADD" && text[9..12] == " x " && text[0..4] == "y = "
  {
    assert text[0] == 'y' && text[1] == ' ' && text[2] == '=' && text[3] == ' ' && text[4] == '`' && text[5] == 'A';
    assert text[6] == 'D' && text[7] == 'D' && text[8] == '(' && text[9] == ' ' && text[10] == 'x' && text[11] == ' ';
  }

  lemma AddGroup(text: string)
    requires "y = `ADD( x )" <= text
    ensures CallGroup(text, 8, 8, 12)
  {
    assert text[8] == '(' && text[9] == ' ' && text[10] == 'x' && text[11] == ' ' && text[12] == ')';
    assert !Quoted(text, 9, 9) && !Quoted(text, 9, 10) && !Quoted(text, 9, 11) && !Quoted(text, 9, 12);
    assert Balance(text, 9, 9, "(", ")") == 0;
    assert Balance(text, 9, 10, "(", ")") == 0;
    assert Balance(text, 9, 11, "(", ")") == 0;
    assert Balance(text, 9, 12, "(", ")") == 0;
    assert Balance(text, 9, 13, "(", ")") == -1;
  }

  lemma AddTextIs(macro: MacroDef, replacement: string)
    requires macro.params == Some([Param("a", None)]) && macro.body == "a+1" && CallText(macro, " x ", replacement)
    ensures replacement == "x+1"
  {
    var args, bindings :| Arguments(" x ", args) && Bound(macro.params.value, args, bindings) &&
      replacement == MacroOperators(Filled(macro.body, bindings));
    AddBound(args, bindings);
    NoOperators("x+1");
  }

  lemma AddBound(args: seq<string>, bindings: map<string, string>)
    requires Arguments(" x ", args) && Bound([Param("a", None)], args, bindings)
    ensures Filled("a+1", bindings) == "x+1"
  {
    assert " " + "x" + " " == " x ";
    OneArgument(" x ", args, " ", "x", " ");
    OneBinding(Param("a", None), "x", bindings);
    AddFilled(bindings);
  }

  lemma OneBinding(p: Param, arg: string, bindings: map<string, string>)
    requires Bound([p], [arg], bindings) && arg != ""
    ensures bindings == map[p.name := arg]
  {
    assert LastOfName([p], 0);
    assert BoundAt([p], [arg], bindings, 0);
    forall name ensures name in bindings <==> name == p.name {
      assert HasParam([p], name) <==> [p][0].name == name;
    }
  }

  lemma AddFilled(bindings: map<string, string>)
    requires bindings == map["a" := "x"]
    ensures Filled("a+1", bindings) == "x+1"
  {
    var body := "a+1";
    assert body[0..1] == "a" && body[2..3] == "1";
    assert WordEnd(body, 1) == 1 && WordEnd(body, 3) == 3;
    assert Substitute(body, 3, bindings) == "";
    assert Substitute(body, 2, bindings) == "1";
    assert Substitute(body, 1, bindings) == "+1";
  }

  /** Without commas there is one argument, the text without the blanks around it. */
  lemma OneArgument(inner: string, args: seq<string>, before: string, arg: string, after: string)
    requires Arguments(inner, args) && inner == before + arg + after && Spaces(before) && Spaces(after)
    requires Trimmed(arg) && arg != "" && ',' !in inner
    ensures args == [arg]
  {
    assert inner[|before|] == arg[0] && arg[0] in inner;
    var cuts: seq<nat> :| AreCuts(inner, 0, cuts) && ArgumentsAt(inner, cuts, args);
    if cuts != [] { CutNeedsComma(inner, cuts); }
    NoCuts(inner, 0);
    assert inner[0..] == inner && TrimmedOf(inner, args[0]);
    TrimmedIs(before, arg, after, args[0]);
  }

  lemma TrimmedIs(before: string, arg: string, after: string, trimmed: string)
    requires Spaces(before) && Spaces(after) && Trimmed(arg) && TrimmedOf(before + arg + after, trimmed)
    ensures trimmed == arg
  {
    var b, a :| before + arg + after == b + trimmed + a && Spaces(b) && Spaces(a);
    TrimmedOnce(before, arg, after, b, trimmed, a);
  }
}
