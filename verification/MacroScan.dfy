/** What the text scanners of macro expansion find, in terms of positions in the text:
    words, parentheses, commas, parameters and operators (`_scan_parens`,
    `_split_top_commas` and the one-pass substitution of `_expand_one` in
    src/hdl_kgraph/parser/preprocessor.py). */
module MacroScan {
  import opened Collections
  import opened Schema
  import opened MacroExpansion

  // -- words and uses --------------------------------------------------------------------------

  /** Words are made of the ASCII capital and small letters, the digits and the underscore, by their codes. */
  lemma WordChars(c: char)
    ensures var code := c as int;
      IsWord(c) <==> 65 <= code <= 90 || 97 <= code <= 122 || 48 <= code <= 57 || code == 95
  {
  }

  /** A backtick touching a word. */
  predicate UseAt(text: string, k: nat) {
    k + 1 < |text| && text[k] == '`' && IsWord(text[k + 1])
  }

  /** `text[from..to]` is a run of word characters that does not go on at `to`. */
  predicate WordRun(text: string, from: nat, to: nat) {
    from <= to <= |text| && (forall j :: from <= j < to ==> IsWord(text[j])) && (to < |text| ==> !IsWord(text[to]))
  }

  predicate BlankRun(text: string, from: nat, to: nat) {
    && from <= to <= |text| && (forall j :: from <= j < to ==> text[j] == ' ' || text[j] == '\t')
    && (to < |text| ==> text[to] != ' ' && text[to] != '\t')
  }

  lemma {:induction false} FirstUse(text: string, pos: nat)
    requires pos <= |text|
    ensures var k := FindUse(text, pos);
      (k < |text| ==> UseAt(text, k)) && forall j :: pos <= j < k ==> !UseAt(text, j)
    decreases |text| - pos
  {
    if pos < |text| && !UseAt(text, pos) { FirstUse(text, pos + 1); }
  }

  lemma {:induction false} WordEndIff(text: string, pos: nat, end: nat)
    requires pos <= |text|
    ensures WordEnd(text, pos) == end <==> WordRun(text, pos, end)
    decreases |text| - pos
  {
    if pos < |text| && IsWord(text[pos]) { WordEndIff(text, pos + 1, end); }
  }

  lemma {:induction false} SkipBlanksIff(text: string, pos: nat, end: nat)
    requires pos <= |text|
    ensures SkipBlanks(text, pos) == end <==> BlankRun(text, pos, end)
    decreases |text| - pos
  {
    if pos < |text| && (text[pos] == ' ' || text[pos] == '\t') { SkipBlanksIff(text, pos + 1, end); }
  }

  // -- brackets and strings --------------------------------------------------------------------

  /** Whether `text[i]` lies in a string that opens in `text[from..i]`: a quote opens one, and
      the next quote not after a backslash closes it. */
  predicate Quoted(text: string, from: nat, i: nat)
    requires from <= i <= |text|
  {
    from < i && if Quoted(text, from, i - 1) then !(text[i - 1] == '"' && i >= 2 && text[i - 2] != '\\')
                else text[i - 1] == '"'
  }

  /** How many more brackets of `open` than of `close` lie outside strings in `text[from..i]`. */
  function Balance(text: string, from: nat, i: nat, open: string, close: string): int
    requires from <= i <= |text|
  {
    if from == i then 0
    else
      Balance(text, from, i - 1, open, close) +
      if Quoted(text, from, i - 1) then 0 else if text[i - 1] in open then 1 else if text[i - 1] in close then -1 else 0
  }

  /** The parenthesis at `close` ends the group whose text starts at `from`: the first one outside
      strings that leaves more of them closed than opened. */
  predicate Closes(text: string, from: nat, close: nat) {
    && from <= close < |text| && Balance(text, from, close + 1, "(", ")") == -1
    && forall j :: from <= j <= close ==> Balance(text, from, j, "(", ")") >= 0
  }

  lemma {:induction false} ScanIff(text: string, from: nat, index: nat, close: nat)
    requires 0 < from <= index <= |text| && Balance(text, from, index, "(", ")") >= 0
    requires forall j :: from <= j <= index ==> Balance(text, from, j, "(", ")") >= 0
    ensures var depth := Balance(text, from, index, "(", ")") + 1;
      ScanParens(text, index, depth, Quoted(text, from, index)) == Some(close + 1) <==>
      Closes(text, from, close) && close >= index
    decreases |text| - index
  {
    if index < |text| {
      var balance := Balance(text, from, index, "(", ")");
      var next := Balance(text, from, index + 1, "(", ")");
      assert next == balance + if Quoted(text, from, index) then 0 else if text[index] == '(' then 1
                               else if text[index] == ')' then -1 else 0;
      if next >= 0 {
        ScanIff(text, from, index + 1, close);
        assert close == index ==> !Closes(text, from, close);
      } else {
        assert Closes(text, from, index);
        if close > index { assert Balance(text, from, index + 1, "(", ")") < 0; }
      }
    }
  }

  /** The scan stops just past the closing parenthesis, and nowhere when the group stays open. */
  lemma ScanParensIff(text: string, from: nat)
    requires 0 < from <= |text|
    ensures forall close: nat :: ScanParens(text, from, 1, false) == Some(close + 1) <==> Closes(text, from, close)
    ensures ScanParens(text, from, 1, false).None? <==> forall close: nat :: !Closes(text, from, close)
  {
    forall close: nat ensures ScanParens(text, from, 1, false) == Some(close + 1) <==> Closes(text, from, close) {
      ScanIff(text, from, from, close);
    }
    var end := ScanParens(text, from, 1, false);
    if end.Some? {
      var close: nat := end.value - 1;
      assert end == Some(close + 1);
      assert Closes(text, from, close);
    }
  }

  /** A comma of an argument list: outside strings and all brackets. */
  predicate TopComma(text: string, i: nat) {
    i < |text| && text[i] == ',' && !Quoted(text, 0, i) && Balance(text, 0, i, "([{", ")]}") == 0
  }

  /** `cuts` are the top-level commas from `index` on, in order. */
  ghost predicate AreCuts(text: string, index: nat, cuts: seq<nat>) {
    && (forall x, y :: 0 <= x < y < |cuts| ==> cuts[x] < cuts[y])
    && (forall i: nat :: i in cuts <==> index <= i && TopComma(text, i))
  }

  /** The pieces of `text[start..]` between the cuts. */
  function Pieces(text: string, start: nat, cuts: seq<nat>): seq<string>
    requires start <= |text| && forall x :: 0 <= x < |cuts| ==> start <= cuts[x] < |text|
    requires forall x, y :: 0 <= x < y < |cuts| ==> cuts[x] < cuts[y]
  {
    seq(|cuts| + 1, k requires 0 <= k <= |cuts| =>
      text[if k == 0 then start else cuts[k - 1] + 1..if k == |cuts| then |text| else cuts[k]])
  }

  lemma NoCuts(text: string, start: nat)
    requires start <= |text|
    ensures Pieces(text, start, []) == [text[start..]]
  {
    var pieces := Pieces(text, start, []);
    assert |pieces| == 1 && pieces[0] == text[start..];
  }

  lemma {:induction false} PiecesStep(text: string, start: nat, cut: nat, cuts: seq<nat>)
    requires start <= cut < |text| && forall x :: 0 <= x < |cuts| ==> cut < cuts[x] < |text|
    requires forall x, y :: 0 <= x < y < |cuts| ==> cuts[x] < cuts[y]
    ensures Pieces(text, start, [cut] + cuts) == [text[start..cut]] + Pieces(text, cut + 1, cuts)
  {
  }

  lemma {:induction false} SplitAtCuts(text: string, start: nat, index: nat, cuts: seq<nat>)
    requires start <= index <= |text| && AreCuts(text, index, cuts)
    ensures forall x :: 0 <= x < |cuts| ==> start <= cuts[x] < |text|
    ensures SplitTopCommas(text, start, index, Balance(text, 0, index, "([{", ")]}"), Quoted(text, 0, index)) ==
            Pieces(text, start, cuts)
    decreases |text| - index
  {
    forall x | 0 <= x < |cuts| ensures index <= cuts[x] < |text| {
      assert cuts[x] in cuts;
    }
    if index == |text| {
      assert cuts == [];
      NoCuts(text, start);
    } else {
      assert Quoted(text, 0, index + 1) == if Quoted(text, 0, index) then
        !(text[index] == '"' && index > 0 && text[index - 1] != '\\') else text[index] == '"';
      assert Balance(text, 0, index + 1, "([{", ")]}") == Balance(text, 0, index, "([{", ")]}") +
        if Quoted(text, 0, index) then 0
        else if text[index] in "([{" then 1 else if text[index] in ")]}" then -1 else 0;
      if TopComma(text, index) {
        CutFirst(text, index, cuts);
        SplitAtCuts(text, index + 1, index + 1, cuts[1..]);
        PiecesStep(text, start, index, cuts[1..]);
        assert cuts == [index] + cuts[1..];
      } else {
        SplitAtCuts(text, start, index + 1, cuts);
      }
    }
  }

  lemma CutFirst(text: string, index: nat, cuts: seq<nat>)
    requires AreCuts(text, index, cuts) && TopComma(text, index)
    ensures cuts != [] && cuts[0] == index && AreCuts(text, index + 1, cuts[1..])
  {
    assert index in cuts;
    assert cuts[0] in cuts;
    forall i: nat ensures i in cuts[1..] <==> index + 1 <= i && TopComma(text, i) {
      assert i in cuts <==> i == cuts[0] || i in cuts[1..];
    }
  }

  lemma {:induction false} CutsExist(text: string, index: nat) returns (cuts: seq<nat>)
    requires index <= |text|
    ensures AreCuts(text, index, cuts)
    decreases |text| - index
  {
    if index == |text| {
      cuts := [];
    } else {
      cuts := CutsExist(text, index + 1);
      if TopComma(text, index) {
        forall x | 0 <= x < |cuts| ensures index < cuts[x] { assert cuts[x] in cuts; }
        cuts := [index] + cuts;
      }
    }
  }

  /** Arguments are cut at exactly the top-level commas, and nothing else is lost. */
  lemma SplitIsAtTopCommas(text: string) returns (cuts: seq<nat>)
    ensures AreCuts(text, 0, cuts) && forall x :: 0 <= x < |cuts| ==> cuts[x] < |text|
    ensures SplitTopCommas(text, 0, 0, 0, false) == Pieces(text, 0, cuts)
  {
    cuts := CutsExist(text, 0);
    SplitAtCuts(text, 0, 0, cuts);
  }

  /** Only a text with a comma is cut. */
  lemma CutNeedsComma(text: string, cuts: seq<nat>)
    requires cuts != [] && AreCuts(text, 0, cuts)
    ensures ',' in text
  {
    assert cuts[0] in cuts && TopComma(text, cuts[0]);
  }

  // -- blanks around an argument ------------------------------------------------------------------

  predicate Blank(c: char) {
    c == ' ' || 9 <= c as int <= 13
  }

  predicate Spaces(s: string) {
    forall c :: c in s ==> Blank(c)
  }

  predicate Trimmed(s: string) {
    s == "" || (!Blank(s[0]) && !Blank(s[|s| - 1]))
  }

  /** Stripping takes the blanks off both ends and nothing else. */
  lemma {:induction false} StripIs(s: string) returns (before: string, after: string)
    ensures s == before + Strip(s) + after && Spaces(before) && Spaces(after) && Trimmed(Strip(s))
    decreases |s|
  {
    before, after := "", "";
    if s != "" {
      if IsSpace(s[0]) {
        before, after := StripIs(s[1..]);
        before := [s[0]] + before;
      } else if IsSpace(s[|s| - 1]) {
        before, after := StripIs(s[..|s| - 1]);
        after := after + [s[|s| - 1]];
      }
    }
  }

  /** There is one way to take the blanks off. */
  lemma TrimmedOnce(a: string, s: string, b: string, c: string, t: string, d: string)
    requires a + s + b == c + t + d && Trimmed(s) && Trimmed(t)
    requires Spaces(a) && Spaces(b) && Spaces(c) && Spaces(d)
    ensures s == t
  {
    var whole := a + s + b;
    if s != "" { HasInk(a, s, b); } else { assert Spaces(whole); }
    if t != "" { HasInk(c, t, d); } else { assert Spaces(c + t + d); }
    if s != "" {
      assert a + (s + b) == whole && c + (t + d) == whole;
      SameStart(a, s + b, c, t + d);
      SameEnd(a + s, b, c + t, d);
      assert s == whole[|a|..|whole| - |b|] == t;
    }
  }

  lemma HasInk(c: string, t: string, d: string)
    requires Trimmed(t) && t != ""
    ensures !Spaces(c + t + d)
  {
    assert (c + t + d)[|c|] == t[0];
  }

  lemma SameStart(a: string, s: string, c: string, t: string)
    requires a + s == c + t && s != "" && t != "" && !Blank(s[0]) && !Blank(t[0]) && Spaces(a) && Spaces(c)
    ensures |a| == |c|
  {
    var whole := a + s;
    assert whole[|a|] == s[0] && whole[|c|] == t[0];
    assert forall i :: 0 <= i < |a| ==> a[i] in a && whole[i] == a[i];
    assert forall i :: 0 <= i < |c| ==> c[i] in c && whole[i] == c[i];
  }

  lemma SameEnd(s: string, b: string, t: string, d: string)
    requires s + b == t + d && s != "" && t != "" && !Blank(s[|s| - 1]) && !Blank(t[|t| - 1]) && Spaces(b) && Spaces(d)
    ensures |b| == |d|
  {
    var whole := s + b;
    assert whole[|s| - 1] == s[|s| - 1] && whole[|t| - 1] == t[|t| - 1];
    assert forall i :: 0 <= i < |b| ==> b[i] in b && whole[|s| + i] == b[i];
    assert forall i :: |s| <= i < |whole| ==> whole[i] == b[i - |s|];
    assert forall i :: |t| <= i < |whole| ==> whole[i] == d[i - |t|] && d[i - |t|] in d;
    assert forall i :: |s| <= i < |whole| ==> Blank(whole[i]);
  }

  // -- parameters ---------------------------------------------------------------------------------

  /** The value of a parameter: its argument unless missing or empty, else its default, else nothing. */
  predicate Value(p: Param, args: seq<string>, i: nat, value: string) {
    if i < |args| && args[i] != "" then value == args[i]
    else match p.default
      case Some(d) => value == d
      case None => value == ""
  }

  predicate HasParam(params: seq<Param>, name: string) {
    exists i :: 0 <= i < |params| && params[i].name == name
  }

  /** No later parameter has the name of the i-th. */
  predicate LastOfName(params: seq<Param>, i: nat) {
    i < |params| && forall j :: i < j < |params| ==> params[j].name != params[i].name
  }

  /** The i-th parameter is bound to the i-th argument or its stand-in; of two parameters
      of one name the later one counts. */
  lemma {:induction false} BindIs(params: seq<Param>, args: seq<string>, i: nat)
    requires LastOfName(params, i)
    ensures params[i].name in Bind(params, args) && Value(params[i], args, i, Bind(params, args)[params[i].name])
  {
    var last := |params| - 1;
    if i < last {
      BindIs(params[..last], if |args| > last then args[..last] else args, i);
    }
  }

  /** Only parameters are bound. */
  lemma {:induction false} BoundNames(params: seq<Param>, args: seq<string>, name: string)
    ensures name in Bind(params, args) <==> HasParam(params, name)
  {
    if params != [] {
      var last := |params| - 1;
      BoundNames(params[..last], if |args| > last then args[..last] else args, name);
      if i :| 0 <= i < |params| && params[i].name == name {
        assert i < last ==> params[..last][i].name == name;
      }
      if i :| 0 <= i < last && params[..last][i].name == name {
        assert params[i].name == name;
      }
    }
  }

  // -- substitution ---------------------------------------------------------------------------------

  /** The body with its parameters replaced. */
  function Filled(body: string, bindings: map<string, string>): string {
    Substitute(body, 0, bindings)
  }

  /** No word goes on across the position `k`. */
  predicate Boundary(body: string, k: nat) {
    k <= |body| && (k == 0 || k == |body| || !IsWord(body[k - 1]) || !IsWord(body[k]))
  }

  predicate AllWord(s: string) {
    forall c :: c in s ==> IsWord(c)
  }

  lemma {:induction false} FilledFrom(body: string, pos: nat, bindings: map<string, string>)
    requires pos <= |body|
    ensures Substitute(body, pos, bindings) == Filled(body[pos..], bindings)
  {
    Shifted(body, body[pos..], pos, 0, bindings);
  }

  /** Where two texts agree to their ends, so do their replacements. */
  lemma {:induction false} Shifted(a: string, b: string, i: nat, j: nat, bindings: map<string, string>)
    requires i <= |a| && j <= |b| && a[i..] == b[j..]
    ensures Substitute(a, i, bindings) == Substitute(b, j, bindings)
    decreases |a| - i
  {
    assert |a| - i == |a[i..]| == |b| - j;
    if i < |a| {
      assert a[i] == a[i..][0] == b[j];
      assert a[i + 1..] == a[i..][1..] == b[j + 1..];
      if IsWord(a[i]) {
        var end := WordEnd(a, i + 1);
        WordEndIff(a, i + 1, end);
        forall k | i <= k < |a| ensures a[k] == b[j + k - i] { assert a[k] == a[i..][k - i]; }
        WordEndIff(b, j + 1, j + end - i);
        assert a[i..end] == b[j..j + end - i];
        assert a[end..] == a[i..][end - i..] == b[j + end - i..];
        Shifted(a, b, end, j + end - i, bindings);
      } else {
        Shifted(a, b, i + 1, j + 1, bindings);
      }
    }
  }

  /** A word before a boundary is the same without the text after it. */
  lemma WordBefore(body: string, pos: nat, k: nat)
    requires pos < k && Boundary(body, k) && IsWord(body[pos])
    ensures WordEnd(body, pos + 1) <= k && WordEnd(body[..k], pos + 1) == WordEnd(body, pos + 1)
    ensures body[..k][pos..WordEnd(body, pos + 1)] == body[pos..WordEnd(body, pos + 1)]
  {
    var end := WordEnd(body, pos + 1);
    WordEndIff(body, pos + 1, end);
    assert end <= k;
    WordEndIff(body[..k], pos + 1, end);
  }

  lemma {:induction false} CutAtBoundary(body: string, pos: nat, k: nat, bindings: map<string, string>)
    requires pos <= k && Boundary(body, k)
    ensures Substitute(body, pos, bindings) ==
            Substitute(body[..k], pos, bindings) + Substitute(body, k, bindings)
    decreases |body| - pos
  {
    if pos < k {
      if IsWord(body[pos]) {
        var end := WordEnd(body, pos + 1);
        WordBefore(body, pos, k);
        CutAtBoundary(body, end, k, bindings);
      } else {
        CutAtBoundary(body, pos + 1, k, bindings);
      }
    }
  }

  /** What comes before and after a word boundary is replaced independently. */
  lemma FilledConcat(a: string, b: string, bindings: map<string, string>)
    requires a == "" || b == "" || !IsWord(a[|a| - 1]) || !IsWord(b[0])
    ensures Filled(a + b, bindings) == Filled(a, bindings) + Filled(b, bindings)
  {
    CutAtBoundary(a + b, 0, |a|, bindings);
    assert (a + b)[..|a|] == a && (a + b)[|a|..] == b;
    FilledFrom(a + b, |a|, bindings);
  }

  lemma FilledOne(p: string, bindings: map<string, string>)
    requires p != "" && AllWord(p)
    ensures Filled(p, bindings) == if p in bindings then bindings[p] else p
  {
    WordEndIff(p, 1, |p|);
    assert p[0..|p|] == p;
    assert Substitute(p, |p|, bindings) == "";
  }

  /** A whole word gives way to its bound text, which is not looked at again; an unbound one stays. */
  lemma {:induction false} FilledWord(pre: string, p: string, post: string, bindings: map<string, string>)
    requires p != "" && AllWord(p)
    requires pre == "" || !IsWord(pre[|pre| - 1])
    requires post == "" || !IsWord(post[0])
    ensures p in bindings ==>
      Filled(pre + p + post, bindings) == Filled(pre, bindings) + bindings[p] + Filled(post, bindings)
    ensures p !in bindings ==>
      Filled(pre + p + post, bindings) == Filled(pre, bindings) + p + Filled(post, bindings)
  {
    FilledOne(p, bindings);
    FilledConcat(pre, p, bindings);
    FilledConcat(pre + p, post, bindings);
  }

  /** A character outside words stays. */
  lemma {:induction false} FilledOther(pre: string, c: char, post: string, bindings: map<string, string>)
    requires !IsWord(c)
    ensures Filled(pre + [c] + post, bindings) == Filled(pre, bindings) + [c] + Filled(post, bindings)
  {
    assert Substitute([c], 1, bindings) == "";
    FilledConcat(pre, [c], bindings);
    FilledConcat(pre + [c], post, bindings);
  }

  lemma FilledNothing(bindings: map<string, string>)
    ensures Filled("", bindings) == ""
  {
  }

  /** A macro without parameters keeps its body. */
  lemma {:induction false} NothingBound(body: string, pos: nat)
    requires pos <= |body|
    ensures Substitute(body, pos, map[]) == body[pos..]
    decreases |body| - pos
  {
    if pos < |body| {
      NothingBound(body, if IsWord(body[pos]) then WordEnd(body, pos + 1) else pos + 1);
    }
  }

  // -- operators ------------------------------------------------------------------------------------

  lemma ReplaceStep(c: char, s: string, part: string, text: string)
    requires part != "" && !(part <= [c] + s)
    ensures Replace([c] + s, part, text) == [c] + Replace(s, part, text)
  {
    assert ([c] + s)[1..] == s;
  }

  /** An occurrence gives way, and the rest after it is treated alike. */
  lemma ReplaceHere(s: string, part: string, text: string)
    requires part != ""
    ensures Replace(part + s, part, text) == text + Replace(s, part, text)
    ensures Replace("", part, text) == ""
  {
    assert (part + s)[|part|..] == s;
  }

  /** Before the first backtick all three operators keep the text. */
  lemma {:induction false} KeptPart(a: string, s: string, part: string, text: string)
    requires '`' !in a && part != "" && part[0] == '`'
    ensures Replace(a + s, part, text) == a + Replace(s, part, text)
  {
    if a == "" {
      assert a + s == s;
    } else {
      assert a + s == [a[0]] + (a[1..] + s);
      ReplaceStep(a[0], a[1..] + s, part, text);
      KeptPart(a[1..], s, part, text);
    }
  }

  /** A backtick and a character at which no operator `part` starts. */
  lemma KeptPair(c: char, s: string, part: string, text: string)
    requires |part| >= 2 && part[0] == '`' && part[1] != c && (c == '`' ==> s == "" || part[1] != s[0])
    ensures Replace(['`', c] + s, part, text) == ['`', c] + Replace(s, part, text)
  {
    assert ['`', c] + s == ['`'] + ([c] + s);
    assert (['`'] + ([c] + s))[1] == c;
    ReplaceStep('`', [c] + s, part, text);
    if c == '`' && s != "" { assert ([c] + s)[1] == s[0]; }
    ReplaceStep(c, s, part, text);
  }

  lemma PlainPrefix(a: string, s: string)
    requires '`' !in a
    ensures MacroOperators(a + s) == a + MacroOperators(s)
  {
    KeptPart(a, s, "`\\`\"", "\\\"");
    var one := Replace(s, "`\\`\"", "\\\"");
    KeptPart(a, one, "`\"", "\"");
    KeptPart(a, Replace(one, "`\"", "\""), "``", "");
  }

  /** Only backticks make operators. */
  lemma NoOperators(body: string)
    requires '`' !in body
    ensures MacroOperators(body) == body
  {
    PlainPrefix(body, "");
    assert body + "" == body;
  }

  /** A backtick, a backslash, a backtick and a quote become an escaped quote. */
  lemma EscapedQuote(a: string, b: string)
    requires '`' !in a
    ensures MacroOperators(a + "`\\`\"" + b) == a + "\\\"" + MacroOperators(b)
  {
    assert a + "`\\`\"" + b == a + ("`\\`\"" + b);
    PlainPrefix(a, "`\\`\"" + b);
    ReplaceHere(b, "`\\`\"", "\\\"");
    var one := Replace(b, "`\\`\"", "\\\"");
    KeptPart("\\\"", one, "`\"", "\"");
    KeptPart("\\\"", Replace(one, "`\"", "\""), "``", "");
  }

  /** A backtick and a quote become a quote. */
  lemma Stringified(a: string, b: string)
    requires '`' !in a
    ensures MacroOperators(a + "`\"" + b) == a + "\"" + MacroOperators(b)
  {
    assert a + "`\"" + b == a + ("`\"" + b);
    PlainPrefix(a, "`\"" + b);
    KeptPair('"', b, "`\\`\"", "\\\"");
    var one := Replace(b, "`\\`\"", "\\\"");
    ReplaceHere(one, "`\"", "\"");
    KeptPart("\"", Replace(one, "`\"", "\""), "``", "");
  }

  /** What the operators make of `x` in front of `b`, they make of it behind text without backticks. */
  lemma Behind(a: string, x: string, y: string, b: string)
    requires '`' !in a && MacroOperators(x + b) == y + MacroOperators(b)
    ensures MacroOperators(a + x + b) == a + y + MacroOperators(b)
  {
    assert a + x + b == a + (x + b);
    PlainPrefix(a, x + b);
  }

  lemma PairPasted(b: string)
    requires b == "" || (b[0] != '"' && b[0] != '\\' && b[0] != '`')
    ensures MacroOperators("``" + b) == MacroOperators(b)
  {
    KeptPair('`', b, "`\\`\"", "\\\"");
    var one := Replace(b, "`\\`\"", "\\\"");
    assert one == "" || one[0] == b[0];
    KeptPair('`', one, "`\"", "\"");
    ReplaceHere(Replace(one, "`\"", "\""), "``", "");
  }

  /** A double backtick vanishes, unless its second half makes an operator with what follows. */
  lemma Pasted(a: string, b: string)
    requires '`' !in a && (b == "" || (b[0] != '"' && b[0] != '\\' && b[0] != '`'))
    ensures MacroOperators(a + "``" + b) == a + MacroOperators(b)
  {
    PairPasted(b);
    assert a + "" == a;
    Behind(a, "``", "", b);
  }

  /** Whether an operator starts at the first of two backticks before a quote. */
  lemma FirstOfTwo(s: string, part: string, text: string)
    requires |part| >= 2 && part[1] != '`'
    ensures Replace(['`', '`', '"'] + s, part, text) == ['`'] + Replace(['`', '"'] + s, part, text)
  {
    assert ['`', '`', '"'] + s == ['`'] + (['`', '"'] + s);
    assert (['`'] + (['`', '"'] + s))[1] == '`';
    ReplaceStep('`', ['`', '"'] + s, part, text);
  }

  lemma QuotePasted(b: string)
    ensures MacroOperators(['`', '`', '"'] + b) == ['`', '"'] + MacroOperators(b)
  {
    FirstOfTwo(b, "`\\`\"", "\\\"");
    KeptPair('"', b, "`\\`\"", "\\\"");
    var one := Replace(b, "`\\`\"", "\\\"");
    assert ['`'] + (['`', '"'] + one) == ['`', '`', '"'] + one;
    FirstOfTwo(one, "`\"", "\"");
    assert ['`', '"'] == "`\"";
    ReplaceHere(one, "`\"", "\"");
    var two := Replace(one, "`\"", "\"");
    assert ['`'] + ("\"" + two) == ['`', '"'] + two;
    KeptPair('"', two, "``", "");
  }

  /** Before a quote the second half of a double backtick goes with the quote, so one backtick stays. */
  lemma PastedQuote(a: string, b: string)
    requires '`' !in a
    ensures MacroOperators(a + ['`', '`', '"'] + b) == a + ['`', '"'] + MacroOperators(b)
  {
    QuotePasted(b);
    Behind(a, ['`', '`', '"'], ['`', '"'], b);
  }

  lemma PairKept(c: char, b: string)
    requires c != '"' && c != '\\' && c != '`'
    ensures MacroOperators(['`', c] + b) == ['`', c] + MacroOperators(b)
  {
    KeptPair(c, b, "`\\`\"", "\\\"");
    var one := Replace(b, "`\\`\"", "\\\"");
    KeptPair(c, one, "`\"", "\"");
    KeptPair(c, Replace(one, "`\"", "\""), "``", "");
  }

  /** A backtick before any other character stays, so the macro uses of a body survive. */
  lemma LoneBacktick(a: string, c: char, b: string)
    requires '`' !in a && c != '"' && c != '\\' && c != '`'
    ensures MacroOperators(a + ['`', c] + b) == a + ['`', c] + MacroOperators(b)
  {
    PairKept(c, b);
    Behind(a, ['`', c], ['`', c], b);
  }

  // -- line numbers -----------------------------------------------------------------------------------

  function DigitValue(c: char): (d: int) {
    c as int - '0' as int
  }

  /** The number that decimal digits write. */
  function Written(s: string): int {
    if s == "" then 0 else 10 * Written(s[..|s| - 1]) + DigitValue(s[|s| - 1])
  }

  /** A number is written in decimal digits without leading zeros. */
  lemma {:induction false} DigitsWrite(n: nat)
    ensures Written(Digits(n)) == n && Digits(n) != "" && (Digits(n)[0] == '0' ==> n == 0)
    ensures forall c :: c in Digits(n) ==> '0' <= c <= '9'
  {
    var digits := "0123456789";
    assert forall i :: 0 <= i < 10 ==> DigitValue(digits[i]) == i;
    if n < 10 {
      assert Written([digits[n]]) == 10 * Written([]) + DigitValue(digits[n]);
    } else {
      DigitsWrite(n / 10);
      assert Digits(n)[..|Digits(n)| - 1] == Digits(n / 10);
    }
  }
}
