/** The size-cast rewrite of `parser/sv_normalize.py`: `name(args)'(x)` becomes
    `(name(args))'(x)`, in code only, never across lines. */
module Normalize {
  import opened Schema

  // ---------------------------------------------------------------- lexing

  /** What the character at a position belongs to. The last four are the second
    * characters of `//`, `/*`, `*/` and of an escape inside a string. */
  datatype Mode =
    | Code | LineComment | BlockComment | Quoted
    | LineMark | BlockMark | EndMark | Escaped

  function Next(m: Mode, c: char, peek: Option<char>): Mode {
    match m
    case Code =>
      if c == '/' && peek == Some('/') then LineMark
      else if c == '/' && peek == Some('*') then BlockMark
      else if c == '"' then Quoted
      else Code
    case LineComment => if c == '\n' then Code else LineComment
    case BlockComment => if c == '*' && peek == Some('/') then EndMark else BlockComment
    case Quoted => if c == '\\' then Escaped else if c == '"' then Code else Quoted
    case LineMark => LineComment
    case BlockMark => BlockComment
    case EndMark => Code
    case Escaped => Quoted
  }

  /** Where the second character of a two-character token leads. */
  function AfterMark(m: Mode): Option<Mode> {
    match m
    case LineMark => Some(LineComment)
    case BlockMark => Some(BlockComment)
    case EndMark => Some(Code)
    case Escaped => Some(Quoted)
    case _ => None
  }

  function Peek(text: string, k: nat): Option<char> {
    if k < |text| then Some(text[k]) else None
  }

  function ModeAt(text: string, k: nat): Mode
    requires k <= |text|
  {
    if k == 0 then Code else Next(ModeAt(text, k - 1), text[k - 1], Peek(text, k))
  }

  predicate InCode(text: string, k: nat) {
    k < |text| && ModeAt(text, k) == Code
  }

  function Delta(m: Mode, c: char): int {
    if m != Code then 0 else if c == '(' then 1 else if c == ')' then -1 else 0
  }

  /** Opened minus closed parentheses among the code characters of `text[..k]`. */
  function DepthAt(text: string, k: nat): int
    requires k <= |text|
  {
    if k == 0 then 0 else DepthAt(text, k - 1) + Delta(ModeAt(text, k - 1), text[k - 1])
  }

  predicate IsIdent(c: char) {
    'a' <= c <= 'z' || 'A' <= c <= 'Z' || '0' <= c <= '9' || c == '_' || c == '$'
  }

  predicate IsBlank(c: char) {
    c == ' ' || c == '\t'
  }

  /** A code character that can only have been reached from code. */
  lemma CodeBefore(text: string, p: nat)
    requires p < |text| && ModeAt(text, p + 1) == Code
    requires text[p] != '/' && text[p] != '\n' && text[p] != '"'
    ensures ModeAt(text, p) == Code
  {
    if p > 0 {
      assert ModeAt(text, p) == Next(ModeAt(text, p - 1), text[p - 1], Some(text[p]));
    }
  }

  // ------------------------------------------------- which casts are wrapped

  /** `o` is the code parenthesis that the code parenthesis `j` closes. */
  ghost predicate Matches(text: string, o: nat, j: nat) {
    && o < j
    && InCode(text, o) && text[o] == '('
    && InCode(text, j) && text[j] == ')'
    && DepthAt(text, j) == DepthAt(text, o + 1)
    && forall m :: o < m <= j ==> DepthAt(text, m) >= DepthAt(text, o + 1)
  }

  /** `p` is the last non-blank position before `k`. */
  ghost predicate LastBefore(text: string, p: int, k: nat) {
    && -1 <= p < k <= |text|
    && (p >= 0 ==> !IsBlank(text[p]))
    && forall q :: p < q < k ==> IsBlank(text[q])
  }

  ghost predicate IsTick(text: string, t: nat) {
    InCode(text, t) && text[t] == '\'' && Peek(text, t + 1) == Some('(')
  }

  /** The parenthesis group opened at `o` follows a name and is the casting type
    * of the size cast whose tick is at `t`. */
  ghost predicate CallCast(text: string, o: nat, t: nat) {
    && IsTick(text, t)
    && (exists j: nat :: LastBefore(text, j, t) && Matches(text, o, j))
    && (exists p: nat :: o <= |text| && LastBefore(text, p, o) && IsIdent(text[p]))
  }

  // -------------------------------------------- the scanner's own bookkeeping

  function PrevSignificant(text: string, k: nat): (p: int)
    requires k <= |text|
    ensures -1 <= p < k
  {
    if k == 0 then -1 else if IsBlank(text[k - 1]) then PrevSignificant(text, k - 1) else k - 1
  }

  lemma {:induction false} PrevIsLast(text: string, k: nat)
    requires k <= |text|
    ensures LastBefore(text, PrevSignificant(text, k), k)
  {
    if k > 0 && IsBlank(text[k - 1]) {
      PrevIsLast(text, k - 1);
    }
  }

  method FindPrevSignificant(text: string, index: nat) returns (j: int)
    requires index <= |text|
    ensures j == PrevSignificant(text, index)
  {
    j := index - 1;
    while j >= 0 && IsBlank(text[j])
      invariant -1 <= j < index
      invariant PrevSignificant(text, j + 1) == PrevSignificant(text, index)
    {
      j := j - 1;
    }
  }

  predicate IsCall(text: string, o: nat)
    requires o <= |text|
  {
    var p := PrevSignificant(text, o);
    p >= 0 && IsIdent(text[p])
  }

  /** Where the identifier that ends just before `o` starts. */
  function NameStart(text: string, o: nat): (s: nat)
    requires o <= |text|
    ensures s <= o
    ensures forall q :: s <= q < o ==> IsIdent(text[q])
    ensures s > 0 ==> !IsIdent(text[s - 1])
  {
    if o == 0 || !IsIdent(text[o - 1]) then o else NameStart(text, o - 1)
  }

  /** The code parentheses still open after `text[..k]`, innermost last. */
  function Opens(text: string, k: nat): (s: seq<nat>)
    requires k <= |text|
  {
    if k == 0 then []
    else
      var s := Opens(text, k - 1);
      if ModeAt(text, k - 1) != Code then s
      else if text[k - 1] == '(' then s + [k - 1]
      else if text[k - 1] == ')' && s != [] then s[..|s| - 1]
      else s
  }

  function Innermost(text: string, k: nat): (r: Option<nat>)
    requires k <= |text|
    ensures r.Some? ==> r.value < k
  {
    var s := Opens(text, k);
    if s == [] then None
    else
      OpenIsParen(text, k, |s| - 1);
      Some(s[|s| - 1])
  }

  lemma {:induction false} OpenIsParen(text: string, k: nat, x: nat)
    requires k <= |text| && x < |Opens(text, k)|
    ensures var o := Opens(text, k)[x]; o < k && InCode(text, o) && text[o] == '('
  {
    if k > 0 && x < |Opens(text, k - 1)| {
      OpenIsParen(text, k - 1, x);
    }
  }

  /** The opening parenthesis of the call that the tick at `t` casts to. */
  function CastAt(text: string, t: nat): (r: Option<nat>)
    requires t < |text|
    ensures r.Some? ==> r.value < t
  {
    if ModeAt(text, t) == Code && text[t] == '\'' && Peek(text, t + 1) == Some('(') then
      var j := PrevSignificant(text, t);
      if j < 0 || text[j] != ')' then None
      else
        match Innermost(text, j)
        case None => None
        case Some(o) => if IsCall(text, o) then Some(o) else None
    else None
  }

  lemma SameLast(text: string, p: int, q: int, k: nat)
    requires LastBefore(text, p, k) && LastBefore(text, q, k)
    ensures p == q
  {
  }

  // ------------------------------------- the stack finds matching parentheses

  ghost function Depths(text: string): (d: seq<int>)
    ensures |d| == |text| + 1
    ensures forall k :: 0 <= k <= |text| ==> d[k] == DepthAt(text, k)
  {
    seq(|text| + 1, k requires 0 <= k <= |text| => DepthAt(text, k))
  }

  predicate Rises(d: seq<int>, o: nat) {
    o + 1 < |d| && d[o + 1] == d[o] + 1
  }

  /** The depth has not dropped below `o`'s own since `o` was opened. */
  ghost predicate Held(d: seq<int>, o: nat, k: nat) {
    o < k < |d| && forall m :: o < m <= k ==> d[m] >= d[o + 1]
  }

  ghost predicate Closed(d: seq<int>, o: nat, k: nat) {
    o < k < |d| && exists m :: o < m <= k && d[m] < d[o + 1]
  }

  /** `s` holds, in order, the nested parentheses still open after `k` characters. */
  ghost predicate Nested(d: seq<int>, s: seq<nat>, k: nat) {
    && k < |d|
    && (forall o :: o in s ==> Held(d, o, k))
    && (forall x, y :: 0 <= x < y < |s| ==> s[x] < s[y])
    && (s != [] ==> s[|s| - 1] < k && d[k] == d[s[|s| - 1] + 1])
    && forall x, y :: 0 <= x < |s| && y == x + 1 && y < |s| ==> s[x] < s[y] < k && d[s[y]] == d[s[x] + 1]
  }

  ghost predicate NoneLost(d: seq<int>, s: seq<nat>, k: nat) {
    forall o :: 0 <= o < k && Rises(d, o) ==> o in s || Closed(d, o, k)
  }

  lemma PopNests(d: seq<int>, s: seq<nat>, k: nat)
    requires k + 1 < |d| && d[k + 1] == d[k] - 1 && s != []
    requires Nested(d, s, k) && NoneLost(d, s, k)
    requires forall o :: o in s ==> Rises(d, o)
    ensures Nested(d, s[..|s| - 1], k + 1) && NoneLost(d, s[..|s| - 1], k + 1)
  {
    var top, rest := s[|s| - 1], s[..|s| - 1];
    assert top in s && Rises(d, top) && d[k + 1] == d[top];
    assert Closed(d, top, k + 1);
    forall o | o in rest ensures Held(d, o, k + 1) {
      assert o in s && Held(d, o, k);
    }
    forall o | 0 <= o < k + 1 && Rises(d, o) ensures o in rest || Closed(d, o, k + 1) {
      if o in s {
        var x :| 0 <= x < |s| && s[x] == o;
        assert x < |rest| ==> rest[x] == o;
      }
    }
  }

  lemma PushNests(d: seq<int>, s: seq<nat>, k: nat)
    requires Rises(d, k)
    requires Nested(d, s, k) && NoneLost(d, s, k)
    ensures Nested(d, s + [k], k + 1) && NoneLost(d, s + [k], k + 1)
  {
    forall o | o in s ensures Held(d, o, k + 1) {
      assert Held(d, o, k);
    }
  }

  lemma KeepNests(d: seq<int>, s: seq<nat>, k: nat)
    requires k + 1 < |d| && (d[k + 1] == d[k] || (s == [] && d[k + 1] == d[k] - 1))
    requires Nested(d, s, k) && NoneLost(d, s, k)
    ensures Nested(d, s, k + 1) && NoneLost(d, s, k + 1)
  {
    forall o | o in s ensures Held(d, o, k + 1) {
      assert Held(d, o, k);
    }
  }

  lemma StepOfDepth(text: string, k: nat)
    requires k < |text|
    ensures DepthAt(text, k + 1) == DepthAt(text, k) + Delta(ModeAt(text, k), text[k])
    ensures Rises(Depths(text), k) <==> InCode(text, k) && text[k] == '('
  {
  }

  ghost predicate Walk(d: seq<int>) {
    |d| > 0 && d[0] == 0 && forall k, m :: 0 <= k && m == k + 1 && m < |d| ==> d[k] - 1 <= d[m] <= d[k] + 1
  }

  /** The stack of a walk: rises are pushed, falls pop. */
  ghost function Stack(d: seq<int>, k: nat): (s: seq<nat>)
    requires k < |d|
    ensures Walk(d) ==> forall o :: o in s ==> Rises(d, o)
  {
    if k == 0 then []
    else
      var s := Stack(d, k - 1);
      if d[k] > d[k - 1] then s + [k - 1]
      else if d[k] < d[k - 1] && s != [] then s[..|s| - 1]
      else s
  }

  lemma {:induction false} StackNests(d: seq<int>, k: nat)
    requires Walk(d) && k < |d|
    ensures Nested(d, Stack(d, k), k) && NoneLost(d, Stack(d, k), k)
  {
    if k > 0 {
      StackNests(d, k - 1);
      var s := Stack(d, k - 1);
      if d[k] > d[k - 1] {
        PushNests(d, s, k - 1);
      } else if d[k] < d[k - 1] && s != [] {
        PopNests(d, s, k - 1);
      } else {
        KeepNests(d, s, k - 1);
      }
    }
  }

  lemma DepthsWalk(text: string)
    ensures Walk(Depths(text))
  {
    var d := Depths(text);
    forall k, m | 0 <= k && m == k + 1 && m < |d| ensures d[k] - 1 <= d[m] <= d[k] + 1 {
      StepOfDepth(text, k);
    }
  }

  lemma {:induction false} OpensIsStack(text: string, k: nat)
    requires k <= |text|
    ensures Opens(text, k) == Stack(Depths(text), k)
  {
    if k > 0 {
      OpensIsStack(text, k - 1);
      StepOfDepth(text, k - 1);
    }
  }

  lemma MatchIsUnique(text: string, o: nat, j: nat, o': nat, j': nat)
    requires Matches(text, o, j) && Matches(text, o', j')
    requires o == o' || j == j'
    ensures o == o' && j == j'
  {
    StepOfDepth(text, o);
    StepOfDepth(text, o');
    StepOfDepth(text, j);
    StepOfDepth(text, j');
  }

  /** The innermost open parenthesis is the matching one, when there is one. */
  lemma InnermostMatches(text: string, j: nat, o: nat)
    requires InCode(text, j) && text[j] == ')'
    ensures Innermost(text, j) == Some(o) <==> Matches(text, o, j)
  {
    var s, d := Opens(text, j), Depths(text);
    DepthsWalk(text);
    OpensIsStack(text, j);
    StackNests(d, j);
    if s != [] {
      var top := s[|s| - 1];
      assert top in s && Held(d, top, j);
      forall m | top < m <= j ensures DepthAt(text, m) >= DepthAt(text, top + 1) {
        assert d[m] >= d[top + 1];
      }
      assert Matches(text, top, j);
    }
    if Matches(text, o, j) {
      StepOfDepth(text, o);
      assert Rises(d, o);
      forall m | o < m <= j ensures d[m] >= d[o + 1] {
        assert DepthAt(text, m) >= DepthAt(text, o + 1);
      }
      assert !Closed(d, o, j);
      assert o in s;
      MatchIsUnique(text, o, j, s[|s| - 1], j);
    }
  }

  /** Only blanks lie between `p` and the code position `k`: `p` is code too. */
  lemma {:induction false} LastBeforeIsCode(text: string, p: nat, k: nat)
    requires LastBefore(text, p, k) && ModeAt(text, k) == Code
    requires text[p] != '/' && text[p] != '\n' && text[p] != '"'
    ensures InCode(text, p)
    decreases k
  {
    CodeBefore(text, k - 1);
    if p < k - 1 {
      LastBeforeIsCode(text, p, k - 1);
    }
  }

  /** The scanner's lookup finds exactly the casts of calls. */
  lemma CastAtExact(text: string, t: nat, o: nat)
    requires t < |text|
    ensures CastAt(text, t) == Some(o) <==> CallCast(text, o, t)
  {
    if IsTick(text, t) {
      var j := PrevSignificant(text, t);
      PrevIsLast(text, t);
      if j >= 0 && text[j] == ')' {
        LastBeforeIsCode(text, j, t);
        InnermostMatches(text, j, o);
      }
      if o <= |text| {
        PrevIsLast(text, o);
      }
      if CallCast(text, o, t) {
        var j': nat :| LastBefore(text, j', t) && Matches(text, o, j');
        SameLast(text, j, j', t);
        var p: nat :| LastBefore(text, p, o) && IsIdent(text[p]);
        SameLast(text, p, PrevSignificant(text, o), o);
      }
    }
  }

  // ------------------------------------------------------------- the inserts

  /** Where the name of the call cast at `t` starts, if one is cast there. */
  function StartAt(text: string, t: nat): Option<nat>
    requires t < |text|
  {
    match CastAt(text, t)
    case None => None
    case Some(o) => Some(NameStart(text, o))
  }

  function Starts(text: string): (m: seq<Option<nat>>)
    ensures |m| == |text|
    ensures forall t :: 0 <= t < |text| ==> m[t] == StartAt(text, t)
  {
    seq(|text|, t requires 0 <= t < |text| => StartAt(text, t))
  }

  /** The characters inserted, by position, for the ticks before `i`. */
  function EditsOf(m: seq<Option<nat>>, i: nat): map<nat, char>
    requires i <= |m|
  {
    if i == 0 then map[]
    else if m[i - 1] == None then EditsOf(m, i - 1)
    else EditsOf(m, i - 1)[m[i - 1].value := '('][i - 1 := ')']
  }

  function EditsBelow(text: string, i: nat): map<nat, char>
    requires i <= |text|
  {
    EditsOf(Starts(text), i)
  }

  lemma CastChars(text: string, o: nat, t: nat)
    requires CallCast(text, o, t)
    ensures o < t < |text| && InCode(text, o) && text[o] == '(' && InCode(text, t) && text[t] == '\''
    ensures NameStart(text, o) <= o && (IsIdent(text[NameStart(text, o)]) || text[NameStart(text, o)] == '(')
  {
    var j: nat :| LastBefore(text, j, t) && Matches(text, o, j);
  }

  /** Two casts never share an insertion point. */
  lemma CastsAreSeparate(text: string, o: nat, t: nat, o': nat, t': nat)
    requires CallCast(text, o, t) && CallCast(text, o', t') && t < t'
    ensures o < t && o' < t' < |text|
    ensures NameStart(text, o) != NameStart(text, o')
  {
    CallsDiffer(text, o, t, o', t');
    CastChars(text, o, t);
    CastChars(text, o', t');
    assert !IsIdent(text[o]) && !IsIdent(text[o']);
  }

  /** A later tick's casting type ends after an earlier tick. */
  lemma EndsLater(text: string, t: nat, j: nat, t': nat)
    requires t < t' < |text| && text[t'] == '\'' && Peek(text, t + 1) == Some('(') && LastBefore(text, j, t')
    ensures t < j
  {
    assert !IsBlank(text[t + 1]);
  }

  lemma CallsDiffer(text: string, o: nat, t: nat, o': nat, t': nat)
    requires CallCast(text, o, t) && CallCast(text, o', t') && t < t'
    ensures o != o'
  {
    var j: nat :| LastBefore(text, j, t) && Matches(text, o, j);
    var j': nat :| LastBefore(text, j', t') && Matches(text, o', j');
    EndsLater(text, t, j', t');
    if o == o' {
      MatchIsUnique(text, o, j, o', j');
    }
  }

  /** A start precedes its tick, is shared with no other cast, and is no tick itself. */
  ghost predicate Pairs(m: seq<Option<nat>>) {
    && (forall t :: 0 <= t < |m| && m[t].Some? ==> m[t].value < t)
    && (forall t, t' :: 0 <= t < |m| && 0 <= t' < |m| && m[t].Some? && m[t'].Some? ==> m[t].value != t')
    && forall t, t' :: 0 <= t < t' < |m| && m[t].Some? && m[t'].Some? ==> m[t].value != m[t'].value
  }

  lemma CastStart(text: string, t: nat) returns (o: nat)
    requires t < |text| && Starts(text)[t].Some?
    ensures CallCast(text, o, t) && o < t && Starts(text)[t] == Some(NameStart(text, o))
  {
    o := CastAt(text, t).value;
    CastAtExact(text, t, o);
  }

  lemma StartsArePairs(text: string)
    ensures Pairs(Starts(text))
  {
    var m := Starts(text);
    forall t | 0 <= t < |m| && m[t].Some? ensures m[t].value < t && text[t] == '\'' && text[m[t].value] != '\'' {
      var o := CastStart(text, t);
      CastChars(text, o, t);
    }
    forall t, t' | 0 <= t < t' < |m| && m[t].Some? && m[t'].Some? ensures m[t].value != m[t'].value {
      var o := CastStart(text, t);
      var o' := CastStart(text, t');
      CastsAreSeparate(text, o, t, o', t');
    }
  }

  /** Each insertion belongs to a cast: an opening parenthesis at its name, or a
    * closing one at its tick. */
  lemma {:induction false} SourceOf(m: seq<Option<nat>>, i: nat, k: nat) returns (t: nat)
    requires i <= |m| && k in EditsOf(m, i)
    ensures t < i && m[t].Some?
    ensures (k == m[t].value && EditsOf(m, i)[k] == '(') || (k == t && EditsOf(m, i)[k] == ')')
  {
    if m[i - 1].Some? && (k == i - 1 || k == m[i - 1].value) {
      t := i - 1;
    } else {
      t := SourceOf(m, i - 1, k);
    }
  }

  ghost predicate Paired(ins: map<nat, char>, s: nat, t: nat) {
    s in ins && t in ins && ins[s] == '(' && ins[t] == ')'
  }

  lemma {:induction false} PairStays(m: seq<Option<nat>>, i: nat, t: nat)
    requires i <= |m| && Pairs(m) && t < i && m[t].Some?
    ensures Paired(EditsOf(m, i), m[t].value, t)
  {
    if t < i - 1 {
      PairStays(m, i - 1, t);
    }
  }

  /** Every insertion belongs to a call cast. */
  lemma EditSource(text: string, i: nat, k: nat) returns (o: nat, t: nat)
    requires i <= |text| && k in EditsBelow(text, i)
    ensures t < i && CallCast(text, o, t) && o < t
    ensures (k == NameStart(text, o) && EditsBelow(text, i)[k] == '(') || (k == t && EditsBelow(text, i)[k] == ')')
  {
    t := SourceOf(Starts(text), i, k);
    o := CastStart(text, t);
  }

  /** Each call cast has both of its parentheses inserted. */
  lemma EditsMade(text: string, i: nat, o: nat, t: nat)
    requires i <= |text| && t < i && CallCast(text, o, t)
    ensures o < t && Paired(EditsBelow(text, i), NameStart(text, o), t)
  {
    CastAtExact(text, t, o);
    StartsArePairs(text);
    PairStays(Starts(text), i, t);
  }

  /** Inserted opening minus closing parentheses before position `k`. */
  function Net(ins: map<nat, char>, k: nat): int {
    if k == 0 then 0
    else Net(ins, k - 1) + (if k - 1 in ins then Delta(Code, ins[k - 1]) else 0)
  }

  lemma {:induction false} NetOfPair(ins: map<nat, char>, s: nat, t: nat, k: nat)
    requires s < t && s !in ins && t !in ins
    ensures Net(ins[s := '('][t := ')'], k) == Net(ins, k) + (if s < k <= t then 1 else 0)
  {
    if k > 0 {
      NetOfPair(ins, s, t, k - 1);
    }
  }

  /** The insertion points of a new cast are new. */
  lemma PairIsNew(m: seq<Option<nat>>, t: nat)
    requires Pairs(m) && t < |m| && m[t].Some?
    ensures m[t].value !in EditsOf(m, t) && t !in EditsOf(m, t)
  {
    if m[t].value in EditsOf(m, t) {
      var t' := SourceOf(m, t, m[t].value);
    }
    if t in EditsOf(m, t) {
      var t' := SourceOf(m, t, t);
    }
  }

  lemma {:induction false} PairsBalance(m: seq<Option<nat>>, i: nat, k: nat)
    requires Pairs(m) && i <= |m|
    ensures Net(EditsOf(m, i), k) >= 0
    ensures k == |m| ==> Net(EditsOf(m, i), k) == 0
  {
    if i == 0 {
      EmptyNet(k);
    } else {
      PairsBalance(m, i - 1, k);
      if m[i - 1].Some? {
        PairIsNew(m, i - 1);
        NetOfPair(EditsOf(m, i - 1), m[i - 1].value, i - 1, k);
      }
    }
  }

  lemma EditsBalance(text: string, i: nat, k: nat)
    requires i <= |text|
    ensures Net(EditsBelow(text, i), k) >= 0
    ensures k == |text| ==> Net(EditsBelow(text, i), k) == 0
  {
    StartsArePairs(text);
    PairsBalance(Starts(text), i, k);
  }

  lemma {:induction false} EmptyNet(k: nat)
    ensures Net(map[], k) == 0
  {
    if k > 0 {
      EmptyNet(k - 1);
    }
  }

  // ------------------------------------------------------ applying the inserts

  function Added(ins: map<nat, char>, k: nat): (a: string)
    ensures |a| <= 1
  {
    if k in ins then [ins[k]] else []
  }

  function AddedMarks(ins: map<nat, char>, k: nat): (a: seq<bool>)
    ensures |a| == |Added(ins, k)|
  {
    if k in ins then [true] else []
  }

  /** `text[..k]` with every insertion at a position below `k` made. */
  function Woven(text: string, ins: map<nat, char>, k: nat): string
    requires k <= |text|
  {
    if k == 0 then [] else Woven(text, ins, k - 1) + Added(ins, k - 1) + [text[k - 1]]
  }

  /** Which characters of `Woven` are insertions. */
  function Marks(text: string, ins: map<nat, char>, k: nat): (m: seq<bool>)
    requires k <= |text|
    ensures |m| == |Woven(text, ins, k)|
  {
    if k == 0 then [] else Marks(text, ins, k - 1) + AddedMarks(ins, k - 1) + [false]
  }

  function Erase(w: string, marks: seq<bool>): string
    requires |w| == |marks|
  {
    if w == [] then []
    else
      var n := |w| - 1;
      Erase(w[..n], marks[..n]) + (if marks[n] then [] else [w[n]])
  }

  function Newlines(s: string): nat {
    if s == [] then 0 else Newlines(s[..|s| - 1]) + (if s[|s| - 1] == '\n' then 1 else 0)
  }

  lemma EraseLast(w: string, marks: seq<bool>, c: char, b: bool)
    requires |w| == |marks|
    ensures Erase(w + [c], marks + [b]) == Erase(w, marks) + (if b then [] else [c])
  {
    assert (w + [c])[..|w|] == w && (marks + [b])[..|w|] == marks;
  }

  lemma NewlinesLast(w: string, c: char)
    ensures Newlines(w + [c]) == Newlines(w) + (if c == '\n' then 1 else 0)
  {
    assert (w + [c])[..|w|] == w;
  }

  lemma EraseStep(w: string, m: seq<bool>, ins: map<nat, char>, k: nat, c: char)
    requires |w| == |m|
    ensures Erase(w + Added(ins, k) + [c], m + AddedMarks(ins, k) + [false]) == Erase(w, m) + [c]
  {
    if k in ins {
      EraseLast(w, m, ins[k], true);
      EraseLast(w + [ins[k]], m + [true], c, false);
    } else {
      assert w + Added(ins, k) == w && m + AddedMarks(ins, k) == m;
      EraseLast(w, m, c, false);
    }
  }

  lemma ErasedStep(text: string, ins: map<nat, char>, k: nat, w: string, m: seq<bool>)
    requires k < |text| && |w| == |m| && Erase(w, m) == text[..k]
    ensures Erase(w + Added(ins, k) + [text[k]], m + AddedMarks(ins, k) + [false]) == text[..k + 1]
  {
    EraseStep(w, m, ins, k, text[k]);
    TakeOne(text, k);
  }

  lemma TakeOne(s: string, k: nat)
    requires k < |s|
    ensures s[..k + 1] == s[..k] + [s[k]]
  {
  }

  lemma {:induction false} ErasedIsText(text: string, ins: map<nat, char>, k: nat)
    requires k <= |text|
    ensures Erase(Woven(text, ins, k), Marks(text, ins, k)) == text[..k]
  {
    if k > 0 {
      ErasedIsText(text, ins, k - 1);
      ErasedStep(text, ins, k - 1, Woven(text, ins, k - 1), Marks(text, ins, k - 1));
    }
  }

  lemma {:induction false} NewlinesKept(text: string, ins: map<nat, char>, k: nat)
    requires k <= |text| && Placed(text, ins)
    ensures Newlines(Woven(text, ins, k)) == Newlines(text[..k])
  {
    if k > 0 {
      NewlinesKept(text, ins, k - 1);
      var w := Woven(text, ins, k - 1);
      assert text[..k] == text[..k - 1] + [text[k - 1]];
      NewlinesLast(text[..k - 1], text[k - 1]);
      if k - 1 in ins {
        NewlinesLast(w, ins[k - 1]);
        NewlinesLast(w + [ins[k - 1]], text[k - 1]);
      } else {
        assert w + [] == w;
        NewlinesLast(w, text[k - 1]);
      }
    }
  }

  /** Every insertion is a parenthesis, made in code before a character that starts
    * no two-character token. */
  ghost predicate Placed(text: string, ins: map<nat, char>) {
    forall p :: p in ins ==>
      InCode(text, p) && text[p] != '/' && text[p] != '*' && (ins[p] == '(' || ins[p] == ')')
  }

  lemma {:induction false} NameIsCode(text: string, o: nat, p: nat)
    requires InCode(text, o) && NameStart(text, o) <= p <= o
    ensures InCode(text, p)
    decreases o - p
  {
    if p < o {
      NameIsCode(text, o, p + 1);
      CodeBefore(text, p);
    }
  }

  lemma EditPlaced(text: string, i: nat, p: nat)
    requires i <= |text| && p in EditsBelow(text, i)
    ensures InCode(text, p) && text[p] != '/' && text[p] != '*'
    ensures EditsBelow(text, i)[p] == '(' || EditsBelow(text, i)[p] == ')'
  {
    var o, t := EditSource(text, i, p);
    CastChars(text, o, t);
    if p != t {
      NameIsCode(text, o, p);
    }
  }

  lemma EditsPlaced(text: string, i: nat)
    requires i <= |text|
    ensures Placed(text, EditsBelow(text, i))
  {
    forall p | p in EditsBelow(text, i)
      ensures InCode(text, p) && text[p] != '/' && text[p] != '*'
      ensures EditsBelow(text, i)[p] == '(' || EditsBelow(text, i)[p] == ')'
    {
      EditPlaced(text, i, p);
    }
  }

  lemma {:induction false} WovenPrefix(text: string, ins: map<nat, char>, k: nat, m: nat)
    requires k <= m <= |text|
    ensures Woven(text, ins, k) <= Woven(text, ins, m)
  {
    if k < m {
      WovenPrefix(text, ins, k, m - 1);
    }
  }

  /** Where `text[k]` itself ends up. */
  function Home(text: string, ins: map<nat, char>, k: nat): nat
    requires k <= |text|
  {
    |Woven(text, ins, k)| + (if k in ins then 1 else 0)
  }

  lemma WovenAt(text: string, ins: map<nat, char>, k: nat)
    requires k < |text|
    ensures var w := Woven(text, ins, |text|); var q := |Woven(text, ins, k)|;
      && q <= Home(text, ins, k) < |w| && |Woven(text, ins, k + 1)| == Home(text, ins, k) + 1 <= |w|
      && w[Home(text, ins, k)] == text[k]
      && (k in ins ==> w[q] == ins[k])
  {
    WovenPrefix(text, ins, k + 1, |text|);
  }

  /** The rewritten text is lexed as the original: each original character is in the
    * mode it had, and the depth differs by the parentheses inserted so far. */
  lemma {:induction false} Simulates(text: string, ins: map<nat, char>, k: nat)
    requires Placed(text, ins) && k <= |text|
    ensures var w := Woven(text, ins, |text|); var q := |Woven(text, ins, k)|;
      && q <= |w|
      && ModeAt(w, q) == ModeAt(text, k)
      && DepthAt(w, q) == DepthAt(text, k) + Net(ins, k)
  {
    if k > 0 {
      Simulates(text, ins, k - 1);
      WovenAt(text, ins, k - 1);
      var w, q, h := Woven(text, ins, |text|), |Woven(text, ins, k - 1)|, Home(text, ins, k - 1);
      InsertedStep(text, ins, k - 1);
      assert ModeAt(w, h) == ModeAt(text, k - 1) && DepthAt(w, h) == DepthAt(text, k - 1) + Net(ins, k);
      if k < |text| {
        WovenAt(text, ins, k);
      }
      SamePeek(text, ins, k);
      assert ModeAt(w, h + 1) == Next(ModeAt(w, h), w[h], Peek(w, h + 1));
      assert DepthAt(w, h + 1) == DepthAt(w, h) + Delta(ModeAt(w, h), w[h]);
    }
  }

  /** An insertion is lexed as code and changes nothing but the depth. */
  lemma InsertedStep(text: string, ins: map<nat, char>, k: nat)
    requires Placed(text, ins) && k < |text|
    requires var w := Woven(text, ins, |text|); var q := |Woven(text, ins, k)|;
      && q <= |w|
      && ModeAt(w, q) == ModeAt(text, k)
      && DepthAt(w, q) == DepthAt(text, k) + Net(ins, k)
    ensures var w := Woven(text, ins, |text|); var h := Home(text, ins, k);
      && h < |w|
      && ModeAt(w, h) == ModeAt(text, k)
      && DepthAt(w, h) == DepthAt(text, k) + Net(ins, k + 1)
  {
    WovenAt(text, ins, k);
    var w, q := Woven(text, ins, |text|), |Woven(text, ins, k)|;
    if k in ins {
      assert InCode(text, k);
      assert ModeAt(w, q + 1) == Next(Code, w[q], Peek(w, q + 1));
      assert DepthAt(w, q + 1) == DepthAt(w, q) + Delta(Code, w[q]);
    }
  }

  /** Looking one character ahead, over an insertion or not, decides the same way. */
  lemma SamePeek(text: string, ins: map<nat, char>, k: nat)
    requires Placed(text, ins) && 0 < k <= |text|
    ensures var w := Woven(text, ins, |text|);
      Next(ModeAt(text, k - 1), text[k - 1], Peek(w, |Woven(text, ins, k)|)) == ModeAt(text, k)
  {
    var w := Woven(text, ins, |text|);
    if k < |text| {
      WovenAt(text, ins, k);
      if k in ins {
        assert InCode(text, k);
      }
    }
  }

  function Edits(text: string): map<nat, char> {
    EditsBelow(text, |text|)
  }

  function Normalized(text: string): string {
    Woven(text, Edits(text), |text|)
  }

  /** The rewrite only inserts parentheses: erasing them gives the text back, the two
    * have as many lines and the same final depth. */
  lemma RewriteIsConservative(text: string)
    ensures |Marks(text, Edits(text), |text|)| == |Normalized(text)|
    ensures Erase(Normalized(text), Marks(text, Edits(text), |text|)) == text
    ensures Newlines(Normalized(text)) == Newlines(text)
    ensures DepthAt(Normalized(text), |Normalized(text)|) == DepthAt(text, |text|)
  {
    var ins, n := Edits(text), |text|;
    EditsPlaced(text, n);
    ErasedIsText(text, ins, n);
    NewlinesKept(text, ins, n);
    Simulates(text, ins, n);
    EditsBalance(text, n, n);
    assert text[..n] == text;
  }

  /** Every original character keeps its lexical mode and its line. */
  lemma RewriteKeepsPlaces(text: string, k: nat)
    requires k < |text|
    ensures var w := Normalized(text); var q := |Woven(text, Edits(text), k)|; var h := Home(text, Edits(text), k);
      && q <= h < |w| && w[h] == text[k]
      && ModeAt(w, h) == ModeAt(text, k)
      && Newlines(w[..q]) == Newlines(text[..k])
  {
    var ins, n := Edits(text), |text|;
    EditsPlaced(text, n);
    Simulates(text, ins, k);
    InsertedStep(text, ins, k);
    WovenAt(text, ins, k);
    WovenPrefix(text, ins, k, n);
    NewlinesKept(text, ins, k);
    assert Normalized(text)[..|Woven(text, ins, k)|] == Woven(text, ins, k);
  }

  /** Before and after any insertion the depth is never below the original's, and
    * insertions are parentheses in code. */
  lemma RewriteNeverDips(text: string, k: nat)
    requires k < |text|
    ensures var w := Normalized(text); var q := |Woven(text, Edits(text), k)|; var h := Home(text, Edits(text), k);
      && q <= h < |w|
      && DepthAt(w, q) >= DepthAt(text, k)
      && DepthAt(w, h) >= DepthAt(text, k)
      && (k in Edits(text) ==> h == q + 1 && InCode(w, q) && (w[q] == '(' || w[q] == ')'))
  {
    EditsPlaced(text, |text|);
    EditsBalance(text, |text|, k);
    EditsBalance(text, |text|, k + 1);
    NeverDips(text, Edits(text), k);
  }

  lemma NeverDips(text: string, ins: map<nat, char>, k: nat)
    requires k < |text| && Placed(text, ins) && Net(ins, k) >= 0 && Net(ins, k + 1) >= 0
    ensures var w := Woven(text, ins, |text|); var q := |Woven(text, ins, k)|; var h := Home(text, ins, k);
      && q <= h < |w|
      && DepthAt(w, q) >= DepthAt(text, k)
      && DepthAt(w, h) >= DepthAt(text, k)
      && (k in ins ==> h == q + 1 && InCode(w, q) && (w[q] == '(' || w[q] == ')'))
  {
    WovenAt(text, ins, k);
    Simulates(text, ins, k);
    InsertedStep(text, ins, k);
  }

  /** The inserted parenthesis takes in the callee's name only when the name touches
    * its argument list; over a blank it goes around the arguments alone. */
  lemma WrapsNameIffAdjacent(text: string, o: nat, t: nat)
    requires CallCast(text, o, t) && o <= |text|
    ensures var p := PrevSignificant(text, o);
      0 <= p < o && IsIdent(text[p]) && (NameStart(text, o) <= p <==> p == o - 1)
  {
    var p: nat :| LastBefore(text, p, o) && IsIdent(text[p]);
    PrevIsLast(text, o);
    SameLast(text, p, PrevSignificant(text, o), o);
  }

  // ------------------------------------------------------------- the scanner

  datatype Paren = Paren(open: nat, isCall: bool)
  datatype Group = Group(open: nat, close: nat, isCall: bool)
  datatype Edit = Edit(pos: nat, ch: char)

  ghost predicate Frames(text: string, stack: seq<Paren>, opens: seq<nat>) {
    && |stack| == |opens|
    && forall x :: 0 <= x < |stack| ==>
         opens[x] <= |text| && stack[x].open == opens[x] && stack[x].isCall == IsCall(text, opens[x])
  }

  /** `prev` is the group whose close is the last non-blank character, if any is. */
  ghost predicate Recalls(text: string, i: nat, prev: Option<Group>) {
    i <= |text| ==>
      && (prev.Some? ==> prev.value.close < i && ClosesGroup(text, prev.value))
      && var j := PrevSignificant(text, i);
         j >= 0 && InCode(text, j) && text[j] == ')' && Innermost(text, j).Some? ==>
           prev == Some(Group(Innermost(text, j).value, j, IsCall(text, Innermost(text, j).value)))
  }

  ghost predicate ClosesGroup(text: string, g: Group) {
    && g.close < |text|
    && Innermost(text, g.close) == Some(g.open)
    && text[g.close] == ')'
    && g.isCall == IsCall(text, g.open)
  }

  /** `list` holds exactly the entries of `ins`, at distinct positions. */
  ghost predicate Lists(list: seq<Edit>, ins: map<nat, char>) {
    && (forall e :: e in list ==> e.pos in ins && ins[e.pos] == e.ch)
    && (forall p :: p in ins ==> Edit(p, ins[p]) in list)
    && forall x, y :: 0 <= x < y < |list| ==> list[x].pos != list[y].pos
  }

  lemma ListsPair(list: seq<Edit>, ins: map<nat, char>, s: nat, t: nat)
    requires Lists(list, ins) && s < t && s !in ins && t !in ins
    ensures Lists(list + [Edit(s, '('), Edit(t, ')')], ins[s := '('][t := ')'])
  {
    var list', ins' := list + [Edit(s, '('), Edit(t, ')')], ins[s := '('][t := ')'];
    assert list'[|list|] == Edit(s, '(') && list'[|list| + 1] == Edit(t, ')');
    forall p | p in ins' ensures Edit(p, ins'[p]) in list' {
      assert p in ins ==> Edit(p, ins[p]) in list;
    }
  }

  /** What the remembered group tells at a tick. */
  lemma RecallsCast(text: string, t: nat, prev: Option<Group>)
    requires IsTick(text, t) && Recalls(text, t, prev)
    ensures var j := PrevSignificant(text, t);
      (j >= 0 && text[j] == ')' && prev.Some? && prev.value.close == j && prev.value.isCall)
        == CastAt(text, t).Some?
    ensures CastAt(text, t).Some? ==> prev.Some? && CastAt(text, t).value == prev.value.open
  {
    var j := PrevSignificant(text, t);
    if j >= 0 && text[j] == ')' {
      PrevIsLast(text, t);
      LastBeforeIsCode(text, j, t);
    }
  }

  /** Positions outside code, and other characters, cast nothing. */
  lemma NoCast(text: string, i: nat)
    requires i < |text| && !IsTick(text, i)
    ensures Collected(text, i + 1) == Collected(text, i)
  {
  }

  /** The insertions in the order the scan finds them. */
  function Collected(text: string, i: nat): seq<Edit>
    requires i <= |text|
  {
    if i == 0 then []
    else
      match StartAt(text, i - 1)
      case None => Collected(text, i - 1)
      case Some(s) => Collected(text, i - 1) + [Edit(s, '('), Edit(i - 1, ')')]
  }

  lemma {:induction false} CollectedIsListed(text: string, i: nat)
    requires i <= |text| && Pairs(Starts(text))
    ensures Lists(Collected(text, i), EditsBelow(text, i))
  {
    if i > 0 {
      CollectedIsListed(text, i - 1);
      if StartAt(text, i - 1).Some? {
        PairIsNew(Starts(text), i - 1);
        ListsPair(Collected(text, i - 1), EditsBelow(text, i - 1), Starts(text)[i - 1].value, i - 1);
      }
    }
  }

  /** The scanner's variables. */
  datatype Scan = Scan(
    inLineComment: bool, inBlockComment: bool, inString: bool,
    stack: seq<Paren>, prevClose: Option<Group>, inserts: seq<Edit>)
  {
    predicate OneFlag() {
      !(inLineComment && inBlockComment) && !(inLineComment && inString) && !(inBlockComment && inString)
    }

    function Flagged(): Mode {
      if inLineComment then LineComment
      else if inBlockComment then BlockComment
      else if inString then Quoted
      else Code
    }
  }

  /** The variables say what the text before `i` says. */
  ghost predicate Scanned(text: string, i: nat, c: Scan) {
    && c.OneFlag()
    && if i <= |text| then
         && ModeAt(text, i) == c.Flagged()
         && Frames(text, c.stack, Opens(text, i))
         && Recalls(text, i, c.prevClose)
         && c.inserts == Collected(text, i)
       else c.inserts == Collected(text, |text|)
  }

  /** A character that neither groups nor casts. */
  predicate Plain(m: Mode, c: char, peek: Option<char>) {
    m != Code || (c != '(' && c != ')' && !(c == '\'' && peek == Some('(')))
  }

  lemma SkipOne(text: string, i: nat, c: Scan, c': Scan)
    requires i < |text| && Scanned(text, i, c) && Plain(c.Flagged(), text[i], Peek(text, i + 1))
    requires c'.OneFlag() && c'.stack == c.stack && c'.inserts == c.inserts
    requires c'.Flagged() == Next(c.Flagged(), text[i], Peek(text, i + 1))
    requires c'.prevClose == c.prevClose || (c'.prevClose == None && !IsBlank(text[i]))
    ensures Scanned(text, i + 1, c')
  {
    NoCast(text, i);
  }

  /** A two-character token: the start or end of a comment, or an escape. */
  lemma SkipTwo(text: string, i: nat, c: Scan, c': Scan)
    requires i < |text| && Scanned(text, i, c)
    requires text[i] == '/' || (c.Flagged() != Code && !IsBlank(text[i]))
    requires c'.OneFlag() && c'.stack == c.stack && c'.inserts == c.inserts && c'.prevClose == c.prevClose
    requires AfterMark(Next(c.Flagged(), text[i], Peek(text, i + 1))) == Some(c'.Flagged())
    ensures Scanned(text, i + 2, c')
  {
    NoCast(text, i);
    if i + 1 < |text| {
      NoCast(text, i + 1);
      assert !InCode(text, i + 1);
      assert Opens(text, i + 2) == Opens(text, i + 1) == Opens(text, i);
      assert ModeAt(text, i + 2) == c'.Flagged();
    }
  }

  lemma OpenParen(text: string, i: nat, c: Scan)
    requires i < |text| && text[i] == '(' && c.Flagged() == Code && Scanned(text, i, c)
    ensures Scanned(text, i + 1, c.(stack := c.stack + [Paren(i, IsCall(text, i))], prevClose := None))
  {
    NoCast(text, i);
  }

  lemma CloseParen(text: string, i: nat, c: Scan)
    requires i < |text| && text[i] == ')' && c.Flagged() == Code && Scanned(text, i, c)
    ensures c.stack == [] ==> Scanned(text, i + 1, c)
    ensures c.stack != [] ==>
      var top := c.stack[|c.stack| - 1];
      Scanned(text, i + 1, c.(stack := c.stack[..|c.stack| - 1], prevClose := Some(Group(top.open, i, top.isCall))))
  {
    NoCast(text, i);
  }

  lemma Tick(text: string, i: nat, c: Scan)
    requires i < |text| && text[i] == '\'' && Peek(text, i + 1) == Some('(')
    requires c.Flagged() == Code && Scanned(text, i, c)
    ensures CastAt(text, i) == None ==> Scanned(text, i + 1, c)
    ensures CastAt(text, i).Some? ==>
      Scanned(text, i + 1,
        c.(inserts := c.inserts + [Edit(NameStart(text, CastAt(text, i).value), '('), Edit(i, ')')]))
  {
  }

  method ScanLineComment(text: string, i: nat, ghost c: Scan) returns (inLineComment: bool)
    requires i < |text| && Scanned(text, i, c) && c.Flagged() == LineComment && c.OneFlag()
    ensures Scanned(text, i + 1, c.(inLineComment := inLineComment))
  {
    inLineComment := text[i] != '\n';
    SkipOne(text, i, c, c.(inLineComment := inLineComment));
  }

  method ScanBlockComment(text: string, i: nat, ghost c: Scan) returns (i': nat, inBlockComment: bool)
    requires i < |text| && Scanned(text, i, c) && c.Flagged() == BlockComment && c.OneFlag()
    ensures i < i' && Scanned(text, i', c.(inBlockComment := inBlockComment))
  {
    if text[i] == '*' && Peek(text, i + 1) == Some('/') {
      i', inBlockComment := i + 2, false;
      SkipTwo(text, i, c, c.(inBlockComment := false));
    } else {
      i', inBlockComment := i + 1, true;
      SkipOne(text, i, c, c);
    }
  }

  method ScanString(text: string, i: nat, ghost c: Scan) returns (i': nat, inString: bool)
    requires i < |text| && Scanned(text, i, c) && c.Flagged() == Quoted && c.OneFlag()
    ensures i < i' && Scanned(text, i', c.(inString := inString))
  {
    if text[i] == '\\' {
      i', inString := i + 2, true;
      SkipTwo(text, i, c, c);
    } else {
      i', inString := i + 1, text[i] != '"';
      SkipOne(text, i, c, c.(inString := inString));
    }
  }

  /** At the tick of a size cast. */
  method ScanTick(text: string, i: nat, prevClose: Option<Group>, inserts: seq<Edit>, ghost c: Scan)
    returns (inserts': seq<Edit>)
    requires i < |text| && text[i] == '\'' && Peek(text, i + 1) == Some('(')
    requires Scanned(text, i, c) && c.Flagged() == Code && c.prevClose == prevClose && c.inserts == inserts
    ensures Scanned(text, i + 1, c.(inserts := inserts'))
  {
    inserts' := inserts;
    var j := FindPrevSignificant(text, i);
    RecallsCast(text, i, prevClose);
    if j >= 0 && text[j] == ')' && prevClose.Some? && prevClose.value.close == j && prevClose.value.isCall {
      var nameStart := FindNameStart(text, prevClose.value.open);
      inserts' := inserts + [Edit(nameStart, '('), Edit(i, ')')];
    }
    Tick(text, i, c);
  }

  /** One step in code. */
  method ScanCode(text: string, i: nat, stack: seq<Paren>, prevClose: Option<Group>, inserts: seq<Edit>, ghost c: Scan)
    returns (i': nat, inLineComment: bool, inBlockComment: bool, inString: bool,
             stack': seq<Paren>, prevClose': Option<Group>, inserts': seq<Edit>)
    requires i < |text| && Scanned(text, i, c) && c == Scan(false, false, false, stack, prevClose, inserts)
    ensures i < i' && Scanned(text, i', Scan(inLineComment, inBlockComment, inString, stack', prevClose', inserts'))
  {
    inLineComment, inBlockComment, inString := false, false, false;
    stack', prevClose', inserts', i' := stack, prevClose, inserts, i + 1;
    var ch := text[i];
    var next := Peek(text, i + 1);
    if ch == '/' && next == Some('/') {
      inLineComment, i' := true, i + 2;
      SkipTwo(text, i, c, c.(inLineComment := true));
    } else if ch == '/' && next == Some('*') {
      inBlockComment, i' := true, i + 2;
      SkipTwo(text, i, c, c.(inBlockComment := true));
    } else if ch == '"' {
      inString := true;
      SkipOne(text, i, c, c.(inString := true));
    } else if ch == '(' {
      var j := FindPrevSignificant(text, i);
      stack', prevClose' := stack + [Paren(i, j >= 0 && IsIdent(text[j]))], None;
      OpenParen(text, i, c);
    } else if ch == ')' {
      if stack != [] {
        var top := stack[|stack| - 1];
        stack', prevClose' := stack[..|stack| - 1], Some(Group(top.open, i, top.isCall));
      }
      CloseParen(text, i, c);
    } else if ch == '\'' && next == Some('(') {
      inserts' := ScanTick(text, i, prevClose, inserts, c);
    } else {
      if ch != ' ' && ch != '\t' && ch != '\n' {
        prevClose' := None;
      }
      SkipOne(text, i, c, c.(prevClose := prevClose'));
    }
  }

  /** One pass over the text collects exactly the insertions the casts call for. */
  method FindCasts(text: string) returns (inserts: seq<Edit>)
    ensures Lists(inserts, Edits(text))
  {
    inserts := [];
    var stack: seq<Paren> := [];
    var prevClose: Option<Group> := None;
    var inLineComment, inBlockComment, inString := false, false, false;
    var i := 0;
    while i < |text|
      invariant Scanned(text, i, Scan(inLineComment, inBlockComment, inString, stack, prevClose, inserts))
      decreases |text| - i
    {
      ghost var c := Scan(inLineComment, inBlockComment, inString, stack, prevClose, inserts);
      if inLineComment {
        inLineComment := ScanLineComment(text, i, c);
        i := i + 1;
      } else if inBlockComment {
        i, inBlockComment := ScanBlockComment(text, i, c);
      } else if inString {
        i, inString := ScanString(text, i, c);
      } else {
        i, inLineComment, inBlockComment, inString, stack, prevClose, inserts :=
          ScanCode(text, i, stack, prevClose, inserts, c);
      }
    }
    StartsArePairs(text);
    CollectedIsListed(text, |text|);
  }

  method FindNameStart(text: string, open: nat) returns (nameStart: nat)
    requires open <= |text|
    ensures nameStart == NameStart(text, open)
  {
    var start: int := open - 1;
    while start >= 0 && IsIdent(text[start])
      invariant -1 <= start < open
      invariant NameStart(text, start + 1) == NameStart(text, open)
    {
      start := start - 1;
    }
    nameStart := start + 1;
  }

  // ------------------------------------------------------ applying the inserts

  ghost predicate Ascending(list: seq<Edit>) {
    forall x, y :: 0 <= x < y < |list| ==> list[x].pos < list[y].pos
  }

  function InsertEdit(e: Edit, list: seq<Edit>): (r: seq<Edit>)
    requires Ascending(list) && forall x :: 0 <= x < |list| ==> list[x].pos != e.pos
    ensures Ascending(r) && |r| == |list| + 1
    ensures forall f :: f in r <==> f == e || f in list
  {
    if list == [] then [e]
    else if e.pos < list[0].pos then [e] + list
    else
      var rest := InsertEdit(e, list[1..]);
      assert list == [list[0]] + list[1..];
      assert forall x :: 0 <= x < |rest| ==> rest[x] in rest;
      [list[0]] + rest
  }

  /** `inserts.sort()`; the positions are distinct. */
  function SortEdits(list: seq<Edit>): (r: seq<Edit>)
    requires forall x, y :: 0 <= x < y < |list| ==> list[x].pos != list[y].pos
    ensures Ascending(r) && |r| == |list|
    ensures forall f :: f in r <==> f in list
  {
    if list == [] then []
    else
      var n := |list| - 1;
      var rest := SortEdits(list[..n]);
      assert forall x :: 0 <= x < |rest| ==> rest[x] in list[..n];
      assert list == list[..n] + [list[n]];
      InsertEdit(list[n], rest)
  }

  /** A stretch of text without insertions is copied. */
  lemma {:induction false} Stretch(text: string, ins: map<nat, char>, a: nat, b: nat)
    requires a < b <= |text| && forall p :: a < p < b ==> p !in ins
    ensures Woven(text, ins, b)
      == Woven(text, ins, a) + (if a in ins then [ins[a]] else []) + text[a..b]
  {
    if a + 1 < b {
      Stretch(text, ins, a, b - 1);
      assert text[a..b] == text[a..b - 1] + [text[b - 1]];
    } else {
      assert text[a..b] == [text[a]];
    }
  }

  /** `out` is the text up to `last` with the insertion at `last` just made. */
  ghost predicate Copied(text: string, ins: map<nat, char>, out: string, last: nat, started: bool) {
    if started then last < |text| && last in ins && out == Woven(text, ins, last) + [ins[last]]
    else last == 0 && out == []
  }

  ghost predicate Bare(ins: map<nat, char>, last: nat, started: bool, pos: nat) {
    last <= pos && (started ==> last < pos) && forall p :: p in ins && p < pos ==> started && p <= last
  }

  lemma CopyOn(text: string, ins: map<nat, char>, out: string, last: nat, started: bool, pos: nat)
    requires Copied(text, ins, out, last, started) && Bare(ins, last, started, pos) && pos <= |text|
    ensures out + text[last..pos] == Woven(text, ins, pos)
    ensures pos < |text| && pos in ins ==> Copied(text, ins, out + text[last..pos] + [ins[pos]], pos, true)
  {
    if last < pos {
      Stretch(text, ins, last, pos);
    }
  }

  lemma NothingToDo(text: string, k: nat)
    requires k <= |text|
    ensures Woven(text, map[], k) == text[..k]
  {
    if k > 0 {
      NothingToDo(text, k - 1);
      assert text[..k] == text[..k - 1] + [text[k - 1]];
    }
  }

  ghost predicate Indexed(sorted: seq<Edit>, ins: map<nat, char>) {
    && Ascending(sorted)
    && (forall x :: 0 <= x < |sorted| ==> sorted[x].pos in ins && ins[sorted[x].pos] == sorted[x].ch)
    && forall p :: p in ins ==> exists x :: 0 <= x < |sorted| && sorted[x].pos == p
  }

  lemma SortedIsIndexed(list: seq<Edit>, sorted: seq<Edit>, ins: map<nat, char>)
    requires Lists(list, ins) && Ascending(sorted) && forall f :: f in sorted <==> f in list
    ensures Indexed(sorted, ins)
  {
    forall p | p in ins ensures exists x :: 0 <= x < |sorted| && sorted[x].pos == p {
      assert Edit(p, ins[p]) in sorted;
    }
    forall x | 0 <= x < |sorted| ensures sorted[x].pos in ins && ins[sorted[x].pos] == sorted[x].ch {
      assert sorted[x] in sorted;
    }
  }

  /** Nothing is inserted between two consecutive insertions. */
  lemma BareBetween(sorted: seq<Edit>, ins: map<nat, char>, x: nat, last: nat, pos: nat)
    requires Indexed(sorted, ins) && x <= |sorted|
    requires last == if x > 0 then sorted[x - 1].pos else 0
    requires if x < |sorted| then pos == sorted[x].pos else x > 0 && last < pos
    ensures Bare(ins, last, x > 0, pos)
  {
    forall p | p in ins && p < pos ensures x > 0 && p <= last {
      var y :| 0 <= y < |sorted| && sorted[y].pos == p;
    }
  }

  method ApplyEdits(text: string, inserts: seq<Edit>, ghost ins: map<nat, char>) returns (out: string)
    requires inserts != [] && Lists(inserts, ins) && forall p :: p in ins ==> p < |text|
    ensures out == Woven(text, ins, |text|)
  {
    var sorted := SortEdits(inserts);
    SortedIsIndexed(inserts, sorted, ins);
    out := [];
    var last: nat := 0;
    for x := 0 to |sorted|
      invariant Copied(text, ins, out, last, x > 0)
      invariant last == if x > 0 then sorted[x - 1].pos else 0
    {
      var e := sorted[x];
      BareBetween(sorted, ins, x, last, e.pos);
      CopyOn(text, ins, out, last, x > 0, e.pos);
      out := out + text[last..e.pos] + [e.ch];
      last := e.pos;
    }
    BareBetween(sorted, ins, |sorted|, last, |text|);
    CopyOn(text, ins, out, last, true, |text|);
    out := out + text[last..|text|];
  }

  /** The whole pass: the text is returned as it is, or with exactly the casts' edits. */
  method NormalizeSource(text: string) returns (out: string)
    ensures out == Normalized(text)
  {
    var inserts := FindCasts(text);
    if inserts == [] {
      assert Edits(text) == map[];
      NothingToDo(text, |text|);
      out := text;
    } else {
      EditsPlaced(text, |text|);
      out := ApplyEdits(text, inserts, Edits(text));
    }
  }

  /** A blank between the name and its arguments: only the arguments are wrapped. */
  lemma BlankBeforeArguments()
    ensures CallCast("f (x)'(1)", 2, 5)
    ensures NameStart("f (x)'(1)", 2) == 2
  {
    var text := "f (x)'(1)";
    assert ModeAt(text, 1) == Code && ModeAt(text, 2) == Code && ModeAt(text, 3) == Code;
    assert ModeAt(text, 4) == Code && ModeAt(text, 5) == Code;
    assert DepthAt(text, 1) == 0 && DepthAt(text, 2) == 0 && DepthAt(text, 3) == 1 && DepthAt(text, 4) == 1;
    assert Matches(text, 2, 4);
    assert LastBefore(text, 4, 5) && LastBefore(text, 0, 2);
  }
}
