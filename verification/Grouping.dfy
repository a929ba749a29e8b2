/** Which physical lines the line loop takes together, and how an expanded text is cut into
    output lines (`_process` in src/hdl_kgraph/parser/preprocessor.py). */
module Grouping {
  import opened Schema
  import opened MacroExpansion
  import opened Preprocessor

  // -- logical lines --------------------------------------------------------------------------------

  /** A `define reaches over the lines that end in a backslash and the one after them; any
      other line stands alone. */
  predicate Reaches(lines: seq<Line>, i: nat, span: nat) {
    && 1 <= span && i + span <= |lines|
    && if lines[i].directive.Define?
       then (forall j :: i <= j < i + span - 1 ==> lines[j].continued) &&
            (i + span < |lines| ==> !lines[i + span - 1].continued)
       else span == 1
  }

  /** A logical line has its first physical line's number, directive and text. */
  predicate Taken(lines: seq<Line>, l: Logical) {
    && 1 <= l.line && Reaches(lines, l.line - 1, l.span)
    && l.directive == lines[l.line - 1].directive && l.raw == lines[l.line - 1].raw
  }

  /** The logical lines `g` follow each other from the physical line `i` (counted from 0) to the last. */
  predicate Partitions(lines: seq<Line>, g: seq<Logical>, i: nat) {
    && (forall k :: 0 <= k < |g| ==> Taken(lines, g[k]))
    && (g != [] ==> g[0].line == i + 1)
    && (forall k :: 0 < k < |g| ==> g[k].line == g[k - 1].line + g[k - 1].span)
    && |lines| == if g == [] then i else g[|g| - 1].line + g[|g| - 1].span - 1
  }

  lemma {:induction false} ContinuationsReach(lines: seq<Line>, i: nat)
    requires i < |lines|
    ensures var n := Continuations(lines, i);
      && (forall j :: i <= j < i + n ==> lines[j].continued)
      && (i + n + 1 < |lines| ==> !lines[i + n].continued)
    decreases |lines| - i
  {
    if lines[i].continued && i + 1 < |lines| { ContinuationsReach(lines, i + 1); }
  }

  lemma PartitionsFrom(lines: seq<Line>, first: Logical, rest: seq<Logical>, i: nat)
    requires Taken(lines, first) && first.line == i + 1 && Partitions(lines, rest, i + first.span)
    ensures Partitions(lines, [first] + rest, i)
  {
    var g := [first] + rest;
    assert g[1..] == rest;
    forall k | 0 < k < |g| ensures g[k].line == g[k - 1].line + g[k - 1].span {
      assert g[k] == rest[k - 1];
      if k > 1 { assert g[k - 1] == rest[k - 2] && rest[k - 1].line == rest[k - 2].line + rest[k - 2].span; }
    }
  }

  /** The logical line the loop takes at `i`. */
  function TakenAt(lines: seq<Line>, i: nat): Logical
    requires i < |lines|
  {
    Logical(lines[i].directive, lines[i].raw, i + 1, Consumed(lines, i))
  }

  lemma TakenAtIsTaken(lines: seq<Line>, i: nat)
    requires i < |lines|
    ensures Taken(lines, TakenAt(lines, i))
  {
    ContinuationsReach(lines, i);
  }

  lemma GroupStep(lines: seq<Line>, i: nat)
    requires i < |lines|
    ensures Group(lines, i) == [TakenAt(lines, i)] + Group(lines, i + TakenAt(lines, i).span)
  {
  }

  lemma {:induction false} GroupPartitions(lines: seq<Line>, i: nat)
    requires i <= |lines|
    ensures Partitions(lines, Group(lines, i), i)
    decreases |lines| - i
  {
    if i < |lines| {
      var first := TakenAt(lines, i);
      TakenAtIsTaken(lines, i);
      GroupPartitions(lines, i + first.span);
      GroupStep(lines, i);
      PartitionsFrom(lines, first, Group(lines, i + first.span), i);
    }
  }

  /** The logical lines of a file follow each other from its first line to its last, none skipped. */
  lemma GroupIsPartition(lines: seq<Line>)
    ensures Partitions(lines, Group(lines, 0), 0)
  {
    GroupPartitions(lines, 0);
  }

  lemma {:induction false} Ordered(lines: seq<Line>, g: seq<Logical>, i: nat, k: nat, m: nat)
    requires Partitions(lines, g, i) && k < m < |g|
    ensures g[k].line + g[k].span <= g[m].line
  {
    if k < m - 1 { Ordered(lines, g, i, k, m - 1); }
  }

  /** No logical line starts among the lines a `define continues over. */
  lemma NoneInside(lines: seq<Line>, k: nat, m: nat)
    requires k < |Group(lines, 0)| && m < |Group(lines, 0)| && k != m
    ensures var define, other := Group(lines, 0)[k], Group(lines, 0)[m];
      !(define.line <= other.line < define.line + define.span)
  {
    GroupIsPartition(lines);
    if k < m { Ordered(lines, Group(lines, 0), 0, k, m); } else { Ordered(lines, Group(lines, 0), 0, m, k); }
  }

  predicate Holds(l: Logical, n: nat) {
    l.line <= n < l.line + l.span
  }

  lemma {:induction false} HeldFrom(lines: seq<Line>, g: seq<Logical>, i: nat, n: nat, m: nat) returns (k: nat)
    requires Partitions(lines, g, i) && i < n && m < |g| && n < g[m].line + g[m].span
    ensures k <= m && Holds(g[k], n)
  {
    assert g[0].line == i + 1;
    if g[m].line <= n { k := m; } else { k := HeldFrom(lines, g, i, n, m - 1); }
  }

  /** Every physical line belongs to one logical line. */
  lemma HeldOnce(lines: seq<Line>, n: nat) returns (k: nat)
    requires 1 <= n <= |lines|
    ensures k < |Group(lines, 0)| && Holds(Group(lines, 0)[k], n)
    ensures forall m: nat :: m < |Group(lines, 0)| && Holds(Group(lines, 0)[m], n) ==> m == k
  {
    var g := Group(lines, 0);
    GroupIsPartition(lines);
    k := HeldFrom(lines, g, 0, n, |g| - 1);
    forall m: nat | m < |g| && Holds(g[m], n) ensures m == k {
      if k < m { Ordered(lines, g, 0, k, m); } else if m < k { Ordered(lines, g, 0, m, k); }
    }
  }

  /** A two-line `define leaves no line of its body behind. */
  lemma TwoLineDefine(macro: Option<MacroDef>, raw: string, body: string)
    ensures var lines := [Line(Define(macro), raw, true), Line(Text, body, false)];
      Group(lines, 0) == [Logical(Define(macro), raw, 1, 2)]
  {
    var lines := [Line(Define(macro), raw, true), Line(Text, body, false)];
    assert Continuations(lines, 1) == 0;
    assert Group(lines, 2) == [];
  }

  // -- output lines -------------------------------------------------------------------------------

  /** The lines with newlines between them. */
  function Joined(lines: seq<string>): string
    requires lines != []
  {
    if |lines| == 1 then lines[0] else lines[0] + "\n" + Joined(lines[1..])
  }

  lemma {:induction false} NewlineIs(s: string, pos: nat)
    requires pos <= |s|
    ensures var k := NewlineAt(s, pos); '\n' !in s[pos..k] && (k < |s| ==> s[k] == '\n')
    decreases |s| - pos
  {
    if pos < |s| && s[pos] != '\n' {
      NewlineIs(s, pos + 1);
      assert s[pos..NewlineAt(s, pos)] == [s[pos]] + s[pos + 1..NewlineAt(s, pos)];
    }
  }

  /** The first line and the rest after its newline. */
  lemma SplitStep(s: string, k: nat)
    requires k == NewlineAt(s, 0)
    ensures SplitLines(s) == if k == |s| then [s] else [s[..k]] + SplitLines(s[k + 1..])
  {
  }

  lemma FirstLine(s: string, k: nat)
    requires k == NewlineAt(s, 0)
    ensures '\n' !in s[..k] && (k < |s| ==> s[k] == '\n')
  {
    NewlineIs(s, 0);
    assert s[0..k] == s[..k];
  }

  lemma JoinedFrom(first: string, rest: seq<string>)
    requires rest != []
    ensures Joined([first] + rest) == first + "\n" + Joined(rest)
  {
    assert ([first] + rest)[1..] == rest;
  }

  /** Joining the lines with newlines gives the text back. */
  lemma {:induction false} SplitJoins(s: string)
    ensures Joined(SplitLines(s)) == s
    decreases |s|
  {
    var k := NewlineAt(s, 0);
    SplitStep(s, k);
    FirstLine(s, k);
    if k < |s| {
      var first, rest := s[..k], s[k + 1..];
      assert s == first + "\n" + rest;
      SplitJoins(rest);
      JoinedFrom(first, SplitLines(rest));
    }
  }

  /** A text is cut at all its newlines. */
  lemma {:induction false} NoNewlineLeft(s: string, line: string)
    requires line in SplitLines(s)
    ensures '\n' !in line
    decreases |s|
  {
    var k := NewlineAt(s, 0);
    SplitStep(s, k);
    FirstLine(s, k);
    assert k == |s| ==> s[..k] == s;
    if k < |s| && line != s[..k] { NoNewlineLeft(s[k + 1..], line); }
  }
}
