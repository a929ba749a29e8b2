/** Which characters are code: what comments and strings take out of it, in terms of the text
    (the scanning loop of src/hdl_kgraph/parser/sv_normalize.py:63-95). */
module Lexing {
  import opened Schema
  import opened Normalize

  predicate Pair(text: string, k: nat, a: char, b: char) {
    k + 1 < |text| && text[k] == a && text[k + 1] == b
  }

  /** No code between two positions, the first excluded and the last included. */
  predicate NoCode(text: string, k: nat, n: nat) {
    k <= n <= |text| && forall i :: k < i <= n ==> ModeAt(text, i) != Code
  }

  /** The text starts as code, and code goes on where no comment or string starts. */
  lemma CodeGoesOn(text: string, k: nat)
    ensures ModeAt(text, 0) == Code
    ensures InCode(text, k) && text[k] != '"' && !Pair(text, k, '/', '/') && !Pair(text, k, '/', '*') ==>
      ModeAt(text, k + 1) == Code
  {
  }

  // -- line comments ---------------------------------------------------------------------------

  lemma {:induction false} InLineComment(text: string, from: nat, n: nat)
    requires from <= n <= |text| && ModeAt(text, from) == LineComment && '\n' !in text[from..n]
    ensures forall i :: from <= i <= n ==> ModeAt(text, i) == LineComment
    decreases n - from
  {
    if from < n {
      assert text[from..n][0] == text[from] && text[from..n] == [text[from]] + text[from + 1..n];
      InLineComment(text, from + 1, n);
    }
  }

  /** A line comment runs up to the newline, and the next line is code. */
  lemma LineComments(text: string, k: nat, n: nat)
    requires InCode(text, k) && Pair(text, k, '/', '/') && k + 2 <= n <= |text| && '\n' !in text[k + 2..n]
    ensures NoCode(text, k, n)
    ensures n < |text| && text[n] == '\n' ==> ModeAt(text, n + 1) == Code
  {
    assert ModeAt(text, k + 1) == LineMark;
    InLineComment(text, k + 2, n);
  }

  // -- block comments --------------------------------------------------------------------------

  lemma {:induction false} InBlockComment(text: string, from: nat, n: nat)
    requires from <= n <= |text| && ModeAt(text, from) == BlockComment
    requires forall j :: from <= j < n ==> !Pair(text, j, '*', '/')
    ensures forall i :: from <= i <= n ==> ModeAt(text, i) == BlockComment
    decreases n - from
  {
    if from < n {
      assert !Pair(text, from, '*', '/');
      InBlockComment(text, from + 1, n);
    }
  }

  /** A block comment runs up to the first closing mark after its opening one, and code follows. */
  lemma BlockComments(text: string, k: nat, n: nat)
    requires InCode(text, k) && Pair(text, k, '/', '*') && k + 2 <= n <= |text|
    requires forall j :: k + 2 <= j < n ==> !Pair(text, j, '*', '/')
    ensures NoCode(text, k, n)
    ensures Pair(text, n, '*', '/') ==> ModeAt(text, n + 1) != Code && ModeAt(text, n + 2) == Code
  {
    assert ModeAt(text, k + 1) == BlockMark;
    InBlockComment(text, k + 2, n);
  }

  // -- strings ---------------------------------------------------------------------------------

  /** Characters other than quotes and backslashes, and escaped characters. */
  predicate Content(text: string, from: nat, n: nat)
    decreases n - from
  {
    from <= n <= |text| &&
    (from == n
     || (text[from] == '\\' && from + 2 <= n && Content(text, from + 2, n))
     || (text[from] != '\\' && text[from] != '"' && Content(text, from + 1, n)))
  }

  lemma {:induction false} InString(text: string, from: nat, n: nat)
    requires Content(text, from, n) && ModeAt(text, from) == Quoted
    ensures ModeAt(text, n) == Quoted && forall i :: from <= i <= n ==> ModeAt(text, i) != Code
    decreases n - from
  {
    if from < n {
      if text[from] == '\\' {
        assert ModeAt(text, from + 1) == Escaped;
        InString(text, from + 2, n);
      } else {
        InString(text, from + 1, n);
      }
    }
  }

  /** A string runs over its content up to the quote that ends it, and code follows. */
  lemma Strings(text: string, k: nat, n: nat)
    requires InCode(text, k) && text[k] == '"' && Content(text, k + 1, n)
    ensures NoCode(text, k, n)
    ensures n < |text| && text[n] == '"' ==> ModeAt(text, n + 1) == Code
    ensures n < |text| && text[n] == '\\' ==> ModeAt(text, n + 1) != Code
  {
    InString(text, k + 1, n);
  }

  // -- names -----------------------------------------------------------------------------------

  /** Names are made of the ASCII letters and digits, the underscore and the dollar sign, by their codes. */
  lemma NameChars(c: char)
    ensures var code := c as int;
      IsIdent(c) <==> 65 <= code <= 90 || 97 <= code <= 122 || 48 <= code <= 57 || code == 95 || code == 36
  {
  }
}
