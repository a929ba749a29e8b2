/** The order of Python strings, and of tuples of them: first difference decides. */
module Order {
  predicate Less(a: string, b: string) {
    b != [] && (a == [] || a[0] < b[0] || (a[0] == b[0] && Less(a[1..], b[1..])))
  }

  lemma {:induction false} LessTransitive(a: string, b: string, c: string)
    requires Less(a, b) && Less(b, c)
    ensures Less(a, c)
  {
    if a != [] && a[0] == b[0] && b[0] == c[0] {
      LessTransitive(a[1..], b[1..], c[1..]);
    }
  }

  lemma {:induction false} LessTotal(a: string, b: string)
    ensures Less(a, b) || a == b || Less(b, a)
    ensures !(Less(a, b) && Less(b, a)) && !Less(a, a)
  {
    if a != [] {
      LessTotal(a[1..], a[1..]);
    }
    if a != [] && b != [] && a[0] == b[0] {
      LessTotal(a[1..], b[1..]);
      assert a == [a[0]] + a[1..] && b == [b[0]] + b[1..];
    }
  }

  /** The strings agree up to `k`, where `a` ends or has the smaller character. */
  predicate FirstDifference(a: string, b: string, k: nat) {
    && k <= |a| && k < |b| && a[..k] == b[..k] && (k == |a| || a[k] < b[k])
  }

  lemma {:induction false} LessIff(a: string, b: string)
    ensures Less(a, b) <==> exists k: nat :: FirstDifference(a, b, k)
  {
    if Less(a, b) {
      var k := Difference(a, b);
    } else if k: nat :| FirstDifference(a, b, k) {
      DifferenceIsLess(a, b, k);
    }
  }

  lemma {:induction false} Difference(a: string, b: string) returns (k: nat)
    requires Less(a, b)
    ensures FirstDifference(a, b, k)
  {
    if a == [] || a[0] < b[0] {
      k := 0;
    } else {
      k := Difference(a[1..], b[1..]);
      assert a[..k + 1] == [a[0]] + a[1..][..k] && b[..k + 1] == [b[0]] + b[1..][..k];
      k := k + 1;
    }
  }

  lemma {:induction false} DifferenceIsLess(a: string, b: string, k: nat)
    requires FirstDifference(a, b, k)
    ensures Less(a, b)
  {
    if k > 0 {
      assert a[0] == a[..k][0] == b[..k][0] == b[0];
      assert a[1..][..k - 1] == a[..k][1..] == b[..k][1..] == b[1..][..k - 1];
      DifferenceIsLess(a[1..], b[1..], k - 1);
    }
  }

  predicate AtMost(a: string, b: string) {
    a == b || Less(a, b)
  }

  // -- tuples ---------------------------------------------------------------------------

  predicate Before(a: seq<string>, b: seq<string>) {
    b != [] && (a == [] || Less(a[0], b[0]) || (a[0] == b[0] && Before(a[1..], b[1..])))
  }

  lemma {:induction false} BeforeTransitive(a: seq<string>, b: seq<string>, c: seq<string>)
    requires Before(a, b) && Before(b, c)
    ensures Before(a, c)
  {
    if a != [] {
      if a[0] == b[0] && b[0] == c[0] {
        LessTotal(a[0], a[0]);
        BeforeTransitive(a[1..], b[1..], c[1..]);
      } else if a[0] != b[0] && b[0] != c[0] {
        LessTransitive(a[0], b[0], c[0]);
      }
    }
  }

  lemma {:induction false} BeforeTotal(a: seq<string>, b: seq<string>)
    ensures Before(a, b) || a == b || Before(b, a)
    ensures !(Before(a, b) && Before(b, a)) && !Before(a, a)
  {
    if a != [] {
      BeforeTotal(a[1..], a[1..]);
      LessTotal(a[0], a[0]);
    }
    if a != [] && b != [] {
      LessTotal(a[0], b[0]);
      BeforeTotal(a[1..], b[1..]);
      assert a == [a[0]] + a[1..] && b == [b[0]] + b[1..];
    }
  }

  /** Triples are ordered by their first difference. */
  lemma TripleBefore(a: seq<string>, b: seq<string>)
    requires |a| == 3 && |b| == 3
    ensures Before(a, b) <==>
      || Less(a[0], b[0])
      || (a[0] == b[0] && (Less(a[1], b[1]) || (a[1] == b[1] && Less(a[2], b[2]))))
  {
    var a1, b1, a2, b2 := a[1..], b[1..], a[1..][1..], b[1..][1..];
    assert a1 == [a[1], a[2]] && b1 == [b[1], b[2]] && a2 == [a[2]] && b2 == [b[2]];
    assert a2[1..] == [] && b2[1..] == [];
    assert Before(a2, b2) <==> Less(a[2], b[2]);
    assert Before(a1, b1) <==> Less(a[1], b[1]) || (a[1] == b[1] && Before(a2, b2));
  }
}
