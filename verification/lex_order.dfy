/**
 The order `std::string::operator<` puts on text: characters are compared
 position by position, the first difference decides, and a proper prefix is
 smaller than the longer text. Dafny's own `<` on sequences means "proper
 prefix" only, so the order is defined here explicitly.
 */
module LexOrder {

  /** Strict lexicographic order on text. */
  predicate Less(a: string, b: string)
    decreases |a|
  {
    if |b| == 0 then false
    else if |a| == 0 then true
    else if a[0] != b[0] then a[0] < b[0]
    else Less(a[1..], b[1..])
  }

  /** Non-strict order: `a` does not come after `b`. */
  predicate LessEq(a: string, b: string) {
    Less(a, b) || a == b
  }

  /**
   An independent description of the same order: either the texts first differ
   at a position where `a` has the smaller character, or `a` is a proper prefix
   of `b`.
   */
  ghost predicate DiffersFirstBelow(a: string, b: string) {
    || (exists k :: 0 <= k < |a| && k < |b| && a[..k] == b[..k] && a[k] < b[k])
    || (|a| < |b| && a == b[..|a|])
  }

  lemma {:induction false} LessIrreflexive(a: string)
    ensures !Less(a, a)
    decreases |a|
  {
    if |a| > 0 {
      LessIrreflexive(a[1..]);
    }
  }

  lemma {:induction false} LessAsymmetric(a: string, b: string)
    ensures !(Less(a, b) && Less(b, a))
    decreases |a|
  {
    if |a| > 0 && |b| > 0 && a[0] == b[0] {
      LessAsymmetric(a[1..], b[1..]);
    }
  }

  lemma {:induction false} LessTransitive(a: string, b: string, c: string)
    requires Less(a, b) && Less(b, c)
    ensures Less(a, c)
    decreases |a|
  {
    if |a| > 0 && a[0] == b[0] && b[0] == c[0] {
      LessTransitive(a[1..], b[1..], c[1..]);
    }
  }

  lemma {:induction false} LessTrichotomy(a: string, b: string)
    ensures a == b || Less(a, b) || Less(b, a)
    decreases |a|
  {
    if |a| > 0 && |b| > 0 && a[0] == b[0] {
      LessTrichotomy(a[1..], b[1..]);
      if a[1..] == b[1..] {
        assert a == [a[0]] + a[1..] && b == [b[0]] + b[1..];
      }
    }
  }

  /** `Less` is exactly "first difference is smaller, or proper prefix". */
  lemma LessIffDiffersFirstBelow(a: string, b: string)
    ensures Less(a, b) <==> DiffersFirstBelow(a, b)
  {
    if Less(a, b) {
      LessImpliesDiffersFirstBelow(a, b);
    }
    if DiffersFirstBelow(a, b) {
      DiffersFirstBelowImpliesLess(a, b);
    }
  }

  lemma {:induction false} LessImpliesDiffersFirstBelow(a: string, b: string)
    requires Less(a, b)
    ensures DiffersFirstBelow(a, b)
    decreases |a|
  {
    if |a| == 0 {
      assert a == b[..0];
    } else if a[0] != b[0] {
      assert a[..0] == b[..0];
    } else {
      LessImpliesDiffersFirstBelow(a[1..], b[1..]);
      if exists k :: 0 <= k < |a[1..]| && k < |b[1..]| && a[1..][..k] == b[1..][..k] && a[1..][k] < b[1..][k] {
        var k :| 0 <= k < |a[1..]| && k < |b[1..]| && a[1..][..k] == b[1..][..k] && a[1..][k] < b[1..][k];
        assert a[..k + 1] == [a[0]] + a[1..][..k];
        assert b[..k + 1] == [b[0]] + b[1..][..k];
      } else {
        assert a == [a[0]] + a[1..];
        assert b[..|a|] == [b[0]] + b[1..][..|a[1..]|];
      }
    }
  }

  lemma {:induction false} DiffersFirstBelowImpliesLess(a: string, b: string)
    requires DiffersFirstBelow(a, b)
    ensures Less(a, b)
    decreases |a|
  {
    if |a| > 0 && a[0] == b[0] {
      if exists k :: 0 <= k < |a| && k < |b| && a[..k] == b[..k] && a[k] < b[k] {
        var k :| 0 <= k < |a| && k < |b| && a[..k] == b[..k] && a[k] < b[k];
        assert k > 0;
        assert a[1..][..k - 1] == a[..k][1..];
        assert b[1..][..k - 1] == b[..k][1..];
      } else {
        assert a[1..] == b[1..][..|a[1..]|];
      }
      DiffersFirstBelowImpliesLess(a[1..], b[1..]);
    }
  }

  lemma LessEqTransitive(a: string, b: string, c: string)
    requires LessEq(a, b) && LessEq(b, c)
    ensures LessEq(a, c)
  {
    if Less(a, b) && Less(b, c) {
      LessTransitive(a, b, c);
    }
  }

  lemma LessEqAntisymmetric(a: string, b: string)
    requires LessEq(a, b) && LessEq(b, a)
    ensures a == b
  {
    LessAsymmetric(a, b);
  }

  /** `LessEq` is the negation of the reversed strict order, as `std::sort` relies on. */
  lemma LessEqIffNotLess(a: string, b: string)
    ensures LessEq(a, b) <==> !Less(b, a)
  {
    LessTrichotomy(a, b);
    LessAsymmetric(a, b);
    LessIrreflexive(a);
  }

  /** `LessEq` is a total order on text. */
  lemma LessEqTotalOrder()
    ensures forall a, b :: LessEq(a, b) || LessEq(b, a)
    ensures forall a, b, c :: LessEq(a, b) && LessEq(b, c) ==> LessEq(a, c)
    ensures forall a, b :: LessEq(a, b) && LessEq(b, a) ==> a == b
  {
    forall a, b ensures LessEq(a, b) || LessEq(b, a) {
      LessTrichotomy(a, b);
    }
    forall a, b, c | LessEq(a, b) && LessEq(b, c) ensures LessEq(a, c) {
      LessEqTransitive(a, b, c);
    }
    forall a, b | LessEq(a, b) && LessEq(b, a) ensures a == b {
      LessEqAntisymmetric(a, b);
    }
  }
}
