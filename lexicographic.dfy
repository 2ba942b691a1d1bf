/**
 * Lexicographic order on strings, character by character, comparing
 * characters by code point. Dafny's own `<` on sequences is the proper-prefix
 * relation, so the order the ordering check relies on is defined here.
 */
module Lexicographic {

  /** `a` sorts strictly before `b`. */
  predicate Less(a: string, b: string)
    decreases |a|
  {
    if |a| == 0 then |b| > 0
    else if |b| == 0 then false
    else if a[0] != b[0] then a[0] < b[0]
    else Less(a[1..], b[1..])
  }

  predicate LessOrEqual(a: string, b: string)
  {
    Less(a, b) || a == b
  }

  /** `a` and `b` agree before position `k` and `a` has the smaller character there. */
  predicate FirstDifferenceBelow(a: string, b: string, k: nat)
  {
    k < |a| && k < |b| && a[..k] == b[..k] && a[k] < b[k]
  }

  lemma {:induction false} LessIrreflexive(a: string)
    ensures !Less(a, a)
    decreases |a|
  {
    if |a| > 0 {
      LessIrreflexive(a[1..]);
    }
  }

  lemma {:induction false} LessTransitive(a: string, b: string, c: string)
    requires Less(a, b) && Less(b, c)
    ensures Less(a, c)
    decreases |a|
  {
    if |a| > 0 && a[0] == b[0] && b[0] == c[0] {
      LessTransitive(a[1..], b[1..], c[1..]);
    }
  }

  lemma LessAsymmetric(a: string, b: string)
    requires Less(a, b)
    ensures !Less(b, a)
  {
    if Less(b, a) {
      LessTransitive(a, b, a);
      LessIrreflexive(a);
    }
  }

  /** Any two different strings are ordered one way or the other. */
  lemma {:induction false} LessTotal(a: string, b: string)
    ensures a == b || Less(a, b) || Less(b, a)
    decreases |a|
  {
    if |a| > 0 && |b| > 0 && a[0] == b[0] {
      LessTotal(a[1..], b[1..]);
      if a[1..] == b[1..] {
        assert a == [a[0]] + a[1..] && b == [b[0]] + b[1..];
      }
    }
  }

  /** `b` does not sort strictly before `a` exactly when `a` sorts before or equals `b`. */
  lemma NotLessIsLessOrEqual(a: string, b: string)
    ensures !Less(b, a) <==> LessOrEqual(a, b)
  {
    LessTotal(a, b);
    if Less(a, b) {
      LessAsymmetric(a, b);
    }
    if a == b {
      LessIrreflexive(a);
    }
  }

  lemma LessOrEqualTransitive(a: string, b: string, c: string)
    requires LessOrEqual(a, b) && LessOrEqual(b, c)
    ensures LessOrEqual(a, c)
  {
    if Less(a, b) && Less(b, c) {
      LessTransitive(a, b, c);
    }
  }

  /**
   * The usual textbook definition: `a` sorts before `b` exactly when `a` is a
   * proper prefix of `b` (Dafny's `a < b` on sequences) or the two first
   * differ at a position where `a` has the smaller character.
   */
  lemma {:induction false} LessCharacterization(a: string, b: string)
    ensures Less(a, b) <==> a < b || exists k: nat :: FirstDifferenceBelow(a, b, k)
    decreases |a|
  {
    if |a| == 0 || |b| == 0 {
      if |a| == 0 && |b| > 0 {
        assert a == b[..0];
      }
      assert forall k: nat :: !FirstDifferenceBelow(a, b, k);
    } else if a[0] != b[0] {
      if a[0] < b[0] {
        assert FirstDifferenceBelow(a, b, 0);
      }
    } else {
      LessCharacterization(a[1..], b[1..]);
      assert a == [a[0]] + a[1..] && b == [b[0]] + b[1..];
      if a[1..] < b[1..] {
        assert a < b;
      }
      if a < b {
        assert a[1..] < b[1..];
      }
      forall k: nat | FirstDifferenceBelow(a[1..], b[1..], k)
        ensures FirstDifferenceBelow(a, b, k + 1)
      {
        assert a[..k + 1] == [a[0]] + a[1..][..k];
        assert b[..k + 1] == [b[0]] + b[1..][..k];
      }
      forall k: nat | FirstDifferenceBelow(a, b, k)
        ensures k > 0 && FirstDifferenceBelow(a[1..], b[1..], k - 1)
      {
        assert a[1..][..k - 1] == a[..k][1..];
        assert b[1..][..k - 1] == b[..k][1..];
      }
    }
  }
}
