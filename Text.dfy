/** Case-insensitive string operations shared by every catalog operation.
    Java's equalsIgnoreCase, compareToIgnoreCase (and CASE_INSENSITIVE_ORDER,
    which is the same comparison) and toLowerCase().contains are all modelled
    through the single character fold below, so that they provably agree. */
module Text {

  /** Folds one character to lower case; only the ASCII letters A-Z change. */
  function Fold(c: char): char
  {
    if 'A' <= c <= 'Z' then (c as int - 'A' as int + 'a' as int) as char else c
  }

  /** String.toLowerCase: the string with every character folded. */
  function Lower(s: string): (r: string)
    ensures |r| == |s|
    ensures forall i :: 0 <= i < |s| ==> r[i] == Fold(s[i])
  {
    if s == [] then [] else [Fold(s[0])] + Lower(s[1..])
  }

  /** String.equalsIgnoreCase: same length and the characters agree after folding. */
  predicate EqualsIgnoreCase(a: string, b: string)
    ensures a == b ==> EqualsIgnoreCase(a, b)
    ensures EqualsIgnoreCase(a, b) ==> |a| == |b|
  {
    |a| == |b| && forall i :: 0 <= i < |a| ==> Fold(a[i]) == Fold(b[i])
  }

  /** String.compareToIgnoreCase: the difference of the first pair of folded
      characters that differ, or else the difference of the lengths. */
  function CompareIgnoreCase(a: string, b: string): (r: int)
    ensures r == 0 ==> |a| == |b|
  {
    if a == [] || b == [] then |a| - |b|
    else if Fold(a[0]) != Fold(b[0]) then Fold(a[0]) as int - Fold(b[0]) as int
    else CompareIgnoreCase(a[1..], b[1..])
  }

  /** When one string is, ignoring case, a prefix of the other, the
      comparison is the difference of the lengths. */
  lemma {:induction false} ComparePrefix(a: string, b: string)
    requires |a| <= |b| && EqualsIgnoreCase(a, b[..|a|])
    ensures CompareIgnoreCase(a, b) == |a| - |b|
    ensures CompareIgnoreCase(b, a) == |b| - |a|
  {
    if a != [] {
      assert Fold(a[0]) == Fold(b[..|a|][0]);
      assert b[1..][..|a| - 1] == b[..|a|][1..];
      forall i | 0 <= i < |a| - 1 ensures Fold(a[1..][i]) == Fold(b[1..][..|a| - 1][i]) {
        assert a[1..][i] == a[i + 1] && b[1..][..|a| - 1][i] == b[..|a|][i + 1];
      }
      ComparePrefix(a[1..], b[1..]);
    }
  }

  /** compareToIgnoreCase answers 0 exactly when equalsIgnoreCase holds. */
  lemma {:induction false} CompareZeroIffEquals(a: string, b: string)
    ensures CompareIgnoreCase(a, b) == 0 <==> EqualsIgnoreCase(a, b)
  {
    if a != [] && b != [] && Fold(a[0]) == Fold(b[0]) {
      CompareZeroIffEquals(a[1..], b[1..]);
      if EqualsIgnoreCase(a[1..], b[1..]) {
        forall i | 0 < i < |a| ensures Fold(a[i]) == Fold(b[i]) {
          assert a[i] == a[1..][i - 1] && b[i] == b[1..][i - 1];
        }
      }
      if EqualsIgnoreCase(a, b) {
        forall i | 0 <= i < |a| - 1 ensures Fold(a[1..][i]) == Fold(b[1..][i]) {
          assert a[1..][i] == a[i + 1] && b[1..][i] == b[i + 1];
        }
      }
    } else if a != [] && b != [] {
      assert !EqualsIgnoreCase(a, b);
    }
  }

  /** Whether prefix is an initial segment of s. */
  predicate StartsWith(s: string, prefix: string)
  {
    |prefix| <= |s| && s[..|prefix|] == prefix
  }

  /** String.contains: sub starts at some position of s (the empty string
      is contained in every string). */
  predicate Contains(s: string, sub: string)
    decreases |s|
  {
    StartsWith(s, sub) || (s != [] && Contains(s[1..], sub))
  }

  /** Lower-cased substring test, as the search does it. */
  predicate ContainsIgnoreCase(s: string, sub: string): (r: bool)
    ensures r ==> exists i :: OccursAt(Lower(s), Lower(sub), i)
    ensures (exists i :: OccursAt(Lower(s), Lower(sub), i)) ==> r
  {
    var folded, query := Lower(s), Lower(sub);
    ContainsIffOccurs(folded, query);
    Contains(folded, query)
  }

  /** Whether sub occurs in s starting at position i. */
  predicate OccursAt(s: string, sub: string, i: int)
  {
    0 <= i && i + |sub| <= |s| && s[i..i + |sub|] == sub
  }

  /** The recursive scan finds sub exactly when it occurs at some position. */
  lemma {:induction false} ContainsIffOccurs(s: string, sub: string)
    ensures Contains(s, sub) <==> exists i :: OccursAt(s, sub, i)
  {
    if Contains(s, sub) {
      if StartsWith(s, sub) {
        assert OccursAt(s, sub, 0);
      } else {
        ContainsIffOccurs(s[1..], sub);
        var i :| OccursAt(s[1..], sub, i);
        assert s[1..][i..i + |sub|] == s[i + 1..i + 1 + |sub|];
        assert OccursAt(s, sub, i + 1);
      }
    }
    if exists i :: OccursAt(s, sub, i) {
      var i :| OccursAt(s, sub, i);
      if i == 0 {
        assert StartsWith(s, sub);
      } else {
        assert s[1..][i - 1..i - 1 + |sub|] == s[i..i + |sub|];
        assert OccursAt(s[1..], sub, i - 1);
        ContainsIffOccurs(s[1..], sub);
      }
    }
  }

  lemma EqualsIgnoreCaseIffLower(a: string, b: string)
    ensures EqualsIgnoreCase(a, b) <==> Lower(a) == Lower(b)
  {
    if Lower(a) == Lower(b) {
      forall i | 0 <= i < |a| ensures Fold(a[i]) == Fold(b[i]) {
        assert Lower(a)[i] == Lower(b)[i];
      }
    }
  }

  /** Equality ignoring case is an equivalence relation. */
  lemma EqualsIgnoreCaseEquivalence(a: string, b: string, c: string)
    ensures EqualsIgnoreCase(a, a)
    ensures EqualsIgnoreCase(a, b) ==> EqualsIgnoreCase(b, a)
    ensures EqualsIgnoreCase(a, b) && EqualsIgnoreCase(b, c) ==> EqualsIgnoreCase(a, c)
  {
  }

  /** Swapping the operands negates the comparison. */
  lemma {:induction false} CompareAntisymmetric(a: string, b: string)
    ensures CompareIgnoreCase(b, a) == -CompareIgnoreCase(a, b)
  {
    if a != [] && b != [] && Fold(a[0]) == Fold(b[0]) {
      CompareAntisymmetric(a[1..], b[1..]);
    }
  }

  /** The comparison is a total preorder: "at most" is transitive. */
  lemma {:induction false} CompareTransitive(a: string, b: string, c: string)
    requires CompareIgnoreCase(a, b) <= 0 && CompareIgnoreCase(b, c) <= 0
    ensures CompareIgnoreCase(a, c) <= 0
  {
    if a != [] && b != [] && c != [] && Fold(a[0]) == Fold(b[0]) == Fold(c[0]) {
      CompareTransitive(a[1..], b[1..], c[1..]);
    }
  }

  /** A strict step followed by a non-strict one (either way round) is strict. */
  lemma CompareTransitiveStrict(a: string, b: string, c: string)
    requires CompareIgnoreCase(a, b) <= 0 && CompareIgnoreCase(b, c) <= 0
    requires CompareIgnoreCase(a, b) < 0 || CompareIgnoreCase(b, c) < 0
    ensures CompareIgnoreCase(a, c) < 0
  {
    CompareTransitive(a, b, c);
    if CompareIgnoreCase(a, c) == 0 {
      CompareAntisymmetric(a, c);
      CompareAntisymmetric(a, b);
      CompareAntisymmetric(b, c);
      if CompareIgnoreCase(a, b) < 0 {
        CompareTransitive(b, c, a);
      } else {
        CompareTransitive(c, a, b);
      }
    }
  }
}
