/** Java's natural ordering of strings, `String.compareTo`.

    Node identifiers are compared character by character; the first
    differing pair decides by the difference of the two characters, and a
    proper prefix is smaller by the difference of the lengths.
 */
module JavaString {

  /** `k` is the first index at which `a` and `b` hold different characters. */
  predicate FirstDifferenceAt(a: string, b: string, k: nat) {
    k < |a| && k < |b| && a[..k] == b[..k] && a[k] != b[k]
  }

  /** `a.compareTo(b)`: negative, zero or positive as `a` sorts before, equal to or after `b`.
      It is zero exactly on identical strings. At the first index `k` where the two
      differ, the result is the difference of the characters there; when one string is a
      prefix of the other, it is the difference of the lengths. */
  function Compare(a: string, b: string): (r: int)
    ensures r == 0 <==> a == b
    ensures forall k: nat {:trigger FirstDifferenceAt(a, b, k)} :: FirstDifferenceAt(a, b, k) ==>
      r == a[k] as int - b[k] as int
    ensures a <= b || b <= a ==> r == |a| - |b|
    decreases |a|
  {
    if |a| == 0 || |b| == 0 then |a| - |b|
    else if a[0] != b[0] then a[0] as int - b[0] as int
    else
      FirstDifferenceShifts(a, b);
      Compare(a[1..], b[1..])
  }

  /** Past a common first character, the first difference of `a` and `b` is one index
      further on than that of their tails. */
  lemma FirstDifferenceShifts(a: string, b: string)
    requires 0 < |a| && 0 < |b| && a[0] == b[0]
    ensures forall k: nat :: FirstDifferenceAt(a, b, k) ==>
      0 < k && FirstDifferenceAt(a[1..], b[1..], k - 1) && a[1..][k - 1] == a[k] && b[1..][k - 1] == b[k]
  {
    forall k: nat | FirstDifferenceAt(a, b, k)
      ensures 0 < k && FirstDifferenceAt(a[1..], b[1..], k - 1)
    {
      if 0 < k {
        assert a[1..][..k - 1] == a[..k][1..];
        assert b[1..][..k - 1] == b[..k][1..];
      }
    }
  }

  /** The order `servers.sort(Comparable::compareTo)` sorts by. */
  predicate LessEq(a: string, b: string) {
    Compare(a, b) <= 0
  }

  lemma {:induction false} CompareAntisymmetric(a: string, b: string)
    ensures Compare(a, b) == -Compare(b, a)
    decreases |a|
  {
    if |a| != 0 && |b| != 0 && a[0] == b[0] {
      CompareAntisymmetric(a[1..], b[1..]);
    }
  }

  lemma LessEqReflexive(a: string)
    ensures LessEq(a, a)
  {
  }

  lemma LessEqAntisymmetric(a: string, b: string)
    requires LessEq(a, b) && LessEq(b, a)
    ensures a == b
  {
    CompareAntisymmetric(a, b);
  }

  lemma LessEqTotal(a: string, b: string)
    ensures LessEq(a, b) || LessEq(b, a)
  {
    CompareAntisymmetric(a, b);
  }

  lemma {:induction false} LessEqTransitive(a: string, b: string, c: string)
    requires LessEq(a, b) && LessEq(b, c)
    ensures LessEq(a, c)
    decreases |a|
  {
    if |a| != 0 && |b| != 0 && |c| != 0 && a[0] == b[0] && b[0] == c[0] {
      LessEqTransitive(a[1..], b[1..], c[1..]);
    }
  }
}
