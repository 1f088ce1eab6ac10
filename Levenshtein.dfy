// Edit distance, as the table recurrence of `levenshteinDistance` defines it:
// when the last characters agree the entry is the diagonal one, otherwise one
// more than the least of its three neighbours.

module Levenshtein {
  function Min3(x: nat, y: nat, z: nat): (m: nat)
    ensures m <= x && m <= y && m <= z && (m == x || m == y || m == z)
  {
    if x <= y && x <= z then x else if y <= z then y else z
  }

  /** The distance between the prefixes `a[..i]` and `b[..j]`. */
  function Dist(a: string, b: string, i: nat, j: nat): nat
    requires i <= |a| && j <= |b|
    decreases i + j
  {
    if i == 0 then j
    else if j == 0 then i
    else if a[i - 1] == b[j - 1] then Dist(a, b, i - 1, j - 1)
    else 1 + Min3(Dist(a, b, i - 1, j - 1), Dist(a, b, i, j - 1), Dist(a, b, i - 1, j))
  }

  /** The recurrence at an inner entry of the table. */
  lemma DistInner(a: string, b: string, i: nat, j: nat)
    requires 0 < i <= |a| && 0 < j <= |b|
    ensures Dist(a, b, i, j) == if a[i - 1] == b[j - 1] then Dist(a, b, i - 1, j - 1)
      else 1 + Min3(Dist(a, b, i - 1, j - 1), Dist(a, b, i, j - 1), Dist(a, b, i - 1, j))
  {
  }

  /** The edit distance of two strings. */
  function Distance(a: string, b: string): nat {
    Dist(a, b, |a|, |b|)
  }

  /** Equal prefixes are at distance 0. */
  lemma {:induction false} DistSelf(a: string, i: nat)
    requires i <= |a|
    ensures Dist(a, a, i, i) == 0
    decreases i
  {
    if i > 0 {
      DistSelf(a, i - 1);
    }
  }

  /** The recurrence does not care which string is which. */
  lemma {:induction false} DistSymmetric(a: string, b: string, i: nat, j: nat)
    requires i <= |a| && j <= |b|
    ensures Dist(a, b, i, j) == Dist(b, a, j, i)
    decreases i + j
  {
    if i > 0 && j > 0 {
      DistSymmetric(a, b, i - 1, j - 1);
      DistSymmetric(a, b, i, j - 1);
      DistSymmetric(a, b, i - 1, j);
      DistInner(a, b, i, j);
      DistInner(b, a, j, i);
      Min3Swap(Dist(a, b, i - 1, j - 1), Dist(a, b, i, j - 1), Dist(a, b, i - 1, j));
    }
  }

  lemma Min3Swap(x: nat, y: nat, z: nat)
    ensures Min3(x, y, z) == Min3(x, z, y)
  {
  }

  /** The distance is at least the difference of the lengths and at most the larger length. */
  lemma DistBounds(a: string, b: string, i: nat, j: nat)
    requires i <= |a| && j <= |b|
    ensures i - j <= Dist(a, b, i, j) && j - i <= Dist(a, b, i, j)
    ensures Dist(a, b, i, j) <= if i < j then j else i
  {
    DistAbove(a, b, i, j);
    DistBelow(a, b, i, j);
  }

  lemma {:induction false} DistAbove(a: string, b: string, i: nat, j: nat)
    requires i <= |a| && j <= |b|
    ensures i - j <= Dist(a, b, i, j) && j - i <= Dist(a, b, i, j)
    decreases i + j
  {
    if i > 0 && j > 0 {
      DistAbove(a, b, i - 1, j - 1);
      DistAbove(a, b, i, j - 1);
      DistAbove(a, b, i - 1, j);
      DistInner(a, b, i, j);
    }
  }

  lemma {:induction false} DistBelow(a: string, b: string, i: nat, j: nat)
    requires i <= |a| && j <= |b|
    ensures Dist(a, b, i, j) <= if i < j then j else i
    decreases i + j
  {
    if i > 0 && j > 0 {
      DistBelow(a, b, i - 1, j - 1);
      DistInner(a, b, i, j);
    }
  }

  /** Distance 0 means the prefixes are the same string. */
  lemma {:induction false} DistZero(a: string, b: string, i: nat, j: nat)
    requires i <= |a| && j <= |b|
    requires Dist(a, b, i, j) == 0
    ensures i == j && a[..i] == b[..j]
    decreases i + j
  {
    if i > 0 && j > 0 {
      DistZero(a, b, i - 1, j - 1);
      assert a[..i] == a[..i - 1] + [a[i - 1]];
      assert b[..j] == b[..j - 1] + [b[j - 1]];
    }
  }

  /** Prefixes with no character in common are as far apart as the longer one is long. */
  lemma {:induction false} DistApart(a: string, b: string, i: nat, j: nat)
    requires i <= |a| && j <= |b|
    requires forall k, l :: 0 <= k < i && 0 <= l < j ==> a[k] != b[l]
    ensures Dist(a, b, i, j) == if i < j then j else i
    decreases i + j
  {
    if i > 0 && j > 0 {
      DistApart(a, b, i - 1, j - 1);
      DistApart(a, b, i, j - 1);
      DistApart(a, b, i - 1, j);
      assert a[i - 1] != b[j - 1];
      DistInner(a, b, i, j);
    }
  }

  /**
   * `d(a, b) == 0` exactly when `a == b`, `d(a, "") == |a|`,
   * `d(a, b) == d(b, a)`, and `||a| - |b|| <= d(a, b) <= max(|a|, |b|)`.
   */
  lemma DistanceLaws(a: string, b: string)
    ensures Distance(a, b) == 0 <==> a == b
    ensures Distance(a, "") == |a| && Distance("", b) == |b|
    ensures Distance(a, b) == Distance(b, a)
    ensures |a| - |b| <= Distance(a, b) && |b| - |a| <= Distance(a, b)
    ensures Distance(a, b) <= if |a| < |b| then |b| else |a|
  {
    if a == b {
      DistSelf(a, |a|);
    }
    if Distance(a, b) == 0 {
      DistZero(a, b, |a|, |b|);
      assert a == a[..|a|] && b == b[..|b|];
    }
    DistSymmetric(a, b, |a|, |b|);
    DistBounds(a, b, |a|, |b|);
  }
}
