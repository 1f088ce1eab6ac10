// `array.sort((a, b) => key(b) - key(a))`: a stable sort by descending key.

module Sorting {
  /** Keys never increase along the sequence. */
  predicate SortedDesc<T>(s: seq<T>, key: T -> real) {
    forall i, j :: 0 <= i < j < |s| ==> key(s[i]) >= key(s[j])
  }

  /** Places `x` after every element whose key is at least its own. */
  function Insert<T>(s: seq<T>, x: T, key: T -> real): (r: seq<T>)
    ensures |r| == |s| + 1
    decreases |s|
  {
    if s == [] then [x]
    else if key(s[0]) < key(x) then [x] + s
    else [s[0]] + Insert(s[1..], x, key)
  }

  /** Insertion sort over ever longer prefixes, which keeps equal keys in input order. */
  function SortDesc<T>(s: seq<T>, key: T -> real): (r: seq<T>)
    ensures |r| == |s|
    decreases |s|
  {
    if s == [] then [] else Insert(SortDesc(s[..|s| - 1], key), s[|s| - 1], key)
  }

  lemma {:induction false} InsertSorted<T>(s: seq<T>, x: T, key: T -> real)
    requires SortedDesc(s, key)
    ensures SortedDesc(Insert(s, x, key), key)
    ensures Insert(s, x, key) != [] && (key(Insert(s, x, key)[0]) == key(x) || (s != [] && Insert(s, x, key)[0] == s[0]))
    decreases |s|
  {
    if s != [] && key(s[0]) >= key(x) {
      InsertSorted(s[1..], x, key);
      var r := Insert(s, x, key);
      assert r == [s[0]] + Insert(s[1..], x, key);
      forall i, j | 0 <= i < j < |r|
        ensures key(r[i]) >= key(r[j])
      {
        if i == 0 && j > 0 {
          var t := Insert(s[1..], x, key);
          assert r[j] == t[j - 1];
          if t[j - 1] != x {
            InsertMembers(s[1..], x, key, j - 1);
          }
        }
      }
    }
  }

  /** Every element of the result other than `x` comes from `s`. */
  lemma {:induction false} InsertMembers<T>(s: seq<T>, x: T, key: T -> real, k: nat)
    requires k < |s| + 1 && Insert(s, x, key)[k] != x
    ensures Insert(s, x, key)[k] in s
    decreases |s|
  {
    if s != [] && key(s[0]) >= key(x) && k > 0 {
      InsertMembers(s[1..], x, key, k - 1);
    }
  }

  lemma {:induction false} InsertPermutes<T>(s: seq<T>, x: T, key: T -> real)
    ensures multiset(Insert(s, x, key)) == multiset(s) + multiset{x}
    decreases |s|
  {
    if s != [] && key(s[0]) >= key(x) {
      InsertPermutes(s[1..], x, key);
      assert s == [s[0]] + s[1..];
    }
  }

  /** The sort orders by descending key and loses or adds nothing. */
  lemma {:induction false} SortDescLaws<T>(s: seq<T>, key: T -> real)
    ensures SortedDesc(SortDesc(s, key), key)
    ensures multiset(SortDesc(s, key)) == multiset(s)
    decreases |s|
  {
    if s != [] {
      var init := s[..|s| - 1];
      SortDescLaws(init, key);
      InsertSorted(SortDesc(init, key), s[|s| - 1], key);
      InsertPermutes(SortDesc(init, key), s[|s| - 1], key);
      assert s == init + [s[|s| - 1]];
    }
  }

  /** The sort has the same elements as its input. */
  lemma SortDescMembers<T>(s: seq<T>, key: T -> real)
    ensures forall x :: x in SortDesc(s, key) <==> x in s
  {
    SortDescLaws(s, key);
    forall x
      ensures x in SortDesc(s, key) <==> x in s
    {
      assert x in SortDesc(s, key) <==> x in multiset(SortDesc(s, key));
    }
  }

  /** A sequence already in order is left as it is. */
  lemma {:induction false} SortDescSorted<T>(s: seq<T>, key: T -> real)
    requires SortedDesc(s, key)
    ensures SortDesc(s, key) == s
    decreases |s|
  {
    if s != [] {
      var init := s[..|s| - 1];
      SortDescSorted(init, key);
      InsertLast(init, s[|s| - 1], key);
      assert s == init + [s[|s| - 1]];
    }
  }

  /** An element no greater than all others goes to the end. */
  lemma {:induction false} InsertLast<T>(s: seq<T>, x: T, key: T -> real)
    requires forall i :: 0 <= i < |s| ==> key(s[i]) >= key(x)
    ensures Insert(s, x, key) == s + [x]
    decreases |s|
  {
    if s != [] {
      InsertLast(s[1..], x, key);
      assert s == [s[0]] + s[1..];
    }
  }

  /** `slice(0, n)`. */
  function Take<T>(s: seq<T>, n: nat): (r: seq<T>)
    ensures |r| == if |s| < n then |s| else n
    ensures r == s[..|r|]
  {
    if |s| <= n then s else s[..n]
  }

  /** A prefix of a sorted sequence is sorted. */
  lemma TakeSorted<T>(s: seq<T>, key: T -> real, n: nat)
    requires SortedDesc(s, key)
    ensures SortedDesc(Take(s, n), key)
  {
  }
}
