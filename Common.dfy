/**
 * Small building blocks shared by every module of the model: an option type,
 * duplicate-free sequences and JavaScript's `[...new Set(xs)]`, the decimal
 * rendering of a natural number (template strings such as `${cId}~${idx}`),
 * the code-unit order JavaScript uses for `<` and `Array.prototype.sort()` on
 * strings, and insertion-ordered dictionaries (JavaScript `Map` and plain
 * objects used as dictionaries).
 */
module Common {

  datatype Option<T> = None | Some(value: T)

  /** No element occurs twice. */
  predicate Distinct<T(==)>(s: seq<T>) {
    forall i, j :: 0 <= i < j < |s| ==> s[i] != s[j]
  }

  lemma DistinctAppend<T>(s: seq<T>, x: T)
    requires Distinct(s) && x !in s
    ensures Distinct(s + [x])
  {
  }

  lemma ConcatAssoc<T>(a: seq<T>, b: seq<T>, c: seq<T>)
    ensures a + b + c == a + (b + c)
  {
  }

  /** Extending a prefix by one element. */
  lemma TakeSnoc<T>(s: seq<T>, t: nat)
    requires t < |s|
    ensures s[..t + 1] == s[..t] + [s[t]]
  {
  }

  /** A sequence that maps a prefix of `xs` through `f`, extended by the image of the next element. */
  lemma MapSnoc<A, B>(xs: seq<A>, ys: seq<B>, f: A -> B, y: B)
    requires |ys| < |xs|
    requires forall j :: 0 <= j < |ys| ==> ys[j] == f(xs[j])
    requires y == f(xs[|ys|])
    ensures forall j :: 0 <= j < |ys| + 1 ==> (ys + [y])[j] == f(xs[j])
  {
  }

  /** `[...new Set(s)]`: the first occurrence of each element, in order. */
  function Dedup<T(==,!new)>(s: seq<T>): (r: seq<T>)
    ensures Distinct(r)
    ensures forall x :: x in r <==> x in s
    ensures |r| <= |s|
    decreases |s|
  {
    if s == [] then []
    else
      var init := Dedup(s[..|s| - 1]);
      var last := s[|s| - 1];
      assert forall x :: x in s <==> x in s[..|s| - 1] || x == last;
      if last in init then init else init + [last]
  }

  /** Deduplicating a duplicate-free sequence changes nothing. */
  lemma {:induction false} DedupOfDistinct<T(!new)>(s: seq<T>)
    requires Distinct(s)
    ensures Dedup(s) == s
  {
    if s != [] {
      var init := s[..|s| - 1];
      assert Distinct(init);
      DedupOfDistinct(init);
      assert s[|s| - 1] !in init;
      assert init + [s[|s| - 1]] == s;
    }
  }

  /** `Dedup(s + [x])` appends `x` exactly when it is new. */
  lemma DedupSnoc<T(!new)>(s: seq<T>, x: T)
    ensures Dedup(s + [x]) == if x in Dedup(s) then Dedup(s) else Dedup(s) + [x]
  {
    assert (s + [x])[..|s + [x]| - 1] == s;
  }

  /** Deduplicating two sequences with no element in common deduplicates each. */
  lemma {:induction false} DedupDisjoint<T(!new)>(a: seq<T>, b: seq<T>)
    requires forall x :: x in a ==> x !in b
    ensures Dedup(a + b) == Dedup(a) + Dedup(b)
    decreases |b|
  {
    if b == [] {
      assert a + b == a;
    } else {
      var init, x := b[..|b| - 1], b[|b| - 1];
      assert b == init + [x];
      assert a + b == (a + init) + [x];
      assert forall y :: y in init ==> y in b;
      DedupDisjoint(a, init);
      DedupSnoc(a + init, x);
      DedupSnoc(init, x);
      assert x !in a && x !in Dedup(a);
      assert x in Dedup(a + init) <==> x in Dedup(init);
      ConcatAssoc(Dedup(a), Dedup(init), [x]);
    }
  }

  /** Keeps the elements satisfying `p`, in order. */
  function Filter<T(!new)>(s: seq<T>, p: T -> bool): (r: seq<T>)
    ensures |r| <= |s|
    ensures forall x :: x in r <==> x in s && p(x)
    decreases |s|
  {
    if s == [] then []
    else
      var init := Filter(s[..|s| - 1], p);
      assert forall x :: x in s <==> x in s[..|s| - 1] || x == s[|s| - 1];
      if p(s[|s| - 1]) then init + [s[|s| - 1]] else init
  }

  /** The first element `Filter` keeps is the first element of `s` that passes. */
  lemma {:induction false} FilterFirst<T(!new)>(s: seq<T>, p: T -> bool, k: nat)
    requires k < |s| && p(s[k]) && forall j :: 0 <= j < k ==> !p(s[j])
    ensures Filter(s, p) != [] && Filter(s, p)[0] == s[k]
  {
    var init := s[..|s| - 1];
    if k < |s| - 1 {
      FilterFirst(init, p, k);
    } else {
      FilterNone(init, p);
    }
  }

  /** `Filter` keeps nothing when nothing passes. */
  lemma {:induction false} FilterNone<T(!new)>(s: seq<T>, p: T -> bool)
    requires forall j :: 0 <= j < |s| ==> !p(s[j])
    ensures Filter(s, p) == []
  {
    if s != [] {
      FilterNone(s[..|s| - 1], p);
    }
  }

  lemma {:induction false} FilterDistinct<T(!new)>(s: seq<T>, p: T -> bool)
    requires Distinct(s)
    ensures Distinct(Filter(s, p))
  {
    if s != [] {
      var init := s[..|s| - 1];
      assert Distinct(init);
      FilterDistinct(init, p);
      assert s[|s| - 1] !in init;
    }
  }

  /** A duplicate-free sequence has as many elements as its set. */
  lemma {:induction false} DistinctCard<T>(s: seq<T>)
    requires Distinct(s)
    ensures |set x | x in s| == |s|
    decreases |s|
  {
    if s != [] {
      var init := s[..|s| - 1];
      assert Distinct(init);
      DistinctCard(init);
      assert (set x | x in s) == (set x | x in init) + {s[|s| - 1]};
      assert s[|s| - 1] !in (set x | x in init);
    }
  }

  /** Concatenation of a sequence of sequences. */
  function Flatten<V>(chunks: seq<seq<V>>): seq<V>
    decreases |chunks|
  {
    if chunks == [] then [] else Flatten(chunks[..|chunks| - 1]) + chunks[|chunks| - 1]
  }

  lemma FlattenSnoc<V>(chunks: seq<seq<V>>, x: seq<V>)
    ensures Flatten(chunks + [x]) == Flatten(chunks) + x
  {
    assert (chunks + [x])[..|chunks|] == chunks;
  }

  lemma {:induction false} FlattenCons<V>(x: seq<V>, rest: seq<seq<V>>)
    ensures Flatten([x] + rest) == x + Flatten(rest)
    decreases |rest|
  {
    if rest == [] {
      assert [x] + rest == [] + [x];
      FlattenSnoc([], x);
    } else {
      var init, last := rest[..|rest| - 1], rest[|rest| - 1];
      assert [x] + rest == ([x] + init) + [last];
      assert rest == init + [last];
      FlattenSnoc([x] + init, last);
      FlattenSnoc(init, last);
      FlattenCons(x, init);
      ConcatAssoc(x, Flatten(init), last);
    }
  }

  /** The sum of a sequence of reals. */
  function SumReals(s: seq<real>): real
    decreases |s|
  {
    if s == [] then 0.0 else SumReals(s[..|s| - 1]) + s[|s| - 1]
  }

  lemma {:induction false} SumRealsAppend(s: seq<real>, t: seq<real>)
    ensures SumReals(s + t) == SumReals(s) + SumReals(t)
    decreases |t|
  {
    if t == [] {
      assert s + t == s;
    } else {
      assert (s + t)[..|s + t| - 1] == s + t[..|t| - 1];
      SumRealsAppend(s, t[..|t| - 1]);
    }
  }

  /** Decimal digits of a natural number, as `${n}` renders it. */
  function NatToString(n: nat): (r: string)
    ensures |r| >= 1
    ensures forall i :: 0 <= i < |r| ==> '0' <= r[i] <= '9'
    decreases n
  {
    var d := [('0' as int + n % 10) as char];
    if n < 10 then d else NatToString(n / 10) + d
  }

  /** JavaScript's `<` on strings: lexicographic order of code units. */
  predicate LexLess(a: string, b: string)
    decreases |a|
  {
    if a == [] then b != []
    else if b == [] then false
    else if a[0] != b[0] then a[0] < b[0]
    else LexLess(a[1..], b[1..])
  }

  /** Two distinct strings are ordered one way and not the other. */
  lemma {:induction false} LexTrichotomy(a: string, b: string)
    ensures a == b || LexLess(a, b) || LexLess(b, a)
    ensures !(LexLess(a, b) && LexLess(b, a))
    ensures !LexLess(a, a)
    decreases |a|
  {
    if a != [] && b != [] && a[0] == b[0] {
      LexTrichotomy(a[1..], b[1..]);
      if a[1..] == b[1..] {
        assert a == [a[0]] + a[1..] && b == [b[0]] + b[1..];
      }
    } else if a != [] && a[0] == a[0] {
      LexTrichotomy(a[1..], a[1..]);
    }
  }

  /** The pair sorted as `[a, b].sort()` and `a < b ? [a, b] : [b, a]` sort it. */
  function SortedPair(a: string, b: string): (p: (string, string))
    ensures p == (a, b) || p == (b, a)
    ensures p.0 == p.1 || LexLess(p.0, p.1)
  {
    LexTrichotomy(a, b);
    if LexLess(b, a) then (b, a) else (a, b)
  }

  /** Sorting a pair forgets its orientation. */
  lemma SortedPairSymmetric(a: string, b: string)
    ensures SortedPair(a, b) == SortedPair(b, a)
  {
    LexTrichotomy(a, b);
  }

  /** Two pairs sort alike exactly when they hold the same two strings. */
  lemma SortedPairEq(a: string, b: string, x: string, y: string)
    ensures SortedPair(a, b) == SortedPair(x, y) <==> (a == x && b == y) || (a == y && b == x)
  {
    SortedPairSymmetric(a, b);
    SortedPairSymmetric(x, y);
    LexTrichotomy(a, b);
    LexTrichotomy(x, y);
  }

  /**
   * An insertion-ordered dictionary: the `keys` in insertion order and the
   * values. JavaScript `Map` and object iteration follow `keys`.
   */
  datatype OrdMap<K(!new), V> = OrdMap(keys: seq<K>, m: map<K, V>) {
    ghost predicate Valid() {
      Distinct(keys) && (forall k :: k in m <==> k in keys)
    }
  }

  function EmptyMap<K(!new), V>(): (r: OrdMap<K, V>)
    ensures r.Valid() && r.keys == [] && r.m == map[]
  {
    OrdMap([], map[])
  }

  /** `map.set(k, v)`: a new key goes last, an existing key keeps its place. */
  function Put<K(!new), V>(om: OrdMap<K, V>, k: K, v: V): (r: OrdMap<K, V>)
    ensures r.m == om.m[k := v]
    ensures r.keys == if k in om.m then om.keys else om.keys + [k]
  {
    if k in om.m then OrdMap(om.keys, om.m[k := v]) else OrdMap(om.keys + [k], om.m[k := v])
  }

  /** `Array.from(map.values())`: the values in insertion order. */
  function Values<K(!new), V>(om: OrdMap<K, V>): (r: seq<V>)
    requires om.Valid()
    ensures |r| == |om.keys| && forall i :: 0 <= i < |r| ==> r[i] == om.m[om.keys[i]]
  {
    seq(|om.keys|, i requires 0 <= i < |om.keys| => om.m[om.keys[i]])
  }

  /** `Put` keeps the keys duplicate-free and in step with the entries. */
  lemma PutValid<K(!new), V>(om: OrdMap<K, V>, k: K, v: V)
    requires om.Valid()
    ensures Put(om, k, v).Valid()
  {
    if k !in om.m {
      DistinctAppend(om.keys, k);
    }
  }

}
