/**
 * The insertion-ordered grouping of `src/extractors/base-extractor.js`:
 * `if (!m.has(k)) m.set(k, []); m.get(k).push(v)` over a sequence of
 * values, and the per-key concatenation of several such maps.
 */
module Grouping {
  import opened Common

  /** `if (!m.has(k)) m.set(k, []); m.get(k).push(...vs)`. */
  function Extend<K(!new), V>(om: OrdMap<K, seq<V>>, k: K, vs: seq<V>): OrdMap<K, seq<V>> {
    Put(om, k, (if k in om.m then om.m[k] else []) + vs)
  }

  /** The groups of `vs` by `key`, keys in order of first appearance. */
  function GroupBy<K(!new), V>(vs: seq<V>, key: V -> K): OrdMap<K, seq<V>>
    decreases |vs|
  {
    if vs == [] then EmptyMap()
    else Extend(GroupBy(vs[..|vs| - 1], key), key(vs[|vs| - 1]), [vs[|vs| - 1]])
  }

  /** The elements of `vs` whose key is `k`, in order. */
  function Members<K(==), V>(vs: seq<V>, key: V -> K, k: K): seq<V>
    decreases |vs|
  {
    if vs == [] then []
    else Members(vs[..|vs| - 1], key, k) + (if key(vs[|vs| - 1]) == k then [vs[|vs| - 1]] else [])
  }

  /** The key of every element, in order. */
  function KeysOf<K, V>(vs: seq<V>, key: V -> K): seq<K>
    decreases |vs|
  {
    if vs == [] then [] else KeysOf(vs[..|vs| - 1], key) + [key(vs[|vs| - 1])]
  }

  lemma GroupBySnoc<K(!new), V>(vs: seq<V>, v: V, key: V -> K)
    ensures GroupBy(vs + [v], key) == Extend(GroupBy(vs, key), key(v), [v])
    ensures Members(vs + [v], key, key(v)) == Members(vs, key, key(v)) + [v]
  {
    assert (vs + [v])[..|vs|] == vs;
  }

  lemma {:induction false} GroupByValid<K(!new), V>(vs: seq<V>, key: V -> K)
    ensures GroupBy(vs, key).Valid()
    decreases |vs|
  {
    if vs != [] {
      var init := vs[..|vs| - 1];
      var last := vs[|vs| - 1];
      GroupByValid(init, key);
      var g := GroupBy(init, key);
      PutValid(g, key(last), (if key(last) in g.m then g.m[key(last)] else []) + [last]);
    }
  }

  /** The groups come in order of the first appearance of their key. */
  lemma {:induction false} GroupByKeys<K(!new), V>(vs: seq<V>, key: V -> K)
    ensures GroupBy(vs, key).keys == Dedup(KeysOf(vs, key))
    decreases |vs|
  {
    if vs != [] {
      var init := vs[..|vs| - 1];
      var k := key(vs[|vs| - 1]);
      GroupByKeys(init, key);
      GroupByValid(init, key);
      assert KeysOf(vs, key) == KeysOf(init, key) + [k];
      DedupSnoc(KeysOf(init, key), k);
    }
  }

  /** A key has a group exactly when some element has it, and the group holds those elements in order. */
  lemma {:induction false} GroupByEntry<K(!new), V>(vs: seq<V>, key: V -> K, k: K)
    ensures k in GroupBy(vs, key).m <==> Members(vs, key, k) != []
    ensures k in GroupBy(vs, key).m ==> GroupBy(vs, key).m[k] == Members(vs, key, k)
    decreases |vs|
  {
    if vs != [] {
      var init := vs[..|vs| - 1];
      GroupByEntry(init, key, k);
    }
  }

  /* ------------------------------ combining per-chunk maps ------------------------------ */

  /** Extending `acc` by the groups of `om` listed in `keys`, in that order. */
  function MergeKeys<K(!new), V>(acc: OrdMap<K, seq<V>>, om: OrdMap<K, seq<V>>, keys: seq<K>): OrdMap<K, seq<V>>
    requires forall k :: k in keys ==> k in om.m
    decreases |keys|
  {
    if keys == [] then acc
    else
      var k := keys[|keys| - 1];
      Extend(MergeKeys(acc, om, keys[..|keys| - 1]), k, om.m[k])
  }

  /** The value a map holds for `k`, none being `[]`. */
  function Get<K(!new), V>(om: OrdMap<K, seq<V>>, k: K): seq<V> {
    if k in om.m then om.m[k] else []
  }

  /** Each listed key's group is appended once to what `acc` holds; other keys keep their value. */
  lemma {:induction false} MergeKeysEntry<K(!new), V>(acc: OrdMap<K, seq<V>>, om: OrdMap<K, seq<V>>, keys: seq<K>, k: K)
    requires forall x :: x in keys ==> x in om.m
    requires Distinct(keys)
    ensures k in MergeKeys(acc, om, keys).m <==> k in acc.m || k in keys
    ensures Get(MergeKeys(acc, om, keys), k) == Get(acc, k) + (if k in keys then om.m[k] else [])
    decreases |keys|
  {
    if keys != [] {
      var init := keys[..|keys| - 1];
      assert Distinct(init);
      MergeKeysEntry(acc, om, init, k);
      MergeKeysEntryStep(acc, om, keys, k);
    }
  }

  lemma MergeKeysEntryStep<K(!new), V>(acc: OrdMap<K, seq<V>>, om: OrdMap<K, seq<V>>, keys: seq<K>, k: K)
    requires forall x :: x in keys ==> x in om.m
    requires Distinct(keys) && keys != []
    requires k in MergeKeys(acc, om, keys[..|keys| - 1]).m <==> k in acc.m || k in keys[..|keys| - 1]
    requires Get(MergeKeys(acc, om, keys[..|keys| - 1]), k) == Get(acc, k) + (if k in keys[..|keys| - 1] then om.m[k] else [])
    ensures k in MergeKeys(acc, om, keys).m <==> k in acc.m || k in keys
    ensures Get(MergeKeys(acc, om, keys), k) == Get(acc, k) + (if k in keys then om.m[k] else [])
  {
    var init := keys[..|keys| - 1];
    assert keys == init + [keys[|keys| - 1]];
  }

  lemma {:induction false} MergeKeysValid<K(!new), V>(acc: OrdMap<K, seq<V>>, om: OrdMap<K, seq<V>>, keys: seq<K>)
    requires forall x :: x in keys ==> x in om.m
    requires acc.Valid()
    ensures MergeKeys(acc, om, keys).Valid()
    decreases |keys|
  {
    if keys != [] {
      var init := keys[..|keys| - 1];
      var k := keys[|keys| - 1];
      MergeKeysValid(acc, om, init);
      var g := MergeKeys(acc, om, init);
      PutValid(g, k, (if k in g.m then g.m[k] else []) + om.m[k]);
    }
  }

  lemma {:induction false} MergeKeysKeys<K(!new), V>(acc: OrdMap<K, seq<V>>, om: OrdMap<K, seq<V>>, keys: seq<K>)
    requires forall x :: x in keys ==> x in om.m
    requires acc.Valid()
    ensures MergeKeys(acc, om, keys).keys == Dedup(acc.keys + keys)
    decreases |keys|
  {
    if keys == [] {
      assert acc.keys + keys == acc.keys;
      DedupOfDistinct(acc.keys);
    } else {
      var init := keys[..|keys| - 1];
      var k := keys[|keys| - 1];
      MergeKeysKeys(acc, om, init);
      MergeKeysValid(acc, om, init);
      var g := MergeKeys(acc, om, init);
      assert g.keys == Dedup(acc.keys + init);
      assert k in g.m <==> k in Dedup(acc.keys + init);
      assert acc.keys + keys == (acc.keys + init) + [k];
      DedupSnoc(acc.keys + init, k);
    }
  }

  /** `for (const m of maps) for (const [k, vs] of m) combined.get(k).push(...vs)`. */
  function CombineAll<K(!new), V>(maps: seq<OrdMap<K, seq<V>>>): OrdMap<K, seq<V>>
    requires forall i :: 0 <= i < |maps| ==> maps[i].Valid()
    decreases |maps|
  {
    if maps == [] then EmptyMap()
    else
      var last := maps[|maps| - 1];
      assert last.Valid();
      MergeKeys(CombineAll(maps[..|maps| - 1]), last, last.keys)
  }

  /** The keys of all maps, one map after the other. */
  function AllKeys<K(!new), V>(maps: seq<OrdMap<K, seq<V>>>): seq<K>
    decreases |maps|
  {
    if maps == [] then [] else AllKeys(maps[..|maps| - 1]) + maps[|maps| - 1].keys
  }

  /** The values the maps hold for `k`, concatenated in map order. */
  function Concat<K(!new), V>(maps: seq<OrdMap<K, seq<V>>>, k: K): seq<V>
    decreases |maps|
  {
    if maps == [] then [] else Concat(maps[..|maps| - 1], k) + Get(maps[|maps| - 1], k)
  }

  /** The combined map holds, for every key, the groups of all maps for that key, in map order. */
  lemma {:induction false} CombineAllEntry<K(!new), V>(maps: seq<OrdMap<K, seq<V>>>, k: K)
    requires forall i :: 0 <= i < |maps| ==> maps[i].Valid()
    ensures k in CombineAll(maps).m <==> k in AllKeys(maps)
    ensures Get(CombineAll(maps), k) == Concat(maps, k)
    decreases |maps|
  {
    if maps != [] {
      var init := maps[..|maps| - 1];
      var last := maps[|maps| - 1];
      CombineAllEntry(init, k);
      MergeKeysEntry(CombineAll(init), last, last.keys, k);
      assert k in last.keys <==> k in last.m;
    }
  }

  /** The combined keys are the keys of all maps in order of first appearance. */
  lemma {:induction false} CombineAllKeys<K(!new), V>(maps: seq<OrdMap<K, seq<V>>>)
    requires forall i :: 0 <= i < |maps| ==> maps[i].Valid()
    ensures CombineAll(maps).Valid()
    ensures CombineAll(maps).keys == Dedup(AllKeys(maps))
    decreases |maps|
  {
    if maps != [] {
      var init := maps[..|maps| - 1];
      var last := maps[|maps| - 1];
      CombineAllKeys(init);
      MergeKeysValid(CombineAll(init), last, last.keys);
      MergeKeysKeys(CombineAll(init), last, last.keys);
      DedupConcat(AllKeys(init), last.keys);
    }
  }

  /** Deduplicating after appending equals deduplicating the deduplicated prefix and the suffix. */
  lemma {:induction false} DedupConcat<T(!new)>(s: seq<T>, t: seq<T>)
    ensures Dedup(Dedup(s) + t) == Dedup(s + t)
    decreases |t|
  {
    if t == [] {
      assert Dedup(s) + t == Dedup(s) && s + t == s;
      DedupOfDistinct(Dedup(s));
    } else {
      var init := t[..|t| - 1];
      var x := t[|t| - 1];
      DedupConcat(s, init);
      assert Dedup(s) + t == (Dedup(s) + init) + [x];
      assert s + t == (s + init) + [x];
      DedupSnoc(Dedup(s) + init, x);
      DedupSnoc(s + init, x);
    }
  }

  /** No combined group is empty when no group of any map is. */
  lemma CombineAllNonEmpty<K(!new), V>(maps: seq<OrdMap<K, seq<V>>>, k: K)
    requires forall i :: 0 <= i < |maps| ==> maps[i].Valid()
    requires forall i, x :: 0 <= i < |maps| && x in maps[i].m ==> maps[i].m[x] != []
    requires k in CombineAll(maps).m
    ensures CombineAll(maps).m[k] != []
  {
    CombineAllEntry(maps, k);
    ConcatNonEmpty(maps, k);
  }

  lemma {:induction false} ConcatNonEmpty<K(!new), V>(maps: seq<OrdMap<K, seq<V>>>, k: K)
    requires forall i, x :: 0 <= i < |maps| && x in maps[i].m ==> maps[i].m[x] != []
    requires forall i :: 0 <= i < |maps| ==> maps[i].Valid()
    requires k in AllKeys(maps)
    ensures Concat(maps, k) != []
    decreases |maps|
  {
    var init := maps[..|maps| - 1];
    var last := maps[|maps| - 1];
    if k in last.keys {
      assert k in last.m;
    } else {
      ConcatNonEmpty(init, k);
    }
  }

  /** Combining the groups of the chunks is grouping all values, chunk after chunk. */
  lemma {:induction false} CombineGroups<K(!new), V>(chunks: seq<seq<V>>, key: V -> K, maps: seq<OrdMap<K, seq<V>>>, k: K)
    requires |maps| == |chunks|
    requires forall i :: 0 <= i < |maps| ==> maps[i] == GroupBy(chunks[i], key)
    ensures Concat(maps, k) == Members(Flatten(chunks), key, k)
    decreases |maps|
  {
    if maps != [] {
      var n := |maps| - 1;
      CombineGroups(chunks[..n], key, maps[..n], k);
      GroupByEntry(chunks[n], key, k);
      assert Flatten(chunks) == Flatten(chunks[..n]) + chunks[n];
      MembersAppend(Flatten(chunks[..n]), chunks[n], key, k);
    }
  }

  lemma {:induction false} MembersAppend<K, V>(a: seq<V>, b: seq<V>, key: V -> K, k: K)
    ensures Members(a + b, key, k) == Members(a, key, k) + Members(b, key, k)
    decreases |b|
  {
    if b == [] {
      assert a + b == a;
    } else {
      var init := b[..|b| - 1];
      assert (a + b)[..|a + b| - 1] == a + init;
      MembersAppend(a, init, key, k);
    }
  }
}
