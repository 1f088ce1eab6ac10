/**
 * What the searches of `FullTextSearch` return, as functions of the
 * indices and the query: fuzzy matching by edit distance, the per-document
 * tally behind `searchByBigram` and `searchByKeywords`, the weighted blend
 * of `search` and the fallback order of `searchSequentially`.
 */
module SearchRanking {
  import opened Common
  import opened SearchText
  import opened SearchIndex
  import opened Sorting
  import Levenshtein
  import opened Grouping
  import opened PropertyGraphs

  // ---------------------------------------------------------------------
  // fuzzySearch

  /** A fuzzy match `{ ...candidate, similarity, distance }`. */
  datatype FuzzyHit = FuzzyHit(doc: Doc, similarity: real, distance: nat)

  /** `Math.max`. */
  function Longer(x: nat, y: nat): nat {
    if x < y then y else x
  }

  /** `1 - distance / maxLength`, defined when the strings are not both empty. */
  function Similarity(q: string, t: string): real
    requires q != [] || t != []
  {
    1.0 - (Levenshtein.Distance(q, t) as real) / (Longer(|q|, |t|) as real)
  }

  /**
   * `similarity >= threshold`. With both strings empty the similarity is
   * `0 / 0`, NaN, and the comparison is false.
   */
  predicate Close(q: string, t: string, threshold: real) {
    (q != [] || t != []) && Similarity(q, t) >= threshold
  }

  /** The match record for candidate `c`. */
  function HitFor(q: string, c: Doc): FuzzyHit
    requires q != [] || c.text != []
  {
    FuzzyHit(c, Similarity(q, c.text), Levenshtein.Distance(q, c.text))
  }

  /** The candidates close to `q`, in candidate order, before sorting. */
  function Matches(q: string, cands: seq<Doc>, threshold: real): seq<FuzzyHit>
    decreases |cands|
  {
    if cands == [] then []
    else
      var c := cands[|cands| - 1];
      Matches(q, cands[..|cands| - 1], threshold) + (if Close(q, c.text, threshold) then [HitFor(q, c)] else [])
  }

  function SimilarityOf(h: FuzzyHit): real {
    h.similarity
  }

  /** `fuzzySearch(query, candidates, threshold)`, the query normalised to `q`. */
  function Fuzzy(q: string, cands: seq<Doc>, threshold: real): seq<FuzzyHit> {
    SortDesc(Matches(q, cands, threshold), SimilarityOf)
  }

  /** A match is the record of a close candidate, and every close candidate has one. */
  lemma {:induction false} MatchesIff(q: string, cands: seq<Doc>, threshold: real)
    ensures forall h :: h in Matches(q, cands, threshold) <==> h.doc in cands && Close(q, h.doc.text, threshold) && h == HitFor(q, h.doc)
    decreases |cands|
  {
    if cands != [] {
      var init := cands[..|cands| - 1];
      MatchesIff(q, init, threshold);
      assert forall x :: x in cands <==> x in init || x == cands[|cands| - 1];
    }
  }

  /** A similarity lies in [0, 1], and is 1 exactly for equal strings. */
  lemma SimilarityBounds(q: string, t: string)
    requires q != [] || t != []
    ensures 0.0 <= Similarity(q, t) <= 1.0
    ensures Similarity(q, t) == 1.0 <==> q == t
  {
    Levenshtein.DistanceLaws(q, t);
    var d, m := Levenshtein.Distance(q, t) as real, Longer(|q|, |t|) as real;
    assert d <= m;
    RatioBounds(d, m);
  }

  lemma RatioBounds(d: real, m: real)
    requires 0.0 <= d <= m && m > 0.0
    ensures 0.0 <= d / m <= 1.0
    ensures d / m == 0.0 <==> d == 0.0
  {
  }

  /**
   * The fuzzy results are the close candidates' records, each with a
   * similarity in [threshold, 1], sorted by descending similarity.
   */
  lemma FuzzyLaws(q: string, cands: seq<Doc>, threshold: real)
    ensures SortedDesc(Fuzzy(q, cands, threshold), SimilarityOf)
    ensures multiset(Fuzzy(q, cands, threshold)) == multiset(Matches(q, cands, threshold))
    ensures forall h :: h in Fuzzy(q, cands, threshold) <==> h.doc in cands && Close(q, h.doc.text, threshold) && h == HitFor(q, h.doc)
    ensures forall h :: h in Fuzzy(q, cands, threshold) ==> threshold <= h.similarity <= 1.0
  {
    var m := Matches(q, cands, threshold);
    SortDescLaws(m, SimilarityOf);
    SortDescMembers(m, SimilarityOf);
    MatchesIff(q, cands, threshold);
    forall h | h in m
      ensures threshold <= h.similarity <= 1.0
    {
      HitBounds(q, h, threshold);
    }
  }

  /** The record of a close candidate has a similarity in [threshold, 1]. */
  lemma HitBounds(q: string, h: FuzzyHit, threshold: real)
    requires Close(q, h.doc.text, threshold) && h == HitFor(q, h.doc)
    ensures threshold <= h.similarity <= 1.0
  {
    SimilarityBounds(q, h.doc.text);
  }

  // ---------------------------------------------------------------------
  // searchByBigram and searchByKeywords

  /** A result record `{ ...item, score, matchedBigrams }` (or `matchedKeywords`). */
  datatype Hit = Hit(doc: Doc, score: nat, matched: seq<string>)

  /** The `results` map, keyed by `${type}:${id}`, in insertion order. */
  type Tally = OrdMap<Key, Hit>

  /**
   * One visited entry `d` of term `term`: the record for its key is made
   * from `d` if there is none, then its score goes up by one and the term
   * is appended to its matches.
   */
  function Bump(t: Tally, d: Doc, term: string): Tally {
    var k := KeyOf(d);
    var h := if k in t.m then t.m[k] else Hit(d, 0, []);
    Put(t, k, Hit(h.doc, h.score + 1, h.matched + [term]))
  }

  /** `index.get(term).forEach(item => ...)`. */
  function BumpAll(t: Tally, docs: seq<Doc>, term: string): Tally
    decreases |docs|
  {
    if docs == [] then t else Bump(BumpAll(t, docs[..|docs| - 1], term), docs[|docs| - 1], term)
  }

  /** The `results` map after the loop over the query's terms; a term the index lacks adds nothing. */
  function TallyOf(idx: Index, terms: seq<string>): Tally
    decreases |terms|
  {
    if terms == [] then EmptyMap()
    else
      var g := terms[|terms| - 1];
      BumpAll(TallyOf(idx, terms[..|terms| - 1]), Get(idx, g), g)
  }

  /** The index entries the loop visits, in order: each term's entries, a term once per occurrence. */
  function Entries(idx: Index, terms: seq<string>): seq<Doc>
    decreases |terms|
  {
    if terms == [] then [] else Entries(idx, terms[..|terms| - 1]) + Get(idx, terms[|terms| - 1])
  }

  /** How many of `docs` have key `k`. */
  function KeyCount(docs: seq<Doc>, k: Key): nat
    decreases |docs|
  {
    if docs == [] then 0 else KeyCount(docs[..|docs| - 1], k) + (if KeyOf(docs[|docs| - 1]) == k then 1 else 0)
  }

  /** The number of (term, entry) pairs the loop visits for key `k`. */
  function HitCount(idx: Index, terms: seq<string>, k: Key): nat {
    KeyCount(Entries(idx, terms), k)
  }

  function Score(t: Tally, k: Key): nat {
    if k in t.m then t.m[k].score else 0
  }

  lemma {:induction false} KeyCountAppend(a: seq<Doc>, b: seq<Doc>, k: Key)
    ensures KeyCount(a + b, k) == KeyCount(a, k) + KeyCount(b, k)
    decreases |b|
  {
    if b == [] {
      assert a + b == a;
    } else {
      var init := b[..|b| - 1];
      assert (a + b)[..|a + b| - 1] == a + init;
      KeyCountAppend(a, init, k);
    }
  }

  /** Some entry of `docs` has key `k` when the count is positive. */
  lemma {:induction false} KeyCountWitness(docs: seq<Doc>, k: Key) returns (d: Doc)
    requires KeyCount(docs, k) > 0
    ensures d in docs && KeyOf(d) == k
    decreases |docs|
  {
    var init := docs[..|docs| - 1];
    if KeyOf(docs[|docs| - 1]) == k {
      d := docs[|docs| - 1];
    } else {
      d := KeyCountWitness(init, k);
    }
  }

  /**
   * What the record for key `k` holds: it exists exactly when some visited
   * entry has that key, its score counts those entries, it was made from one
   * of them, and it lists one term matched per visit.
   */
  ghost predicate HitOk(idx: Index, terms: seq<string>, t: Tally, k: Key) {
    && (k in t.m <==> HitCount(idx, terms, k) > 0)
    && Score(t, k) == HitCount(idx, terms, k)
    && (k in t.m ==>
          && KeyOf(t.m[k].doc) == k
          && t.m[k].doc in Entries(idx, terms)
          && |t.m[k].matched| == t.m[k].score
          && (forall w :: w in t.m[k].matched ==> w in terms && KeyCount(Get(idx, w), k) > 0))
  }

  lemma {:induction false} BumpAllValid(t: Tally, docs: seq<Doc>, term: string)
    requires t.Valid()
    ensures BumpAll(t, docs, term).Valid()
    decreases |docs|
  {
    if docs != [] {
      var init := docs[..|docs| - 1];
      BumpAllValid(t, init, term);
      var p := BumpAll(t, init, term);
      var d := docs[|docs| - 1];
      var h := if KeyOf(d) in p.m then p.m[KeyOf(d)] else Hit(d, 0, []);
      PutValid(p, KeyOf(d), Hit(h.doc, h.score + 1, h.matched + [term]));
    }
  }

  /** The record for `k` after one term's entries, in terms of the record before. */
  lemma {:induction false} BumpAllAt(t: Tally, docs: seq<Doc>, term: string, k: Key)
    ensures k in BumpAll(t, docs, term).m <==> k in t.m || KeyCount(docs, k) > 0
    ensures Score(BumpAll(t, docs, term), k) == Score(t, k) + KeyCount(docs, k)
    ensures k in t.m ==> BumpAll(t, docs, term).m[k].doc == t.m[k].doc
    ensures k !in t.m && k in BumpAll(t, docs, term).m ==> BumpAll(t, docs, term).m[k].doc in docs && KeyOf(BumpAll(t, docs, term).m[k].doc) == k
    ensures k in BumpAll(t, docs, term).m ==>
      |BumpAll(t, docs, term).m[k].matched| == (if k in t.m then |t.m[k].matched| else 0) + KeyCount(docs, k)
    ensures k in BumpAll(t, docs, term).m ==>
      forall w :: w in BumpAll(t, docs, term).m[k].matched ==> (k in t.m && w in t.m[k].matched) || (w == term && KeyCount(docs, k) > 0)
    decreases |docs|
  {
    if docs != [] {
      var init := docs[..|docs| - 1];
      BumpAllAt(t, init, term, k);
    }
  }

  lemma {:induction false} TallyValid(idx: Index, terms: seq<string>)
    ensures TallyOf(idx, terms).Valid()
    decreases |terms|
  {
    if terms != [] {
      var init := terms[..|terms| - 1];
      TallyValid(idx, init);
      BumpAllValid(TallyOf(idx, init), Get(idx, terms[|terms| - 1]), terms[|terms| - 1]);
    }
  }

  /** Every key's record is as `HitOk` describes. */
  lemma {:induction false} TallyAt(idx: Index, terms: seq<string>, k: Key)
    ensures HitOk(idx, terms, TallyOf(idx, terms), k)
    decreases |terms|
  {
    if terms != [] {
      var init := terms[..|terms| - 1];
      var g := terms[|terms| - 1];
      var prev := TallyOf(idx, init);
      var r := TallyOf(idx, terms);
      TallyAt(idx, init, k);
      BumpAllAt(prev, Get(idx, g), g, k);
      KeyCountAppend(Entries(idx, init), Get(idx, g), k);
      assert forall w :: w in init ==> w in terms;
      if k in r.m {
        assert r.m[k].doc in Entries(idx, terms) by {
          if k in prev.m {
            assert r.m[k].doc in Entries(idx, init);
          }
        }
      }
    }
  }

  /** A ranked record `{ ...result, relevance }`. */
  datatype Ranked = Ranked(hit: Hit, relevance: real)

  function ScoreOf(h: Hit): real {
    h.score as real
  }

  function RankScore(r: Ranked): real {
    r.hit.score as real
  }

  /** `.map(result => ({ ...result, relevance: result.score / n }))`. */
  function WithRelevance(s: seq<Hit>, n: nat): (r: seq<Ranked>)
    requires n > 0
    ensures |r| == |s| && forall i :: 0 <= i < |r| ==> r[i] == Ranked(s[i], s[i].score as real / n as real)
  {
    seq(|s|, i requires 0 <= i < |s| => Ranked(s[i], s[i].score as real / n as real))
  }

  /**
   * `searchByBigram` and `searchByKeywords` once the query's terms are
   * known: the records sorted by descending score, each with
   * `relevance = score / terms.length`. With no terms the loop visits
   * nothing and the list is empty.
   */
  function Rank(idx: Index, terms: seq<string>): seq<Ranked> {
    if terms == [] then []
    else
      TallyValid(idx, terms);
      WithRelevance(SortDesc(Values(TallyOf(idx, terms)), ScoreOf), |terms|)
  }

  /** A record of the tally: scored at least once, made from a visited entry, one match per visit. */
  ghost predicate HitOk1(idx: Index, terms: seq<string>, h: Hit) {
    var k := KeyOf(h.doc);
    && h.score == HitCount(idx, terms, k)
    && h.score >= 1
    && h.doc in Entries(idx, terms)
    && |h.matched| == h.score
    && (forall w :: w in h.matched ==> w in terms && KeyCount(Get(idx, w), k) > 0)
  }

  /** A ranked record: its hit is as `HitOk1` says and its relevance is its share of the terms. */
  ghost predicate RankedOk(idx: Index, terms: seq<string>, r: Ranked) {
    && terms != []
    && HitOk1(idx, terms, r.hit)
    && r.relevance == r.hit.score as real / |terms| as real
  }

  /** Every record of the tally is as `HitOk1` says. */
  lemma ValuesOk(idx: Index, terms: seq<string>)
    ensures TallyOf(idx, terms).Valid()
    ensures forall h :: h in Values(TallyOf(idx, terms)) ==> HitOk1(idx, terms, h)
  {
    var t := TallyOf(idx, terms);
    TallyValid(idx, terms);
    var v := Values(t);
    forall h | h in v
      ensures HitOk1(idx, terms, h)
    {
      var i :| 0 <= i < |v| && v[i] == h;
      TallyAt(idx, terms, t.keys[i]);
    }
  }

  /** Both result lists are sorted by descending score. */
  lemma RankSorted(idx: Index, terms: seq<string>)
    ensures SortedDesc(Rank(idx, terms), RankScore)
  {
    if terms != [] {
      TallyValid(idx, terms);
      var s := SortDesc(Values(TallyOf(idx, terms)), ScoreOf);
      SortDescLaws(Values(TallyOf(idx, terms)), ScoreOf);
      var r := Rank(idx, terms);
      assert r == WithRelevance(s, |terms|);
      forall i, j | 0 <= i < j < |r|
        ensures RankScore(r[i]) >= RankScore(r[j])
      {
        assert ScoreOf(s[i]) >= ScoreOf(s[j]);
      }
    }
  }

  /** Every ranked record is as `RankedOk` says. */
  lemma RankOk(idx: Index, terms: seq<string>)
    ensures forall r :: r in Rank(idx, terms) ==> RankedOk(idx, terms, r)
  {
    if terms != [] {
      ValuesOk(idx, terms);
      var v := Values(TallyOf(idx, terms));
      var s := SortDesc(v, ScoreOf);
      SortDescMembers(v, ScoreOf);
      var rs := Rank(idx, terms);
      assert rs == WithRelevance(s, |terms|);
      forall r | r in rs
        ensures RankedOk(idx, terms, r)
      {
        var i :| 0 <= i < |rs| && rs[i] == r;
        assert s[i] in v;
      }
    }
  }

  /** Every key some visited entry has gets a ranked record, and there is one record per key. */
  lemma RankComplete(idx: Index, terms: seq<string>, k: Key)
    requires HitCount(idx, terms, k) > 0
    ensures exists r :: r in Rank(idx, terms) && KeyOf(r.hit.doc) == k
  {
    TallyValid(idx, terms);
    TallyAt(idx, terms, k);
    var t := TallyOf(idx, terms);
    var v := Values(t);
    var i :| 0 <= i < |t.keys| && t.keys[i] == k;
    var s := SortDesc(v, ScoreOf);
    SortDescMembers(v, ScoreOf);
    assert v[i] in s;
    var j :| 0 <= j < |s| && s[j] == v[i];
    var rs := Rank(idx, terms);
    assert rs == WithRelevance(s, |terms|);
    assert rs[j].hit == v[i];
    assert rs[j] in rs;
  }

  lemma RankLength(idx: Index, terms: seq<string>)
    ensures |Rank(idx, terms)| == |TallyOf(idx, terms).keys|
  {
    TallyValid(idx, terms);
    if terms == [] {
      assert TallyOf(idx, terms).keys == [];
    }
  }

  // ---------------------------------------------------------------------
  // Keyword relevance

  /** No gram's entries hold two documents with the same key. */
  ghost predicate Single(idx: Index) {
    forall g, k :: KeyCount(Get(idx, g), k) <= 1
  }

  /** With each key at most once per term, a key is visited at most once per term. */
  lemma {:induction false} HitCountBound(idx: Index, terms: seq<string>, k: Key)
    requires Single(idx)
    ensures HitCount(idx, terms, k) <= |terms|
    decreases |terms|
  {
    if terms != [] {
      var init := terms[..|terms| - 1];
      HitCountBound(idx, init, k);
      KeyCountAppend(Entries(idx, init), Get(idx, terms[|terms| - 1]), k);
    }
  }

  /**
   * Over an index that holds each key at most once per entry list, as the
   * keyword index of a built graph does (`BuiltKeywordSingle`), every
   * relevance lies in (0, 1].
   */
  lemma KeywordRelevance(idx: Index, terms: seq<string>)
    requires Single(idx)
    ensures forall r :: r in Rank(idx, terms) ==> 0.0 < r.relevance <= 1.0
  {
    RankOk(idx, terms);
    forall r | r in Rank(idx, terms)
      ensures 0.0 < r.relevance <= 1.0
    {
      HitCountBound(idx, terms, KeyOf(r.hit.doc));
      RatioBounds(r.hit.score as real, |terms| as real);
    }
  }

  /** Every entry of the index has a key in `keys`. */
  ghost predicate KeysWithin(idx: Index, keys: set<Key>) {
    forall g, d :: d in Get(idx, g) ==> KeyOf(d) in keys
  }

  lemma {:induction false} KeyCountAbsent(docs: seq<Doc>, k: Key)
    requires forall d :: d in docs ==> KeyOf(d) != k
    ensures KeyCount(docs, k) == 0
    decreases |docs|
  {
    if docs != [] {
      KeyCountAbsent(docs[..|docs| - 1], k);
    }
  }

  lemma {:induction false} KeyCountCopies(d: Doc, n: nat, k: Key)
    ensures KeyCount(Copies(d, n), k) == if KeyOf(d) == k then n else 0
    decreases n
  {
    if n > 0 {
      KeyCountCopies(d, n - 1, k);
      assert Copies(d, n)[..n - 1] == Copies(d, n - 1);
    }
  }

  lemma {:induction false} OccurrencesDistinct(s: seq<string>, x: string)
    requires Distinct(s)
    ensures Occurrences(s, x) <= 1
    ensures x !in s ==> Occurrences(s, x) == 0
    decreases |s|
  {
    if s != [] {
      var init := s[..|s| - 1];
      OccurrencesDistinct(init, x);
      if s[|s| - 1] == x {
        assert x !in init;
      }
    }
  }

  /** Indexing a document with a new key under distinct words keeps every key at most once per list. */
  lemma AddSingle(idx: Index, words: seq<string>, d: Doc, keys: set<Key>)
    requires Single(idx) && KeysWithin(idx, keys) && KeyOf(d) !in keys && Distinct(words)
    ensures Single(AddAll(idx, words, d))
    ensures KeysWithin(AddAll(idx, words, d), keys + {KeyOf(d)})
  {
    var r := AddAll(idx, words, d);
    forall g, k
      ensures KeyCount(Get(r, g), k) <= 1
    {
      AddAllEntries(idx, words, d, g);
      OccurrencesDistinct(words, g);
      var c := Occurrences(words, g);
      KeyCountAppend(Get(idx, g), Copies(d, c), k);
      KeyCountCopies(d, c, k);
      if KeyOf(d) == k {
        KeyCountAbsent(Get(idx, g), k);
      }
    }
    forall g, x | x in Get(r, g)
      ensures KeyOf(x) in keys + {KeyOf(d)}
    {
      AddAllEntries(idx, words, d, g);
    }
  }

  /** The keys of the first `k` nodes' documents. */
  ghost function NodeKeys(g: GraphData, k: nat): set<Key> {
    set i | 0 <= i < k && i < |g.nodes| :: (NodeDoc, g.nodes[i])
  }

  /** The keys of the first `k` edges' documents. */
  ghost function EdgeKeys(g: GraphData, edgeKey: nat -> string, k: nat): set<Key> {
    set i | 0 <= i < k && i < |g.edges| :: (EdgeDoc, edgeKey(g.edges[i].key))
  }

  /** `graph.forEachEdge` renders distinct edges' keys distinctly. */
  ghost predicate Injective(edgeKey: nat -> string) {
    forall x, y :: edgeKey(x) == edgeKey(y) ==> x == y
  }

  /**
   * The keyword index `buildIndex` leaves holds each document at most once
   * per keyword: the keywords of one text are distinct and no two nodes or
   * edges share a key.
   */
  lemma BuiltKeywordSingle(g: GraphData, edgeKey: nat -> string)
    requires WellFormed(g) && Injective(edgeKey)
    ensures Single(IndexGraph(g, edgeKey).keyword)
  {
    NodesPassSingle(g);
    EdgesPassSingle(g, edgeKey, IndexNodes(NoIndices(), g, |g.nodes|), NodeKeys(g, |g.nodes|));
  }

  /** The `forEachNode` pass leaves the node documents, each at most once per keyword list. */
  lemma NodesPassSingle(g: GraphData)
    requires Distinct(g.nodes)
    ensures Single(IndexNodes(NoIndices(), g, |g.nodes|).keyword)
    ensures KeysWithin(IndexNodes(NoIndices(), g, |g.nodes|).keyword, NodeKeys(g, |g.nodes|))
  {
    var st := NoIndices();
    var i := 0;
    while i < |g.nodes|
      invariant 0 <= i <= |g.nodes|
      invariant st == IndexNodes(NoIndices(), g, i)
      invariant Single(st.keyword) && KeysWithin(st.keyword, NodeKeys(g, i))
    {
      var n := g.nodes[i];
      var at := if n in g.attrs then g.attrs[n] else NoAttrs();
      NodeKeysSnoc(g, i + 1);
      NodeStepSingle(st, n, at, NodeKeys(g, i));
      IndexNodesSnoc(NoIndices(), g, i, st);
      st := NodeStep(st, n, at);
      i := i + 1;
    }
  }

  /** The `forEachEdge` pass adds the edge documents, whose keys no node shares. */
  lemma EdgesPassSingle(g: GraphData, edgeKey: nat -> string, s: Indices, keys: set<Key>)
    requires Pairwise(g.edges) && Injective(edgeKey)
    requires Single(s.keyword) && KeysWithin(s.keyword, keys) && forall x :: x in keys ==> x.0 == NodeDoc
    ensures Single(IndexEdges(s, g, edgeKey, |g.edges|).keyword)
  {
    var st := s;
    var j := 0;
    while j < |g.edges|
      invariant 0 <= j <= |g.edges|
      invariant st == IndexEdges(s, g, edgeKey, j)
      invariant Single(st.keyword) && KeysWithin(st.keyword, keys + EdgeKeys(g, edgeKey, j))
    {
      var e := g.edges[j];
      EdgeFresh(g, edgeKey, keys, j);
      EdgeStepSingle(st, e, edgeKey, keys + EdgeKeys(g, edgeKey, j));
      IndexEdgesSnoc(s, g, edgeKey, j, st);
      st := EdgeStep(st, e, edgeKey);
      j := j + 1;
    }
  }

  /** The `k`-th edge's key is new, and it joins the keys of the edges before it. */
  lemma EdgeKeysSnoc(g: GraphData, edgeKey: nat -> string, k: nat)
    requires Pairwise(g.edges) && Injective(edgeKey) && 0 < k <= |g.edges|
    ensures (EdgeDoc, edgeKey(g.edges[k - 1].key)) !in EdgeKeys(g, edgeKey, k - 1)
    ensures EdgeKeys(g, edgeKey, k) == EdgeKeys(g, edgeKey, k - 1) + {(EdgeDoc, edgeKey(g.edges[k - 1].key))}
  {
    forall i | 0 <= i < k - 1
      ensures edgeKey(g.edges[i].key) != edgeKey(g.edges[k - 1].key)
    {
      assert Apart(g.edges[i], g.edges[k - 1]);
    }
  }

  /** One edge's step keeps every key at most once per keyword list. */
  lemma EdgeStepSingle(s: Indices, e: Edge, edgeKey: nat -> string, keys: set<Key>)
    requires Single(s.keyword) && KeysWithin(s.keyword, keys) && (EdgeDoc, edgeKey(e.key)) !in keys
    ensures Single(EdgeStep(s, e, edgeKey).keyword)
    ensures KeysWithin(EdgeStep(s, e, edgeKey).keyword, keys + {(EdgeDoc, edgeKey(e.key))})
  {
    var t := Normalize(EdgeText(e));
    KeywordsSingle(s.keyword, t, Doc(edgeKey(e.key), EdgeDoc, t), keys);
  }

  /** The `k`-th node's key is new, and it joins the keys of the nodes before it. */
  lemma NodeKeysSnoc(g: GraphData, k: nat)
    requires Distinct(g.nodes) && 0 < k <= |g.nodes|
    ensures (NodeDoc, g.nodes[k - 1]) !in NodeKeys(g, k - 1)
    ensures NodeKeys(g, k) == NodeKeys(g, k - 1) + {(NodeDoc, g.nodes[k - 1])}
  {
  }

  /** `AddSingle` for one text's keywords, which are distinct. */
  lemma KeywordsSingle(idx: Index, t: string, d: Doc, keys: set<Key>)
    requires Single(idx) && KeysWithin(idx, keys) && KeyOf(d) !in keys
    ensures Single(AddAll(idx, Keywords(t), d))
    ensures KeysWithin(AddAll(idx, Keywords(t), d), keys + {KeyOf(d)})
  {
    KeywordsLaws(t);
    AddSingle(idx, Keywords(t), d, keys);
  }

  /** One node's step keeps every key at most once per keyword list. */
  lemma NodeStepSingle(s: Indices, n: string, at: Attrs, keys: set<Key>)
    requires Single(s.keyword) && KeysWithin(s.keyword, keys) && (NodeDoc, n) !in keys
    ensures Single(NodeStep(s, n, at).keyword)
    ensures KeysWithin(NodeStep(s, n, at).keyword, keys + {(NodeDoc, n)})
  {
    var t := Normalize(NodeText(n, at));
    KeywordsSingle(s.keyword, t, Doc(n, NodeDoc, t), keys);
  }

  /** The node pass over one more node, with its result so far named `r`. */
  lemma IndexNodesSnoc(s: Indices, g: GraphData, i: nat, r: Indices)
    requires i < |g.nodes| && r == IndexNodes(s, g, i)
    ensures IndexNodes(s, g, i + 1) == NodeStep(r, g.nodes[i], if g.nodes[i] in g.attrs then g.attrs[g.nodes[i]] else NoAttrs())
  {
  }

  /** The edge pass over one more edge, with its result so far named `r`. */
  lemma IndexEdgesSnoc(s: Indices, g: GraphData, edgeKey: nat -> string, j: nat, r: Indices)
    requires j < |g.edges| && r == IndexEdges(s, g, edgeKey, j)
    ensures IndexEdges(s, g, edgeKey, j + 1) == EdgeStep(r, g.edges[j], edgeKey)
  {
  }

  /** The `j`-th edge's key is neither a node's nor an earlier edge's. */
  lemma EdgeFresh(g: GraphData, edgeKey: nat -> string, keys: set<Key>, j: nat)
    requires Pairwise(g.edges) && Injective(edgeKey) && j < |g.edges|
    requires forall x :: x in keys ==> x.0 == NodeDoc
    ensures (EdgeDoc, edgeKey(g.edges[j].key)) !in keys + EdgeKeys(g, edgeKey, j)
    ensures keys + EdgeKeys(g, edgeKey, j + 1) == keys + EdgeKeys(g, edgeKey, j) + {(EdgeDoc, edgeKey(g.edges[j].key))}
  {
    EdgeKeysSnoc(g, edgeKey, j + 1);
  }

  /** "aaa" is already normal, so indexing it once files the document under its bigrams as they are. */
  lemma IndexedAaa()
    ensures IndexText(NoIndices(), "aaa", "x", NodeDoc).bigram == AddAll(EmptyMap(), Bigrams("aaa"), Doc("x", NodeDoc, "aaa"))
  {
    NormalFixed("aaa");
  }

  /**
   * Bigram relevance is not bounded by 1: the document "aaa" has two
   * entries under "aa", so the query "aa", already normal and with the one
   * bigram "aa", scores 2 against it.
   */
  lemma BigramRelevanceAboveOne()
    ensures Rank(AddAll(EmptyMap(), Bigrams("aaa"), Doc("x", NodeDoc, "aaa")), Bigrams("aa"))
      == [Ranked(Hit(Doc("x", NodeDoc, "aaa"), 2, ["aa", "aa"]), 2.0)]
  {
    var d := Doc("x", NodeDoc, "aaa");
    BigramsOfA();
    TallyOfAaa();
    RankOne(AddAll(EmptyMap(), ["aa", "aa"], d), ["aa"], Hit(d, 2, ["aa", "aa"]));
  }

  /** A tally with one record ranks as that record, over a one-term query. */
  lemma RankOne(idx: Index, terms: seq<string>, h: Hit)
    requires |terms| == 1 && TallyOf(idx, terms) == OrdMap([KeyOf(h.doc)], map[KeyOf(h.doc) := h])
    ensures Rank(idx, terms) == [Ranked(h, h.score as real)]
  {
    var t := OrdMap([KeyOf(h.doc)], map[KeyOf(h.doc) := h]);
    assert Values(t) == [h];
    assert SortDesc([h], ScoreOf) == [h];
  }

  /** The tally of the query "aa" against the two entries of "aaa". */
  lemma TallyOfAaa()
    ensures TallyOf(AddAll(EmptyMap(), ["aa", "aa"], Doc("x", NodeDoc, "aaa")), ["aa"])
      == OrdMap([KeyOf(Doc("x", NodeDoc, "aaa"))], map[KeyOf(Doc("x", NodeDoc, "aaa")) := Hit(Doc("x", NodeDoc, "aaa"), 2, ["aa", "aa"])])
  {
    var d := Doc("x", NodeDoc, "aaa");
    var idx := AddAll(EmptyMap(), ["aa", "aa"], d);
    EntriesOfAaa();
    assert TallyOf(idx, ["aa"]) == BumpAll(EmptyMap(), [d, d], "aa") by {
      assert ["aa"][..0] == [];
    }
    assert [d, d][..1] == [d];
    var k := KeyOf(d);
    var one := OrdMap([k], map[k := Hit(d, 1, ["aa"])]);
    assert BumpAll(EmptyMap(), [d], "aa") == one by {
      assert [d][..0] == [];
      var nil: seq<string> := [];
      assert nil + ["aa"] == ["aa"];
      var none: Tally := EmptyMap();
      assert Bump(none, d, "aa") == Put(none, k, Hit(d, 1, ["aa"]));
      var e: map<Key, Hit> := map[];
      assert e[k := Hit(d, 1, ["aa"])] == map[k := Hit(d, 1, ["aa"])];
      assert [] + [k] == [k];
    }
    assert Bump(one, d, "aa") == OrdMap([k], map[k := Hit(d, 2, ["aa", "aa"])]) by {
      assert ["aa"] + ["aa"] == ["aa", "aa"];
      assert Bump(one, d, "aa") == Put(one, k, Hit(d, 2, ["aa", "aa"]));
      assert one.m[k := Hit(d, 2, ["aa", "aa"])] == map[k := Hit(d, 2, ["aa", "aa"])];
    }
  }

  /** Indexing "aaa" under its two bigrams files it twice under "aa". */
  lemma EntriesOfAaa()
    ensures Get(AddAll(EmptyMap(), ["aa", "aa"], Doc("x", NodeDoc, "aaa")), "aa") == [Doc("x", NodeDoc, "aaa"), Doc("x", NodeDoc, "aaa")]
  {
    var d := Doc("x", NodeDoc, "aaa");
    AddAllEntries(EmptyMap(), ["aa", "aa"], d, "aa");
    assert Occurrences(["aa", "aa"], "aa") == 2 by {
      assert ["aa", "aa"][..1] == ["aa"];
      assert ["aa"][..0] == [];
    }
    assert Copies(d, 2) == [d, d];
  }

  lemma BigramsOfA()
    ensures Bigrams("aa") == ["aa"]
    ensures Bigrams("aaa") == ["aa", "aa"]
  {
    assert "aa"[0..2] == "aa";
    assert "aaa"[0..2] == "aa";
    assert "aaa"[1..3] == "aa";
    assert Windows("aa", 2, 1) == ["aa"];
    assert Windows("aaa", 2, 1) == ["aa"];
  }
}
