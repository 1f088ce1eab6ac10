/**
 * `FullTextSearch`: bigram, trigram and keyword indices over the texts of
 * a graph's nodes and edges, and the searches over them (by bigram, by
 * keyword, fuzzy by edit distance, a blend of the three, and a sequential
 * fallback).
 */
module TextSearch {
  import opened Common
  import opened Strings
  import opened SearchText
  import opened SearchIndex
  import opened SearchRanking
  import opened Sorting
  import Levenshtein
  import opened Grouping
  import opened PropertyGraphs
  import opened SearchBlend

  /** `w.trim().length === w.length`: `w` has no white space at either end. */
  method TrimKeepsAll(w: string) returns (b: bool)
    ensures b <==> w == [] || (!IsSpace(w[0]) && !IsSpace(w[|w| - 1]))
  {
    b := |Trim(w)| == |w|;
    TrimFull(w);
  }

  /** `generateBigrams` (`n` = 2) and `generateTrigrams` (`n` = 3). */
  method GenerateGrams(text: string, n: nat) returns (grams: seq<string>)
    requires n >= 1
    ensures grams == Windows(text, n, WindowCount(|text|, n))
  {
    grams := [];
    var i := 0;
    while i < |text| - (n - 1)
      invariant 0 <= i <= WindowCount(|text|, n)
      invariant grams == Windows(text, n, i)
    {
      var w := text[i..i + n];
      var kept := TrimKeepsAll(w);
      if kept {
        grams := grams + [w];
      }
      i := i + 1;
    }
  }

  /**
   * `levenshteinDistance(a, b)`: the table has a row per prefix of `b` and
   * a column per prefix of `a`; its last entry is the edit distance.
   */
  method LevenshteinDistance(a: string, b: string) returns (d: nat)
    ensures d == Levenshtein.Distance(a, b)
  {
    var matrix := new nat[|b| + 1, |a| + 1];
    for i := 0 to |b| + 1
      invariant forall p :: 0 <= p < i ==> matrix[p, 0] == p
    {
      matrix[i, 0] := i;
    }
    for j := 0 to |a| + 1
      invariant forall p :: 1 <= p <= |b| ==> matrix[p, 0] == p
      invariant forall q :: 0 <= q < j ==> matrix[0, q] == q
    {
      matrix[0, j] := j;
    }
    for i := 1 to |b| + 1
      invariant forall p, q :: 0 <= p < i && 0 <= q <= |a| ==> matrix[p, q] == Levenshtein.Dist(b, a, p, q)
      invariant forall p :: i <= p <= |b| ==> matrix[p, 0] == p
    {
      FillRow(matrix, a, b, i - 1, i);
    }
    d := matrix[|b|, |a|];
    Levenshtein.DistSymmetric(b, a, |b|, |a|);
  }

  /** Fills row `i` of the table from row `h` = `i - 1` and the row's first entry. */
  method FillRow(matrix: array2<nat>, a: string, b: string, h: nat, i: nat)
    requires matrix.Length0 == |b| + 1 && matrix.Length1 == |a| + 1 && i == h + 1 && i <= |b|
    requires forall q {:trigger matrix[h, q]} :: 0 <= q <= |a| ==> matrix[h, q] == Levenshtein.Dist(b, a, h, q)
    requires matrix[i, 0] == i
    modifies matrix
    ensures forall q {:trigger matrix[i, q]} :: 0 <= q <= |a| ==> matrix[i, q] == Levenshtein.Dist(b, a, i, q)
    ensures forall p, q :: 0 <= p < matrix.Length0 && p != i && 0 <= q < matrix.Length1 ==> matrix[p, q] == old(matrix[p, q])
  {
    for j := 1 to |a| + 1
      invariant forall q {:trigger matrix[h, q]} :: 0 <= q <= |a| ==> matrix[h, q] == Levenshtein.Dist(b, a, h, q)
      invariant forall q {:trigger matrix[i, q]} :: 0 <= q < j ==> matrix[i, q] == Levenshtein.Dist(b, a, i, q)
      invariant forall p, q :: 0 <= p < matrix.Length0 && p != i && 0 <= q < matrix.Length1 ==> matrix[p, q] == old(matrix[p, q])
    {
      var g := j - 1;
      var diag, left, up := matrix[h, g], matrix[i, g], matrix[h, j];
      DistStep(b, a, h, i, g, j);
      if b[h] == a[g] {
        matrix[i, j] := diag;
      } else {
        matrix[i, j] := Levenshtein.Min3(diag + 1, left + 1, up + 1);
      }
    }
  }

  /** The recurrence at an inner entry, with the neighbours named. */
  lemma DistStep(b: string, a: string, h: nat, i: nat, g: nat, j: nat)
    requires i == h + 1 && j == g + 1 && i <= |b| && j <= |a|
    ensures Levenshtein.Dist(b, a, i, j) == if b[h] == a[g] then Levenshtein.Dist(b, a, h, g)
      else 1 + Levenshtein.Min3(Levenshtein.Dist(b, a, h, g), Levenshtein.Dist(b, a, i, g), Levenshtein.Dist(b, a, h, j))
  {
    Levenshtein.DistInner(b, a, i, j);
    assert i - 1 == h && j - 1 == g;
  }

  /** The `candidates.forEach` loop of `fuzzySearch`: the close candidates in order. */
  method CloseMatches(q: string, candidates: seq<Doc>, threshold: real) returns (results: seq<FuzzyHit>)
    ensures results == Matches(q, candidates, threshold)
  {
    results := [];
    for i := 0 to |candidates|
      invariant results == Matches(q, candidates[..i], threshold)
    {
      var c := candidates[i];
      var distance := LevenshteinDistance(q, c.text);
      var maxLength := Longer(|q|, |c.text|);
      if maxLength > 0 {
        var similarity := 1.0 - distance as real / maxLength as real;
        if similarity >= threshold {
          results := results + [FuzzyHit(c, similarity, distance)];
        }
      }
      assert candidates[..i + 1][..i] == candidates[..i];
    }
    assert candidates[..|candidates|] == candidates;
  }

  /** The inner `forEach` of `searchByBigram` and `searchByKeywords`: one point per entry to its key. */
  method BumpDocs(t: Tally, docs: seq<Doc>, term: string) returns (r: Tally)
    ensures r == BumpAll(t, docs, term)
  {
    r := t;
    for j := 0 to |docs|
      invariant r == BumpAll(t, docs[..j], term)
    {
      var d := docs[j];
      var k := KeyOf(d);
      var h := if k in r.m then r.m[k] else Hit(d, 0, []);
      r := Put(r, k, Hit(h.doc, h.score + 1, h.matched + [term]));
      assert docs[..j + 1][..j] == docs[..j];
    }
    assert docs[..|docs|] == docs;
  }

  /** The outer `forEach` over the query's terms, skipping those the index does not hold. */
  method TallyTerms(idx: Index, terms: seq<string>) returns (t: Tally)
    ensures t == TallyOf(idx, terms)
  {
    t := EmptyMap();
    for i := 0 to |terms|
      invariant t == TallyOf(idx, terms[..i])
    {
      var g := terms[i];
      assert terms[..i + 1][..i] == terms[..i];
      if g in idx.m {
        t := BumpDocs(t, idx.m[g], g);
      }
    }
    assert terms[..|terms|] == terms;
  }

  /** The records sorted by score, each with `relevance` = `score / terms.length`. */
  method RankTerms(idx: Index, terms: seq<string>) returns (r: seq<Ranked>)
    ensures r == Rank(idx, terms)
  {
    var t := TallyTerms(idx, terms);
    if |terms| == 0 {
      r := [];
    } else {
      TallyValid(idx, terms);
      r := WithRelevance(SortDesc(Values(t), ScoreOf), |terms|);
    }
  }

  /** `bigramIndex.forEach(items => items.forEach(item => allCandidates.push(item)))`. */
  method AllCandidates(idx: Index) returns (cs: seq<Doc>)
    ensures cs == Candidates(idx)
  {
    cs := [];
    for i := 0 to |idx.keys|
      invariant cs == Entries(idx, idx.keys[..i])
    {
      var items := Get(idx, idx.keys[i]);
      ghost var before := cs;
      for j := 0 to |items|
        invariant cs == before + items[..j]
      {
        cs := cs + [items[j]];
      }
      assert items[..|items|] == items;
      assert idx.keys[..i + 1][..i] == idx.keys[..i];
    }
    assert idx.keys[..|idx.keys|] == idx.keys;
  }

  /** A strategy's `forEach` in `search`: credit each record to its key in `allResults`. */
  method Accumulate(acc: Blend, cs: seq<Credit>, m: Method) returns (r: Blend)
    ensures r == AddCredits(acc, cs, m)
  {
    r := acc;
    for i := 0 to |cs|
      invariant r == AddCredits(acc, cs[..i], m)
    {
      var c := cs[i];
      var k := KeyOf(c.doc);
      var s := if k in r.m then r.m[k] else Scored(c.doc, 0.0, []);
      r := Put(r, k, Scored(s.doc, s.total + c.weight, s.methods + [m]));
      assert cs[..i + 1][..i] == cs[..i];
    }
    assert cs[..|cs|] == cs;
  }

  /**
   * The indices as a class: `addTo*Index` extend them in place and
   * `buildIndex` clears and refills them from a graph.
   */
  class FullTextSearch {
    var bigramIndex: Index
    var trigramIndex: Index
    var keywordIndex: Index
    var entityIndex: OrdMap<string, Entity>

    function State(): Indices
      reads this
    {
      Indices(bigramIndex, trigramIndex, keywordIndex, entityIndex)
    }

    constructor()
      ensures State() == NoIndices()
    {
      bigramIndex, trigramIndex, keywordIndex, entityIndex := EmptyMap(), EmptyMap(), EmptyMap(), EmptyMap();
    }

    /** `addToBigramIndex(text, id, type)`: one entry per bigram occurrence of the normalised text. */
    method AddToBigramIndex(text: string, id: string, kind: Kind)
      modifies this
      ensures State() == old(State()).(bigram := AddAll(old(bigramIndex), Bigrams(Normalize(text)), Doc(id, kind, Normalize(text))))
    {
      var t := Normalize(text);
      var grams := GenerateGrams(t, 2);
      var d := Doc(id, kind, t);
      ghost var idx := bigramIndex;
      for i := 0 to |grams|
        invariant State() == old(State()).(bigram := AddAll(idx, grams[..i], d))
      {
        AddAllSnoc(idx, grams, i, d);
        bigramIndex := Extend(bigramIndex, grams[i], [d]);
      }
      WholePrefix(grams);
    }

    /** `addToTrigramIndex(text, id, type)`. */
    method AddToTrigramIndex(text: string, id: string, kind: Kind)
      modifies this
      ensures State() == old(State()).(trigram := AddAll(old(trigramIndex), Trigrams(Normalize(text)), Doc(id, kind, Normalize(text))))
    {
      var t := Normalize(text);
      var grams := GenerateGrams(t, 3);
      var d := Doc(id, kind, t);
      ghost var idx := trigramIndex;
      for i := 0 to |grams|
        invariant State() == old(State()).(trigram := AddAll(idx, grams[..i], d))
      {
        AddAllSnoc(idx, grams, i, d);
        trigramIndex := Extend(trigramIndex, grams[i], [d]);
      }
      WholePrefix(grams);
    }

    /** `addToKeywordIndex(text, id, type)`: one entry per keyword, keywords being distinct. */
    method AddToKeywordIndex(text: string, id: string, kind: Kind)
      modifies this
      ensures State() == old(State()).(keyword := AddAll(old(keywordIndex), Keywords(Normalize(text)), Doc(id, kind, Normalize(text))))
    {
      var t := Normalize(text);
      AddKeywords(Keywords(t), Doc(id, kind, t));
    }

    /** The `keywords.forEach` loop of `addToKeywordIndex`. */
    method AddKeywords(words: seq<string>, d: Doc)
      modifies this
      ensures State() == old(State()).(keyword := AddAll(old(keywordIndex), words, d))
    {
      ghost var idx := keywordIndex;
      for i := 0 to |words|
        invariant State() == old(State()).(keyword := AddAll(idx, words[..i], d))
      {
        AddAllSnoc(idx, words, i, d);
        keywordIndex := Extend(keywordIndex, words[i], [d]);
      }
      WholePrefix(words);
    }

    /** The three `addTo*Index` calls `buildIndex` makes for one text. */
    method AddText(text: string, id: string, kind: Kind)
      modifies this
      ensures State() == IndexText(old(State()), text, id, kind)
    {
      AddToBigramIndex(text, id, kind);
      AddToTrigramIndex(text, id, kind);
      AddToKeywordIndex(text, id, kind);
    }

    /**
     * `buildIndex(graph)`: what it leaves depends on the graph alone, so
     * building again from the same graph gives the same indices.
     */
    method BuildIndex(graph: Graph, edgeKey: nat -> string)
      requires WellFormed(graph.Data())
      modifies this
      ensures State() == IndexGraph(graph.Data(), edgeKey)
    {
      ghost var g := graph.Data();
      bigramIndex, trigramIndex, keywordIndex, entityIndex := EmptyMap(), EmptyMap(), EmptyMap(), EmptyMap();
      assert State() == NoIndices();
      IndexAllNodes(graph);
      assert graph.Data() == g;
      ghost var s := State();
      assert s == IndexNodes(NoIndices(), g, |g.nodes|);
      IndexAllEdges(graph, edgeKey);
      assert State() == IndexEdges(s, g, edgeKey, |g.edges|);
    }

    /** The `forEachNode` pass of `buildIndex`. */
    method IndexAllNodes(graph: Graph)
      requires WellFormed(graph.Data())
      modifies this
      ensures State() == IndexNodes(old(State()), graph.Data(), |graph.nodes|)
    {
      ghost var g := graph.Data();
      ghost var s := State();
      var nodes, attrs := graph.nodes, graph.attrs;
      for k := 0 to |nodes|
        invariant State() == IndexNodes(s, g, k)
      {
        var n := nodes[k];
        AddNode(n, attrs[n]);
      }
    }

    /** Indexes one node. */
    method AddNode(n: string, at: Attrs)
      modifies this
      ensures State() == NodeStep(old(State()), n, at)
    {
      AddText(NodeText(n, at), n, NodeDoc);
      entityIndex := Put(entityIndex, n, NodeEntity(at));
    }

    /** The `forEachEdge` pass of `buildIndex`. */
    method IndexAllEdges(graph: Graph, edgeKey: nat -> string)
      modifies this
      ensures State() == IndexEdges(old(State()), graph.Data(), edgeKey, |graph.edges|)
    {
      ghost var g := graph.Data();
      ghost var s := State();
      var edges := graph.edges;
      for k := 0 to |edges|
        invariant State() == IndexEdges(s, g, edgeKey, k)
      {
        AddEdge(edges[k], edgeKey);
      }
    }

    /** Indexes one edge. */
    method AddEdge(e: Edge, edgeKey: nat -> string)
      modifies this
      ensures State() == EdgeStep(old(State()), e, edgeKey)
    {
      AddText(EdgeText(e), edgeKey(e.key), EdgeDoc);
      entityIndex := Put(entityIndex, edgeKey(e.key), EdgeEntity(e.attrs, e.source, e.target));
    }
    /** `fuzzySearch(query, candidates, threshold)`. */
    method FuzzySearch(query: string, candidates: seq<Doc>, threshold: real) returns (r: seq<FuzzyHit>)
      ensures r == Fuzzy(Normalize(query), candidates, threshold)
    {
      var q := Normalize(query);
      var results := CloseMatches(q, candidates, threshold);
      r := SortDesc(results, SimilarityOf);
    }

    /** `searchByBigram(query)`. */
    method SearchByBigram(query: string) returns (r: seq<Ranked>)
      ensures r == Rank(bigramIndex, Bigrams(Normalize(query)))
    {
      var q := Normalize(query);
      var grams := GenerateGrams(q, 2);
      r := RankTerms(bigramIndex, grams);
    }

    /** `searchByKeywords(query)`. */
    method SearchByKeywords(query: string) returns (r: seq<Ranked>)
      ensures r == Rank(keywordIndex, Keywords(Normalize(query)))
    {
      var q := Normalize(query);
      r := RankTerms(keywordIndex, Keywords(q));
    }

    /** `search(query, options)`. */
    method Search(query: string, opt: Options) returns (r: seq<Scored>)
      ensures r == SearchBlend.Search(State(), Normalize(query), opt)
    {
      ghost var q := Normalize(query);
      ghost var bg0, kw0 := Rank(bigramIndex, Bigrams(q)), Rank(keywordIndex, Keywords(q));
      ghost var fz0 := Fuzzy(q, Candidates(bigramIndex), opt.fuzzyThreshold);
      var all: Blend := EmptyMap();
      if opt.useBigram {
        var bg := SearchByBigram(query);
        all := Accumulate(all, RankCredits(bg, 0.4), ByBigram);
      }
      if opt.useKeywords {
        var kw := SearchByKeywords(query);
        all := Accumulate(all, RankCredits(kw, 0.6), ByKeyword);
      }
      assert all == Stage2(opt, bg0, kw0);
      if opt.useFuzzy && |all.keys| < 10 {
        var cands := AllCandidates(bigramIndex);
        var fz := FuzzySearch(query, cands, opt.fuzzyThreshold);
        all := Accumulate(all, FuzzyCredits(fz, 0.3), ByFuzzy);
      }
      assert all == BlendOf(opt, bg0, kw0, fz0);
      BlendValid(opt, bg0, kw0, fz0);
      r := Take(SortDesc(Values(all), TotalScore), opt.maxResults);
    }

    /** `searchSequentially(query, options)`. */
    method SearchSequentially(query: string, opt: Options) returns (r: seq<Scored>)
      ensures r == Sequential(State(), Normalize(query), opt)
    {
      ghost var q := Normalize(query);
      ghost var kw0, bg0 := Rank(keywordIndex, Keywords(q)), Rank(bigramIndex, Bigrams(q));
      ghost var fz0 := Fuzzy(q, Candidates(bigramIndex), opt.fuzzyThreshold);
      assert Sequential(State(), q, opt) == SequentialOf(opt, kw0, bg0, fz0);
      if opt.useKeywords {
        var kw := SearchByKeywords(query);
        assert kw == kw0;
        if |kw| > 0 {
          r := Take(Tag(kw, ByKeyword), opt.maxResults);
          assert KeywordsWin(opt, kw0);
          assert SequentialOf(opt, kw0, bg0, fz0) == Take(Tag(kw0, ByKeyword), opt.maxResults);
          return;
        }
      }
      assert !KeywordsWin(opt, kw0);
      if opt.useBigram {
        var bg := SearchByBigram(query);
        assert bg == bg0;
        if |bg| > 0 {
          r := Take(Tag(bg, ByBigram), opt.maxResults);
          assert BigramWins(opt, kw0, bg0);
          assert SequentialOf(opt, kw0, bg0, fz0) == Take(Tag(bg0, ByBigram), opt.maxResults);
          return;
        }
      }
      assert !BigramWins(opt, kw0, bg0);
      if opt.useFuzzy {
        var cands := AllCandidates(bigramIndex);
        var fz := FuzzySearch(query, cands, opt.fuzzyThreshold);
        assert fz == fz0;
        if |fz| > 0 {
          r := Take(TagFuzzy(fz), opt.maxResults);
          assert FuzzyWins(opt, kw0, bg0, fz0);
          assert SequentialOf(opt, kw0, bg0, fz0) == Take(TagFuzzy(fz0), opt.maxResults);
          return;
        }
      }
      assert !FuzzyWins(opt, kw0, bg0, fz0);
      r := [];
      assert r == SequentialOf(opt, kw0, bg0, fz0);
    }
  }
}
