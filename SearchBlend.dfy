/**
 * `search` and `searchSequentially` of `FullTextSearch`: how the results of
 * the bigram, keyword and fuzzy strategies are credited per
 * `${type}:${id}` key and ranked, and the order in which the sequential
 * search falls back from one strategy to the next.
 */
module SearchBlend {
  import opened Common
  import opened SearchText
  import opened SearchIndex
  import opened SearchRanking
  import opened Sorting

  /** The `options` object; missing fields take the defaults of `Defaults`. */
  datatype Options = Options(useBigram: bool, useKeywords: bool, useFuzzy: bool, fuzzyThreshold: real, maxResults: nat)

  /** `{ useBigram = true, useKeywords = true, useFuzzy = true, fuzzyThreshold = 0.7, maxResults = 50 }`. */
  function Defaults(): Options {
    Options(true, true, true, 0.7, 50)
  }

  /** The names pushed onto a record's `methods`. */
  datatype Method = ByBigram | ByKeyword | ByFuzzy

  /** A combined record `{ ...result, totalScore, methods }`. */
  datatype Scored = Scored(doc: Doc, total: real, methods: seq<Method>)

  /** The `allResults` map, keyed by `${type}:${id}`, in insertion order. */
  type Blend = OrdMap<Key, Scored>

  /** What one strategy's record adds to its key: its document and its weighted score. */
  datatype Credit = Credit(doc: Doc, weight: real)

  /**
   * One record of a strategy: the combined record for its key is made from
   * it if there is none, then its weight is added to `totalScore` and the
   * strategy's name is pushed onto `methods`.
   */
  function AddCredit(acc: Blend, c: Credit, m: Method): Blend {
    var k := KeyOf(c.doc);
    var s := if k in acc.m then acc.m[k] else Scored(c.doc, 0.0, []);
    Put(acc, k, Scored(s.doc, s.total + c.weight, s.methods + [m]))
  }

  /** `strategyResults.forEach(result => ...)`. */
  function AddCredits(acc: Blend, cs: seq<Credit>, m: Method): Blend
    decreases |cs|
  {
    if cs == [] then acc else AddCredit(AddCredits(acc, cs[..|cs| - 1], m), cs[|cs| - 1], m)
  }

  /** `result.relevance * w` for each ranked record, in order. */
  function RankCredits(rs: seq<Ranked>, w: real): (r: seq<Credit>)
    ensures |r| == |rs| && forall i :: 0 <= i < |r| ==> r[i] == Credit(rs[i].hit.doc, rs[i].relevance * w)
  {
    seq(|rs|, i requires 0 <= i < |rs| => Credit(rs[i].hit.doc, rs[i].relevance * w))
  }

  /** `result.similarity * w` for each fuzzy match, in order. */
  function FuzzyCredits(hs: seq<FuzzyHit>, w: real): (r: seq<Credit>)
    ensures |r| == |hs| && forall i :: 0 <= i < |r| ==> r[i] == Credit(hs[i].doc, hs[i].similarity * w)
  {
    seq(|hs|, i requires 0 <= i < |hs| => Credit(hs[i].doc, hs[i].similarity * w))
  }

  /** The total weight the credits give key `k`. */
  function WeightOf(cs: seq<Credit>, k: Key): real
    decreases |cs|
  {
    if cs == [] then 0.0
    else WeightOf(cs[..|cs| - 1], k) + (if KeyOf(cs[|cs| - 1].doc) == k then cs[|cs| - 1].weight else 0.0)
  }

  /** How many of the credits are for key `k`. */
  function CountOf(cs: seq<Credit>, k: Key): nat
    decreases |cs|
  {
    if cs == [] then 0 else CountOf(cs[..|cs| - 1], k) + (if KeyOf(cs[|cs| - 1].doc) == k then 1 else 0)
  }

  /** `n` copies of the name `m`. */
  function Reps(m: Method, n: nat): (r: seq<Method>)
    ensures |r| == n && forall x :: x in r ==> x == m
  {
    if n == 0 then [] else Reps(m, n - 1) + [m]
  }

  function TotalOf(b: Blend, k: Key): real {
    if k in b.m then b.m[k].total else 0.0
  }

  function MethodsOf(b: Blend, k: Key): seq<Method> {
    if k in b.m then b.m[k].methods else []
  }

  /** Every record sits under its own document's key. */
  ghost predicate KeyedRight(b: Blend) {
    forall k :: k in b.m ==> KeyOf(b.m[k].doc) == k
  }

  lemma {:induction false} AddCreditsValid(acc: Blend, cs: seq<Credit>, m: Method)
    requires acc.Valid()
    ensures AddCredits(acc, cs, m).Valid()
    decreases |cs|
  {
    if cs != [] {
      var p := AddCredits(acc, cs[..|cs| - 1], m);
      AddCreditsValid(acc, cs[..|cs| - 1], m);
      var c := cs[|cs| - 1];
      var s := if KeyOf(c.doc) in p.m then p.m[KeyOf(c.doc)] else Scored(c.doc, 0.0, []);
      PutValid(p, KeyOf(c.doc), Scored(s.doc, s.total + c.weight, s.methods + [m]));
    }
  }

  lemma {:induction false} AddCreditsKeyed(acc: Blend, cs: seq<Credit>, m: Method)
    requires KeyedRight(acc)
    ensures KeyedRight(AddCredits(acc, cs, m))
    decreases |cs|
  {
    if cs != [] {
      AddCreditsKeyed(acc, cs[..|cs| - 1], m);
    }
  }

  /** A key is in the map after a strategy's pass exactly when it was before or the strategy credits it. */
  lemma {:induction false} AddCreditsKeys(acc: Blend, cs: seq<Credit>, m: Method, k: Key)
    ensures k in AddCredits(acc, cs, m).m <==> k in acc.m || CountOf(cs, k) > 0
    decreases |cs|
  {
    if cs != [] {
      AddCreditsKeys(acc, cs[..|cs| - 1], m, k);
    }
  }

  /** A strategy's pass adds to `totalScore` the weights it gives the key. */
  lemma {:induction false} AddCreditsTotal(acc: Blend, cs: seq<Credit>, m: Method, k: Key)
    ensures TotalOf(AddCredits(acc, cs, m), k) == TotalOf(acc, k) + WeightOf(cs, k)
    decreases |cs|
  {
    if cs != [] {
      AddCreditsTotal(acc, cs[..|cs| - 1], m, k);
    }
  }

  /** One record pushes the strategy's name for its own key and for no other. */
  lemma AddCreditMethods(acc: Blend, c: Credit, m: Method, k: Key)
    ensures MethodsOf(AddCredit(acc, c, m), k) == MethodsOf(acc, k) + (if KeyOf(c.doc) == k then [m] else [])
  {
    if KeyOf(c.doc) != k {
      assert MethodsOf(acc, k) + [] == MethodsOf(acc, k);
    }
  }

  /** A strategy's pass pushes its name once per credit for the key. */
  lemma {:induction false} AddCreditsMethods(acc: Blend, cs: seq<Credit>, m: Method, k: Key)
    ensures MethodsOf(AddCredits(acc, cs, m), k) == MethodsOf(acc, k) + Reps(m, CountOf(cs, k))
    decreases |cs|
  {
    if cs != [] {
      var init, c := cs[..|cs| - 1], cs[|cs| - 1];
      var p := AddCredits(acc, init, m);
      AddCreditsMethods(acc, init, m, k);
      AddCreditMethods(p, c, m, k);
      RepsStep(MethodsOf(acc, k), m, CountOf(init, k), KeyOf(c.doc) == k);
    }
  }

  /** One more name, or none, after `n` copies. */
  lemma RepsStep(base: seq<Method>, m: Method, n: nat, hit: bool)
    ensures base + Reps(m, n) + (if hit then [m] else []) == base + Reps(m, n + if hit then 1 else 0)
  {
    if hit {
      assert Reps(m, n + 1) == Reps(m, n) + [m];
      assert base + Reps(m, n) + [m] == base + (Reps(m, n) + [m]);
    } else {
      assert base + Reps(m, n) + [] == base + Reps(m, n);
    }
  }

  // ---------------------------------------------------------------------
  // search

  /** `allResults` after the bigram and keyword passes. */
  function Stage2(opt: Options, bg: seq<Ranked>, kw: seq<Ranked>): Blend {
    var a1 := if opt.useBigram then AddCredits(EmptyMap(), RankCredits(bg, 0.4), ByBigram) else EmptyMap();
    if opt.useKeywords then AddCredits(a1, RankCredits(kw, 0.6), ByKeyword) else a1
  }

  /** The fuzzy pass runs only when fewer than 10 keys have been hit. */
  predicate FuzzyRuns(opt: Options, bg: seq<Ranked>, kw: seq<Ranked>) {
    opt.useFuzzy && |Stage2(opt, bg, kw).keys| < 10
  }

  /**
   * `allResults` at the end of `search`, given the results of
   * `searchByBigram` (`bg`), `searchByKeywords` (`kw`) and `fuzzySearch`
   * over every bigram-index entry (`fz`).
   */
  function BlendOf(opt: Options, bg: seq<Ranked>, kw: seq<Ranked>, fz: seq<FuzzyHit>): Blend {
    var a2 := Stage2(opt, bg, kw);
    if FuzzyRuns(opt, bg, kw) then AddCredits(a2, FuzzyCredits(fz, 0.3), ByFuzzy) else a2
  }

  function TotalScore(s: Scored): real {
    s.total
  }

  /** `Array.from(allResults.values()).sort((a, b) => b.totalScore - a.totalScore).slice(0, maxResults)`. */
  function Results(b: Blend, maxResults: nat): seq<Scored>
    requires b.Valid()
  {
    Take(SortDesc(Values(b), TotalScore), maxResults)
  }

  /** Every entry of the bigram index, key by key: the fuzzy candidates. */
  function Candidates(idx: Index): seq<Doc> {
    Entries(idx, idx.keys)
  }

  /** `search(query, options)`, the query normalised to `q`. */
  function Search(ix: Indices, q: string, opt: Options): seq<Scored> {
    var b := BlendOf(opt, Rank(ix.bigram, Bigrams(q)), Rank(ix.keyword, Keywords(q)), Fuzzy(q, Candidates(ix.bigram), opt.fuzzyThreshold));
    BlendValid(opt, Rank(ix.bigram, Bigrams(q)), Rank(ix.keyword, Keywords(q)), Fuzzy(q, Candidates(ix.bigram), opt.fuzzyThreshold));
    Results(b, opt.maxResults)
  }

  lemma BlendValid(opt: Options, bg: seq<Ranked>, kw: seq<Ranked>, fz: seq<FuzzyHit>)
    ensures BlendOf(opt, bg, kw, fz).Valid() && KeyedRight(BlendOf(opt, bg, kw, fz))
  {
    var e: Blend := EmptyMap();
    AddCreditsValid(e, RankCredits(bg, 0.4), ByBigram);
    AddCreditsKeyed(e, RankCredits(bg, 0.4), ByBigram);
    var a1 := if opt.useBigram then AddCredits(e, RankCredits(bg, 0.4), ByBigram) else e;
    AddCreditsValid(a1, RankCredits(kw, 0.6), ByKeyword);
    AddCreditsKeyed(a1, RankCredits(kw, 0.6), ByKeyword);
    AddCreditsValid(Stage2(opt, bg, kw), FuzzyCredits(fz, 0.3), ByFuzzy);
    AddCreditsKeyed(Stage2(opt, bg, kw), FuzzyCredits(fz, 0.3), ByFuzzy);
  }

  /**
   * A key's `totalScore` is 0.4 times the relevance of its bigram records
   * plus 0.6 times that of its keyword records plus, when the fuzzy pass
   * runs, 0.3 times the similarity of each of its fuzzy matches.
   */
  lemma BlendTotal(opt: Options, bg: seq<Ranked>, kw: seq<Ranked>, fz: seq<FuzzyHit>, k: Key)
    ensures TotalOf(BlendOf(opt, bg, kw, fz), k)
      == (if opt.useBigram then WeightOf(RankCredits(bg, 0.4), k) else 0.0)
       + (if opt.useKeywords then WeightOf(RankCredits(kw, 0.6), k) else 0.0)
       + (if FuzzyRuns(opt, bg, kw) then WeightOf(FuzzyCredits(fz, 0.3), k) else 0.0)
  {
    var e: Blend := EmptyMap();
    AddCreditsTotal(e, RankCredits(bg, 0.4), ByBigram, k);
    var a1 := if opt.useBigram then AddCredits(e, RankCredits(bg, 0.4), ByBigram) else e;
    AddCreditsTotal(a1, RankCredits(kw, 0.6), ByKeyword, k);
    AddCreditsTotal(Stage2(opt, bg, kw), FuzzyCredits(fz, 0.3), ByFuzzy, k);
  }

  /** A pass that may be switched off pushes its name once per credit for the key when it runs. */
  lemma GuardedMethods(acc: Blend, cs: seq<Credit>, m: Method, on: bool, k: Key)
    ensures MethodsOf(if on then AddCredits(acc, cs, m) else acc, k)
      == MethodsOf(acc, k) + (if on then Reps(m, CountOf(cs, k)) else [])
  {
    if on {
      AddCreditsMethods(acc, cs, m, k);
    } else {
      assert MethodsOf(acc, k) + [] == MethodsOf(acc, k);
    }
  }

  /** A key's `methods` name each enabled strategy once per record it has for the key, bigram first. */
  lemma BlendMethods(opt: Options, bg: seq<Ranked>, kw: seq<Ranked>, fz: seq<FuzzyHit>, k: Key)
    ensures MethodsOf(BlendOf(opt, bg, kw, fz), k)
      == (if opt.useBigram then Reps(ByBigram, CountOf(RankCredits(bg, 0.4), k)) else [])
       + (if opt.useKeywords then Reps(ByKeyword, CountOf(RankCredits(kw, 0.6), k)) else [])
       + (if FuzzyRuns(opt, bg, kw) then Reps(ByFuzzy, CountOf(FuzzyCredits(fz, 0.3), k)) else [])
  {
    var e: Blend := EmptyMap();
    var c1, c2, c3 := RankCredits(bg, 0.4), RankCredits(kw, 0.6), FuzzyCredits(fz, 0.3);
    var r1 := if opt.useBigram then Reps(ByBigram, CountOf(c1, k)) else [];
    var r2 := if opt.useKeywords then Reps(ByKeyword, CountOf(c2, k)) else [];
    var r3 := if FuzzyRuns(opt, bg, kw) then Reps(ByFuzzy, CountOf(c3, k)) else [];
    var a1 := if opt.useBigram then AddCredits(e, c1, ByBigram) else e;
    GuardedMethods(e, c1, ByBigram, opt.useBigram, k);
    assert MethodsOf(a1, k) == r1;
    var a2 := if opt.useKeywords then AddCredits(a1, c2, ByKeyword) else a1;
    GuardedMethods(a1, c2, ByKeyword, opt.useKeywords, k);
    assert a2 == Stage2(opt, bg, kw);
    var a3 := if FuzzyRuns(opt, bg, kw) then AddCredits(a2, c3, ByFuzzy) else a2;
    GuardedMethods(a2, c3, ByFuzzy, FuzzyRuns(opt, bg, kw), k);
    assert a3 == BlendOf(opt, bg, kw, fz);
    assert MethodsOf(a3, k) == r1 + r2 + r3;
  }

  /** A key is in the map exactly when some strategy that ran credited it. */
  lemma BlendKeys(opt: Options, bg: seq<Ranked>, kw: seq<Ranked>, fz: seq<FuzzyHit>, k: Key)
    ensures k in BlendOf(opt, bg, kw, fz).m <==>
      (opt.useBigram && CountOf(RankCredits(bg, 0.4), k) > 0)
      || (opt.useKeywords && CountOf(RankCredits(kw, 0.6), k) > 0)
      || (FuzzyRuns(opt, bg, kw) && CountOf(FuzzyCredits(fz, 0.3), k) > 0)
  {
    var e: Blend := EmptyMap();
    AddCreditsKeys(e, RankCredits(bg, 0.4), ByBigram, k);
    var a1 := if opt.useBigram then AddCredits(e, RankCredits(bg, 0.4), ByBigram) else e;
    AddCreditsKeys(a1, RankCredits(kw, 0.6), ByKeyword, k);
    AddCreditsKeys(Stage2(opt, bg, kw), FuzzyCredits(fz, 0.3), ByFuzzy, k);
  }

  /**
   * The results are combined records of the map, at most `maxResults` of
   * them, in non-increasing `totalScore`; when the map holds no more than
   * `maxResults` records, they are all there.
   */
  lemma ResultsLaws(b: Blend, maxResults: nat)
    requires b.Valid() && KeyedRight(b)
    ensures |Results(b, maxResults)| <= maxResults
    ensures SortedDesc(Results(b, maxResults), TotalScore)
    ensures forall s :: s in Results(b, maxResults) ==> KeyOf(s.doc) in b.m && b.m[KeyOf(s.doc)] == s
    ensures |b.keys| <= maxResults ==> multiset(Results(b, maxResults)) == multiset(Values(b))
  {
    var v := Values(b);
    SortDescLaws(v, TotalScore);
    SortDescMembers(v, TotalScore);
    TakeSorted(SortDesc(v, TotalScore), TotalScore, maxResults);
    forall s | s in Results(b, maxResults)
      ensures KeyOf(s.doc) in b.m && b.m[KeyOf(s.doc)] == s
    {
      assert s in v;
      var i :| 0 <= i < |v| && v[i] == s;
    }
  }

  // ---------------------------------------------------------------------
  // searchSequentially

  /** `.map(result => ({ ...result, totalScore: result.relevance, methods: [m] }))`. */
  function Tag(rs: seq<Ranked>, m: Method): (r: seq<Scored>)
    ensures |r| == |rs| && forall i :: 0 <= i < |r| ==> r[i] == Scored(rs[i].hit.doc, rs[i].relevance, [m])
  {
    seq(|rs|, i requires 0 <= i < |rs| => Scored(rs[i].hit.doc, rs[i].relevance, [m]))
  }

  /** The same for fuzzy matches, with `totalScore: result.similarity`. */
  function TagFuzzy(hs: seq<FuzzyHit>): (r: seq<Scored>)
    ensures |r| == |hs| && forall i :: 0 <= i < |r| ==> r[i] == Scored(hs[i].doc, hs[i].similarity, [ByFuzzy])
  {
    seq(|hs|, i requires 0 <= i < |hs| => Scored(hs[i].doc, hs[i].similarity, [ByFuzzy]))
  }

  /** `searchSequentially` given the three strategies' results: the first enabled one that found anything. */
  function SequentialOf(opt: Options, kw: seq<Ranked>, bg: seq<Ranked>, fz: seq<FuzzyHit>): seq<Scored> {
    if opt.useKeywords && kw != [] then Take(Tag(kw, ByKeyword), opt.maxResults)
    else if opt.useBigram && bg != [] then Take(Tag(bg, ByBigram), opt.maxResults)
    else if opt.useFuzzy && fz != [] then Take(TagFuzzy(fz), opt.maxResults)
    else []
  }

  /** `searchSequentially(query, options)`, the query normalised to `q`. */
  function Sequential(ix: Indices, q: string, opt: Options): seq<Scored> {
    SequentialOf(opt, Rank(ix.keyword, Keywords(q)), Rank(ix.bigram, Bigrams(q)), Fuzzy(q, Candidates(ix.bigram), opt.fuzzyThreshold))
  }

  /** Whether an enabled strategy found something, in the order they are tried. */
  predicate KeywordsWin(opt: Options, kw: seq<Ranked>) {
    opt.useKeywords && kw != []
  }

  predicate BigramWins(opt: Options, kw: seq<Ranked>, bg: seq<Ranked>) {
    !KeywordsWin(opt, kw) && opt.useBigram && bg != []
  }

  predicate FuzzyWins(opt: Options, kw: seq<Ranked>, bg: seq<Ranked>, fz: seq<FuzzyHit>) {
    !KeywordsWin(opt, kw) && !BigramWins(opt, kw, bg) && opt.useFuzzy && fz != []
  }

  /**
   * The sequential result is the first `maxResults` records of the first
   * enabled strategy that found any, each tagged with that strategy alone
   * and scored by its relevance or similarity; it is empty exactly when no
   * enabled strategy found anything or `maxResults` is 0.
   */
  lemma SequentialLaws(opt: Options, kw: seq<Ranked>, bg: seq<Ranked>, fz: seq<FuzzyHit>)
    ensures |SequentialOf(opt, kw, bg, fz)| <= opt.maxResults
    ensures SequentialOf(opt, kw, bg, fz) == [] <==>
      opt.maxResults == 0 || (!KeywordsWin(opt, kw) && !BigramWins(opt, kw, bg) && !FuzzyWins(opt, kw, bg, fz))
    ensures KeywordsWin(opt, kw) ==> forall i :: 0 <= i < |SequentialOf(opt, kw, bg, fz)| ==>
      SequentialOf(opt, kw, bg, fz)[i] == Scored(kw[i].hit.doc, kw[i].relevance, [ByKeyword])
    ensures BigramWins(opt, kw, bg) ==> forall i :: 0 <= i < |SequentialOf(opt, kw, bg, fz)| ==>
      SequentialOf(opt, kw, bg, fz)[i] == Scored(bg[i].hit.doc, bg[i].relevance, [ByBigram])
    ensures FuzzyWins(opt, kw, bg, fz) ==> forall i :: 0 <= i < |SequentialOf(opt, kw, bg, fz)| ==>
      SequentialOf(opt, kw, bg, fz)[i] == Scored(fz[i].doc, fz[i].similarity, [ByFuzzy])
  {
  }
}
