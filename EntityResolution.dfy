/**
 * `EntityResolution` of `src/entity-resolution.js`: the similarity test on
 * entity names, the parser for the model's `<|>n<|>yes<|>` replies, the
 * candidate search over type buckets, and the merge of confirmed pairs by
 * connected component. The language model is an oracle `chat`.
 */
module EntityResolution {
  import opened Common
  import opened Strings
  import Levenshtein
  import Grouping
  import opened PropertyGraphs

  // ---------------------------------------------------------------------
  // `is_similarity`

  /**
   * What the call `editDistance.levenshtein(a, b)` gives back: a distance,
   * an exception, or the package's result object, which a `<=` against a
   * number reads as NaN.
   */
  datatype EditOutcome = Computed(distance: nat) | Threw | Mapping

  function MinLen(a: string, b: string): nat {
    if |a| < |b| then |a| else |b|
  }

  function MaxLen(a: string, b: string): nat {
    if |a| < |b| then |b| else |a|
  }

  function Gap(a: string, b: string): nat {
    if |a| < |b| then |b| - |a| else |a| - |b|
  }

  /** `new Set(s)`: the characters of `s`. */
  function CharSet(s: string): set<char> {
    set i | 0 <= i < |s| :: s[i]
  }

  /**
   * The first test: the distance (or, when the library throws, the length
   * difference) is at most half the shorter original length.
   */
  predicate EditClose(a: string, b: string, edit: EditOutcome) {
    var half := MinLen(a, b) as real / 2.0;
    match edit
    case Computed(d) => d as real <= half
    case Threw => Gap(a, b) as real <= half
    case Mapping => false
  }

  /**
   * The second test: the Jaccard index of the lower-cased character sets is
   * above 0.6 when both names are shorter than 4, at least 0.8 otherwise.
   * With no characters at all the quotient is NaN and both comparisons fail.
   */
  predicate JaccardClose(a: string, b: string) {
    var sa := CharSet(Lower(a));
    var sb := CharSet(Lower(b));
    sa + sb != {} &&
    var j := |sa * sb| as real / |sa + sb| as real;
    if MaxLen(a, b) < 4 then j > 0.6 else j >= 0.8
  }

  /** `is_similarity(a, b)` once the edit distance library has answered `edit`. */
  predicate SimilarWith(a: string, b: string, edit: EditOutcome) {
    EditClose(a, b, edit) || JaccardClose(a, b)
  }

  /** `is_similarity(a, b)` corrected: the edit test compares the distance of the lower-cased names. */
  predicate IsSimilarity(a: string, b: string) {
    SimilarWith(a, b, Computed(Levenshtein.Distance(Lower(a), Lower(b))))
  }

  /** The test does not depend on the order of the names. */
  lemma SimilaritySymmetric(a: string, b: string)
    ensures IsSimilarity(a, b) <==> IsSimilarity(b, a)
  {
    Levenshtein.DistanceLaws(Lower(a), Lower(b));
    assert CharSet(Lower(a)) * CharSet(Lower(b)) == CharSet(Lower(b)) * CharSet(Lower(a));
    assert CharSet(Lower(a)) + CharSet(Lower(b)) == CharSet(Lower(b)) + CharSet(Lower(a));
  }

  /** Names that agree up to letter case are similar; in particular every name is similar to itself. */
  lemma SimilarIgnoringCase(a: string, b: string)
    requires Lower(a) == Lower(b)
    ensures IsSimilarity(a, b)
  {
    Levenshtein.DistanceLaws(Lower(a), Lower(b));
  }

  /**
   * The fallback of the `catch` branch is more lenient: every pair the edit
   * distance accepts, the length comparison accepts too.
   */
  lemma FallbackLenient(a: string, b: string)
    ensures IsSimilarity(a, b) ==> SimilarWith(a, b, Threw)
  {
    Levenshtein.DistanceLaws(Lower(a), Lower(b));
  }

  /** Non-empty names spelt with the same letters, whatever their case, are similar. */
  lemma SameLettersSimilar(a: string, b: string)
    requires a != [] && CharSet(Lower(a)) == CharSet(Lower(b))
    ensures IsSimilarity(a, b)
  {
    var s := CharSet(Lower(a));
    assert Lower(a)[0] in s;
    assert s * s == s && s + s == s;
  }

  /**
   * The call as written. The `edit-distance` package's `levenshtein(a, b,
   * insert, remove, update)` takes the three cost callbacks and returns a
   * mapping object holding the distance. Called with two arguments, filling
   * the first inner cell of the table calls the missing `remove` callback and
   * throws a `TypeError`; when either string is empty no inner cell is filled
   * and the mapping object comes back.
   */
  function LevenshteinCall(a: string, b: string): (r: EditOutcome)
    ensures r.Threw? <==> a != [] && b != []
    ensures !r.Computed?
  {
    if a != [] && b != [] then Threw else Mapping
  }

  /** `is_similarity(a, b)` as written: the edit test never sees a number. */
  predicate IsSimilarityAsWritten(a: string, b: string) {
    SimilarWith(a, b, LevenshteinCall(Lower(a), Lower(b)))
  }

  /**
   * As written, two non-empty names pass the first test exactly when their
   * lengths differ by at most half the shorter length; an empty name passes
   * only the Jaccard test, which it always fails.
   */
  lemma AsWrittenIff(a: string, b: string)
    ensures IsSimilarityAsWritten(a, b) <==>
              (a != [] && b != [] && Gap(a, b) as real <= MinLen(a, b) as real / 2.0) || JaccardClose(a, b)
    ensures a == [] ==> !IsSimilarityAsWritten(a, b)
  {
    if a == [] {
      assert Lower(a) == [];
      assert CharSet(Lower(a)) == {};
      var sb := CharSet(Lower(b));
      assert {} * sb == {};
    }
  }

  /** As written, every pair of non-empty names the corrected test accepts is still accepted. */
  lemma AsWrittenLenient(a: string, b: string)
    requires a != [] && b != []
    ensures IsSimilarity(a, b) ==> IsSimilarityAsWritten(a, b)
  {
    FallbackLenient(a, b);
    assert LevenshteinCall(Lower(a), Lower(b)) == Threw;
  }

  /** Two non-empty names with no letter in common are not similar. */
  lemma ApartNotSimilar(a: string, b: string)
    requires a != [] && b != [] && CharSet(Lower(a)) * CharSet(Lower(b)) == {}
    ensures !IsSimilarity(a, b)
  {
    ApartFar(a, b);
    ApartUnlike(a, b);
  }

  /** Their edit distance is the larger length, more than half the shorter one. */
  lemma ApartFar(a: string, b: string)
    requires a != [] && b != [] && CharSet(Lower(a)) * CharSet(Lower(b)) == {}
    ensures !EditClose(a, b, Computed(Levenshtein.Distance(Lower(a), Lower(b))))
  {
    var la, lb := Lower(a), Lower(b);
    forall k, l | 0 <= k < |la| && 0 <= l < |lb|
      ensures la[k] != lb[l]
    {
      assert la[k] in CharSet(la) && lb[l] in CharSet(lb);
      assert la[k] !in CharSet(la) * CharSet(lb);
    }
    Levenshtein.DistApart(la, lb, |la|, |lb|);
    assert Levenshtein.Distance(la, lb) == MaxLen(a, b);
  }

  /** Their Jaccard index is 0. */
  lemma ApartUnlike(a: string, b: string)
    requires a != [] && CharSet(Lower(a)) * CharSet(Lower(b)) == {}
    ensures !JaccardClose(a, b)
  {
    var sa, sb := CharSet(Lower(a)), CharSet(Lower(b));
    assert Lower(a)[0] in sa + sb;
    assert |sa * sb| == 0;
  }

  /**
   * IBM and HP share no letter and differ in length by 1, half the shorter
   * length: the code as written finds them similar, the corrected test does not.
   */
  lemma IbmHpSimilarAsWritten()
    ensures IsSimilarityAsWritten("IBM", "HP")
    ensures !IsSimilarity("IBM", "HP")
  {
    assert Lower("IBM") == "ibm" && Lower("HP") == "hp";
    assert CharSet("ibm") == {'i', 'b', 'm'} by {
      assert "ibm"[0] == 'i' && "ibm"[1] == 'b' && "ibm"[2] == 'm';
    }
    assert CharSet("hp") == {'h', 'p'} by {
      assert "hp"[0] == 'h' && "hp"[1] == 'p';
    }
    assert CharSet(Lower("IBM")) * CharSet(Lower("HP")) == {};
    ApartNotSimilar("IBM", "HP");
    AsWrittenIff("IBM", "HP");
  }

  // ---------------------------------------------------------------------
  // `_process_results`

  const Delim := "<|>"

  /** The character classes `\d` and `[a-zA-Z]`. */
  datatype CharClass = Digits | Letters

  predicate InClass(c: char, k: CharClass) {
    match k
    case Digits => '0' <= c <= '9'
    case Letters => 'a' <= c <= 'z' || 'A' <= c <= 'Z'
  }

  /** The end of the longest run of class characters starting at `i`. */
  function RunEnd(s: string, i: nat, k: CharClass): (j: nat)
    requires i <= |s|
    ensures i <= j <= |s| && (j < |s| ==> !InClass(s[j], k))
    ensures forall x :: i <= x < j ==> InClass(s[x], k)
    decreases |s| - i
  {
    if i < |s| && InClass(s[i], k) then RunEnd(s, i + 1, k) else i
  }

  /**
   * `/<\|>(\d+)<\|>/` (or the letter version) matches at `p`: the greedy run
   * after the opening delimiter is non-empty and the closing one follows it.
   */
  predicate TagAt(s: string, p: nat, k: CharClass) {
    MatchesAt(s, Delim, p) && var j := RunEnd(s, p + 3, k); j > p + 3 && MatchesAt(s, Delim, j)
  }

  /** The regular expression read literally: a delimiter, class characters up to `j`, a delimiter. */
  ghost predicate TagSpan(s: string, p: nat, j: nat, k: CharClass) {
    p + 3 < j && MatchesAt(s, Delim, p) && MatchesAt(s, Delim, j) &&
    forall x :: p + 3 <= x < j ==> InClass(s[x], k)
  }

  /** `TagAt` is the regular expression, and the span it captures is the only one. */
  lemma TagAtIff(s: string, p: nat, k: CharClass)
    ensures TagAt(s, p, k) <==> exists j: nat :: TagSpan(s, p, j, k)
    ensures forall j: nat :: TagSpan(s, p, j, k) ==> j == RunEnd(s, p + 3, k)
  {
    forall j: nat | TagSpan(s, p, j, k)
      ensures j == RunEnd(s, p + 3, k)
    {
      assert s[j..j + 3] == Delim;
      assert s[j] == s[j..j + 3][0];
      RunEndIs(s, p + 3, j, k);
    }
    if TagAt(s, p, k) {
      assert TagSpan(s, p, RunEnd(s, p + 3, k), k);
    }
  }

  /** A run of class characters from `i` to a non-class character at `j` ends at `j`. */
  lemma {:induction false} RunEndIs(s: string, i: nat, j: nat, k: CharClass)
    requires i <= j <= |s| && (forall x :: i <= x < j ==> InClass(s[x], k)) && (j < |s| ==> !InClass(s[j], k))
    ensures RunEnd(s, i, k) == j
    decreases j - i
  {
    if i < j {
      RunEndIs(s, i + 1, j, k);
    }
  }

  /** The leftmost match at or after `p`, as `String.prototype.match` finds it. */
  function FirstTag(s: string, k: CharClass, p: nat): (r: Option<nat>)
    ensures r.Some? ==> p <= r.value && TagAt(s, r.value, k)
    ensures r.Some? ==> forall q :: p <= q < r.value ==> !TagAt(s, q, k)
    ensures r.None? ==> forall q :: p <= q ==> !TagAt(s, q, k)
    decreases |s| - p
  {
    if p + 3 > |s| then None
    else if TagAt(s, p, k) then Some(p)
    else FirstTag(s, k, p + 1)
  }

  /** The captured group of the match at `p`. */
  function Capture(s: string, p: nat, k: CharClass): string
    requires TagAt(s, p, k)
  {
    s[p + 3..RunEnd(s, p + 3, k)]
  }

  function DigitValue(c: char): nat {
    if '0' <= c <= '9' then c as int - '0' as int else 0
  }

  /** `parseInt(ds, 10)` on a string of decimal digits. */
  function DecimalValue(ds: string): nat
    decreases |ds|
  {
    if ds == [] then 0 else 10 * DecimalValue(ds[..|ds| - 1]) + DigitValue(ds[|ds| - 1])
  }

  /** The numbers `${k}` puts in the questions read back as themselves. */
  lemma {:induction false} DecimalOfNatToString(n: nat)
    ensures DecimalValue(NatToString(n)) == n
    decreases n
  {
    var d := [('0' as int + n % 10) as char];
    if n >= 10 {
      DecimalOfNatToString(n / 10);
      var r := NatToString(n / 10) + d;
      assert r[..|r| - 1] == NatToString(n / 10);
    }
  }

  /**
   * The smallest question number a reply may name: 0 as `_process_results`
   * is written, 1 as the questions are numbered.
   */
  const AsWritten: nat := 0
  const FromOne: nat := 1

  /**
   * One `##` record of a reply: with a number tag `q` and a word tag that is
   * `yes` in any case, and `lowest <= q <= n`, it decides question `q`,
   * index `q - 1`.
   */
  function Decision(n: nat, record: string, lowest: nat): Option<int> {
    match FirstTag(record, Digits, 0)
    case None => None
    case Some(q) =>
      match FirstTag(record, Letters, 0)
      case None => None
      case Some(w) =>
        var number := DecimalValue(Capture(record, q, Digits));
        if lowest <= number <= n && Lower(Capture(record, w, Letters)) == "yes" then Some(number - 1) else None
  }

  /** The values `f` gives for the elements of `xs` where it gives one, in order. */
  function Picks<T, U>(xs: seq<T>, f: T -> Option<U>): seq<U>
    decreases |xs|
  {
    if xs == [] then []
    else
      var y := f(xs[|xs| - 1]);
      Picks(xs[..|xs| - 1], f) + (if y.Some? then [y.value] else [])
  }

  /** The decisions of the records, in order. */
  function Decisions(n: nat, records: seq<string>, lowest: nat): seq<int> {
    Picks(records, r => Decision(n, r, lowest))
  }

  /** The records of a reply: its pieces between `##`. */
  function Records(reply: string): seq<string> {
    SplitMarkers(reply, ["##"])
  }

  /** `_process_results(n, reply)`, accepting question numbers from `lowest` on. */
  method ProcessResults(n: nat, reply: string, lowest: nat) returns (decisions: seq<int>)
    ensures decisions == Decisions(n, Records(reply), lowest)
  {
    var records := Records(reply);
    decisions := [];
    for i := 0 to |records|
      invariant decisions == Decisions(n, records[..i], lowest)
    {
      var d := Decision(n, records[i], lowest);
      if d.Some? {
        decisions := decisions + [d.value];
      }
      assert records[..i + 1][..i] == records[..i];
    }
    assert records[..|records|] == records;
  }

  /** Every decision names a question from `lowest` to `n`, as an index one less. */
  lemma DecisionsRange(n: nat, records: seq<string>, lowest: nat)
    ensures forall i :: 0 <= i < |Decisions(n, records, lowest)| ==>
              lowest - 1 <= Decisions(n, records, lowest)[i] < n
  {
    var f := r => Decision(n, r, lowest);
    forall r
      ensures f(r).Some? ==> lowest - 1 <= f(r).value < n
    {
    }
    PicksBounded(records, f, lowest - 1, n);
  }

  lemma {:induction false} PicksBounded<T>(xs: seq<T>, f: T -> Option<int>, lo: int, hi: int)
    requires forall x :: f(x).Some? ==> lo <= f(x).value < hi
    ensures forall i :: 0 <= i < |Picks(xs, f)| ==> lo <= Picks(xs, f)[i] < hi
    decreases |xs|
  {
    if xs != [] {
      PicksBounded(xs[..|xs| - 1], f, lo, hi);
    }
  }

  /** Some element is sent to `y`. */
  ghost predicate PickedFrom<T, U>(xs: seq<T>, f: T -> Option<U>, y: U) {
    exists i :: 0 <= i < |xs| && f(xs[i]) == Some(y)
  }

  lemma {:induction false} PicksIff<T, U>(xs: seq<T>, f: T -> Option<U>, y: U)
    ensures y in Picks(xs, f) <==> PickedFrom(xs, f, y)
    decreases |xs|
  {
    if xs != [] {
      var init := xs[..|xs| - 1];
      var last := |xs| - 1;
      PicksIff(init, f, y);
      if y in Picks(xs, f) && y !in Picks(init, f) {
        assert f(xs[last]) == Some(y);
      }
      if PickedFrom(xs, f, y) {
        var i :| 0 <= i < |xs| && f(xs[i]) == Some(y);
        if i < last {
          assert init[i] == xs[i];
          assert PickedFrom(init, f, y);
        }
      }
      if PickedFrom(init, f, y) {
        var i :| 0 <= i < |init| && f(init[i]) == Some(y);
        assert init[i] == xs[i];
      }
    }
  }

  /** A decision is in the list exactly when some record makes it. */
  lemma DecisionsIff(n: nat, records: seq<string>, lowest: nat, d: int)
    ensures d in Decisions(n, records, lowest) <==>
            exists i :: 0 <= i < |records| && Decision(n, records[i], lowest) == Some(d)
  {
    PicksIff(records, r => Decision(n, r, lowest), d);
  }

  /** A reply without `#` is a single record. */
  lemma RecordsOfPlain(s: string)
    requires forall i :: 0 <= i < |s| ==> s[i] != '#'
    ensures Records(s) == [s]
  {
    forall p | 0 <= p <= |s|
      ensures !MatchesAt(s, ["##"][0], p)
    {
      if p + 2 <= |s| {
        assert s[p..p + 2][0] == s[p];
      }
    }
  }

  /** The reply of the mistake case: question 0, answered yes. */
  const ZeroReply := "<|>0<|>yes<|>"

  /** The one record of the reply: question 0, word `yes`. */
  lemma ZeroRecord(lowest: nat)
    ensures Decision(1, ZeroReply, lowest) == if lowest == 0 then Some(-1) else None
  {
    ZeroDigits();
    ZeroLetters();
    ZeroWords();
  }

  lemma ZeroWords()
    ensures DecimalValue("0") == 0 && Lower("yes") == "yes"
  {
    assert DecimalValue("0") == 0;
    assert Lower("yes") == "yes";
  }

  lemma ZeroDigits()
    ensures FirstTag(ZeroReply, Digits, 0) == Some(0) && Capture(ZeroReply, 0, Digits) == "0"
  {
    var s := ZeroReply;
    assert s[0..3] == Delim && s[4..7] == Delim;
    assert RunEnd(s, 4, Digits) == 4 && RunEnd(s, 3, Digits) == 4;
    assert TagAt(s, 0, Digits);
  }

  lemma ZeroLetters()
    ensures FirstTag(ZeroReply, Letters, 0) == Some(4) && Capture(ZeroReply, 4, Letters) == "yes"
  {
    var s := ZeroReply;
    NoLetterTagBefore();
    LetterTagAt();
    assert FirstTag(s, Letters, 4) == Some(4);
    assert FirstTag(s, Letters, 3) == Some(4);
    assert FirstTag(s, Letters, 2) == Some(4);
    assert FirstTag(s, Letters, 1) == Some(4);
  }

  lemma NoLetterTagBefore()
    ensures !TagAt(ZeroReply, 0, Letters) && !TagAt(ZeroReply, 1, Letters)
    ensures !TagAt(ZeroReply, 2, Letters) && !TagAt(ZeroReply, 3, Letters)
  {
    var s := ZeroReply;
    assert RunEnd(s, 3, Letters) == 3;
    assert s[1..4][0] == s[1] && s[2..5][0] == s[2] && s[3..6][0] == s[3];
    assert s[1] != '<' && s[2] != '<' && s[3] != '<';
  }

  lemma LetterTagAt()
    ensures TagAt(ZeroReply, 4, Letters) && RunEnd(ZeroReply, 7, Letters) == 10
  {
    var s := ZeroReply;
    assert s[4..7] == Delim && s[10..13] == Delim;
    assert RunEnd(s, 10, Letters) == 10;
    assert RunEnd(s, 9, Letters) == 10;
    assert RunEnd(s, 8, Letters) == 10;
    assert RunEnd(s, 7, Letters) == 10;
  }

  /**
   * As written, the reply `<|>0<|>yes<|>` to a batch of one question gives
   * the decision -1, and `batch[-1].sort()` then throws; accepting question
   * numbers from 1 drops it.
   */
  lemma ZeroQuestion()
    ensures Decisions(1, Records(ZeroReply), AsWritten) == [-1]
    ensures Decisions(1, Records(ZeroReply), FromOne) == []
  {
    ZeroDecisions(AsWritten);
    ZeroDecisions(FromOne);
  }

  lemma ZeroDecisions(lowest: nat)
    ensures Decisions(1, Records(ZeroReply), lowest) == if lowest == 0 then [-1] else []
  {
    ZeroPlain();
    ZeroRecord(lowest);
    PicksOne(ZeroReply, r => Decision(1, r, lowest));
  }

  /** The reply holds no record separator `##`. */
  lemma ZeroPlain()
    ensures Records(ZeroReply) == [ZeroReply]
  {
    var s := ZeroReply;
    forall i | 0 <= i < |s|
      ensures s[i] != '#'
    {
      assert s[i] in "<|>0yes";
    }
    RecordsOfPlain(s);
  }

  lemma PicksOne<T, U>(x: T, f: T -> Option<U>)
    ensures Picks([x], f) == if f(x).Some? then [f(x).value] else []
  {
    assert [x][..0] == [];
  }

  // ---------------------------------------------------------------------
  // `resolve`: buckets and candidate pairs

  /** `graph.getNodeAttribute(node, "entity_type") || "-"`. */
  function NodeType(g: GraphData, n: string): string {
    if n in g.attrs && g.attrs[n].entityType.Some? && g.attrs[n].entityType.value != [] then g.attrs[n].entityType.value
    else "-"
  }

  function TypeOf(g: GraphData): string -> string {
    n => NodeType(g, n)
  }

  /** `node_clusters`: the nodes grouped by type, types in order of first appearance. */
  function Clusters(g: GraphData): OrdMap<string, seq<string>> {
    Grouping.GroupBy(g.nodes, TypeOf(g))
  }

  /** The `nodes.forEach` loop that fills `node_clusters`. */
  method BucketByType(graph: Graph) returns (clusters: OrdMap<string, seq<string>>)
    ensures clusters == Clusters(graph.Data())
  {
    ghost var g := graph.Data();
    var nodes := graph.nodes;
    clusters := EmptyMap();
    for i := 0 to |nodes|
      invariant clusters == Grouping.GroupBy(nodes[..i], TypeOf(g))
    {
      var node := nodes[i];
      clusters := Grouping.Extend(clusters, NodeType(graph.Data(), node), [node]);
      assert nodes[..i + 1] == nodes[..i] + [node];
      Grouping.GroupBySnoc(nodes[..i], node, TypeOf(g));
    }
    assert nodes[..|nodes|] == nodes;
  }

  lemma {:induction false} MembersIff(vs: seq<string>, key: string -> string, k: string, x: string)
    ensures x in Grouping.Members(vs, key, k) <==> x in vs && key(x) == k
    decreases |vs|
  {
    if vs != [] {
      var init := vs[..|vs| - 1];
      MembersIff(init, key, k, x);
      assert vs == init + [vs[|vs| - 1]];
    }
  }

  lemma {:induction false} MembersDistinct(vs: seq<string>, key: string -> string, k: string)
    requires Distinct(vs)
    ensures Distinct(Grouping.Members(vs, key, k))
    decreases |vs|
  {
    if vs != [] {
      var init := vs[..|vs| - 1];
      var last := vs[|vs| - 1];
      MembersDistinct(init, key, k);
      MembersIff(init, key, k, last);
      assert vs == init + [last];
    }
  }

  /**
   * Every node is in the bucket of its type and in no other, and a bucket
   * holds each of its nodes once.
   */
  lemma ClustersLaws(g: GraphData)
    requires Distinct(g.nodes)
    ensures Clusters(g).Valid()
    ensures forall k, x :: k in Clusters(g).m && x in Clusters(g).m[k] <==> x in g.nodes && NodeType(g, x) == k
    ensures forall k :: k in Clusters(g).m ==> Distinct(Clusters(g).m[k])
  {
    Grouping.GroupByValid(g.nodes, TypeOf(g));
    forall k, x
      ensures k in Clusters(g).m && x in Clusters(g).m[k] <==> x in g.nodes && NodeType(g, x) == k
    {
      Grouping.GroupByEntry(g.nodes, TypeOf(g), k);
      MembersIff(g.nodes, TypeOf(g), k, x);
    }
    forall k | k in Clusters(g).m
      ensures Distinct(Clusters(g).m[k])
    {
      Grouping.GroupByEntry(g.nodes, TypeOf(g), k);
      MembersDistinct(g.nodes, TypeOf(g), k);
    }
  }

  /** The similar pairs `(c[i], c[j])` with `i < j < hi`, for one `i`. */
  function RowPairs<T(==)>(c: seq<T>, i: nat, hi: nat, sim: (T, T) -> bool): seq<(T, T)>
    requires i < |c| && hi <= |c|
    decreases hi
  {
    if hi <= i + 1 then []
    else RowPairs(c, i, hi - 1, sim) + (if sim(c[i], c[hi - 1]) then [(c[i], c[hi - 1])] else [])
  }

  /** The similar pairs whose first index is below `lo`. */
  function PairsBefore<T(==)>(c: seq<T>, lo: nat, sim: (T, T) -> bool): seq<(T, T)>
    requires lo <= |c|
    decreases lo
  {
    if lo == 0 then [] else PairsBefore(c, lo - 1, sim) + RowPairs(c, lo - 1, |c|, sim)
  }

  /** `candidate_resolution[type]` for a bucket `c`. */
  function CandidatePairs<T(==)>(c: seq<T>, sim: (T, T) -> bool): seq<(T, T)> {
    PairsBefore(c, |c|, sim)
  }

  /** The two nested loops over a bucket. */
  method CandidatesOf<T(==)>(c: seq<T>, sim: (T, T) -> bool) returns (pairs: seq<(T, T)>)
    ensures pairs == CandidatePairs(c, sim)
  {
    pairs := [];
    for i := 0 to |c|
      invariant pairs == PairsBefore(c, i, sim)
    {
      for j := i + 1 to |c|
        invariant pairs == PairsBefore(c, i, sim) + RowPairs(c, i, j, sim)
      {
        if sim(c[i], c[j]) {
          ConcatAssoc(PairsBefore(c, i, sim), RowPairs(c, i, j, sim), [(c[i], c[j])]);
          pairs := pairs + [(c[i], c[j])];
        }
      }
    }
  }

  /** The pair of positions `i < j` in `c` holds `p` and its names are similar. */
  ghost predicate SimilarAt<T>(c: seq<T>, sim: (T, T) -> bool, p: (T, T), i: int, j: int) {
    0 <= i < j < |c| && p == (c[i], c[j]) && sim(c[i], c[j])
  }

  /** Some `j < hi` makes `(c[i], c[j])` a similar pair equal to `p`. */
  ghost predicate SimilarInRow<T>(c: seq<T>, sim: (T, T) -> bool, p: (T, T), i: int, hi: int) {
    exists j :: j < hi && SimilarAt(c, sim, p, i, j)
  }

  /** Some similar pair `(c[i], c[j])` with `i < lo` is `p`. */
  ghost predicate SimilarBefore<T>(c: seq<T>, sim: (T, T) -> bool, p: (T, T), lo: int) {
    exists i, j :: i < lo && SimilarAt(c, sim, p, i, j)
  }

  lemma {:induction false} RowPairsIff<T>(c: seq<T>, sim: (T, T) -> bool, i: nat, hi: nat, p: (T, T))
    requires i < |c| && hi <= |c|
    ensures p in RowPairs(c, i, hi, sim) <==> SimilarInRow(c, sim, p, i, hi)
    decreases hi
  {
    if hi > i + 1 {
      RowPairsIff(c, sim, i, hi - 1, p);
      if p in RowPairs(c, i, hi, sim) && p !in RowPairs(c, i, hi - 1, sim) {
        assert SimilarAt(c, sim, p, i, hi - 1);
      }
    }
  }

  lemma {:induction false} PairsBeforeIff<T>(c: seq<T>, sim: (T, T) -> bool, lo: nat, p: (T, T))
    requires lo <= |c|
    ensures p in PairsBefore(c, lo, sim) <==> SimilarBefore(c, sim, p, lo)
    decreases lo
  {
    if lo > 0 {
      var r := lo - 1;
      PairsBeforeIff(c, sim, r, p);
      RowPairsIff(c, sim, r, |c|, p);
      PairsBeforeStep(c, sim, r, p);
    }
  }

  /** `PairsBefore` grows by one row; its members follow the two parts'. */
  lemma PairsBeforeStep<T>(c: seq<T>, sim: (T, T) -> bool, r: nat, p: (T, T))
    requires r < |c|
    requires (p in PairsBefore(c, r, sim)) == SimilarBefore(c, sim, p, r)
    requires (p in RowPairs(c, r, |c|, sim)) == SimilarInRow(c, sim, p, r, |c|)
    ensures (p in PairsBefore(c, r + 1, sim)) == SimilarBefore(c, sim, p, r + 1)
  {
    PairsIffStep(c, sim, r, p, PairsBefore(c, r, sim), RowPairs(c, r, |c|, sim));
  }

  /** One more row of pairs: the pairs with first index up to `r`. */
  lemma PairsIffStep<T>(c: seq<T>, sim: (T, T) -> bool, r: nat, p: (T, T), before: seq<(T, T)>, row: seq<(T, T)>)
    requires r < |c|
    requires (p in before) == SimilarBefore(c, sim, p, r)
    requires (p in row) == SimilarInRow(c, sim, p, r, |c|)
    ensures (p in before + row) == SimilarBefore(c, sim, p, r + 1)
  {
    if SimilarBefore(c, sim, p, r + 1) {
      var i, j :| i < r + 1 && SimilarAt(c, sim, p, i, j);
      if i < r {
        assert SimilarBefore(c, sim, p, r);
      } else {
        assert SimilarInRow(c, sim, p, r, |c|);
      }
    }
    if p in before {
      var i, j :| i < r && SimilarAt(c, sim, p, i, j);
      assert i < r + 1;
    } else if p in row {
      var j :| j < |c| && SimilarAt(c, sim, p, r, j);
      assert r < r + 1;
    }
  }

  /** A candidate is a similar pair of bucket members, the first before the second. */
  lemma CandidatePairsIff<T>(c: seq<T>, sim: (T, T) -> bool, p: (T, T))
    ensures p in CandidatePairs(c, sim) <==> exists i, j :: SimilarAt(c, sim, p, i, j)
  {
    PairsBeforeIff(c, sim, |c|, p);
  }

  /**
   * As written, a bucket of non-empty names yields every candidate pair the
   * corrected similarity test yields, and possibly more.
   */
  lemma CandidatesAsWritten(c: seq<string>, p: (string, string))
    requires forall k :: 0 <= k < |c| ==> c[k] != []
    requires p in CandidatePairs(c, IsSimilarity)
    ensures p in CandidatePairs(c, IsSimilarityAsWritten)
  {
    CandidatePairsIff(c, IsSimilarity, p);
    var i, j :| SimilarAt(c, IsSimilarity, p, i, j);
    AsWrittenLenient(c[i], c[j]);
    assert SimilarAt(c, IsSimilarityAsWritten, p, i, j);
    CandidatePairsIff(c, IsSimilarityAsWritten, p);
  }

  lemma DistinctConcat<T>(a: seq<T>, b: seq<T>)
    requires Distinct(a) && Distinct(b) && forall x :: x in a ==> x !in b
    ensures Distinct(a + b)
  {
    forall i, j | 0 <= i < j < |a + b|
      ensures (a + b)[i] != (a + b)[j]
    {
      if i < |a| && j >= |a| {
        assert (a + b)[i] in a && (a + b)[j] == b[j - |a|];
      }
    }
  }

  lemma {:induction false} RowPairsDistinct<T>(c: seq<T>, sim: (T, T) -> bool, i: nat, hi: nat)
    requires i < |c| && hi <= |c| && Distinct(c)
    ensures Distinct(RowPairs(c, i, hi, sim))
    decreases hi
  {
    if hi > i + 1 {
      RowPairsDistinct(c, sim, i, hi - 1);
      var p := (c[i], c[hi - 1]);
      RowPairsIff(c, sim, i, hi - 1, p);
      DistinctConcat(RowPairs(c, i, hi - 1, sim), if sim(c[i], c[hi - 1]) then [p] else []);
    }
  }

  lemma {:induction false} PairsBeforeDistinct<T>(c: seq<T>, sim: (T, T) -> bool, lo: nat)
    requires lo <= |c| && Distinct(c)
    ensures Distinct(PairsBefore(c, lo, sim))
    decreases lo
  {
    if lo > 0 {
      PairsBeforeDistinct(c, sim, lo - 1);
      PairsDistinctStep(c, sim, lo - 1);
    }
  }

  /** A new row shares no pair with the earlier rows, so one more row keeps the pairs distinct. */
  lemma PairsDistinctStep<T>(c: seq<T>, sim: (T, T) -> bool, r: nat)
    requires r < |c| && Distinct(c) && Distinct(PairsBefore(c, r, sim))
    ensures Distinct(PairsBefore(c, r + 1, sim))
  {
    RowPairsDistinct(c, sim, r, |c|);
    forall p | p in PairsBefore(c, r, sim)
      ensures p !in RowPairs(c, r, |c|, sim)
    {
      PairsBeforeIff(c, sim, r, p);
      RowPairsIff(c, sim, r, |c|, p);
    }
    DistinctConcat(PairsBefore(c, r, sim), RowPairs(c, r, |c|, sim));
  }

  /** In a bucket without repeated names each unordered pair is a candidate at most once. */
  lemma CandidatePairsOnce<T>(c: seq<T>, sim: (T, T) -> bool)
    requires Distinct(c)
    ensures Distinct(CandidatePairs(c, sim))
    ensures forall p :: p in CandidatePairs(c, sim) ==> (p.1, p.0) !in CandidatePairs(c, sim)
  {
    PairsBeforeDistinct(c, sim, |c|);
    forall p | p in CandidatePairs(c, sim)
      ensures (p.1, p.0) !in CandidatePairs(c, sim)
    {
      CandidatePairsIff(c, sim, p);
      CandidatePairsIff(c, sim, (p.1, p.0));
    }
  }

  // ---------------------------------------------------------------------
  // `resolve`: batches and prompts

  const BatchSize: nat := 50

  function Min(a: int, b: int): int {
    if a < b then a else b
  }

  /** One call of the model: the type of a bucket and up to 50 of its candidates. */
  datatype Job = Job(kind: string, batch: seq<(string, string)>)

  /** `candidates.slice(i, i + 50)` for `i` from `i` on in steps of 50. */
  function JobsFrom(kind: string, cands: seq<(string, string)>, i: nat): seq<Job>
    decreases |cands| - i
  {
    if i >= |cands| then [] else [Job(kind, cands[i..Min(i + BatchSize, |cands|)])] + JobsFrom(kind, cands, i + BatchSize)
  }

  function Batches(jobs: seq<Job>): seq<(string, string)>
    decreases |jobs|
  {
    if jobs == [] then [] else jobs[0].batch + Batches(jobs[1..])
  }

  /** The batches of a bucket hold its candidates in order, between 1 and 50 at a time. */
  lemma {:induction false} JobsFromLaws(kind: string, cands: seq<(string, string)>, i: nat)
    requires i <= |cands|
    ensures Batches(JobsFrom(kind, cands, i)) == cands[i..]
    ensures forall k :: 0 <= k < |JobsFrom(kind, cands, i)| ==>
              JobsFrom(kind, cands, i)[k].kind == kind && 1 <= |JobsFrom(kind, cands, i)[k].batch| <= BatchSize
    decreases |cands| - i
  {
    if i < |cands| {
      var hi := Min(i + BatchSize, |cands|);
      var rest := JobsFrom(kind, cands, i + BatchSize);
      if i + BatchSize <= |cands| {
        JobsFromLaws(kind, cands, i + BatchSize);
      } else {
        assert rest == [];
      }
      var js := JobsFrom(kind, cands, i);
      assert js == [Job(kind, cands[i..hi])] + rest;
      assert js[1..] == rest;
      assert cands[i..] == cands[i..hi] + cands[hi..];
    }
  }

  /** `pair_txt`: one line per candidate, numbered from 1. */
  function QuestionLine(kind: string, k: nat, pair: (string, string)): string {
    "Question " + NatToString(k + 1) + ": name of " + kind + " A is " + pair.0 + ", name of " + kind + " B is " + pair.1
  }

  function PairText(job: Job): string {
    Join(seq(|job.batch|, k requires 0 <= k < |job.batch| => QuestionLine(job.kind, k, job.batch[k])), "\n")
  }

  const Placeholder := "{input_text}"

  /** `this._resolution_prompt.replace("{input_text}", pair_txt)`. */
  function Prompt(template: string, job: Job): string {
    ReplaceFirst(template, Placeholder, PairText(job))
  }

  /**
   * A template without the placeholder is sent as it is, whatever the batch:
   * the model then never sees the candidates.
   */
  lemma PromptWithoutPlaceholder(template: string, job: Job)
    requires !Contains(template, Placeholder)
    ensures Prompt(template, job) == template
  {
  }

  /**
   * `s.replace(pat, text)` where `pat` does not occur in `pre` and its first
   * character does not recur in it, so that no occurrence straddles `pre`:
   * the match is the one after `pre`, so `$&`, `` $` `` and `$'` in `text`
   * stand for `pat`, `pre` and `post`, and a `text` without `$` is put in
   * as it is.
   */
  lemma ReplaceFirstAfter(pre: string, pat: string, post: string, text: string)
    requires pat != [] && !Contains(pre, pat)
    requires forall i :: 0 < i < |pat| ==> pat[i] != pat[0]
    ensures var t := pre + pat + post;
      ReplaceFirst(t, pat, text) == pre + Substitution(text, t, |pre|, |pat|) + post
      && t[..|pre|] == pre && t[|pre|..|pre| + |pat|] == pat && t[|pre| + |pat|..] == post
    ensures '$' !in text ==> ReplaceFirst(pre + pat + post, pat, text) == pre + text + post
  {
    var t := pre + pat + post;
    assert MatchesAt(t, pat, |pre|) by {
      assert t[|pre|..|pre| + |pat|] == pat;
    }
    ContainsIff(pre, pat);
    forall k | 0 <= k < |pre|
      ensures !MatchesAt(t, pat, k)
    {
      if k + |pat| <= |pre| {
        assert t[k..k + |pat|] == pre[k..k + |pat|];
        assert !MatchesAt(pre, pat, k);
      } else if k + |pat| <= |t| {
        var d := |pre| - k;
        assert t[|pre|] == pat[0] && pat[d] != pat[0];
        assert t[k..k + |pat|][d] == t[|pre|];
        assert t[k..k + |pat|] != pat;
      }
    }
    assert FindFrom(t, pat, 0) == Some(|pre|);
    assert t[..|pre|] == pre;
    assert t[|pre| + |pat|..] == post;
    if '$' !in text {
      SubstitutionPlain(text, t, |pre|, |pat|);
    }
  }

  /**
   * With the placeholder, its first occurrence gives way to the questions,
   * read as a replacement string: they go in as they are unless a name
   * holds a `$` pattern.
   */
  lemma PromptWithPlaceholder(pre: string, post: string, job: Job)
    requires !Contains(pre, Placeholder)
    ensures var t := pre + Placeholder + post;
      Prompt(t, job) == pre + Substitution(PairText(job), t, |pre|, |Placeholder|) + post
    ensures '$' !in PairText(job) ==> Prompt(pre + Placeholder + post, job) == pre + PairText(job) + post
  {
    PlaceholderHead();
    ReplaceFirstAfter(pre, Placeholder, post, PairText(job));
  }

  /** The placeholder's first character does not come back in it. */
  lemma PlaceholderHead()
    ensures |Placeholder| == 12 && forall i :: 0 < i < |Placeholder| ==> Placeholder[i] != Placeholder[0]
  {
  }

  /** `$&` in a name expands to the placeholder it replaces. */
  lemma DollarNameSubstitution()
    ensures Substitution("A$&B", "x" + Placeholder, 1, |Placeholder|) == "A" + Placeholder + "B"
  {
    var t := "x" + Placeholder;
    PlaceholderHead();
    assert "B"[1..] == [] && "$&B"[2..] == "B" && "A$&B"[1..] == "$&B";
    assert Substitution("B", t, 1, 12) == "B";
    assert Substitution("$&B", t, 1, 12) == t[1..13] + "B";
    assert t[1..13] == Placeholder;
  }

  /** A name with `$&` in it brings the placeholder back into the prompt. */
  lemma DollarNameKeepsPlaceholder()
    ensures Substitution("A$&B", "x" + Placeholder, 1, |Placeholder|) == "A" + Placeholder + "B"
    ensures ReplaceFirst("x" + Placeholder, Placeholder, "A$&B") == "xA" + Placeholder + "B"
  {
    DollarNameSubstitution();
    assert !Contains("x", Placeholder) by { ContainsIff("x", Placeholder); }
    assert "x" + Placeholder + "" == "x" + Placeholder;
    ReplaceFirstAfter("x", Placeholder, "", "A$&B");
  }
}
