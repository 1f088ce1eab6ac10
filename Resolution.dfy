// `EntityResolution.resolve`: ask the model about the candidate pairs of each
// type in batches, collect the pairs it confirms, join them into a connection
// graph and merge each connected component of that graph into its first node.

module Resolution {
  import opened Common
  import opened Strings
  import opened EntityResolution
  import Grouping
  import opened PropertyGraphs
  import NodeMerging
  import WeightedGraphs

  type Pair = (string, string)

  // ---------------------------------------------------------------------
  // The confirmed pairs

  /** `set.add(x)` on a set kept in insertion order, and `hasNode(x) || addNode(x)`. */
  function AddOnce<T(==,!new)>(xs: seq<T>, x: T): (r: seq<T>)
    ensures forall y :: y in r <==> y in xs || y == x
    ensures Distinct(xs) ==> Distinct(r)
    ensures |xs| <= |r| <= |xs| + 1 && r[..|xs|] == xs
  {
    if x in xs then xs else xs + [x]
  }

  /** `batch[d].sort()`, the pair that decision `d` confirms. */
  function Chosen(batch: seq<Pair>, d: int): Pair
    requires 0 <= d < |batch|
  {
    SortedPair(batch[d].0, batch[d].1)
  }

  /** Every decision is an index into the batch. */
  predicate InRange(batch: seq<Pair>, ds: seq<int>) {
    forall i :: 0 <= i < |ds| ==> 0 <= ds[i] < |batch|
  }

  /** `decisions.forEach(d => pairs_to_merge.add(batch[d].sort()))`. */
  function AddDecisions(ps: seq<Pair>, batch: seq<Pair>, ds: seq<int>): seq<Pair>
    requires InRange(batch, ds)
    decreases |ds|
  {
    if ds == [] then ps else AddOnce(AddDecisions(ps, batch, ds[..|ds| - 1]), Chosen(batch, ds[|ds| - 1]))
  }

  /**
   * The decisions the model's reply gives on a job, questions counted from
   * 1: each is an index into the batch.
   */
  function JobDecisions(template: string, chat: string -> string, job: Job): (ds: seq<int>)
    ensures InRange(job.batch, ds)
  {
    var records := Records(chat(Prompt(template, job)));
    DecisionsRange(|job.batch|, records, FromOne);
    Decisions(|job.batch|, records, FromOne)
  }

  /** The pairs held after asking about each job in turn, starting from `ps`. */
  function Confirm(ps: seq<Pair>, jobs: seq<Job>, template: string, chat: string -> string): seq<Pair>
    decreases |jobs|
  {
    if jobs == [] then ps
    else Confirm(AddDecisions(ps, jobs[0].batch, JobDecisions(template, chat, jobs[0])), jobs[1..], template, chat)
  }

  /** `candidate_resolution`, one list per type of `keys`. */
  function CandidateLists(clusters: OrdMap<string, seq<string>>, keys: seq<string>): seq<seq<Pair>> {
    seq(|keys|, t requires 0 <= t < |keys| => CandidatePairs(Grouping.Get(clusters, keys[t]), IsSimilarity))
  }

  /** The jobs of the types `kinds` with candidate lists `lists`, type after type. */
  function Jobs(kinds: seq<string>, lists: seq<seq<Pair>>): seq<Job>
    requires |kinds| == |lists|
    decreases |kinds|
  {
    if kinds == [] then [] else JobsFrom(kinds[0], lists[0], 0) + Jobs(kinds[1..], lists[1..])
  }

  function AllJobs(g: GraphData): seq<Job> {
    var clusters := Clusters(g);
    Jobs(clusters.keys, CandidateLists(clusters, clusters.keys))
  }

  /** `pairs_to_merge` once every batch has been asked about. */
  function Confirmed(g: GraphData, template: string, chat: string -> string): seq<Pair> {
    Confirm([], AllJobs(g), template, chat)
  }

  /** `num_candidates`. */
  function Total(lists: seq<seq<Pair>>): nat
    decreases |lists|
  {
    if lists == [] then 0 else Total(lists[..|lists| - 1]) + |lists[|lists| - 1]|
  }

  // ---------------------------------------------------------------------
  // Which pairs are confirmed

  /** Decision `d` of job `j` says yes to `p`. */
  ghost predicate ChosenAt(jobs: seq<Job>, template: string, chat: string -> string, p: Pair, j: int, d: int) {
    0 <= j < |jobs| && d in JobDecisions(template, chat, jobs[j]) && 0 <= d < |jobs[j].batch|
    && p == Chosen(jobs[j].batch, d)
  }

  ghost predicate ChosenIn(batch: seq<Pair>, ds: seq<int>, p: Pair) {
    exists d :: d in ds && 0 <= d < |batch| && p == Chosen(batch, d)
  }

  lemma {:induction false} AddDecisionsIff(ps: seq<Pair>, batch: seq<Pair>, ds: seq<int>, p: Pair)
    requires InRange(batch, ds)
    ensures p in AddDecisions(ps, batch, ds) <==> p in ps || ChosenIn(batch, ds, p)
    decreases |ds|
  {
    if ds != [] {
      var init := ds[..|ds| - 1];
      var last := ds[|ds| - 1];
      AddDecisionsIff(ps, batch, init, p);
      assert forall d :: d in ds <==> d in init || d == last by {
        assert ds == init + [last];
      }
      if ChosenIn(batch, ds, p) && !ChosenIn(batch, init, p) {
        var d :| d in ds && 0 <= d < |batch| && p == Chosen(batch, d);
        assert d == last;
      }
    }
  }

  /**
   * A pair ends up confirmed exactly when it was there to begin with or some
   * decision of the model on some job names it.
   */
  lemma {:induction false} ConfirmIff(ps: seq<Pair>, jobs: seq<Job>, template: string, chat: string -> string, p: Pair)
    ensures p in Confirm(ps, jobs, template, chat) <==> p in ps || exists j, d :: ChosenAt(jobs, template, chat, p, j, d)
    decreases |jobs|
  {
    if jobs != [] {
      var ds := JobDecisions(template, chat, jobs[0]);
      var ps1 := AddDecisions(ps, jobs[0].batch, ds);
      ConfirmIff(ps1, jobs[1..], template, chat, p);
      AddDecisionsIff(ps, jobs[0].batch, ds, p);
      if exists j, d :: ChosenAt(jobs, template, chat, p, j, d) {
        var j, d :| ChosenAt(jobs, template, chat, p, j, d);
        if j == 0 {
          assert ChosenIn(jobs[0].batch, ds, p);
        } else {
          assert ChosenAt(jobs[1..], template, chat, p, j - 1, d);
        }
      }
      if exists j, d :: ChosenAt(jobs[1..], template, chat, p, j, d) {
        var j, d :| ChosenAt(jobs[1..], template, chat, p, j, d);
        assert ChosenAt(jobs, template, chat, p, j + 1, d);
      }
      if ChosenIn(jobs[0].batch, ds, p) {
        var d :| d in ds && 0 <= d < |jobs[0].batch| && p == Chosen(jobs[0].batch, d);
        assert ChosenAt(jobs, template, chat, p, 0, d);
      }
    }
  }

  // ---------------------------------------------------------------------
  // What a confirmed pair is

  /** Two different nodes of `g` of one type whose names are similar. */
  ghost predicate Candidate(g: GraphData, p: Pair) {
    p.0 in g.nodes && p.1 in g.nodes && p.0 != p.1 && NodeType(g, p.0) == NodeType(g, p.1) && IsSimilarity(p.0, p.1)
  }

  /** A candidate with its names in sorted order. */
  ghost predicate SortedCandidate(g: GraphData, p: Pair) {
    Candidate(g, p) && LexLess(p.0, p.1)
  }

  ghost predicate JobsOk(g: GraphData, jobs: seq<Job>) {
    forall j, q :: 0 <= j < |jobs| && q in jobs[j].batch ==> Candidate(g, q)
  }

  lemma CandidatesOfType(g: GraphData, k: string)
    requires Distinct(g.nodes)
    ensures forall q :: q in CandidatePairs(Grouping.Get(Clusters(g), k), IsSimilarity) ==> Candidate(g, q)
  {
    var c := Grouping.Get(Clusters(g), k);
    ClustersLaws(g);
    forall q | q in CandidatePairs(c, IsSimilarity)
      ensures Candidate(g, q)
    {
      CandidatePairsIff(c, IsSimilarity, q);
      var i, j :| SimilarAt(c, IsSimilarity, q, i, j);
      assert k in Clusters(g).m && c == Clusters(g).m[k];
      assert c[i] in c && c[j] in c;
    }
  }

  lemma {:induction false} JobsFromOk(g: GraphData, kind: string, cands: seq<Pair>, i: nat)
    requires forall q :: q in cands ==> Candidate(g, q)
    ensures JobsOk(g, JobsFrom(kind, cands, i))
    decreases |cands| - i
  {
    if i < |cands| {
      JobsFromOk(g, kind, cands, i + BatchSize);
      var js := JobsFrom(kind, cands, i);
      forall j, q | 0 <= j < |js| && q in js[j].batch
        ensures Candidate(g, q)
      {
        if j > 0 {
          assert js[j] == JobsFrom(kind, cands, i + BatchSize)[j - 1];
        }
      }
    }
  }

  lemma {:induction false} JobsOkFrom(g: GraphData, kinds: seq<string>, lists: seq<seq<Pair>>)
    requires |kinds| == |lists|
    requires forall t, q :: 0 <= t < |lists| && q in lists[t] ==> Candidate(g, q)
    ensures JobsOk(g, Jobs(kinds, lists))
    decreases |kinds|
  {
    if kinds != [] {
      JobsFromOk(g, kinds[0], lists[0], 0);
      JobsOkFrom(g, kinds[1..], lists[1..]);
      var a := JobsFrom(kinds[0], lists[0], 0);
      var b := Jobs(kinds[1..], lists[1..]);
      var ab: seq<Job> := a + b;
      forall j, q | 0 <= j < |ab| && q in ab[j].batch
        ensures Candidate(g, q)
      {
        if j >= |a| {
          assert ab[j] == b[j - |a|];
        }
      }
    }
  }

  /** Every batch holds candidates only. */
  lemma AllJobsOk(g: GraphData)
    requires Distinct(g.nodes)
    ensures JobsOk(g, AllJobs(g))
  {
    var clusters := Clusters(g);
    var lists := CandidateLists(clusters, clusters.keys);
    forall t, q | 0 <= t < |lists| && q in lists[t]
      ensures Candidate(g, q)
    {
      CandidatesOfType(g, clusters.keys[t]);
    }
    JobsOkFrom(g, clusters.keys, lists);
  }

  lemma ChosenSorted(g: GraphData, batch: seq<Pair>, d: int)
    requires 0 <= d < |batch| && Candidate(g, batch[d])
    ensures SortedCandidate(g, Chosen(batch, d))
  {
    SimilaritySymmetric(batch[d].0, batch[d].1);
  }

  lemma {:induction false} AddDecisionsOk(g: GraphData, ps: seq<Pair>, batch: seq<Pair>, ds: seq<int>)
    requires InRange(batch, ds) && Distinct(ps) && forall p :: p in ps ==> SortedCandidate(g, p)
    requires forall q :: q in batch ==> Candidate(g, q)
    ensures Distinct(AddDecisions(ps, batch, ds))
    ensures forall p :: p in AddDecisions(ps, batch, ds) ==> SortedCandidate(g, p)
    decreases |ds|
  {
    if ds != [] {
      AddDecisionsOk(g, ps, batch, ds[..|ds| - 1]);
      ChosenSorted(g, batch, ds[|ds| - 1]);
    }
  }

  lemma {:induction false} ConfirmOk(g: GraphData, ps: seq<Pair>, jobs: seq<Job>, template: string, chat: string -> string)
    requires JobsOk(g, jobs) && Distinct(ps) && forall p :: p in ps ==> SortedCandidate(g, p)
    ensures Distinct(Confirm(ps, jobs, template, chat))
    ensures forall p :: p in Confirm(ps, jobs, template, chat) ==> SortedCandidate(g, p)
    decreases |jobs|
  {
    if jobs != [] {
      var ds := JobDecisions(template, chat, jobs[0]);
      assert forall q :: q in jobs[0].batch ==> Candidate(g, q);
      AddDecisionsOk(g, ps, jobs[0].batch, ds);
      var rest := jobs[1..];
      assert JobsOk(g, rest) by {
        forall j, q | 0 <= j < |rest| && q in rest[j].batch
          ensures Candidate(g, q)
        {
          assert rest[j] == jobs[j + 1];
        }
      }
      ConfirmOk(g, AddDecisions(ps, jobs[0].batch, ds), rest, template, chat);
    }
  }

  /**
   * Each unordered pair is confirmed at most once and in sorted order, and
   * names two different nodes of one type whose names are similar.
   */
  lemma ConfirmedLaws(g: GraphData, template: string, chat: string -> string)
    requires Distinct(g.nodes)
    ensures Distinct(Confirmed(g, template, chat))
    ensures forall p :: p in Confirmed(g, template, chat) ==>
              p.0 in g.nodes && p.1 in g.nodes && p.0 != p.1 && NodeType(g, p.0) == NodeType(g, p.1)
              && IsSimilarity(p.0, p.1) && LexLess(p.0, p.1)
    ensures forall p :: p in Confirmed(g, template, chat) ==> (p.1, p.0) !in Confirmed(g, template, chat)
  {
    AllJobsOk(g);
    ConfirmOk(g, [], AllJobs(g), template, chat);
    forall p | p in Confirmed(g, template, chat)
      ensures (p.1, p.0) !in Confirmed(g, template, chat)
    {
      LexTrichotomy(p.0, p.1);
    }
  }

  /** Without candidates the model is never asked and nothing is confirmed. */
  lemma {:induction false} TotalZero(kinds: seq<string>, lists: seq<seq<Pair>>)
    requires |kinds| == |lists|
    ensures Total(lists) == 0 <==> forall t :: 0 <= t < |lists| ==> lists[t] == []
    ensures Total(lists) == 0 ==> Jobs(kinds, lists) == []
    decreases |kinds|
  {
    if kinds != [] {
      var n := |lists| - 1;
      TotalZero(kinds[..n], lists[..n]);
      TotalZero(kinds[1..], lists[1..]);
      if Total(lists) == 0 {
        assert lists[0] == [] by {
          assert forall t :: 0 <= t < |lists| ==> lists[t] == [] by {
            forall t | 0 <= t < |lists|
              ensures lists[t] == []
            {
              if t < n {
                assert lists[..n][t] == lists[t];
              }
            }
          }
        }
        assert lists[1..] == lists[1..];
      }
    }
  }

  // ---------------------------------------------------------------------
  // The connection graph

  /** The nodes of `connect_graph`: each pair's names in order of first appearance. */
  function ConnectNodes(ps: seq<Pair>): seq<string>
    decreases |ps|
  {
    if ps == [] then []
    else
      var p := ps[|ps| - 1];
      AddOnce(AddOnce(ConnectNodes(ps[..|ps| - 1]), p.0), p.1)
  }

  /**
   * The edges of `connect_graph`: `addEdge(a, b)` unless `hasEdge(a, b)`.
   * Every edge is unweighted, so `hasEdge(a, b)` is membership of `a -> b`.
   */
  function ConnectEdges(ps: seq<Pair>): seq<WeightedGraphs.WEdge>
    decreases |ps|
  {
    if ps == [] then []
    else
      var p := ps[|ps| - 1];
      AddOnce(ConnectEdges(ps[..|ps| - 1]), WeightedGraphs.WEdge(p.0, p.1, None))
  }

  function ConnectGraph(ps: seq<Pair>): WeightedGraphs.WGraph {
    WeightedGraphs.WGraph(ConnectNodes(ps), ConnectEdges(ps))
  }

  /** The name `x` is one end of some pair. */
  ghost predicate Endpoint(ps: seq<Pair>, x: string) {
    exists p :: p in ps && (x == p.0 || x == p.1)
  }

  /** The elements of a non-empty sequence: those before the last, and the last. */
  lemma InSnoc<T>(s: seq<T>)
    requires s != []
    ensures forall x :: x in s <==> x in s[..|s| - 1] || x == s[|s| - 1]
  {
    assert s == s[..|s| - 1] + [s[|s| - 1]];
  }

  /** Each name of a pair is a node once, and no other name is. */
  lemma {:induction false} ConnectNodesLaws(ps: seq<Pair>)
    ensures Distinct(ConnectNodes(ps))
    ensures forall x :: x in ConnectNodes(ps) <==> Endpoint(ps, x)
    decreases |ps|
  {
    if ps != [] {
      var init := ps[..|ps| - 1];
      var p := ps[|ps| - 1];
      ConnectNodesLaws(init);
      InSnoc(ps);
      forall x | Endpoint(ps, x)
        ensures Endpoint(init, x) || x == p.0 || x == p.1
      {
        var q :| q in ps && (x == q.0 || x == q.1);
        if q != p {
          assert q in init;
        }
      }
      forall x | Endpoint(init, x)
        ensures Endpoint(ps, x)
      {
        var q :| q in init && (x == q.0 || x == q.1);
        assert q in ps;
      }
      assert Endpoint(ps, p.0) && Endpoint(ps, p.1);
    }
  }

  /** Each pair is the one edge from its first name to its second, and there is no other edge. */
  lemma {:induction false} ConnectEdgesLaws(ps: seq<Pair>)
    ensures Distinct(ConnectEdges(ps))
    ensures forall e :: e in ConnectEdges(ps) <==> e.w == None && (e.s, e.t) in ps
    decreases |ps|
  {
    if ps != [] {
      ConnectEdgesLaws(ps[..|ps| - 1]);
      InSnoc(ps);
    }
  }

  /** The `pairs_to_merge.forEach` loop that builds `connect_graph`. */
  method BuildConnectGraph(ps: seq<Pair>) returns (cg: WeightedGraphs.WGraph)
    ensures cg == ConnectGraph(ps)
  {
    var nodes: seq<string> := [];
    var edges: seq<WeightedGraphs.WEdge> := [];
    for i := 0 to |ps|
      invariant nodes == ConnectNodes(ps[..i]) && edges == ConnectEdges(ps[..i])
    {
      var p := ps[i];
      if p.0 !in nodes {
        nodes := nodes + [p.0];
      }
      if p.1 !in nodes {
        nodes := nodes + [p.1];
      }
      var e := WeightedGraphs.WEdge(p.0, p.1, None);
      if e !in edges {
        edges := edges + [e];
      }
      assert ps[..i + 1][..i] == ps[..i];
    }
    assert ps[..|ps|] == ps;
    cg := WeightedGraphs.WGraph(nodes, edges);
  }

  // ---------------------------------------------------------------------
  // Merging the components

  /** `x` is a member of a component other than its first. */
  ghost predicate Swallowed(comps: seq<seq<string>>, x: string) {
    exists i :: 0 <= i < |comps| && x in comps[i] && x != comps[i][0]
  }

  ghost predicate InSome(comps: seq<seq<string>>, x: string) {
    exists i :: 0 <= i < |comps| && x in comps[i]
  }

  /** Each component lists its members once, and no two components share one. */
  ghost predicate Separate(comps: seq<seq<string>>) {
    (forall i :: 0 <= i < |comps| ==> Distinct(comps[i]))
    && forall i, j, x :: 0 <= i < j < |comps| && x in comps[i] ==> x !in comps[j]
  }

  ghost predicate Present(g: GraphData, comps: seq<seq<string>>) {
    forall i, x :: 0 <= i < |comps| && x in comps[i] ==> x in g.attrs
  }

  /**
   * `_merge_graph_nodes` on each component in turn: the members of a
   * component other than its first are gone, and a node in no component
   * keeps its attributes.
   */
  function MergeAll(g: GraphData, comps: seq<seq<string>>): (r: GraphData)
    requires Separate(comps) && Present(g, comps)
    ensures forall x :: x in r.attrs <==> x in g.attrs && !Swallowed(comps, x)
    ensures forall x :: x in r.attrs && !InSome(comps, x) ==> r.attrs[x] == g.attrs[x]
    decreases |comps|
  {
    if comps == [] then g
    else
      var n := |comps| - 1;
      var r0 := MergeAll(g, comps[..n]);
      MergeAllStep(g, comps, r0);
      NodeMerging.MergeNodes(r0, comps[n])
  }

  lemma MergeAllStep(g: GraphData, comps: seq<seq<string>>, r0: GraphData)
    requires Separate(comps) && Present(g, comps) && comps != []
    requires forall x :: x in r0.attrs <==> x in g.attrs && !Swallowed(comps[..|comps| - 1], x)
    requires forall x :: x in r0.attrs && !InSome(comps[..|comps| - 1], x) ==> r0.attrs[x] == g.attrs[x]
    ensures Distinct(comps[|comps| - 1]) && forall x :: x in comps[|comps| - 1] ==> x in r0.attrs
    ensures forall x :: x in NodeMerging.MergeNodes(r0, comps[|comps| - 1]).attrs <==>
              x in g.attrs && !Swallowed(comps, x)
    ensures forall x :: x in NodeMerging.MergeNodes(r0, comps[|comps| - 1]).attrs && !InSome(comps, x) ==>
              NodeMerging.MergeNodes(r0, comps[|comps| - 1]).attrs[x] == g.attrs[x]
  {
    var n := |comps| - 1;
    var init := comps[..n];
    var last := comps[n];
    forall x | x in last
      ensures x in r0.attrs
    {
      LastApart(comps, x);
    }
    var m := NodeMerging.MergeNodes(r0, last);
    NodeMerging.MergeNodesAttrs(r0, last);
    forall x
      ensures x in m.attrs <==> x in g.attrs && !Swallowed(comps, x)
      ensures x in m.attrs && !InSome(comps, x) ==> m.attrs[x] == g.attrs[x]
    {
      SplitLast(comps, x);
      if x in last {
        LastApart(comps, x);
      }
    }
  }

  /** The members of the last component are in none of the earlier ones. */
  lemma LastApart(comps: seq<seq<string>>, x: string)
    requires Separate(comps) && comps != [] && x in comps[|comps| - 1]
    ensures !InSome(comps[..|comps| - 1], x)
  {
  }

  /** Being swallowed by, or in, some component splits at the last component. */
  lemma SplitLast(comps: seq<seq<string>>, x: string)
    requires comps != []
    ensures Swallowed(comps, x) == (Swallowed(comps[..|comps| - 1], x) || (x in comps[|comps| - 1] && x != comps[|comps| - 1][0]))
    ensures InSome(comps, x) == (InSome(comps[..|comps| - 1], x) || x in comps[|comps| - 1])
  {
    var n := |comps| - 1;
    var init := comps[..n];
    if Swallowed(comps, x) {
      var i :| 0 <= i < |comps| && x in comps[i] && x != comps[i][0];
      if i < n {
        assert init[i] == comps[i];
      }
    }
    if Swallowed(init, x) {
      var i :| 0 <= i < n && x in init[i] && x != init[i][0];
      assert init[i] == comps[i];
    }
    if InSome(comps, x) {
      var i :| 0 <= i < |comps| && x in comps[i];
      if i < n {
        assert init[i] == comps[i];
      }
    }
    if InSome(init, x) {
      var i :| 0 <= i < n && x in init[i];
      assert init[i] == comps[i];
    }
  }

  lemma {:induction false} MergeAllWellFormed(g: GraphData, comps: seq<seq<string>>)
    requires WellFormed(g) && Separate(comps) && Present(g, comps)
    ensures WellFormed(MergeAll(g, comps))
    decreases |comps|
  {
    if comps != [] {
      var n := |comps| - 1;
      MergeAllWellFormed(g, comps[..n]);
      MergeAllStep(g, comps, MergeAll(g, comps[..n]));
      NodeMerging.MergeNodesCount(MergeAll(g, comps[..n]), comps[n]);
    }
  }

  /** The state after the first `k` components, and the next one still whole in it. */
  lemma MergeAllNext(g: GraphData, comps: seq<seq<string>>, k: nat, r0: GraphData)
    requires Separate(comps) && Present(g, comps) && k < |comps|
    requires r0 == MergeAll(g, comps[..k])
    ensures Distinct(comps[k]) && forall x :: x in comps[k] ==> x in r0.attrs
    ensures MergeAll(g, comps[..k + 1]) == NodeMerging.MergeNodes(r0, comps[k])
  {
    var longer := comps[..k + 1];
    assert longer[..k] == comps[..k] && longer[k] == comps[k];
    MergeAllStep(g, longer, r0);
  }

  /** `for (const component of connected_components) await this._merge_graph_nodes(graph, component)`. */
  method MergeComponents(graph: Graph, comps: seq<seq<string>>)
    requires Separate(comps) && Present(graph.Data(), comps)
    modifies graph
    ensures graph.Data() == MergeAll(old(graph.Data()), comps)
  {
    ghost var g := graph.Data();
    for k := 0 to |comps|
      invariant graph.Data() == MergeAll(g, comps[..k])
    {
      MergeAllNext(g, comps, k, graph.Data());
      NodeMerging.MergeGraphNodes(graph, comps[k]);
    }
    assert comps[..|comps|] == comps;
  }

  // ---------------------------------------------------------------------
  // `resolve`

  /** The loop over the types that fills `candidate_resolution` and counts `num_candidates`. */
  method ListCandidates(clusters: OrdMap<string, seq<string>>) returns (lists: seq<seq<Pair>>, count: nat)
    ensures lists == CandidateLists(clusters, clusters.keys) && count == Total(lists)
  {
    var kinds := clusters.keys;
    lists := [];
    count := 0;
    for t := 0 to |kinds|
      invariant lists == CandidateLists(clusters, kinds[..t]) && count == Total(lists)
    {
      var cands := CandidatesOf(Grouping.Get(clusters, kinds[t]), IsSimilarity);
      assert CandidateLists(clusters, kinds[..t + 1]) == lists + [cands];
      lists := lists + [cands];
      count := count + |cands|;
      assert lists[..|lists| - 1] == CandidateLists(clusters, kinds[..t]);
    }
    assert kinds[..|kinds|] == kinds;
  }

  /** One batch: build the prompt, ask the model, read its reply and add the pairs it confirms. */
  method AskModel(pairs: seq<Pair>, job: Job, template: string, chat: string -> string) returns (r: seq<Pair>)
    ensures r == AddDecisions(pairs, job.batch, JobDecisions(template, chat, job))
  {
    var text := PairText(job);
    var prompt := ReplaceFirst(template, Placeholder, text);
    var response := chat(prompt);
    var decisions := ProcessResults(|job.batch|, response, FromOne);
    assert decisions == JobDecisions(template, chat, job);
    r := pairs;
    for k := 0 to |decisions|
      invariant r == AddDecisions(pairs, job.batch, decisions[..k])
    {
      var pair := job.batch[decisions[k]];
      var sorted := SortedPair(pair.0, pair.1);
      if sorted !in r {
        r := r + [sorted];
      }
      assert decisions[..k + 1][..k] == decisions[..k];
    }
    assert decisions[..|decisions|] == decisions;
  }

  /** Asking about the job at `i` of a type leaves the batches after it, then the other types. */
  lemma ConfirmNext(pairs: seq<Pair>, kind: string, cands: seq<Pair>, i: nat, rest: seq<Job>,
                    template: string, chat: string -> string)
    requires i < |cands|
    ensures Confirm(pairs, JobsFrom(kind, cands, i) + rest, template, chat) ==
            Confirm(AddDecisions(pairs, cands[i..Min(i + BatchSize, |cands|)],
                                 JobDecisions(template, chat, Job(kind, cands[i..Min(i + BatchSize, |cands|)]))),
                    JobsFrom(kind, cands, i + BatchSize) + rest, template, chat)
  {
    var job := Job(kind, cands[i..Min(i + BatchSize, |cands|)]);
    var js := JobsFrom(kind, cands, i) + rest;
    assert js == [job] + (JobsFrom(kind, cands, i + BatchSize) + rest);
    assert js[0] == job && js[1..] == JobsFrom(kind, cands, i + BatchSize) + rest;
  }

  /** The jobs from type `t` on: the batches of that type, then the later types. */
  lemma JobsAt(kinds: seq<string>, lists: seq<seq<Pair>>, t: nat)
    requires |kinds| == |lists| && t < |kinds|
    ensures Jobs(kinds[t..], lists[t..]) == JobsFrom(kinds[t], lists[t], 0) + Jobs(kinds[t + 1..], lists[t + 1..])
  {
    assert kinds[t..][1..] == kinds[t + 1..] && lists[t..][1..] == lists[t + 1..];
  }

  /** The two nested loops over the types and their batches of 50. */
  method AskAll(kinds: seq<string>, lists: seq<seq<Pair>>, template: string, chat: string -> string)
    returns (pairs: seq<Pair>)
    requires |kinds| == |lists|
    ensures pairs == Confirm([], Jobs(kinds, lists), template, chat)
  {
    ghost var total := Confirm([], Jobs(kinds, lists), template, chat);
    pairs := [];
    assert kinds[0..] == kinds && lists[0..] == lists;
    for t := 0 to |kinds|
      invariant Confirm(pairs, Jobs(kinds[t..], lists[t..]), template, chat) == total
    {
      var kind := kinds[t];
      var cands := lists[t];
      ghost var rest := Jobs(kinds[t + 1..], lists[t + 1..]);
      JobsAt(kinds, lists, t);
      var i := 0;
      while i < |cands|
        invariant Confirm(pairs, JobsFrom(kind, cands, i) + rest, template, chat) == total
        decreases |cands| - i
      {
        var job := Job(kind, cands[i..Min(i + BatchSize, |cands|)]);
        ConfirmNext(pairs, kind, cands, i, rest, template, chat);
        pairs := AskModel(pairs, job, template, chat);
        i := i + BatchSize;
      }
      assert JobsFrom(kind, cands, i) + rest == rest;
    }
  }

  /** `merged` are the connected components of the connection graph of the confirmed pairs. */
  ghost predicate ResolvedBy(g: GraphData, template: string, chat: string -> string, merged: seq<seq<string>>) {
    var cg := ConnectGraph(Confirmed(g, template, chat));
    WeightedGraphs.IsComponents(cg, cg.nodes, merged) && WeightedGraphs.InNodeOrder(cg.nodes, merged)
  }

  /**
   * `resolve(graph)`: the components come from the pairs the model confirms,
   * and the graph ends as if each had been merged in turn.
   */
  method Resolve(graph: Graph, template: string, chat: string -> string) returns (merged: seq<seq<string>>)
    requires WellFormed(graph.Data())
    modifies graph
    ensures ResolvedBy(old(graph.Data()), template, chat, merged)
    ensures Separate(merged) && Present(old(graph.Data()), merged)
    ensures graph.Data() == MergeAll(old(graph.Data()), merged)
  {
    ghost var g := graph.Data();
    var clusters := BucketByType(graph);
    var lists, count := ListCandidates(clusters);
    if count == 0 {
      TotalZero(clusters.keys, lists);
      merged := [];
      assert Confirmed(g, template, chat) == [];
      return;
    }
    var pairs := AskAll(clusters.keys, lists, template, chat);
    var cg := BuildConnectGraph(pairs);
    ConnectNodesLaws(pairs);
    merged := WeightedGraphs.Components(cg, cg.nodes);
    ResolvedParts(g, template, chat, merged);
    MergeComponents(graph, merged);
  }

  /** What `IsComponents` says of each member and each edge. */
  lemma ComponentFacts(cg: WeightedGraphs.WGraph, comps: seq<seq<string>>)
    requires WeightedGraphs.IsComponents(cg, cg.nodes, comps)
    ensures Separate(comps)
    ensures forall i :: 0 <= i < |comps| ==> comps[i] != []
    ensures forall i, x :: 0 <= i < |comps| && x in comps[i] ==> x in cg.nodes
    ensures forall x :: x in cg.nodes ==> InSome(comps, x)
    ensures comps != [] ==> cg.nodes != []
    ensures forall i, k :: 0 <= i < |comps| && 0 <= k < |cg.edges| && cg.edges[k].s in comps[i] && cg.edges[k].t in cg.nodes ==>
              cg.edges[k].t in comps[i]
  {
    var S := set x | x in cg.nodes;
    assert WeightedGraphs.PartialComponents(cg, cg.nodes, comps, S);
    forall i, k | 0 <= i < |comps| && 0 <= k < |cg.edges| && cg.edges[k].s in comps[i] && cg.edges[k].t in cg.nodes
      ensures cg.edges[k].t in comps[i]
    {
      var a, b := cg.edges[k].s, cg.edges[k].t;
      assert WeightedGraphs.Adjacent(cg, S, a, b) by {
        assert WeightedGraphs.Joins(cg.edges[k], a, b);
      }
      WeightedGraphs.ReachRefl(cg, S, a);
      WeightedGraphs.ReachStep(cg, S, a, a, b);
    }
    forall x | x in cg.nodes
      ensures InSome(comps, x)
    {
      assert x in S;
    }
    if comps != [] {
      assert comps[0][0] in cg.nodes;
    }
  }

  /** Only the first member of each component is left, and a node in no component is untouched. */
  lemma MergeAllLeaves(g: GraphData, comps: seq<seq<string>>)
    requires Separate(comps) && Present(g, comps) && forall i :: 0 <= i < |comps| ==> comps[i] != []
    ensures forall i :: 0 <= i < |comps| ==> comps[i][0] in MergeAll(g, comps).attrs
    ensures forall i, x :: 0 <= i < |comps| && x in comps[i] && x != comps[i][0] ==> x !in MergeAll(g, comps).attrs
    ensures forall x :: x in g.attrs && !InSome(comps, x) ==>
              x in MergeAll(g, comps).attrs && MergeAll(g, comps).attrs[x] == g.attrs[x]
  {
    forall i | 0 <= i < |comps|
      ensures !Swallowed(comps, comps[i][0])
    {
      var c0 := comps[i][0];
      assert c0 in comps[i];
      forall j | 0 <= j < |comps| && j != i
        ensures c0 !in comps[j]
      {
      }
    }
    forall x | !InSome(comps, x)
      ensures !Swallowed(comps, x)
    {
    }
  }

  /** The nodes of the connection graph are nodes of `g`. */
  lemma ConnectPresent(g: GraphData, ps: seq<Pair>, comps: seq<seq<string>>)
    requires WellFormed(g) && forall p :: p in ps ==> p.0 in g.nodes && p.1 in g.nodes
    requires forall i, x :: 0 <= i < |comps| && x in comps[i] ==> x in ConnectNodes(ps)
    ensures Present(g, comps)
  {
    ConnectNodesLaws(ps);
    forall i, x | 0 <= i < |comps| && x in comps[i]
      ensures x in g.attrs
    {
      assert Endpoint(ps, x);
      var p :| p in ps && (x == p.0 || x == p.1);
    }
  }

  /** A pair's names share a component. */
  lemma PairTogether(ps: seq<Pair>, comps: seq<seq<string>>, p: Pair)
    requires WeightedGraphs.IsComponents(ConnectGraph(ps), ConnectGraph(ps).nodes, comps) && p in ps
    ensures exists i :: 0 <= i < |comps| && p.0 in comps[i] && p.1 in comps[i]
  {
    var cg := ConnectGraph(ps);
    ComponentFacts(cg, comps);
    ConnectNodesLaws(ps);
    ConnectEdgesLaws(ps);
    assert Endpoint(ps, p.0) && Endpoint(ps, p.1);
    EdgeWithin(cg, comps, WeightedGraphs.WEdge(p.0, p.1, None));
  }

  /** Both ends of an edge between nodes lie in the component that holds its source. */
  lemma EdgeWithin(cg: WeightedGraphs.WGraph, comps: seq<seq<string>>, e: WeightedGraphs.WEdge)
    requires e in cg.edges && e.s in cg.nodes && e.t in cg.nodes
    requires forall x :: x in cg.nodes ==> InSome(comps, x)
    requires forall i, k :: 0 <= i < |comps| && 0 <= k < |cg.edges| && cg.edges[k].s in comps[i] && cg.edges[k].t in cg.nodes ==>
               cg.edges[k].t in comps[i]
    ensures exists i :: 0 <= i < |comps| && e.s in comps[i] && e.t in comps[i]
  {
    var k :| 0 <= k < |cg.edges| && cg.edges[k] == e;
    assert InSome(comps, e.s);
    var i :| 0 <= i < |comps| && e.s in comps[i];
    assert e.t in comps[i];
  }

  /** The laws below for any pairs of different nodes of `g`. */
  lemma MergedPairs(g: GraphData, ps: seq<Pair>, comps: seq<seq<string>>)
    requires WellFormed(g) && forall p :: p in ps ==> p.0 in g.nodes && p.1 in g.nodes && p.0 != p.1
    requires WeightedGraphs.IsComponents(ConnectGraph(ps), ConnectGraph(ps).nodes, comps)
    ensures Separate(comps) && Present(g, comps)
    ensures WellFormed(MergeAll(g, comps))
    ensures forall i :: 0 <= i < |comps| ==> comps[i] != [] && comps[i][0] in MergeAll(g, comps).attrs
    ensures forall i, x :: 0 <= i < |comps| && x in comps[i] && x != comps[i][0] ==> x !in MergeAll(g, comps).attrs
    ensures forall p :: p in ps ==> p.0 !in MergeAll(g, comps).attrs || p.1 !in MergeAll(g, comps).attrs
    ensures forall x :: x in g.attrs && !Endpoint(ps, x) ==>
              x in MergeAll(g, comps).attrs && MergeAll(g, comps).attrs[x] == g.attrs[x]
  {
    ComponentFacts(ConnectGraph(ps), comps);
    ConnectPresent(g, ps, comps);
    MergeAllWellFormed(g, comps);
    MergeAllLeaves(g, comps);
    forall p | p in ps
      ensures exists i :: 0 <= i < |comps| && p.0 in comps[i] && p.1 in comps[i]
    {
      PairTogether(ps, comps, p);
    }
    ConnectNodesLaws(ps);
  }

  /** The components are separate and made of nodes of the graph. */
  lemma ResolvedParts(g: GraphData, template: string, chat: string -> string, comps: seq<seq<string>>)
    requires WellFormed(g) && ResolvedBy(g, template, chat, comps)
    ensures Separate(comps) && Present(g, comps)
  {
    ConfirmedLaws(g, template, chat);
    MergedPairs(g, Confirmed(g, template, chat), comps);
  }

  /**
   * After `resolve`: the graph is well formed; of each component only its
   * first member is left; of each confirmed pair at most one name is left;
   * and a node named in no confirmed pair is left with its attributes.
   */
  lemma ResolveLaws(g: GraphData, template: string, chat: string -> string, comps: seq<seq<string>>)
    requires WellFormed(g) && ResolvedBy(g, template, chat, comps)
    ensures Separate(comps) && Present(g, comps)
    ensures WellFormed(MergeAll(g, comps))
    ensures forall i :: 0 <= i < |comps| ==> comps[i] != [] && comps[i][0] in MergeAll(g, comps).attrs
    ensures forall i, x :: 0 <= i < |comps| && x in comps[i] && x != comps[i][0] ==> x !in MergeAll(g, comps).attrs
    ensures forall p :: p in Confirmed(g, template, chat) ==>
              p.0 !in MergeAll(g, comps).attrs || p.1 !in MergeAll(g, comps).attrs
    ensures forall x :: x in g.attrs && !Endpoint(Confirmed(g, template, chat), x) ==>
              x in MergeAll(g, comps).attrs && MergeAll(g, comps).attrs[x] == g.attrs[x]
  {
    ConfirmedLaws(g, template, chat);
    MergedPairs(g, Confirmed(g, template, chat), comps);
  }

  /**
   * The name each component keeps is the one of its members that comes first
   * in the nodes of `connect_graph`, that is, the one the confirmed pairs name
   * first (`ConnectNodesOrder`).
   */
  lemma SurvivorEarliest(g: GraphData, template: string, chat: string -> string, comps: seq<seq<string>>)
    requires ResolvedBy(g, template, chat, comps)
    ensures forall i, x :: 0 <= i < |comps| && x in comps[i] && x != comps[i][0] ==>
              WeightedGraphs.Pos(ConnectNodes(Confirmed(g, template, chat)), comps[i][0])
                < WeightedGraphs.Pos(ConnectNodes(Confirmed(g, template, chat)), x)
  {
    var ns := ConnectNodes(Confirmed(g, template, chat));
    var cg := ConnectGraph(Confirmed(g, template, chat));
    ComponentFacts(cg, comps);
    forall i, x | 0 <= i < |comps| && x in comps[i] && x != comps[i][0]
      ensures WeightedGraphs.Pos(ns, comps[i][0]) < WeightedGraphs.Pos(ns, x)
    {
      assert comps[i][0] in comps[i];
      assert WeightedGraphs.Pos(ns, comps[i][0]) <= WeightedGraphs.Pos(ns, x);
    }
  }

  /** The nodes for a prefix of the pairs are a prefix of the nodes for all of them. */
  lemma {:induction false} ConnectNodesPrefix(ps: seq<Pair>, k: nat)
    requires k <= |ps|
    ensures ConnectNodes(ps[..k]) <= ConnectNodes(ps)
    decreases |ps|
  {
    if k < |ps| {
      var init, p := ps[..|ps| - 1], ps[|ps| - 1];
      ConnectNodesPrefix(init, k);
      assert init[..k] == ps[..k];
      var A := ConnectNodes(init);
      var B := AddOnce(A, p.0);
      assert ConnectNodes(ps) == AddOnce(B, p.1);
      PrefixTrans(ConnectNodes(ps[..k]), A, B);
      PrefixTrans(ConnectNodes(ps[..k]), B, ConnectNodes(ps));
    } else {
      assert ps[..k] == ps;
    }
  }

  /** A prefix of a prefix is a prefix. */
  lemma PrefixTrans<T>(a: seq<T>, b: seq<T>, c: seq<T>)
    requires a <= b && b <= c
    ensures a <= c
  {
  }

  /**
   * `connect_graph` adds names in order of first appearance: a name of the
   * first `k` pairs comes before a name that none of them holds.
   */
  lemma ConnectNodesOrder(ps: seq<Pair>, k: nat, x: string, y: string)
    requires k <= |ps| && Endpoint(ps[..k], x) && Endpoint(ps, y) && !Endpoint(ps[..k], y)
    ensures WeightedGraphs.Pos(ConnectNodes(ps), x) < WeightedGraphs.Pos(ConnectNodes(ps), y)
  {
    var pre, ns := ConnectNodes(ps[..k]), ConnectNodes(ps);
    ConnectNodesLaws(ps[..k]);
    ConnectNodesLaws(ps);
    ConnectNodesPrefix(ps, k);
    var j := WeightedGraphs.Pos(pre, x);
    assert ns[j] == x;
    WeightedGraphs.PosAt(ns, j);
    assert y !in pre;
  }

  /**
   * One confirmed pair `(a, b)`: a single component, `[a, b]`, so `a`, the
   * first name of the pair, is the one kept.
   */
  lemma OnePairComponent(a: string, b: string, comps: seq<seq<string>>)
    requires a != b
    requires WeightedGraphs.IsComponents(ConnectGraph([(a, b)]), ConnectGraph([(a, b)]).nodes, comps)
    requires WeightedGraphs.InNodeOrder(ConnectGraph([(a, b)]).nodes, comps)
    ensures comps == [[a, b]]
  {
    var cg := ConnectGraph([(a, b)]);
    OnePairNodes(a, b);
    ComponentFacts(cg, comps);
    PairTogether([(a, b)], comps, (a, b));
    PiecesOfTwo(cg.nodes, comps, a, b);
  }

  /** The separate pieces of the nodes `[a, b]`, in node order, with one piece holding both. */
  lemma PiecesOfTwo(ns: seq<string>, comps: seq<seq<string>>, a: string, b: string)
    requires ns == [a, b] && a != b && WeightedGraphs.InNodeOrder(ns, comps)
    requires Separate(comps) && forall i :: 0 <= i < |comps| ==> comps[i] != []
    requires forall i, x :: 0 <= i < |comps| && x in comps[i] ==> x in ns
    requires exists i :: 0 <= i < |comps| && a in comps[i] && b in comps[i]
    ensures comps == [[a, b]]
  {
    forall i, x | 0 <= i < |comps| && x in comps[i]
      ensures x == a || x == b
    {
      assert x in ns;
    }
    OnePiece(comps, a, b);
    assert comps[0][0] in comps[0];
    assert WeightedGraphs.Pos(ns, comps[0][0]) <= WeightedGraphs.Pos(ns, a) == 0;
    TwoMembers(comps[0], a, b);
    assert comps == [comps[0]];
  }

  lemma OnePairNodes(a: string, b: string)
    requires a != b
    ensures ConnectGraph([(a, b)]).nodes == [a, b]
  {
    var ps := [(a, b)];
    assert ps[..|ps| - 1] == [];
    calc {
      ConnectNodes(ps);
      AddOnce(AddOnce(ConnectNodes([]), a), b);
      AddOnce([a], b);
      [a, b];
    }
  }

  /** Separate non-empty pieces of the names `a` and `b`, one holding both: there is only that one. */
  lemma OnePiece(comps: seq<seq<string>>, a: string, b: string)
    requires Separate(comps) && forall i :: 0 <= i < |comps| ==> comps[i] != []
    requires forall i, x :: 0 <= i < |comps| && x in comps[i] ==> x == a || x == b
    requires exists i :: 0 <= i < |comps| && a in comps[i] && b in comps[i]
    ensures |comps| == 1
  {
    var i :| 0 <= i < |comps| && a in comps[i] && b in comps[i];
    forall j | 0 <= j < |comps|
      ensures a in comps[j]
    {
      assert comps[j][0] in comps[j];
    }
    assert a in comps[0] && a in comps[|comps| - 1];
  }

  /** A duplicate-free list of exactly `a` and `b` that starts with `a` is `[a, b]`. */
  lemma TwoMembers(c: seq<string>, a: string, b: string)
    requires Distinct(c) && c != [] && c[0] == a && a != b
    requires forall x :: x in c <==> x == a || x == b
    ensures c == [a, b]
  {
    DistinctCard(c);
    assert (set x | x in c) == {a, b};
    assert c[1] != a;
  }

  /** Two confirmed pairs that share a name put all their names into one component. */
  lemma SharedNameTogether(g: GraphData, template: string, chat: string -> string, comps: seq<seq<string>>, p: Pair, q: Pair)
    requires WellFormed(g) && ResolvedBy(g, template, chat, comps)
    requires p in Confirmed(g, template, chat) && q in Confirmed(g, template, chat)
    requires p.0 == q.0 || p.0 == q.1 || p.1 == q.0 || p.1 == q.1
    ensures exists i :: 0 <= i < |comps| && p.0 in comps[i] && p.1 in comps[i] && q.0 in comps[i] && q.1 in comps[i]
  {
    var ps := Confirmed(g, template, chat);
    PairTogether(ps, comps, p);
    PairTogether(ps, comps, q);
    ComponentFacts(ConnectGraph(ps), comps);
    var i :| 0 <= i < |comps| && p.0 in comps[i] && p.1 in comps[i];
    var j :| 0 <= j < |comps| && q.0 in comps[j] && q.1 in comps[j];
    var x := if p.0 == q.0 || p.0 == q.1 then p.0 else p.1;
    OneComponent(comps, x, i, j);
  }

  lemma OneComponent(comps: seq<seq<string>>, x: string, i: nat, j: nat)
    requires Separate(comps) && i < |comps| && j < |comps| && x in comps[i] && x in comps[j]
    ensures i == j
  {
  }

  /** Without a confirmed pair there is no component and the graph is left as it was. */
  lemma NothingConfirmed(g: GraphData, template: string, chat: string -> string, comps: seq<seq<string>>)
    requires ResolvedBy(g, template, chat, comps) && Confirmed(g, template, chat) == []
    ensures comps == [] && MergeAll(g, comps) == g
  {
    var cg := ConnectGraph(Confirmed(g, template, chat));
    ComponentFacts(cg, comps);
    assert cg.nodes == [];
  }
}
