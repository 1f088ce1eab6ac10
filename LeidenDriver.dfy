/**
 * The multi-level driver of `src/community/leiden.js`
 * (`_computeLeidenCommunities`) and the per-level community report built on
 * it (`run`, `hierarchicalLeiden`).
 */
module LeidenDriver {
  import opened Common
  import opened WeightedGraphs
  import opened LeidenSpec
  import opened Leiden
  import opened LeidenAggregation

  /** The options of `_computeLeidenCommunities` that change its result. */
  datatype Options = Options(useLcc: bool, maxLevels: int, seed: int, maxLocalIters: int)

  /** `useLcc = true, maxLevels = 3, seed = 0xDEADBEEF, maxLocalIters = 10`. */
  const DefaultOptions: Options := Options(true, DefaultMaxLevels, DefaultSeed, DefaultMaxLocalIterations)

  /**
   * One entry of `perLevel`: the communities of one level, with the node
   * order of that level's graph (the key order of the copied object).
   */
  datatype Level = Level(nodes: seq<string>, comm: map<string, string>)

  /* ------------------------------ the largest component ------------------------------ */

  /** `comps.reduce((a, b) => (b.length > a.length ? b : a))`: the first of the largest. */
  function FirstLargest(comps: seq<seq<string>>): (i: nat)
    requires comps != []
    ensures i < |comps|
    ensures forall j :: 0 <= j < |comps| ==> |comps[j]| <= |comps[i]|
    ensures forall j :: 0 <= j < i ==> |comps[j]| < |comps[i]|
    decreases |comps|
  {
    if |comps| == 1 then 0
    else
      var i := FirstLargest(comps[..|comps| - 1]);
      if |comps[|comps| - 1]| > |comps[i]| then |comps| - 1 else i
  }

  /** The edges of `es` with both endpoints in `S`, in order. */
  function InducedEdges(es: seq<WEdge>, S: seq<string>): (r: seq<WEdge>)
    ensures |r| <= |es|
    ensures forall e :: e in r ==> e in es && e.s in S && e.t in S
    decreases |es|
  {
    if es == [] then []
    else
      var init := InducedEdges(es[..|es| - 1], S);
      var e := es[|es| - 1];
      assert forall x :: x in init ==> x in es;
      if e.s in S && e.t in S then init + [e] else init
  }

  lemma InducedEdgesStep(es: seq<WEdge>, S: seq<string>, p: nat)
    requires p < |es|
    ensures InducedEdges(es[..p + 1], S)
      == if es[p].s in S && es[p].t in S then InducedEdges(es[..p], S) + [es[p]] else InducedEdges(es[..p], S)
  {
    assert es[..p + 1][..p] == es[..p];
  }

  /** The induced edges of a simple graph are simple. */
  lemma {:induction false} InducedSimple(es: seq<WEdge>, S: seq<string>)
    requires Simple(es)
    ensures Simple(InducedEdges(es, S))
    decreases |es|
  {
    if es != [] {
      var init := es[..|es| - 1];
      var e := es[|es| - 1];
      assert Simple(init);
      InducedSimple(init, S);
      var r := InducedEdges(init, S);
      if e.s in S && e.t in S {
        forall k | 0 <= k < |r|
          ensures !Joins(e, r[k].s, r[k].t)
        {
          assert r[k] in init;
          var j :| 0 <= j < |init| && init[j] == r[k];
          assert !Joins(es[|es| - 1], es[j].s, es[j].t);
        }
      }
    }
  }

  /**
   * The sub-graph on the nodes `lcc`: the edges of `g` between two of them,
   * each added unless `sub` already has an edge on that pair. In a simple
   * graph that test never refuses an edge.
   */
  method InducedSubgraph(g: WGraph, lcc: seq<string>) returns (sub: WGraph)
    requires ValidGraph(g) && Distinct(lcc)
    ensures sub.nodes == lcc
    ensures sub.edges == InducedEdges(g.edges, lcc)
    ensures ValidGraph(sub)
  {
    var edges: seq<WEdge> := [];
    var p := 0;
    while p < |g.edges|
      invariant 0 <= p <= |g.edges|
      invariant edges == InducedEdges(g.edges[..p], lcc)
    {
      var e := g.edges[p];
      InducedEdgesStep(g.edges, lcc, p);
      if e.s in lcc && e.t in lcc {
        assert FindEdge(edges, e.s, e.t).None? by {
          assert Simple(g.edges[..p + 1]);
          InducedSimple(g.edges[..p + 1], lcc);
          NotJoinedBefore(edges, e);
        }
      }
      if e.s in lcc && e.t in lcc && FindEdge(edges, e.s, e.t).None? {
        edges := edges + [e];
      }
      p := p + 1;
    }
    assert g.edges[..p] == g.edges;
    InducedSimple(g.edges, lcc);
    sub := WGraph(lcc, edges);
  }

  /** In a simple edge list `edges + [e]` no earlier edge joins the ends of `e`. */
  lemma NotJoinedBefore(edges: seq<WEdge>, e: WEdge)
    requires Simple(edges + [e])
    ensures FindEdge(edges, e.s, e.t).None?
  {
    var r := edges + [e];
    forall k | 0 <= k < |edges|
      ensures !Joins(edges[k], e.s, e.t)
    {
      assert !Joins(r[|edges|], r[k].s, r[k].t);
    }
  }

  /**
   * `w` is the sub-graph of `g` on its first largest connected component:
   * `comps` are the components of `g` and `i` is the first of the largest.
   */
  ghost predicate FirstLargestComponent(g: WGraph, comps: seq<seq<string>>, i: nat, w: WGraph) {
    IsComponents(g, g.nodes, comps) && InNodeOrder(g.nodes, comps) && i < |comps|
    && w.nodes == comps[i] && w.edges == InducedEdges(g.edges, w.nodes)
    && (forall j :: 0 <= j < |comps| ==> |comps[j]| <= |comps[i]|)
    && (forall j :: 0 <= j < i ==> |comps[j]| < |comps[i]|)
  }

  /**
   * A tie between largest components goes to the one whose first node comes
   * first in `g.nodes`: every other component of that size starts later.
   */
  lemma LargestTieEarliest(g: WGraph, comps: seq<seq<string>>, i: nat, w: WGraph, j: nat)
    requires FirstLargestComponent(g, comps, i, w)
    requires j < |comps| && j != i && |comps[j]| == |comps[i]|
    ensures Pos(g.nodes, w.nodes[0]) < Pos(g.nodes, comps[j][0])
  {
    assert comps[i] != [] && comps[j] != [];
    assert i < j;
  }

  /** `InducedEdges` depends only on which nodes `S` holds, not on their order. */
  lemma {:induction false} InducedEdgesSameMembers(es: seq<WEdge>, S: seq<string>, T: seq<string>)
    requires forall x :: x in S <==> x in T
    ensures InducedEdges(es, S) == InducedEdges(es, T)
    decreases |es|
  {
    if es != [] {
      InducedEdgesSameMembers(es[..|es| - 1], S, T);
    }
  }

  /**
   * The largest component is fixed by the graph: any two choices that meet
   * `FirstLargestComponent` take the piece at the same position, with the same
   * first node, the same members and the same edges.
   */
  lemma LargestComponentUnique(g: WGraph, c1: seq<seq<string>>, i1: nat, w1: WGraph,
                               c2: seq<seq<string>>, i2: nat, w2: WGraph)
    requires FirstLargestComponent(g, c1, i1, w1) && FirstLargestComponent(g, c2, i2, w2)
    ensures i1 == i2 && w1.nodes[0] == w2.nodes[0]
    ensures forall x :: x in w1.nodes <==> x in w2.nodes
    ensures w1.edges == w2.edges
  {
    ComponentsUnique(g, g.nodes, c1, c2);
    SameSizes(g, c1, c2);
    if i1 < i2 {
      assert false;
    } else if i2 < i1 {
      assert false;
    }
    InducedEdgesSameMembers(g.edges, w1.nodes, w2.nodes);
  }

  /** Two orderings of the components have pieces of the same sizes at each position. */
  lemma SameSizes(g: WGraph, c1: seq<seq<string>>, c2: seq<seq<string>>)
    requires IsComponents(g, g.nodes, c1) && IsComponents(g, g.nodes, c2) && |c1| == |c2|
    requires forall i, x :: 0 <= i < |c1| ==> (x in c1[i] <==> x in c2[i])
    ensures forall j :: 0 <= j < |c1| ==> |c1[j]| == |c2[j]|
  {
    var S := set z | z in g.nodes;
    assert PartialComponents(g, g.nodes, c1, S) && PartialComponents(g, g.nodes, c2, S);
    forall j | 0 <= j < |c1|
      ensures |c1[j]| == |c2[j]|
    {
      assert Distinct(c1[j]) && Distinct(c2[j]);
      DistinctCard(c1[j]);
      DistinctCard(c2[j]);
      assert (set x | x in c1[j]) == (set x | x in c2[j]);
    }
  }

  /**
   * The graph the levels start from: `g` itself, or, with `useLcc`, the
   * sub-graph on the first largest connected component.
   */
  method WorkingGraph(g: WGraph, useLcc: bool) returns (w: WGraph, ghost comps: seq<seq<string>>, ghost lcc: nat)
    requires ValidGraph(g) && g.nodes != []
    ensures ValidGraph(w) && w.nodes != []
    ensures !useLcc ==> w == g
    ensures useLcc ==> FirstLargestComponent(g, comps, lcc, w)
  {
    if !useLcc {
      return g, [], 0;
    }
    var cs := Components(g, g.nodes);
    var i := FirstLargest(cs);
    w := InducedSubgraph(g, cs[i]);
    comps, lcc := cs, i;
  }

  /** `forEachNode(n => { communities[n] = n; })`: every node its own community. */
  function Singletons(ns: seq<string>): (comm: map<string, string>)
    ensures forall n :: n in comm <==> n in ns
    ensures forall n :: n in comm ==> comm[n] == n
  {
    map n | n in ns :: n
  }

  /* ------------------------------ the levels ------------------------------ */

  /** Level `lv` is a partition of the nodes of `h`, listed in `h`'s node order. */
  ghost predicate LevelOf(h: WGraph, lv: Level) {
    ValidGraph(h) && lv.nodes == h.nodes && Cover(h, lv.comm)
  }

  /** `h` is the next level's graph after `g` with communities `comm`. */
  ghost predicate NextLevel(g: WGraph, comm: map<string, string>, h: WGraph)
    requires Cover(g, comm)
  {
    AggregateOf(h, g, comm) && |h.nodes| < |g.nodes|
  }

  /** The levels so far, each on its graph, each graph the aggregate of the one before. */
  ghost predicate Chain(graphs: seq<WGraph>, levels: seq<Level>) {
    |graphs| == |levels|
    && (forall i :: 0 <= i < |levels| ==> LevelOf(graphs[i], levels[i]))
    && (forall i :: 0 <= i < |levels| - 1 ==> NextLevel(graphs[i], levels[i].comm, graphs[i + 1]))
  }

  lemma ChainSnoc(graphs: seq<WGraph>, levels: seq<Level>, h: WGraph, lv: Level)
    requires Chain(graphs, levels) && LevelOf(h, lv)
    requires levels != [] ==> NextLevel(graphs[|levels| - 1], levels[|levels| - 1].comm, h)
    ensures Chain(graphs + [h], levels + [lv])
  {
    var gs, ls := graphs + [h], levels + [lv];
    forall i | 0 <= i < |ls|
      ensures LevelOf(gs[i], ls[i])
    {
      if i < |levels| {
        assert gs[i] == graphs[i] && ls[i] == levels[i];
      }
    }
    forall i | 0 <= i < |ls| - 1
      ensures NextLevel(gs[i], ls[i].comm, gs[i + 1])
    {
      assert gs[i] == graphs[i] && ls[i] == levels[i];
      if i < |levels| - 1 {
        assert gs[i + 1] == graphs[i + 1];
      }
    }
  }

  /** Aggregation keeps the total weight, so every level's graph weighs what the first one does. */
  lemma {:induction false} ChainWeight(graphs: seq<WGraph>, levels: seq<Level>, i: nat)
    requires Chain(graphs, levels) && i < |levels|
    ensures TotalWeight(graphs[i].edges) == TotalWeight(graphs[0].edges)
  {
    if i > 0 {
      ChainWeight(graphs, levels, i - 1);
      assert NextLevel(graphs[i - 1], levels[i - 1].comm, graphs[i]);
    }
  }

  /**
   * `_computeLeidenCommunities(graph, options)`. `graphs[i]` is the graph of
   * level `i`: the working graph first (`g`, or with `useLcc` its first
   * largest component), then each level's aggregate. The levels stop at
   * `maxLevels`, or when the aggregate has at most one node or as many nodes
   * as the graph it came from; so every graph but the first is the aggregate
   * of the one before, with strictly fewer nodes.
   */
  method ComputeLeidenCommunities(g: WGraph, opts: Options)
    returns (levels: seq<Level>, ghost graphs: seq<WGraph>, ghost comps: seq<seq<string>>, ghost lcc: nat,
             ghost trace: seq<LevelTrace>)
    requires ValidGraph(g)
    ensures g.nodes == [] ==> levels == []
    ensures |levels| <= if opts.maxLevels < 0 then 0 else opts.maxLevels
    ensures g.nodes != [] && opts.maxLevels >= 1 ==> |levels| >= 1
    ensures Chain(graphs, levels)
    ensures levels != [] && !opts.useLcc ==> graphs[0] == g
    ensures levels != [] && opts.useLcc ==> FirstLargestComponent(g, comps, lcc, graphs[0])
    ensures Traced(graphs, levels, trace, opts)
    ensures LastAggregated(graphs, levels, trace)
    ensures StoppedEarly(graphs, levels, trace, opts.maxLevels)
  {
    if g.nodes == [] {
      return [], [], [], 0, [];
    }
    var working;
    working, comps, lcc := WorkingGraph(g, opts.useLcc);
    levels, graphs, trace := LevelLoop(working, opts);
  }

  /**
   * The level loop of `_computeLeidenCommunities` on the working graph:
   * each level runs on the aggregate of the one before, from singletons,
   * until `maxLevels` levels or an aggregate with at most one node or as
   * many nodes as its level's graph.
   */
  method LevelLoop(working: WGraph, opts: Options)
    returns (levels: seq<Level>, ghost graphs: seq<WGraph>, ghost trace: seq<LevelTrace>)
    requires ValidGraph(working) && working.nodes != []
    ensures |levels| <= if opts.maxLevels < 0 then 0 else opts.maxLevels
    ensures opts.maxLevels >= 1 ==> |levels| >= 1
    ensures Chain(graphs, levels)
    ensures levels != [] ==> graphs[0] == working
    ensures Traced(graphs, levels, trace, opts)
    ensures LastAggregated(graphs, levels, trace)
    ensures StoppedEarly(graphs, levels, trace, opts.maxLevels)
  {
    var current := working;
    levels, graphs, trace := [], [], [];
    var level := 0;
    while level < opts.maxLevels && |current.nodes| >= 1
      invariant 0 <= level == |levels|
      invariant level <= if opts.maxLevels < 0 then 0 else opts.maxLevels
      invariant Chain(graphs, levels)
      invariant ValidGraph(current) && current.nodes != []
      invariant level == 0 ==> current == working
      invariant level > 0 ==> graphs[0] == working
      invariant levels != [] ==> NextLevel(graphs[|levels| - 1], levels[|levels| - 1].comm, current)
      invariant Traced(graphs, levels, trace, opts)
      invariant levels != [] ==> current == trace[|levels| - 1].agg && |current.nodes| > 1
      invariant LastAggregated(graphs, levels, trace)
      decreases opts.maxLevels - level
    {
      var agg;
      levels, agg, trace := AddLevel(levels, graphs, trace, opts, current);
      graphs := graphs + [current];
      if |agg.nodes| <= 1 || |agg.nodes| == |current.nodes| {
        ghost var last := |levels| - 1;
        assert graphs[last] == current && trace[last].agg == agg;
        assert StoppedEarly(graphs, levels, trace, opts.maxLevels);
        break;
      }
      current := agg;
      level := level + 1;
    }
  }

  /** The last level's aggregate is the aggregate of its graph by its communities. */
  ghost predicate LastAggregated(graphs: seq<WGraph>, levels: seq<Level>, trace: seq<LevelTrace>) {
    levels != [] ==>
      var last := |levels| - 1;
      && |trace| == |levels| == |graphs| && Cover(graphs[last], levels[last].comm)
      && AggregateOf(trace[last].agg, graphs[last], levels[last].comm)
  }

  /**
   * Fewer than `maxLevels` levels only when the last aggregate has at most
   * one node or as many nodes as its level's graph.
   */
  ghost predicate StoppedEarly(graphs: seq<WGraph>, levels: seq<Level>, trace: seq<LevelTrace>, maxLevels: int) {
    levels != [] && |levels| < maxLevels ==>
      var last := |levels| - 1;
      && |trace| == |levels| == |graphs|
      && (|trace[last].agg.nodes| <= 1 || |trace[last].agg.nodes| == |graphs[last].nodes|)
  }

  /** Level `l` went through local moving and refinement as the two phases promise. */
  ghost predicate RanAt(trace: seq<LevelTrace>, l: int) {
    0 <= l < |trace| && LevelRan(trace[l])
  }

  /**
   * Level `l` ran on `graphs[l]` from singletons with seed
   * `(opts.seed + l) >>> 0`, and gave `levels[l]`; unless it is the first,
   * it ran on the aggregate of the level before, which still had more than
   * one node.
   */
  ghost predicate LinkAt(graphs: seq<WGraph>, levels: seq<Level>, trace: seq<LevelTrace>, opts: Options, l: int) {
    && 0 <= l < |trace| == |levels| == |graphs|
    && trace[l].graph == graphs[l] && trace[l].start == Singletons(graphs[l].nodes)
    && trace[l].move.seed == (opts.seed + l) % 0x1_0000_0000 && trace[l].move.maxIters == opts.maxLocalIters
    && trace[l].refine.refined == levels[l].comm
    && (l > 0 ==> graphs[l] == trace[l - 1].agg && |graphs[l].nodes| > 1)
  }

  ghost predicate Linked(graphs: seq<WGraph>, levels: seq<Level>, trace: seq<LevelTrace>, opts: Options) {
    && |trace| == |levels| == |graphs|
    && forall l :: 0 <= l < |trace| ==> LinkAt(graphs, levels, trace, opts, l)
  }

  /** Every level is linked to its graph and seed, and ran both phases. */
  ghost predicate Traced(graphs: seq<WGraph>, levels: seq<Level>, trace: seq<LevelTrace>, opts: Options) {
    Linked(graphs, levels, trace, opts) && forall l :: 0 <= l < |trace| ==> RanAt(trace, l)
  }

  lemma RanSnoc(trace: seq<LevelTrace>, t: LevelTrace)
    requires forall l :: 0 <= l < |trace| ==> RanAt(trace, l)
    requires LevelRan(t)
    ensures forall l :: 0 <= l < |trace| + 1 ==> RanAt(trace + [t], l)
  {
    var ts := trace + [t];
    forall l | 0 <= l < |ts|
      ensures RanAt(ts, l)
    {
      if l < |trace| {
        assert RanAt(trace, l);
        assert ts[l] == trace[l];
      } else {
        assert ts[l] == t;
      }
    }
  }

  lemma LinkedSnoc(graphs: seq<WGraph>, levels0: seq<Level>, trace: seq<LevelTrace>, opts: Options,
                   h: WGraph, levels: seq<Level>, t: LevelTrace)
    requires Linked(graphs, levels0, trace, opts)
    requires levels0 != [] ==> h == trace[|levels0| - 1].agg && |h.nodes| > 1
    requires |levels| == |levels0| + 1 && levels[..|levels0|] == levels0
    requires t.graph == h && t.start == Singletons(h.nodes)
    requires t.move.seed == (opts.seed + |levels0|) % 0x1_0000_0000 && t.move.maxIters == opts.maxLocalIters
    requires t.refine.refined == levels[|levels0|].comm
    ensures Linked(graphs + [h], levels, trace + [t], opts)
  {
    var gs, ts := graphs + [h], trace + [t];
    forall l | 0 <= l < |ts|
      ensures LinkAt(gs, levels, ts, opts, l)
    {
      if l < |trace| {
        assert LinkAt(graphs, levels0, trace, opts, l);
        assert gs[l] == graphs[l] && ts[l] == trace[l] && levels[l] == levels0[l];
        if l > 0 {
          assert ts[l - 1] == trace[l - 1];
        }
      } else if l > 0 {
        assert ts[l - 1] == trace[l - 1];
      }
    }
  }

  /**
   * One pass of the level loop: the level found on `current` from
   * singletons with seed `(opts.seed + level) >>> 0`, appended to the chain
   * and to the trace, and its aggregate.
   */
  method AddLevel(levels0: seq<Level>, ghost graphs: seq<WGraph>, ghost trace0: seq<LevelTrace>, opts: Options,
                  current: WGraph)
    returns (levels: seq<Level>, agg: WGraph, ghost trace: seq<LevelTrace>)
    requires Chain(graphs, levels0) && ValidGraph(current) && current.nodes != []
    requires levels0 != [] ==> NextLevel(graphs[|levels0| - 1], levels0[|levels0| - 1].comm, current)
    requires Traced(graphs, levels0, trace0, opts)
    requires levels0 != [] ==> current == trace0[|levels0| - 1].agg && |current.nodes| > 1
    ensures Chain(graphs + [current], levels)
    ensures |levels| == |levels0| + 1 && levels[..|levels0|] == levels0
    ensures levels[|levels0|].nodes == current.nodes && Cover(current, levels[|levels0|].comm)
    ensures AggregateOf(agg, current, levels[|levels0|].comm)
    ensures |agg.nodes| <= |current.nodes| && agg.nodes != []
    ensures Traced(graphs + [current], levels, trace, opts)
    ensures trace[..|levels0|] == trace0 && trace[|levels0|].agg == agg
    ensures LastAggregated(graphs + [current], levels, trace)
  {
    var comm := Singletons(current.nodes);
    var refined;
    ghost var t;
    refined, agg, t := OneLevel(current, comm, (opts.seed + |levels0|) % 0x1_0000_0000, opts.maxLocalIters);
    var lv := Level(current.nodes, refined);
    assert LevelOf(current, lv);
    ChainSnoc(graphs, levels0, current, lv);
    levels := levels0 + [lv];
    assert levels[..|levels0|] == levels0;
    LinkedSnoc(graphs, levels0, trace0, opts, current, levels, t);
    RanSnoc(trace0, t);
    trace := trace0 + [t];
    assert trace[..|levels0|] == trace0;
    assert (graphs + [current])[|levels0|] == current && levels[|levels0|] == lv && trace[|levels0|] == t;
  }

  /**
   * What local moving went through: its seed and pass cap, the communities
   * it ended with, the number of passes, whether the last one moved nothing
   * and the node order of each pass.
   */
  datatype MoveRecord = MoveRecord(seed: int, maxIters: int, moved: map<string, string>, passes: nat,
                                   converged: bool, orders: seq<seq<string>>)

  /** What refinement went through: the split, its pass's labellings and the refined communities. */
  datatype RefineRecord = RefineRecord(split: map<string, string>, steps: seq<map<string, string>>,
                                       refined: map<string, string>)

  /** One level: the graph and start communities it ran on, its two phases and the aggregate graph. */
  datatype LevelTrace = LevelTrace(graph: WGraph, start: map<string, string>, move: MoveRecord,
                                   refine: RefineRecord, agg: WGraph)

  /** Local moving took `start` to `m.moved`, as `LocalMovingPhase` promises. */
  ghost predicate MovedBy(h: WGraph, start: map<string, string>, m: MoveRecord) {
    && Cover(h, start) && Cover(h, m.moved) && m.moved.Values <= start.Values
    && (forall n :: n in h.nodes && Deg(h.edges, n) == 0.0 ==> m.moved[n] == start[n])
    && (NonNegative(h) ==> Modularity(h, m.moved) >= Modularity(h, start))
    && (m.passes == 0 || m.passes <= m.maxIters)
    && (|h.nodes| != 0 && !m.converged ==> m.passes >= m.maxIters)
    && (m.converged ==> forall n :: n in h.nodes ==> NoGainingMove(h, m.moved, n))
    && m.orders == PassOrders(h.nodes, ToUint32(m.seed), m.passes).0
  }

  /** Refinement took `moved` to `r.refined`, as `RefinementPhase` promises. */
  ghost predicate RefinedBy(h: WGraph, moved: map<string, string>, r: RefineRecord)
    requires Cover(h, moved)
  {
    && Cover(h, r.refined)
    && (TotalWeight(h.edges) == 0.0 ==> r.refined == moved)
    && (TotalWeight(h.edges) != 0.0 ==>
          && SplitOf(h, moved, r.split)
          && r.refined.Values <= r.split.Values
          && (forall n :: n in h.nodes && Deg(h.edges, n) == 0.0 ==> r.refined[n] == r.split[n])
          && RefineTrace(h, r.split, r.refined, r.steps))
  }

  /** One level: local moving, then refinement of its result. */
  ghost predicate LevelRan(t: LevelTrace) {
    MovedBy(t.graph, t.start, t.move) && RefinedBy(t.graph, t.move.moved, t.refine)
  }

  /** `LocalMovingPhase` with what it went through. */
  method MoveLevel(current: WGraph, comm: map<string, string>, seed: int, maxLocalIters: int)
    returns (moved: map<string, string>, ghost m: MoveRecord)
    requires ValidGraph(current) && Cover(current, comm)
    ensures MovedBy(current, comm, m)
    ensures m.seed == seed && m.maxIters == maxLocalIters && m.moved == moved
  {
    ghost var passes, converged, orders;
    moved, passes, converged, orders := LocalMovingPhase(current, comm, seed, maxLocalIters);
    m := MoveRecord(seed, maxLocalIters, moved, passes, converged, orders);
  }

  /** `RefinementPhase` with what it went through. */
  method RefineLevel(current: WGraph, moved: map<string, string>)
    returns (refined: map<string, string>, ghost r: RefineRecord)
    requires ValidGraph(current) && Cover(current, moved)
    ensures RefinedBy(current, moved, r) && r.refined == refined
  {
    ghost var split, steps;
    refined, split, steps := RefinementPhase(current, moved);
    r := RefineRecord(split, steps, refined);
  }

  /**
   * The body of the level loop: local moving with this level's seed
   * (`(seed + level) >>> 0`, the sum modulo 2^32), then refinement, then
   * aggregation of the refined communities.
   */
  method OneLevel(current: WGraph, comm: map<string, string>, seed: int, maxLocalIters: int)
    returns (refined: map<string, string>, agg: WGraph, ghost t: LevelTrace)
    requires ValidGraph(current) && Cover(current, comm)
    ensures Cover(current, refined)
    ensures AggregateOf(agg, current, refined)
    ensures |agg.nodes| <= |current.nodes|
    ensures current.nodes != [] ==> agg.nodes != []
    ensures LevelRan(t)
    ensures t.graph == current && t.start == comm && t.move.seed == seed && t.move.maxIters == maxLocalIters
    ensures t.refine.refined == refined && t.agg == agg
  {
    var moved, m := MoveLevel(current, comm, seed, maxLocalIters);
    ghost var r;
    refined, r := RefineLevel(current, moved);
    var info;
    agg, info := AggregationPhase(current, refined);
    t := LevelTrace(current, comm, m, r, agg);
    LabelsLength(current.nodes, refined);
    if current.nodes != [] {
      assert refined[current.nodes[0]] in agg.nodes;
    }
  }

  /* ------------------------------ the per-level report ------------------------------ */

  /** The node attributes `run` reads; `None` is an absent (or null) attribute. */
  datatype NodeAttrs = NodeAttrs(rank: Option<real>, pagerank: Option<real>, weight: Option<real>)

  /** One community of a level: its `weight` and its `nodes`. */
  datatype Community = Community(weight: real, nodes: seq<string>)

  /** `o ?? d`. */
  function OrElse(o: Option<real>, d: real): real {
    if o.Some? then o.value else d
  }

  /**
   * `rank * w` for node `n`: `rank ?? pagerank ?? 0` times `weight ?? 1` when
   * the input graph has a node called `n`, and `0 * 1` otherwise (a
   * super-node label that names no node of the input graph).
   */
  function NodeScore(g: WGraph, attrs: map<string, NodeAttrs>, n: string): real {
    if n in g.nodes then
      var a := if n in attrs then attrs[n] else NodeAttrs(None, None, None);
      OrElse(a.rank, OrElse(a.pagerank, 0.0)) * OrElse(a.weight, 1.0)
    else 0.0
  }

  /** The summed scores of `ns`. */
  function ScoreSum(g: WGraph, attrs: map<string, NodeAttrs>, ns: seq<string>): real
    decreases |ns|
  {
    if ns == [] then 0.0 else ScoreSum(g, attrs, ns[..|ns| - 1]) + NodeScore(g, attrs, ns[|ns| - 1])
  }

  /**
   * What node `n` does to `out`: it joins the entry of its label, created
   * empty when missing (every node of a level has a label; an unlabelled
   * one would change nothing).
   */
  function TallyAdd(t: OrdMap<string, Community>, n: string, comm: map<string, string>,
                    g: WGraph, attrs: map<string, NodeAttrs>): OrdMap<string, Community>
  {
    if n !in comm then t
    else
      var c := comm[n];
      var cur := if c in t.m then t.m[c] else Community(0.0, []);
      Put(t, c, Community(cur.weight + NodeScore(g, attrs, n), cur.nodes + [n]))
  }

  /** `out` after the nodes `ns`, as the `for (const n in cmap)` loop builds it. */
  function Tally(ns: seq<string>, comm: map<string, string>, g: WGraph, attrs: map<string, NodeAttrs>): OrdMap<string, Community>
    decreases |ns|
  {
    if ns == [] then EmptyMap()
    else TallyAdd(Tally(ns[..|ns| - 1], comm, g, attrs), ns[|ns| - 1], comm, g, attrs)
  }

  lemma TallyStep(ns: seq<string>, comm: map<string, string>, g: WGraph, attrs: map<string, NodeAttrs>, p: nat)
    requires p < |ns|
    ensures Tally(ns[..p + 1], comm, g, attrs) == TallyAdd(Tally(ns[..p], comm, g, attrs), ns[p], comm, g, attrs)
  {
    assert ns[..p + 1][..p] == ns[..p];
  }

  /**
   * The communities of a level are its labels in order of first appearance;
   * each lists its nodes in order and weighs the sum of their scores.
   */
  lemma TallyLaws(ns: seq<string>, comm: map<string, string>, g: WGraph, attrs: map<string, NodeAttrs>)
    requires Labelled(ns, comm)
    ensures Tally(ns, comm, g, attrs).Valid()
    ensures Tally(ns, comm, g, attrs).keys == Labels(ns, comm)
    ensures forall c :: c in Tally(ns, comm, g, attrs).m ==>
              Tally(ns, comm, g, attrs).m[c].nodes == Members(ns, comm, c)
              && Tally(ns, comm, g, attrs).m[c].weight == ScoreSum(g, attrs, Members(ns, comm, c))
  {
    TallyKeys(ns, comm, g, attrs);
    forall c | c in Tally(ns, comm, g, attrs).m
      ensures Tally(ns, comm, g, attrs).m[c].nodes == Members(ns, comm, c)
      ensures Tally(ns, comm, g, attrs).m[c].weight == ScoreSum(g, attrs, Members(ns, comm, c))
    {
      TallyEntry(ns, comm, g, attrs, c);
    }
  }

  lemma {:induction false} TallyKeys(ns: seq<string>, comm: map<string, string>, g: WGraph, attrs: map<string, NodeAttrs>)
    requires Labelled(ns, comm)
    ensures Tally(ns, comm, g, attrs).Valid()
    ensures Tally(ns, comm, g, attrs).keys == Labels(ns, comm)
    decreases |ns|
  {
    if ns != [] {
      var init := ns[..|ns| - 1];
      assert Labelled(init, comm);
      TallyKeys(init, comm, g, attrs);
    }
  }

  /** The entry of label `c` (absent: no node yet). */
  lemma {:induction false} TallyEntry(ns: seq<string>, comm: map<string, string>, g: WGraph, attrs: map<string, NodeAttrs>, c: string)
    ensures c in Tally(ns, comm, g, attrs).m ==>
              Tally(ns, comm, g, attrs).m[c].nodes == Members(ns, comm, c)
              && Tally(ns, comm, g, attrs).m[c].weight == ScoreSum(g, attrs, Members(ns, comm, c))
    ensures c !in Tally(ns, comm, g, attrs).m ==> Members(ns, comm, c) == []
    decreases |ns|
  {
    if ns != [] {
      var init := ns[..|ns| - 1];
      var n := ns[|ns| - 1];
      TallyEntry(init, comm, g, attrs, c);
      assert Members(ns, comm, c) == if n in comm && comm[n] == c then Members(init, comm, c) + [n] else Members(init, comm, c);
      TallyAddEntry(Tally(init, comm, g, attrs), n, comm, g, attrs, c, Members(init, comm, c));
    }
  }

  /** One node keeps the entry of `c` in step with the members `mi` of `c`. */
  lemma TallyAddEntry(t: OrdMap<string, Community>, n: string, comm: map<string, string>,
                      g: WGraph, attrs: map<string, NodeAttrs>, c: string, mi: seq<string>)
    requires c in t.m ==> t.m[c].nodes == mi && t.m[c].weight == ScoreSum(g, attrs, mi)
    requires c !in t.m ==> mi == []
    ensures c in TallyAdd(t, n, comm, g, attrs).m ==>
              TallyAdd(t, n, comm, g, attrs).m[c].nodes == (if n in comm && comm[n] == c then mi + [n] else mi)
              && TallyAdd(t, n, comm, g, attrs).m[c].weight == ScoreSum(g, attrs, if n in comm && comm[n] == c then mi + [n] else mi)
    ensures c !in TallyAdd(t, n, comm, g, attrs).m ==> (if n in comm && comm[n] == c then mi + [n] else mi) == []
  {
    if n in comm && comm[n] == c {
      assert (mi + [n])[..|mi|] == mi;
    }
  }

  /** The key with the largest weight, the first one on ties (`Math.max` over `Object.values(out)`). */
  function ArgMax(keys: seq<string>, m: map<string, Community>): (k: string)
    requires keys != [] && forall x :: x in keys ==> x in m
    ensures k in keys
    ensures forall x :: x in keys ==> m[x].weight <= m[k].weight
    decreases |keys|
  {
    if |keys| == 1 then keys[0]
    else
      var init := keys[..|keys| - 1];
      assert forall x :: x in init ==> x in keys;
      var k := ArgMax(init, m);
      assert forall x :: x in keys ==> x in init || x == keys[|keys| - 1];
      if m[keys[|keys| - 1]].weight > m[k].weight then keys[|keys| - 1] else k
  }

  /** `Math.max(...arr.map(x => x.weight))`. */
  function MaxWeight(out: OrdMap<string, Community>): real
    requires out.Valid() && out.keys != []
  {
    out.m[ArgMax(out.keys, out.m)].weight
  }

  /** Every weight divided by `mx`. */
  function Scaled(out: OrdMap<string, Community>, mx: real): OrdMap<string, Community>
    requires mx != 0.0
  {
    OrdMap(out.keys, map c | c in out.m :: Community(out.m[c].weight / mx, out.m[c].nodes))
  }

  /** The normalisation step: divide by the largest weight when it is positive. */
  function Normalised(out: OrdMap<string, Community>): OrdMap<string, Community>
    requires out.Valid()
  {
    if out.keys != [] && MaxWeight(out) > 0.0 then Scaled(out, MaxWeight(out)) else out
  }

  /**
   * After normalisation with a positive largest weight, no weight exceeds 1,
   * the largest is exactly 1, and weights that were not negative stay so.
   */
  lemma NormalisedBounds(out: OrdMap<string, Community>)
    requires out.Valid() && out.keys != [] && MaxWeight(out) > 0.0
    ensures Normalised(out).m[ArgMax(out.keys, out.m)].weight == 1.0
    ensures forall c :: c in Normalised(out).m ==> Normalised(out).m[c].weight <= 1.0
    ensures forall c :: c in out.m && out.m[c].weight >= 0.0 ==> Normalised(out).m[c].weight >= 0.0
  {
    var mx := MaxWeight(out);
    var r := Normalised(out);
    forall c | c in r.m
      ensures r.m[c].weight <= 1.0
      ensures out.m[c].weight >= 0.0 ==> r.m[c].weight >= 0.0
    {
      DivideByMax(out.m[c].weight, mx);
    }
    DivideByMax(mx, mx);
  }

  lemma DivideByMax(w: real, mx: real)
    requires mx > 0.0 && w <= mx
    ensures w / mx <= 1.0
    ensures w >= 0.0 ==> w / mx >= 0.0
    ensures w == mx ==> w / mx == 1.0
  {
    assert w / mx * mx == w;
  }

  /** The `arr.forEach(x => x.weight /= mx)` loop, after `if (arr.length)` and `if (mx > 0)`. */
  method Normalize(out: OrdMap<string, Community>) returns (r: OrdMap<string, Community>)
    requires out.Valid()
    ensures r == Normalised(out)
  {
    r := out;
    if |out.keys| > 0 {
      var mx := MaxWeight(out);
      if mx > 0.0 {
        var q := 0;
        while q < |out.keys|
          invariant 0 <= q <= |out.keys|
          invariant r.keys == out.keys && r.m.Keys == out.m.Keys
          invariant forall c :: c in r.m ==>
                      r.m[c] == if c in out.keys[..q] then Community(out.m[c].weight / mx, out.m[c].nodes) else out.m[c]
        {
          var c := out.keys[q];
          assert c !in out.keys[..q];
          TakeSnoc(out.keys, q);
          r := OrdMap(r.keys, r.m[c := Community(r.m[c].weight / mx, r.m[c].nodes)]);
          q := q + 1;
        }
        assert out.keys[..q] == out.keys;
        assert r.m == Scaled(out, mx).m;
      }
    }
  }

  /** The report `out` of level `lv`: the tally of its nodes, normalised. */
  ghost predicate ReportOf(g: WGraph, attrs: map<string, NodeAttrs>, lv: Level, out: OrdMap<string, Community>) {
    Labelled(lv.nodes, lv.comm)
    && Tally(lv.nodes, lv.comm, g, attrs).Valid()
    && out == Normalised(Tally(lv.nodes, lv.comm, g, attrs))
  }

  /** The body of `for (const lvl of Object.keys(nodeIdToCommunityMap))`. */
  method LevelReport(g: WGraph, attrs: map<string, NodeAttrs>, lv: Level) returns (out: OrdMap<string, Community>)
    requires Labelled(lv.nodes, lv.comm)
    ensures ReportOf(g, attrs, lv, out)
  {
    var raw := TallyNodes(g, attrs, lv.nodes, lv.comm);
    TallyKeys(lv.nodes, lv.comm, g, attrs);
    out := Normalize(raw);
  }

  /** The `for (const n in cmap)` loop. */
  method TallyNodes(g: WGraph, attrs: map<string, NodeAttrs>, ns: seq<string>, comm: map<string, string>)
    returns (out: OrdMap<string, Community>)
    requires Labelled(ns, comm)
    ensures out == Tally(ns, comm, g, attrs)
  {
    out := EmptyMap();
    var p := 0;
    while p < |ns|
      invariant 0 <= p <= |ns|
      invariant out == Tally(ns[..p], comm, g, attrs)
    {
      TallyStep(ns, comm, g, attrs, p);
      out := TallyNode(out, ns[p], comm, g, attrs);
      p := p + 1;
    }
    assert ns[..p] == ns;
  }

  /** The body of that loop for node `n`. */
  method TallyNode(out0: OrdMap<string, Community>, n: string, comm: map<string, string>,
                   g: WGraph, attrs: map<string, NodeAttrs>) returns (out: OrdMap<string, Community>)
    requires n in comm
    ensures out == TallyAdd(out0, n, comm, g, attrs)
  {
    var c := comm[n];
    out := out0;
    if c !in out.m {
      out := Put(out, c, Community(0.0, []));
    }
    out := Put(out, c, Community(out.m[c].weight + NodeScore(g, attrs, n), out.m[c].nodes + [n]));
  }

  /**
   * `run(graph, args)` (and `hierarchicalLeiden`): the levels of
   * `_computeLeidenCommunities` with the default `maxLocalIters`, each turned
   * into its report. The levels are those the driver computes from `g`:
   * the first graph is `g` or its first largest component, and level l ran
   * local moving from singletons with seed (seed + l) mod 2^32, then
   * refinement, on the aggregate of level l - 1.
   */
  method Run(g: WGraph, attrs: map<string, NodeAttrs>, useLcc: bool, seed: int, maxLevels: int)
    returns (results: seq<OrdMap<string, Community>>, ghost levels: seq<Level>, ghost graphs: seq<WGraph>,
             ghost comps: seq<seq<string>>, ghost lcc: nat, ghost trace: seq<LevelTrace>)
    requires ValidGraph(g)
    ensures Chain(graphs, levels)
    ensures |results| == |levels| <= if maxLevels < 0 then 0 else maxLevels
    ensures g.nodes == [] ==> results == []
    ensures g.nodes != [] && maxLevels >= 1 ==> |levels| >= 1
    ensures levels != [] && !useLcc ==> graphs[0] == g
    ensures levels != [] && useLcc ==> FirstLargestComponent(g, comps, lcc, graphs[0])
    ensures Traced(graphs, levels, trace, Options(useLcc, maxLevels, seed, DefaultMaxLocalIterations))
    ensures StoppedEarly(graphs, levels, trace, maxLevels)
    ensures forall i :: 0 <= i < |results| ==> ReportOf(g, attrs, levels[i], results[i])
  {
    var lvs;
    lvs, graphs, comps, lcc, trace := ComputeLeidenCommunities(g, Options(useLcc, maxLevels, seed, DefaultMaxLocalIterations));
    levels := lvs;
    results := LevelReports(g, attrs, lvs, graphs);
  }

  /** The loop of `run` over the levels: each level turned into its report. */
  method LevelReports(g: WGraph, attrs: map<string, NodeAttrs>, levels: seq<Level>, ghost graphs: seq<WGraph>)
    returns (results: seq<OrdMap<string, Community>>)
    requires Chain(graphs, levels)
    ensures |results| == |levels|
    ensures forall i :: 0 <= i < |results| ==> ReportOf(g, attrs, levels[i], results[i])
  {
    results := [];
    var i := 0;
    while i < |levels|
      invariant 0 <= i <= |levels| && |results| == i
      invariant forall j :: 0 <= j < i ==> ReportOf(g, attrs, levels[j], results[j])
    {
      assert LevelOf(graphs[i], levels[i]);
      var out := LevelReport(g, attrs, levels[i]);
      results := results + [out];
      i := i + 1;
    }
  }
}
