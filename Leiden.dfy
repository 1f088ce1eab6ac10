/**
 * The Leiden community detection of `src/community/leiden.js`: a seeded
 * xorshift32 generator, local moving that maintains the per-community degree
 * sums, refinement (split into connected pieces, then a constrained merge
 * pass), aggregation into a graph of super-nodes, the multi-level driver and
 * the per-level community report. Each method is proved against the
 * reference definitions of module `LeidenSpec`.
 */
module Leiden {
  import opened Common
  import opened WeightedGraphs
  import opened LeidenSpec

  const DefaultSeed: int := 0xDEAD_BEEF
  const DefaultMaxLocalIterations: int := 10
  const DefaultMaxLevels: int := 3

  /* ------------------------------ generator and shuffle ------------------------------ */

  /** The closure returned by `xorshift32(seed)`: its state word and one draw. */
  class Rng {
    var x: bv32

    constructor (seed: int)
      ensures x == ToUint32(seed)
    {
      x := ToUint32(seed);
    }

    /** Advances the state by one xorshift step and returns it scaled to [0, 1). */
    method Next() returns (r: real)
      modifies this
      ensures x == XorShift(old(x))
      ensures r == ToUnit(x) && 0.0 <= r < 1.0
    {
      x := ShiftXorLeft13(x);
      x := ShiftXorRight17(x);
      x := ShiftXorLeft5(x);
      r := ToUnit(x);
    }
  }

  /** Fisher–Yates from the last index down to 1, drawing from `rng`. */
  method ShuffleInPlace(a: array<string>, rng: Rng)
    modifies a, rng
    ensures (a[..], rng.x) == Shuffled(old(a[..]), old(rng.x))
    ensures multiset(a[..]) == multiset(old(a[..]))
  {
    ghost var s0 := a[..];
    ghost var x0 := rng.x;
    ghost var goal := Shuffled(s0, x0);
    if a.Length > 0 {
      var i := a.Length - 1;
      while i > 0
        invariant 0 <= i < a.Length
        invariant ShuffleFrom(a[..], i, rng.x) == goal
        decreases i
      {
        ghost var before := a[..];
        ghost var xBefore := rng.x;
        var r := rng.Next();
        var j := ScaledIndex(r, i);
        a[i], a[j] := a[j], a[i];
        assert a[..] == Swap(before, i, j);
        i := i - 1;
      }
    }
    ShuffledPermutes(s0, x0);
  }

  /**
   * The node orders of `n` passes of local moving, each a fresh shuffle of
   * `ns` by a generator carried on from state `x`, and the state after them.
   */
  ghost function PassOrders(ns: seq<string>, x: bv32, n: nat): (seq<seq<string>>, bv32)
    decreases n
  {
    if n == 0 then ([], x)
    else
      var before := PassOrders(ns, x, n - 1);
      var next := Shuffled(ns, before.1);
      (before.0 + [next.0], next.1)
  }

  /* ------------------------------ degrees and community sums ------------------------------ */

  /** `k` holds every node's weighted degree. */
  ghost predicate DegreeTable(g: WGraph, k: map<string, real>) {
    forall n :: n in g.nodes ==> n in k && k[n] == Deg(g.edges, n)
  }

  /** `t[c] ?? 0` on a label-keyed table (`tot`, `dc`, `Lc`). */
  function TotOf(tot: map<string, real>, c: string): real {
    if c in tot then tot[c] else 0.0
  }

  /** `tot` holds every label's degree sum (absent labels have sum 0). */
  ghost predicate TotTable(g: WGraph, comm: map<string, string>, tot: map<string, real>) {
    forall c :: TotOf(tot, c) == CommDeg(g.nodes, g.edges, comm, c)
  }

  /** `computeGraphBase`: total weight m (each edge once) and the weighted degrees k. */
  method ComputeGraphBase(g: WGraph) returns (m: real, k: map<string, real>)
    requires EndpointsIn(g.edges, g.nodes)
    ensures m == TotalWeight(g.edges)
    ensures forall n :: n in k <==> n in g.nodes
    ensures DegreeTable(g, k)
  {
    k := map[];
    var p := 0;
    while p < |g.nodes|
      invariant 0 <= p <= |g.nodes|
      invariant forall n :: n in k <==> n in g.nodes[..p]
      invariant forall n :: n in k ==> k[n] == 0.0
    {
      k := k[g.nodes[p] := 0.0];
      assert g.nodes[..p + 1] == g.nodes[..p] + [g.nodes[p]];
      p := p + 1;
    }
    assert g.nodes[..p] == g.nodes;
    m := 0.0;
    var j := 0;
    while j < |g.edges|
      invariant 0 <= j <= |g.edges|
      invariant m == TotalWeight(g.edges[..j])
      invariant forall n :: n in k <==> n in g.nodes
      invariant forall n :: n in k ==> k[n] == Deg(g.edges[..j], n)
    {
      var e := g.edges[j];
      assert g.edges[..j + 1][..j] == g.edges[..j];
      m := m + W(e);
      k := k[e.s := k[e.s] + W(e)];
      k := k[e.t := k[e.t] + W(e)];
      j := j + 1;
    }
    assert g.edges[..j] == g.edges;
  }

  /** `computeTotByCommunity`: the degree sum of every label. */
  method ComputeTotByCommunity(g: WGraph, comm: map<string, string>, k: map<string, real>)
    returns (tot: map<string, real>)
    requires Cover(g, comm) && DegreeTable(g, k)
    ensures TotTable(g, comm, tot)
    ensures forall c :: c in tot <==> c in Labels(g.nodes, comm)
  {
    tot := map[];
    var p := 0;
    while p < |g.nodes|
      invariant 0 <= p <= |g.nodes|
      invariant forall c :: TotOf(tot, c) == CommDeg(g.nodes[..p], g.edges, comm, c)
      invariant forall c :: c in tot <==> c in Labels(g.nodes[..p], comm)
    {
      var n := g.nodes[p];
      assert g.nodes[..p + 1][..p] == g.nodes[..p];
      tot := tot[comm[n] := TotOf(tot, comm[n]) + k[n]];
      p := p + 1;
    }
    assert g.nodes[..p] == g.nodes;
  }

  /* ------------------------------ modularity ------------------------------ */

  /** `calculateModularity`: Q of the partition, 0 for an empty or weightless graph. */
  method CalculateModularity(g: WGraph, comm: map<string, string>) returns (q: real)
    requires ValidGraph(g) && Cover(g, comm)
    ensures q == Modularity(g, comm)
    ensures |g.nodes| == 0 || TotalWeight(g.edges) == 0.0 ==> q == 0.0
  {
    if |g.nodes| == 0 {
      return 0.0;
    }
    var m, k := ComputeGraphBase(g);
    if m == 0.0 {
      return 0.0;
    }
    var dc := ComputeTotByCommunity(g, comm, k);
    var keys := LabelOrder(g, comm);
    var lc := IntraWeights(g, comm);
    q := 0.0;
    var idx := 0;
    while idx < |keys|
      invariant 0 <= idx <= |keys|
      invariant q == QSum(keys[..idx], g.nodes, g.edges, comm, 1.0 / m)
    {
      var c := keys[idx];
      var l := TotOf(lc, c);
      var d := TotOf(dc, c);
      QSumStep(keys, idx, g.nodes, g.edges, comm, m, q, l, d);
      q := q + (l / m - d * d / (4.0 * m * m));
      idx := idx + 1;
    }
    assert keys[..idx] == keys;
  }

  /**
   * The order in which `for (const c in dc)` visits the labels: `dc` gains a
   * key the first time a node with that label is seen.
   */
  method LabelOrder(g: WGraph, comm: map<string, string>) returns (keys: seq<string>)
    requires Cover(g, comm)
    ensures keys == Labels(g.nodes, comm)
  {
    keys := [];
    var p := 0;
    while p < |g.nodes|
      invariant 0 <= p <= |g.nodes|
      invariant keys == Labels(g.nodes[..p], comm)
    {
      var c := comm[g.nodes[p]];
      LabelsStep(g.nodes, comm, p);
      if c !in keys {
        keys := keys + [c];
      }
      p := p + 1;
    }
    assert g.nodes[..p] == g.nodes;
  }

  /** `Lc`: the weight of the edges inside each label. */
  method IntraWeights(g: WGraph, comm: map<string, string>) returns (lc: map<string, real>)
    requires Cover(g, comm) && EndpointsIn(g.edges, g.nodes)
    ensures forall c :: TotOf(lc, c) == Intra(g.edges, comm, c)
  {
    lc := map[];
    var j := 0;
    while j < |g.edges|
      invariant 0 <= j <= |g.edges|
      invariant forall c :: TotOf(lc, c) == Intra(g.edges[..j], comm, c)
    {
      var e := g.edges[j];
      assert g.edges[..j + 1][..j] == g.edges[..j];
      if comm[e.s] == comm[e.t] {
        lc := lc[comm[e.s] := TotOf(lc, comm[e.s]) + W(e)];
      }
      j := j + 1;
    }
    assert g.edges[..j] == g.edges;
  }

  /* ------------------------------ gain and candidates ------------------------------ */

  /** `deltaQ_addToCommunity` for the unlabelled node `i` and label `c`. */
  method DeltaQAddToCommunity(g: WGraph, i: string, c: string, R: map<string, string>,
                              m: real, k: map<string, real>, tot: map<string, real>)
    returns (dq: real)
    requires i in g.nodes && m == TotalWeight(g.edges) && DegreeTable(g, k) && TotTable(g, R, tot)
    ensures dq == Gain(g, R, i, c)
  {
    if m == 0.0 {
      return 0.0;
    }
    var kin := 0.0;
    var j := 0;
    while j < |g.edges|
      invariant 0 <= j <= |g.edges|
      invariant kin == Kin(g.edges[..j], R, i, c)
    {
      var e := g.edges[j];
      assert g.edges[..j + 1][..j] == g.edges[..j];
      if Incident(e, i) {
        var nb := Other(e, i);
        if nb in R && R[nb] == c {
          kin := kin + W(e);
        }
      }
      j := j + 1;
    }
    assert g.edges[..j] == g.edges;
    var ki := k[i];
    var totC := TotOf(tot, c);
    GainForm(kin, ki, totC, m);
    dq := kin / m - (ki * totC) / (2.0 * m * m);
  }

  /** The `Set` of neighbour labels of `i`, in first-seen order over `i`'s edges. */
  method NeighbourCommunities(g: WGraph, comm: map<string, string>, i: string) returns (cands: seq<string>)
    ensures cands == Dedup(NeighbourLabels(g.edges, comm, i))
    ensures Distinct(cands)
    ensures forall c :: c in cands ==> exists n :: n in comm && comm[n] == c
  {
    cands := [];
    var j := 0;
    while j < |g.edges|
      invariant 0 <= j <= |g.edges|
      invariant cands == Dedup(NeighbourLabels(g.edges[..j], comm, i))
    {
      var e := g.edges[j];
      ghost var before := NeighbourLabels(g.edges[..j], comm, i);
      NeighbourLabelsStep(g.edges, comm, i, j);
      if Incident(e, i) && Other(e, i) in comm {
        var c := comm[Other(e, i)];
        DedupSnoc(before, c);
        if c !in cands {
          cands := cands + [c];
        }
      } else {
        assert before + [] == before;
      }
      j := j + 1;
    }
    assert g.edges[..j] == g.edges;
  }

  /** The nodes of the graph labelled `c`, in node order. */
  method CommunityMembers(g: WGraph, R: map<string, string>, c: string) returns (ns: seq<string>)
    ensures ns == Members(g.nodes, R, c)
  {
    ns := [];
    var p := 0;
    while p < |g.nodes|
      invariant 0 <= p <= |g.nodes|
      invariant ns == Members(g.nodes[..p], R, c)
    {
      assert g.nodes[..p + 1][..p] == g.nodes[..p];
      var n := g.nodes[p];
      if n in R && R[n] == c {
        ns := ns + [n];
      }
      p := p + 1;
    }
    assert g.nodes[..p] == g.nodes;
  }

  /** `isConnectedAfterMerge`: C ∪ {i} has at most two nodes or a single component. */
  method IsConnectedAfterMerge(g: WGraph, c: string, i: string, R: map<string, string>) returns (b: bool)
    requires ValidGraph(g) && i !in R
    ensures b == ConnectedAfterMerge(g, R, c, i)
  {
    var members := CommunityMembers(g, R, c);
    var ns := members + [i];
    if |ns| <= 2 {
      return true;
    }
    MembersDistinct(g.nodes, R, c);
    DistinctAppend(members, i);
    var comps := Components(g, ns);
    OneComponentIffConnected(g, ns, comps);
    b := |comps| == 1;
  }

  /** A label `i` may join: any label, or in the refinement pass one that keeps C ∪ {i} connected. */
  ghost predicate Admissible(g: WGraph, R: map<string, string>, i: string, c: string, constrained: bool) {
    !constrained || ConnectedAfterMerge(g, R, c, i)
  }

  /**
   * What the candidate loop returns: `bestGain` is 0 and `target` is `own`, or
   * `target` is the first admissible candidate with the largest gain and that
   * gain is positive; no admissible candidate gains more.
   */
  ghost predicate BestChoice(g: WGraph, R: map<string, string>, i: string, cands: seq<string>,
                             own: string, constrained: bool, target: string, bestGain: real) {
    && bestGain >= 0.0
    && (bestGain == 0.0 ==> target == own)
    && (bestGain > 0.0 ==> target in cands && bestGain == Gain(g, R, i, target) && Admissible(g, R, i, target, constrained))
    && (forall c :: c in cands && Admissible(g, R, i, c, constrained) ==> Gain(g, R, i, c) <= bestGain)
    && (bestGain > 0.0 ==> forall p, q :: (0 <= q < p < |cands| && cands[p] == target
                             && Admissible(g, R, i, cands[q], constrained)) ==> Gain(g, R, i, cands[q]) < bestGain)
  }

  /**
   * The candidate loop: the first candidate whose gain is strictly the largest
   * positive one (and, when `constrained`, passes the merge check), else `own`.
   */
  method ChooseCommunity(g: WGraph, i: string, R: map<string, string>, cands: seq<string>,
                         m: real, k: map<string, real>, tot: map<string, real>,
                         own: string, constrained: bool)
    returns (target: string, bestGain: real)
    requires ValidGraph(g) && i in g.nodes && i !in R
    requires m == TotalWeight(g.edges) && DegreeTable(g, k) && TotTable(g, R, tot)
    requires Distinct(cands)
    ensures BestChoice(g, R, i, cands, own, constrained, target, bestGain)
  {
    target, bestGain := own, 0.0;
    var j := 0;
    while j < |cands|
      invariant 0 <= j <= |cands|
      invariant bestGain >= 0.0
      invariant bestGain == 0.0 ==> target == own
      invariant bestGain > 0.0 ==> target in cands[..j] && bestGain == Gain(g, R, i, target) && Admissible(g, R, i, target, constrained)
      invariant forall q :: 0 <= q < j && Admissible(g, R, i, cands[q], constrained) ==> Gain(g, R, i, cands[q]) <= bestGain
      invariant bestGain > 0.0 ==> forall p, q :: (0 <= q < p < j && cands[p] == target
                                         && Admissible(g, R, i, cands[q], constrained)) ==> Gain(g, R, i, cands[q]) < bestGain
    {
      var c := cands[j];
      var gainAdd := DeltaQAddToCommunity(g, i, c, R, m, k, tot);
      if gainAdd > bestGain {
        var ok := true;
        if constrained {
          ok := IsConnectedAfterMerge(g, c, i, R);
        }
        if ok {
          target, bestGain := c, gainAdd;
        }
      }
      j := j + 1;
    }
    assert cands[..j] == cands;
  }

  /**
   * One node of a moving pass: take `i` out of its community, pick the target
   * among its neighbours' labels, put it there and keep `tot` exact. A node of
   * degree 0 is skipped.
   */
  method MoveNode(g: WGraph, comm: map<string, string>, tot: map<string, real>,
                  m: real, k: map<string, real>, i: string, constrained: bool)
    returns (comm': map<string, string>, tot': map<string, real>, target: string)
    requires ValidGraph(g) && Cover(g, comm) && i in g.nodes
    requires m == TotalWeight(g.edges) && DegreeTable(g, k) && TotTable(g, comm, tot)
    ensures comm' == comm[i := target]
    ensures Cover(g, comm') && TotTable(g, comm', tot')
    ensures Deg(g.edges, i) == 0.0 ==> target == comm[i]
    ensures target == comm[i] || exists n :: n in comm && comm[n] == target
    ensures target != comm[i] ==> Gain(g, comm - {i}, i, target) > 0.0 && Admissible(g, comm - {i}, i, target, constrained)
    ensures !constrained && NonNegative(g) ==> Modularity(g, comm') >= Modularity(g, comm)
    ensures !constrained && target == comm[i] ==> NoGainingMove(g, comm, i)
  {
    var own := comm[i];
    var ki := k[i];
    assert ki == Deg(g.edges, i);
    if ki == 0.0 {
      Relabel(g, comm, i, own, comm);
      return comm, tot, own;
    }
    var cands := NeighbourCommunities(g, comm, i);
    var R := comm - {i};
    var totR := tot[own := TotOf(tot, own) - ki];
    TotAfterRemoval(g, comm, tot, i, ki, R, totR);
    var bestGain;
    target, bestGain := ChooseCommunity(g, i, R, cands, m, k, totR, own, constrained);
    comm' := R[i := target];
    tot' := totR[target := TotOf(totR, target) + ki];
    TotAfterInsertion(g, R, totR, i, target, ki, comm', tot');
    Relabel(g, comm, i, target, comm');
    MoveOutcome(g, comm, i, cands, constrained, target, bestGain, comm');
  }

  /* ------------------------------ local moving ------------------------------ */

  /**
   * `localMovingPhase`: passes over the nodes in a freshly shuffled order,
   * each node moved by `MoveNode`, until a pass moves nothing or
   * `maxIterations` passes are done. `passes` counts the passes and
   * `converged` says the last one moved nothing.
   */
  method LocalMovingPhase(g: WGraph, init: map<string, string>, seed: int, maxIterations: int)
    returns (comm: map<string, string>, ghost passes: nat, ghost converged: bool, ghost orders: seq<seq<string>>)
    requires ValidGraph(g) && Cover(g, init)
    ensures Cover(g, comm)
    ensures |g.nodes| == 0 ==> comm == init
    ensures comm.Values <= init.Values
    ensures forall n :: n in g.nodes && Deg(g.edges, n) == 0.0 ==> comm[n] == init[n]
    ensures NonNegative(g) ==> Modularity(g, comm) >= Modularity(g, init)
    ensures passes == 0 || passes <= maxIterations
    ensures |g.nodes| != 0 && !converged ==> passes >= maxIterations
    ensures converged ==> forall n :: n in g.nodes ==> NoGainingMove(g, comm, n)
    ensures orders == PassOrders(g.nodes, ToUint32(seed), passes).0
  {
    if |g.nodes| == 0 {
      return init, 0, true, [];
    }
    comm := init;
    var m, k := ComputeGraphBase(g);
    var tot := ComputeTotByCommunity(g, comm, k);
    var rng := new Rng(seed);
    var improved := true;
    var iter := 0;
    orders := [];
    while improved && iter < maxIterations
      invariant Cover(g, comm) && TotTable(g, comm, tot)
      invariant comm.Values <= init.Values
      invariant forall n :: n in g.nodes && Deg(g.edges, n) == 0.0 ==> comm[n] == init[n]
      invariant NonNegative(g) ==> Modularity(g, comm) >= Modularity(g, init)
      invariant 0 <= iter && (iter == 0 || iter <= maxIterations)
      invariant !improved ==> forall n :: n in g.nodes ==> NoGainingMove(g, comm, n)
      invariant (orders, rng.x) == PassOrders(g.nodes, ToUint32(seed), iter)
      decreases maxIterations - iter
    {
      ghost var before := PassOrders(g.nodes, ToUint32(seed), iter);
      iter := iter + 1;
      improved := false;
      var order := PassOrder(g.nodes, rng);
      orders := orders + [order[..]];
      assert (orders, rng.x) == PassOrders(g.nodes, ToUint32(seed), iter);
      comm, tot, improved := MovingPass(g, order, m, k, comm, tot);
    }
    converged := !improved;
    passes := iter;
  }

  /** `nodes.slice()` shuffled by `shuffleInPlace`: the order of one pass. */
  method PassOrder(ns: seq<string>, rng: Rng) returns (order: array<string>)
    modifies rng
    ensures fresh(order)
    ensures (order[..], rng.x) == Shuffled(ns, old(rng.x))
    ensures multiset(order[..]) == multiset(ns)
  {
    order := new string[|ns|](j requires 0 <= j < |ns| => ns[j]);
    assert order[..] == ns;
    ShuffleInPlace(order, rng);
  }

  /**
   * One pass of local moving (`for (const i of order)`). A pass that moves no
   * node returns its input, and then no node has a move that gains.
   */
  method MovingPass(g: WGraph, order: array<string>, m: real, k: map<string, real>,
                    comm0: map<string, string>, tot0: map<string, real>)
    returns (comm: map<string, string>, tot: map<string, real>, improved: bool)
    requires ValidGraph(g) && Cover(g, comm0)
    requires m == TotalWeight(g.edges) && DegreeTable(g, k) && TotTable(g, comm0, tot0)
    requires multiset(order[..]) == multiset(g.nodes)
    ensures Cover(g, comm) && TotTable(g, comm, tot)
    ensures comm.Values <= comm0.Values
    ensures forall n :: n in g.nodes && Deg(g.edges, n) == 0.0 ==> comm[n] == comm0[n]
    ensures NonNegative(g) ==> Modularity(g, comm) >= Modularity(g, comm0)
    ensures !improved ==> comm == comm0 && forall n :: n in g.nodes ==> NoGainingMove(g, comm, n)
  {
    comm, tot, improved := comm0, tot0, false;
    var idx := 0;
    while idx < order.Length
      invariant 0 <= idx <= order.Length
      invariant Cover(g, comm) && TotTable(g, comm, tot)
      invariant comm.Values <= comm0.Values
      invariant forall n :: n in g.nodes && Deg(g.edges, n) == 0.0 ==> comm[n] == comm0[n]
      invariant NonNegative(g) ==> Modularity(g, comm) >= Modularity(g, comm0)
      invariant !improved ==> comm == comm0 && forall q :: 0 <= q < idx ==> NoGainingMove(g, comm, order[q])
    {
      var i := order[idx];
      assert i in multiset(order[..]);
      var own := comm[i];
      var comm', tot', target := MoveNode(g, comm, tot, m, k, i, false);
      RelabelValues(comm, i, target);
      if target != own {
        improved := true;
      } else {
        SameLabel(comm, i);
        if !improved {
          forall q | 0 <= q <= idx
            ensures NoGainingMove(g, comm', order[q])
          {
            if q == idx {
              assert order[q] == i;
            }
          }
        }
      }
      comm, tot := comm', tot';
      idx := idx + 1;
    }
    if !improved {
      forall n | n in g.nodes
        ensures NoGainingMove(g, comm, n)
      {
        assert n in multiset(order[..]);
        var q :| 0 <= q < order.Length && order[q] == n;
      }
    }
  }

  /** Relabelling a node with its own or another node's label adds no label. */
  lemma RelabelValues(comm: map<string, string>, i: string, x: string)
    requires i in comm && (x == comm[i] || exists n :: n in comm && comm[n] == x)
    ensures comm[i := x].Values <= comm.Values
  {
    var B := comm[i := x];
    forall c | c in B.Values
      ensures c in comm.Values
    {
      var n :| n in B && B[n] == c;
      if n != i {
        assert comm[n] == c;
      }
    }
  }

  /* ------------------------------ refinement ------------------------------ */

  /**
   * `refinementPhase`: with no edge weight the input comes back; otherwise
   * every community is cut into its connected pieces (`split`), then one
   * constrained pass in node order lets each node join a neighbour label
   * that gains and stays connected with it.
   */
  method RefinementPhase(g: WGraph, comm0: map<string, string>)
    returns (comm: map<string, string>, ghost split: map<string, string>, ghost steps: seq<map<string, string>>)
    requires ValidGraph(g) && Cover(g, comm0)
    ensures TotalWeight(g.edges) == 0.0 ==> comm == comm0
    ensures Cover(g, comm)
    ensures TotalWeight(g.edges) != 0.0 ==> SplitOf(g, comm0, split)
    ensures TotalWeight(g.edges) != 0.0 ==> comm.Values <= split.Values
    ensures TotalWeight(g.edges) != 0.0 ==> forall n :: n in g.nodes && Deg(g.edges, n) == 0.0 ==> comm[n] == split[n]
    ensures TotalWeight(g.edges) != 0.0 ==> RefineTrace(g, split, comm, steps)
  {
    var m, k := ComputeGraphBase(g);
    if m == 0.0 {
      return comm0, comm0, [comm0];
    }
    var pieces, parts := SplitDisconnected(g, comm0);
    split := pieces;
    var tot := ComputeTotByCommunity(g, pieces, k);
    comm, tot, steps := MergePass(g, m, k, pieces, tot);
  }

  /** Steps 1–3: group the nodes by label and give each connected piece of a split community its own label. */
  method SplitDisconnected(g: WGraph, comm0: map<string, string>)
    returns (comm: map<string, string>, ghost parts: map<string, seq<seq<string>>>)
    requires ValidGraph(g) && Cover(g, comm0)
    ensures SplitOf(g, comm0, comm)
    ensures CutBy(g, comm0, comm, parts)
  {
    var L := LabelOrder(g, comm0);
    comm, parts := CutAll(g, comm0, L);
    SplitDone(g, comm0, comm, parts, L);
  }

  /** Cuts the communities in the order of `L`, one after the other. */
  method CutAll(g: WGraph, comm0: map<string, string>, L: seq<string>)
    returns (comm: map<string, string>, ghost parts: map<string, seq<seq<string>>>)
    requires ValidGraph(g) && Cover(g, comm0) && Distinct(L)
    ensures SplitState(g, comm0, comm, parts, L)
  {
    comm := comm0;
    parts := map[];
    var t := 0;
    while t < |L|
      invariant t <= |L| && SplitState(g, comm0, comm, parts, L[..t])
    {
      var c := L[t];
      assert c !in L[..t];
      comm, parts := CutNext(g, comm0, comm, parts, L[..t], c);
      TakeSnoc(L, t);
      t := t + 1;
    }
    assert L[..t] == L;
  }

  /** Once every label is cut, `comm` is a split of `comm0` and `parts` records how. */
  lemma SplitDone(g: WGraph, comm0: map<string, string>, comm: map<string, string>,
                  parts: map<string, seq<seq<string>>>, L: seq<string>)
    requires Cover(g, comm0) && SplitState(g, comm0, comm, parts, L)
    requires forall n :: n in g.nodes ==> comm0[n] in L
    ensures SplitOf(g, comm0, comm) && CutBy(g, comm0, comm, parts)
  {
    SplitSoFarDone(g, comm0, comm, L);
    AllLabelledDone(g, comm0, comm, parts, L);
  }

  /** One round of `SplitDisconnected`: cut community `c` and record its pieces. */
  method CutNext(g: WGraph, comm0: map<string, string>, comm: map<string, string>,
                 ghost parts: map<string, seq<seq<string>>>, ghost done: seq<string>, c: string)
    returns (comm': map<string, string>, ghost parts': map<string, seq<seq<string>>>)
    requires ValidGraph(g) && Cover(g, comm0) && SplitState(g, comm0, comm, parts, done) && c !in done
    ensures SplitState(g, comm0, comm', parts', done + [c])
  {
    ghost var pieces;
    comm', pieces := SplitCommunity(g, comm0, comm, c);
    SplitStateStep(g, comm0, comm, comm', parts, done, c, pieces);
    parts' := parts[c := pieces];
  }

  /** The loop state of `SplitDisconnected` once the labels in `done` are cut. */
  ghost predicate SplitState(g: WGraph, comm0: map<string, string>, comm: map<string, string>,
                             parts: map<string, seq<seq<string>>>, done: seq<string>)
    requires Cover(g, comm0)
  {
    Cover(g, comm) && SplitSoFar(g, comm0, comm, done) && AllLabelled(g, comm0, comm, parts, done)
  }

  /** Cutting label `c` as `SplitCommunity` promises extends the loop state by `c`. */
  lemma SplitStateStep(g: WGraph, comm0: map<string, string>, comm: map<string, string>, comm': map<string, string>,
                       parts: map<string, seq<seq<string>>>, done: seq<string>, c: string, pieces: seq<seq<string>>)
    requires Cover(g, comm0) && SplitState(g, comm0, comm, parts, done) && c !in done
    requires Cover(g, comm') && PiecesLabelled(g, comm0, comm', c, pieces)
    requires forall n :: n in g.nodes && comm0[n] != c ==> comm'[n] == comm[n]
    requires forall n :: n in g.nodes && comm0[n] == c ==> comm'[n] == c || IsPieceOf(comm'[n], c)
    requires forall a, b :: a in g.nodes && b in g.nodes && comm0[a] == c && comm0[b] == c ==>
               (comm'[a] == comm'[b] <==> Reach(g, Class(g, comm0, c), a, b))
    ensures SplitState(g, comm0, comm', parts[c := pieces], done + [c])
  {
    SplitSoFarStep(g, comm0, comm, comm', done, c);
    AllLabelledStep(g, comm0, comm, comm', parts, done, c, pieces);
  }

  /** Every community of `comm0` is cut as `PiecesLabelled` says, with its pieces in `parts`. */
  ghost predicate CutBy(g: WGraph, comm0: map<string, string>, comm: map<string, string>,
                        parts: map<string, seq<seq<string>>>)
    requires Cover(g, comm0) && Cover(g, comm)
  {
    forall n :: n in g.nodes ==> comm0[n] in parts && PiecesLabelled(g, comm0, comm, comm0[n], parts[comm0[n]])
  }

  lemma AllLabelledDone(g: WGraph, comm0: map<string, string>, comm: map<string, string>,
                        parts: map<string, seq<seq<string>>>, L: seq<string>)
    requires Cover(g, comm0) && Cover(g, comm) && AllLabelled(g, comm0, comm, parts, L)
    requires forall n :: n in g.nodes ==> comm0[n] in L
    ensures CutBy(g, comm0, comm, parts)
  {
  }

  /** Every label in `done` has its pieces in `parts`, labelled as `PiecesLabelled` says. */
  ghost predicate AllLabelled(g: WGraph, comm0: map<string, string>, comm: map<string, string>,
                              parts: map<string, seq<seq<string>>>, done: seq<string>)
    requires Cover(g, comm0) && Cover(g, comm)
  {
    forall d :: d in done ==> d in parts && PiecesLabelled(g, comm0, comm, d, parts[d])
  }

  /** Cutting one more community `c` keeps the earlier ones as they were cut. */
  lemma AllLabelledStep(g: WGraph, comm0: map<string, string>, comm: map<string, string>, comm': map<string, string>,
                        parts: map<string, seq<seq<string>>>, done: seq<string>, c: string, pieces: seq<seq<string>>)
    requires Cover(g, comm0) && Cover(g, comm) && Cover(g, comm')
    requires AllLabelled(g, comm0, comm, parts, done)
    requires PiecesLabelled(g, comm0, comm', c, pieces)
    requires forall n :: n in g.nodes && comm0[n] != c ==> comm'[n] == comm[n]
    ensures AllLabelled(g, comm0, comm', parts[c := pieces], done + [c])
  {
    forall d | d in done + [c]
      ensures d in parts[c := pieces] && PiecesLabelled(g, comm0, comm', d, parts[c := pieces][d])
    {
      if d != c {
        assert d in done;
        PiecesLabelledFrame(g, comm0, comm, comm', d, parts[d]);
      }
    }
  }

  /**
   * How community `c` is cut: `ps` are the connected pieces of its members,
   * in `connectedComponents` order. With two or more pieces a member of piece
   * `idx` is labelled `${c}~${idx}`; otherwise every member keeps `c`.
   */
  ghost predicate PiecesLabelled(g: WGraph, comm0: map<string, string>, comm: map<string, string>,
                                 c: string, ps: seq<seq<string>>)
    requires Cover(g, comm0) && Cover(g, comm)
  {
    var ns := Members(g.nodes, comm0, c);
    IsComponents(g, ns, ps) && InNodeOrder(ns, ps)
    && (|ps| >= 2 ==> forall idx, x :: 0 <= idx < |ps| && x in ps[idx] ==> comm[x] == SplitLabel(c, idx))
    && (|ps| <= 1 ==> forall x :: x in ns ==> comm[x] == c)
  }

  /**
   * The labels of a cut community are fixed: any two labellings that cut `c`
   * as `PiecesLabelled` says agree on every member of `c`.
   */
  lemma PieceLabelsFixed(g: WGraph, comm0: map<string, string>, comm1: map<string, string>, comm2: map<string, string>,
                         c: string, ps1: seq<seq<string>>, ps2: seq<seq<string>>)
    requires Cover(g, comm0) && Cover(g, comm1) && Cover(g, comm2)
    requires PiecesLabelled(g, comm0, comm1, c, ps1) && PiecesLabelled(g, comm0, comm2, c, ps2)
    ensures forall x :: x in g.nodes && comm0[x] == c ==> comm1[x] == comm2[x]
  {
    var ns := Members(g.nodes, comm0, c);
    ComponentsUnique(g, ns, ps1, ps2);
    forall x | x in g.nodes && comm0[x] == c
      ensures comm1[x] == comm2[x]
    {
      InSomePiece(g, ns, ps1, x);
      var idx :| 0 <= idx < |ps1| && x in ps1[idx];
      LabelOfPiece(g, comm0, comm1, c, ps1, idx, x);
      LabelOfPiece(g, comm0, comm2, c, ps2, idx, x);
    }
  }

  /** The label `PiecesLabelled` gives a member of piece `idx`. */
  lemma LabelOfPiece(g: WGraph, comm0: map<string, string>, comm: map<string, string>,
                     c: string, ps: seq<seq<string>>, idx: nat, x: string)
    requires Cover(g, comm0) && Cover(g, comm) && PiecesLabelled(g, comm0, comm, c, ps)
    requires idx < |ps| && x in ps[idx]
    ensures x in comm && comm[x] == if |ps| >= 2 then SplitLabel(c, idx) else c
  {
    var ns := Members(g.nodes, comm0, c);
    var S := set z | z in ns;
    assert PartialComponents(g, ns, ps, S);
    assert x in S;
  }

  /**
   * `split` has one outcome: two labellings that both meet the contract of
   * `SplitDisconnected` for the same `comm0` are equal.
   */
  lemma SplitFixed(g: WGraph, comm0: map<string, string>, comm1: map<string, string>, comm2: map<string, string>,
                   parts1: map<string, seq<seq<string>>>, parts2: map<string, seq<seq<string>>>)
    requires Cover(g, comm0) && Cover(g, comm1) && Cover(g, comm2)
    requires CutBy(g, comm0, comm1, parts1) && CutBy(g, comm0, comm2, parts2)
    ensures comm1 == comm2
  {
    SplitAgree(g, comm0, comm1, comm2, parts1, parts2);
    SameOnNodes(g, comm1, comm2);
  }

  /** Two labellings of the nodes of `g` that agree on every node are equal. */
  lemma SameOnNodes(g: WGraph, comm1: map<string, string>, comm2: map<string, string>)
    requires Cover(g, comm1) && Cover(g, comm2)
    requires forall n :: n in g.nodes ==> comm1[n] == comm2[n]
    ensures comm1 == comm2
  {
    assert comm1.Keys == comm2.Keys;
  }

  lemma SplitAgree(g: WGraph, comm0: map<string, string>, comm1: map<string, string>, comm2: map<string, string>,
                   parts1: map<string, seq<seq<string>>>, parts2: map<string, seq<seq<string>>>)
    requires Cover(g, comm0) && Cover(g, comm1) && Cover(g, comm2)
    requires CutBy(g, comm0, comm1, parts1) && CutBy(g, comm0, comm2, parts2)
    ensures forall n :: n in g.nodes ==> comm1[n] == comm2[n]
  {
    forall n | n in g.nodes
      ensures comm1[n] == comm2[n]
    {
      var c := comm0[n];
      PieceLabelsFixed(g, comm0, comm1, comm2, c, parts1[c], parts2[c]);
    }
  }

  /** The labels of other communities' members do not affect how `c` is cut. */
  lemma PiecesLabelledFrame(g: WGraph, comm0: map<string, string>, comm: map<string, string>,
                            comm': map<string, string>, c: string, ps: seq<seq<string>>)
    requires Cover(g, comm0) && Cover(g, comm) && Cover(g, comm')
    requires PiecesLabelled(g, comm0, comm, c, ps)
    requires forall n :: n in g.nodes && comm0[n] == c ==> comm'[n] == comm[n]
    ensures PiecesLabelled(g, comm0, comm', c, ps)
  {
  }

  /** The labels in `done` have been split, the others are untouched. */
  ghost predicate SplitSoFar(g: WGraph, comm0: map<string, string>, comm: map<string, string>, done: seq<string>)
    requires Cover(g, comm0) && Cover(g, comm)
  {
    && (forall n :: n in g.nodes ==> comm[n] == comm0[n] || IsPieceOf(comm[n], comm0[n]))
    && (forall n :: n in g.nodes && comm0[n] !in done ==> comm[n] == comm0[n])
    && (forall a, b :: a in g.nodes && b in g.nodes && comm0[a] == comm0[b] && comm0[a] in done ==>
          (comm[a] == comm[b] <==> Reach(g, Class(g, comm0, comm0[a]), a, b)))
  }

  /** Splitting one more label `c` extends the split prefix by `c`. */
  lemma SplitSoFarStep(g: WGraph, comm0: map<string, string>, comm: map<string, string>,
                       comm': map<string, string>, done: seq<string>, c: string)
    requires Cover(g, comm0) && Cover(g, comm) && Cover(g, comm')
    requires SplitSoFar(g, comm0, comm, done) && c !in done
    requires forall n :: n in g.nodes && comm0[n] != c ==> comm'[n] == comm[n]
    requires forall n :: n in g.nodes && comm0[n] == c ==> comm'[n] == c || IsPieceOf(comm'[n], c)
    requires forall a, b :: a in g.nodes && b in g.nodes && comm0[a] == c && comm0[b] == c ==>
               (comm'[a] == comm'[b] <==> Reach(g, Class(g, comm0, c), a, b))
    ensures SplitSoFar(g, comm0, comm', done + [c])
  {
    forall n | n in g.nodes && comm0[n] !in done + [c]
      ensures comm'[n] == comm0[n]
    {
      assert comm0[n] !in done;
    }
    forall a, b | a in g.nodes && b in g.nodes && comm0[a] == comm0[b] && comm0[a] in done + [c]
      ensures comm'[a] == comm'[b] <==> Reach(g, Class(g, comm0, comm0[a]), a, b)
    {
      if comm0[a] != c {
        assert comm0[a] in done;
      }
    }
  }

  /** Once every label of `comm0` is split, the result is a split of `comm0`. */
  lemma SplitSoFarDone(g: WGraph, comm0: map<string, string>, comm: map<string, string>, L: seq<string>)
    requires Cover(g, comm0) && Cover(g, comm) && SplitSoFar(g, comm0, comm, L)
    requires forall n :: n in g.nodes ==> comm0[n] in L
    ensures SplitOf(g, comm0, comm)
  {
  }

  /**
   * One community `c`: with at most one member or one component nothing
   * changes; otherwise piece `idx` of `connectedComponents` is labelled
   * `${c}~${idx}`. Only members of `c` change.
   */
  method SplitCommunity(g: WGraph, comm0: map<string, string>, comm: map<string, string>, c: string)
    returns (comm': map<string, string>, ghost pieces: seq<seq<string>>)
    requires ValidGraph(g) && Cover(g, comm0) && Cover(g, comm)
    requires forall n :: n in g.nodes && comm0[n] == c ==> comm[n] == c
    ensures Cover(g, comm')
    ensures PiecesLabelled(g, comm0, comm', c, pieces)
    ensures forall n :: n in g.nodes && comm0[n] != c ==> comm'[n] == comm[n]
    ensures forall n :: n in g.nodes && comm0[n] == c ==> comm'[n] == c || IsPieceOf(comm'[n], c)
    ensures forall a, b :: a in g.nodes && b in g.nodes && comm0[a] == c && comm0[b] == c ==>
              (comm'[a] == comm'[b] <==> Reach(g, Class(g, comm0, c), a, b))
  {
    var ns := CommunityMembers(g, comm0, c);
    ghost var S := Class(g, comm0, c);
    assert S == set x | x in ns;
    if |ns| <= 1 {
      forall a, b | a in g.nodes && b in g.nodes && comm0[a] == c && comm0[b] == c
        ensures Reach(g, S, a, b)
      {
        AtMostOne(ns, a, b);
        ReachRefl(g, S, a);
      }
      SmallComponents(g, ns);
      return comm, if ns == [] then [] else [ns];
    }
    MembersDistinct(g.nodes, comm0, c);
    var comps := Components(g, ns);
    if |comps| <= 1 {
      OneComponentIffConnected(g, ns, comps);
      return comm, comps;
    }
    comm' := LabelPieces(g, comm0, comm, c, ns, comps);
    pieces := comps;
  }

  lemma AtMostOne(ns: seq<string>, a: string, b: string)
    requires |ns| <= 1 && a in ns && b in ns
    ensures a == b
  {
  }

  /** The split case of `SplitCommunity`: every piece gets its own label. */
  method LabelPieces(g: WGraph, comm0: map<string, string>, comm: map<string, string>, c: string,
                     ns: seq<string>, comps: seq<seq<string>>)
    returns (comm': map<string, string>)
    requires Cover(g, comm0) && Cover(g, comm)
    requires ns == Members(g.nodes, comm0, c) && IsComponents(g, ns, comps)
    ensures Cover(g, comm')
    ensures forall n :: n in g.nodes && comm0[n] != c ==> comm'[n] == comm[n]
    ensures forall n :: n in g.nodes && comm0[n] == c ==> IsPieceOf(comm'[n], c)
    ensures forall a, b :: a in g.nodes && b in g.nodes && comm0[a] == c && comm0[b] == c ==>
              (comm'[a] == comm'[b] <==> Reach(g, Class(g, comm0, c), a, b))
    ensures forall idx, x :: 0 <= idx < |comps| && x in comps[idx] ==> comm'[x] == SplitLabel(c, idx)
  {
    ghost var S := Class(g, comm0, c);
    assert S == set x | x in ns;
    comm' := AssignPieces(comm, c, comps);
    forall n | n in g.nodes && comm0[n] == c
      ensures exists idx :: 0 <= idx < |comps| && n in comps[idx]
    {
      assert n in S;
    }
    forall a, b | a in g.nodes && b in g.nodes && comm0[a] == c && comm0[b] == c
      ensures comm'[a] == comm'[b] <==> Reach(g, S, a, b)
    {
      var ia :| 0 <= ia < |comps| && a in comps[ia];
      var ib :| 0 <= ib < |comps| && b in comps[ib];
      PiecePair(g, ns, comps, c, a, b, ia, ib);
    }
    forall n | n in g.nodes && comm0[n] == c
      ensures IsPieceOf(comm'[n], c)
    {
      var idx :| 0 <= idx < |comps| && n in comps[idx];
      SplitLabelShape(c, idx);
    }
  }

  /** Two members of a split community get one label exactly when they are connected in it. */
  lemma PiecePair(g: WGraph, ns: seq<string>, comps: seq<seq<string>>, c: string,
                  a: string, b: string, ia: nat, ib: nat)
    requires IsComponents(g, ns, comps)
    requires ia < |comps| && a in comps[ia] && ib < |comps| && b in comps[ib]
    ensures SplitLabel(c, ia) == SplitLabel(c, ib) <==> Reach(g, (set x | x in ns), a, b)
  {
    if SplitLabel(c, ia) == SplitLabel(c, ib) {
      SplitLabelInjective(c, ia, c, ib);
    }
    if Reach(g, (set x | x in ns), a, b) {
      assert b in comps[ia];
    }
  }

  /** `comps.forEach((comp, idx) => comp.forEach(n => communities[n] = newC))` */
  method AssignPieces(comm: map<string, string>, c: string, comps: seq<seq<string>>)
    returns (comm': map<string, string>)
    requires forall i, x :: 0 <= i < |comps| && x in comps[i] ==> x in comm
    requires forall i, j, x :: 0 <= i < j < |comps| && x in comps[i] ==> x !in comps[j]
    ensures comm'.Keys == comm.Keys
    ensures forall i, x :: 0 <= i < |comps| && x in comps[i] ==> comm'[x] == SplitLabel(c, i)
    ensures forall x :: x in comm && (forall i :: 0 <= i < |comps| ==> x !in comps[i]) ==> comm'[x] == comm[x]
  {
    comm' := comm;
    var idx := 0;
    while idx < |comps|
      invariant 0 <= idx <= |comps|
      invariant comm'.Keys == comm.Keys
      invariant forall i, x :: 0 <= i < idx && x in comps[i] ==> comm'[x] == SplitLabel(c, i)
      invariant forall x :: x in comm && (forall i :: 0 <= i < idx ==> x !in comps[i]) ==> comm'[x] == comm[x]
    {
      comm' := AssignLabel(comm', comps[idx], SplitLabel(c, idx));
      idx := idx + 1;
    }
  }

  /** `comp.forEach(n => communities[n] = newC)` */
  method AssignLabel(comm: map<string, string>, piece: seq<string>, newC: string) returns (comm': map<string, string>)
    requires forall x :: x in piece ==> x in comm
    ensures comm'.Keys == comm.Keys
    ensures forall x :: x in piece ==> comm'[x] == newC
    ensures forall x :: x in comm && x !in piece ==> comm'[x] == comm[x]
  {
    comm' := comm;
    var q := 0;
    while q < |piece|
      invariant 0 <= q <= |piece|
      invariant comm'.Keys == comm.Keys
      invariant forall x :: x in piece[..q] ==> comm'[x] == newC
      invariant forall x :: x in comm && x !in piece[..q] ==> comm'[x] == comm[x]
    {
      assert forall x :: x in piece[..q + 1] <==> x in piece[..q] || x == piece[q];
      comm' := comm'[piece[q] := newC];
      q := q + 1;
    }
    assert piece[..q] == piece;
  }

  /**
   * One node of the constrained pass: `after` relabels `i` only, and a new
   * label gains modularity and keeps its community connected with `i`.
   */
  ghost predicate RefineStep(g: WGraph, before: map<string, string>, i: string, after: map<string, string>) {
    && i in before && i in after && after == before[i := after[i]]
    && (after[i] == before[i]
        || (Gain(g, before - {i}, i, after[i]) > 0.0 && ConnectedAfterMerge(g, before - {i}, after[i], i)))
  }

  /** `steps` are the labellings of the pass, one per node in graph order, from `split` to `comm`. */
  ghost predicate RefineTrace(g: WGraph, split: map<string, string>, comm: map<string, string>,
                              steps: seq<map<string, string>>) {
    && |steps| == |g.nodes| + 1 && steps[0] == split && steps[|g.nodes|] == comm
    && forall p :: 0 <= p < |g.nodes| ==> RefineStep(g, steps[p], g.nodes[p], steps[p + 1])
  }

  /** Step 4: one constrained moving pass over the nodes in graph order. */
  method MergePass(g: WGraph, m: real, k: map<string, real>, comm0: map<string, string>, tot0: map<string, real>)
    returns (comm: map<string, string>, tot: map<string, real>, ghost steps: seq<map<string, string>>)
    requires ValidGraph(g) && Cover(g, comm0)
    requires m == TotalWeight(g.edges) && DegreeTable(g, k) && TotTable(g, comm0, tot0)
    ensures Cover(g, comm) && TotTable(g, comm, tot)
    ensures comm.Values <= comm0.Values
    ensures forall n :: n in g.nodes && Deg(g.edges, n) == 0.0 ==> comm[n] == comm0[n]
    ensures RefineTrace(g, comm0, comm, steps)
  {
    comm, tot := comm0, tot0;
    steps := [comm0];
    var p := 0;
    while p < |g.nodes|
      invariant 0 <= p <= |g.nodes|
      invariant Cover(g, comm) && TotTable(g, comm, tot)
      invariant comm.Values <= comm0.Values
      invariant forall n :: n in g.nodes && Deg(g.edges, n) == 0.0 ==> comm[n] == comm0[n]
      invariant |steps| == p + 1 && steps[0] == comm0 && steps[p] == comm
      invariant forall q :: 0 <= q < p ==> RefineStep(g, steps[q], g.nodes[q], steps[q + 1])
    {
      var i := g.nodes[p];
      var comm', tot', target := MoveNode(g, comm, tot, m, k, i, true);
      RelabelValues(comm, i, target);
      StepsSnoc(g, steps, p, comm');
      steps := steps + [comm'];
      comm, tot := comm', tot';
      p := p + 1;
    }
  }

  /** A trace of `p` steps extended by the labelling after node `p`. */
  lemma StepsSnoc(g: WGraph, steps: seq<map<string, string>>, p: nat, next: map<string, string>)
    requires p < |g.nodes| && |steps| == p + 1
    requires forall q :: 0 <= q < p ==> RefineStep(g, steps[q], g.nodes[q], steps[q + 1])
    requires RefineStep(g, steps[p], g.nodes[p], next)
    ensures forall q :: 0 <= q < p + 1 ==> RefineStep(g, (steps + [next])[q], g.nodes[q], (steps + [next])[q + 1])
  {
    var t := steps + [next];
    forall q | 0 <= q < p + 1
      ensures RefineStep(g, t[q], g.nodes[q], t[q + 1])
    {
      assert t[q] == steps[q];
      if q < p {
        assert t[q + 1] == steps[q + 1];
      }
    }
  }

  /* ------------------------------ the candidate's choice ------------------------------ */

  /** What the candidate loop's choice means for the moved node. */
  lemma MoveOutcome(g: WGraph, comm: map<string, string>, i: string, cands: seq<string>, constrained: bool,
                    target: string, bestGain: real, comm': map<string, string>)
    requires ValidGraph(g) && Cover(g, comm) && i in g.nodes
    requires cands == Dedup(NeighbourLabels(g.edges, comm, i))
    requires forall c :: c in cands ==> exists n :: n in comm && comm[n] == c
    requires BestChoice(g, comm - {i}, i, cands, comm[i], constrained, target, bestGain)
    requires comm' == comm[i := target]
    ensures target == comm[i] || exists n :: n in comm && comm[n] == target
    ensures target != comm[i] ==> Gain(g, comm - {i}, i, target) > 0.0 && Admissible(g, comm - {i}, i, target, constrained)
    ensures !constrained && NonNegative(g) ==> Modularity(g, comm') >= Modularity(g, comm)
    ensures !constrained && target == comm[i] ==> NoGainingMove(g, comm, i)
  {
    if !constrained && NonNegative(g) {
      MoveNeverLowers(g, comm, i, cands, target, bestGain);
    }
    if !constrained && target == comm[i] {
      KeptIsStable(g, comm, i, cands, bestGain);
    }
  }

  /** Relabelling one node of a covering map: the map is still covering, and unlabel-then-label is a relabel. */
  lemma Relabel(g: WGraph, comm: map<string, string>, i: string, x: string, comm': map<string, string>)
    requires Cover(g, comm) && i in g.nodes
    requires comm' == (comm - {i})[i := x] || (x == comm[i] && comm' == comm)
    ensures comm' == comm[i := x] && Cover(g, comm')
  {
  }

  /** The candidate loop's guarantees when it keeps `i` in its own community. */
  lemma KeptIsStable(g: WGraph, comm: map<string, string>, i: string, cands: seq<string>, bestGain: real)
    requires i in comm
    requires cands == Dedup(NeighbourLabels(g.edges, comm, i))
    requires bestGain >= 0.0
    requires bestGain > 0.0 ==> bestGain == Gain(g, comm - {i}, i, comm[i])
    requires forall c :: c in cands ==> Gain(g, comm - {i}, i, c) <= bestGain
    ensures NoGainingMove(g, comm, i)
  {
    forall c | c in NeighbourLabels(g.edges, comm, i)
      ensures Gain(g, comm - {i}, i, c) <= 0.0 || Gain(g, comm - {i}, i, c) <= Gain(g, comm - {i}, i, comm[i])
    {
      assert c in cands;
    }
  }

  /** Taking `i` out of its community lowers that community's degree sum by `i`'s degree. */
  lemma TotAfterRemoval(g: WGraph, comm: map<string, string>, tot: map<string, real>, i: string,
                        ki: real, R: map<string, string>, t': map<string, real>)
    requires Distinct(g.nodes) && i in g.nodes && i in comm && TotTable(g, comm, tot)
    requires ki == Deg(g.edges, i) && R == comm - {i} && t' == tot[comm[i] := TotOf(tot, comm[i]) - ki]
    ensures TotTable(g, R, t')
  {
    assert comm == R[i := comm[i]];
    forall c
      ensures TotOf(t', c) == CommDeg(g.nodes, g.edges, R, c)
    {
      CommDegMove(g.nodes, g.edges, R, i, comm[i], c);
    }
  }

  /** Putting the unlabelled `i` into `x` raises x's degree sum by `i`'s degree. */
  lemma TotAfterInsertion(g: WGraph, R: map<string, string>, tot: map<string, real>, i: string, x: string,
                          ki: real, R': map<string, string>, t': map<string, real>)
    requires Distinct(g.nodes) && i in g.nodes && i !in R && TotTable(g, R, tot)
    requires ki == Deg(g.edges, i) && R' == R[i := x] && t' == tot[x := TotOf(tot, x) + ki]
    ensures TotTable(g, R', t')
  {
    forall c
      ensures TotOf(t', c) == CommDeg(g.nodes, g.edges, R', c)
    {
      CommDegMove(g.nodes, g.edges, R, i, x, c);
    }
  }

  /** The modularity step of unconstrained moving, from the candidate loop's guarantees. */
  lemma MoveNeverLowers(g: WGraph, comm: map<string, string>, i: string, cands: seq<string>, target: string, bestGain: real)
    requires ValidGraph(g) && Cover(g, comm) && i in g.nodes && NonNegative(g)
    requires cands == Dedup(NeighbourLabels(g.edges, comm, i))
    requires forall c :: c in cands ==> exists n :: n in comm && comm[n] == c
    requires bestGain >= 0.0
    requires bestGain == 0.0 ==> target == comm[i]
    requires bestGain > 0.0 ==> target in cands && bestGain == Gain(g, comm - {i}, i, target)
    requires forall c :: c in cands ==> Gain(g, comm - {i}, i, c) <= bestGain
    ensures Cover(g, comm[i := target])
    ensures Modularity(g, comm[i := target]) >= Modularity(g, comm)
  {
    if bestGain == 0.0 {
      assert comm[i := target] == comm;
    } else {
      var n :| n in comm && comm[n] == target;
      assert target in Labels(g.nodes, comm);
      MoveDifference(g, comm, i, target);
      if comm[i] !in cands {
        OwnCommunityWithoutNeighbours(g, comm, i);
      }
    }
  }
}
