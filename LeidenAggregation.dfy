/**
 * `aggregationPhase` of `src/community/leiden.js`: one super-node per label,
 * a self-loop carrying each community's internal weight and one edge per pair
 * of communities carrying the weight that crosses between them. The edge
 * set is built with graphology's "add the edge, or add to the weight of the
 * edge already there" step, modelled by `AddOrAccumulate`.
 */
module LeidenAggregation {
  import opened Common
  import opened WeightedGraphs
  import opened LeidenSpec

  /** The `{ size, nodes }` attributes of a super-node. */
  datatype SuperNode = SuperNode(size: nat, nodes: seq<string>)

  /* ------------------------------ reference quantities ------------------------------ */

  /** Weight of the edges joining `a` and `b`; in a simple graph, the one edge's weight or 0. */
  function EdgeWeight(es: seq<WEdge>, a: string, b: string): real
    decreases |es|
  {
    if es == [] then 0.0
    else EdgeWeight(es[..|es| - 1], a, b) + (if Joins(es[|es| - 1], a, b) then W(es[|es| - 1]) else 0.0)
  }

  /** Both endpoints labelled alike. */
  predicate Internal(e: WEdge, comm: map<string, string>) {
    e.s in comm && e.t in comm && comm[e.s] == comm[e.t]
  }

  /** The endpoints carry the labels `a` and `b` (`a` ≠ `b`), in either order. */
  predicate Between(e: WEdge, comm: map<string, string>, a: string, b: string) {
    e.s in comm && e.t in comm && comm[e.s] != comm[e.t]
    && ((comm[e.s] == a && comm[e.t] == b) || (comm[e.s] == b && comm[e.t] == a))
  }

  /** The endpoints carry two different labels. */
  predicate Crossing(e: WEdge, comm: map<string, string>) {
    e.s in comm && e.t in comm && comm[e.s] != comm[e.t]
  }

  /** Weight of the edges between community `a` and community `b`. */
  function Cross(es: seq<WEdge>, comm: map<string, string>, a: string, b: string): real
    decreases |es|
  {
    if es == [] then 0.0
    else Cross(es[..|es| - 1], comm, a, b) + (if Between(es[|es| - 1], comm, a, b) then W(es[|es| - 1]) else 0.0)
  }

  /** Weight of all edges inside some community. */
  function IntraTotal(es: seq<WEdge>, comm: map<string, string>): real
    decreases |es|
  {
    if es == [] then 0.0
    else IntraTotal(es[..|es| - 1], comm) + (if Internal(es[|es| - 1], comm) then W(es[|es| - 1]) else 0.0)
  }

  /** Weight of all edges between two communities. */
  function CrossTotal(es: seq<WEdge>, comm: map<string, string>): real
    decreases |es|
  {
    if es == [] then 0.0
    else CrossTotal(es[..|es| - 1], comm) + (if Crossing(es[|es| - 1], comm) then W(es[|es| - 1]) else 0.0)
  }

  /** Every edge is internal or crossing, so the two totals make up the graph's weight. */
  lemma {:induction false} WeightSplit(es: seq<WEdge>, comm: map<string, string>)
    requires forall k :: 0 <= k < |es| ==> es[k].s in comm && es[k].t in comm
    ensures IntraTotal(es, comm) + CrossTotal(es, comm) == TotalWeight(es)
    decreases |es|
  {
    if es != [] {
      WeightSplit(es[..|es| - 1], comm);
    }
  }

  /** Sum of a table's values over a key sequence. */
  function SumOver<K(!new)>(keys: seq<K>, m: map<K, real>): real
    requires forall k :: k in keys ==> k in m
    decreases |keys|
  {
    if keys == [] then 0.0 else SumOver(keys[..|keys| - 1], m) + m[keys[|keys| - 1]]
  }

  /** Entering a new key adds its value to the sum. */
  lemma {:induction false} SumOverNew<K(!new)>(keys: seq<K>, m: map<K, real>, k: K, v: real)
    requires (forall x :: x in keys ==> x in m) && k !in keys
    ensures SumOver(keys + [k], m[k := v]) == SumOver(keys, m) + v
  {
    assert (keys + [k])[..|keys|] == keys;
    SumOverFrame(keys, m, m[k := v]);
  }

  /** Raising the value of a present key raises the sum by as much. */
  lemma {:induction false} SumOverRaise<K(!new)>(keys: seq<K>, m: map<K, real>, k: K, w: real)
    requires (forall x :: x in keys ==> x in m) && Distinct(keys) && k in keys
    ensures SumOver(keys, m[k := m[k] + w]) == SumOver(keys, m) + w
    decreases |keys|
  {
    var init := keys[..|keys| - 1];
    var last := keys[|keys| - 1];
    assert forall x :: x in init ==> x in keys;
    if last == k {
      assert k !in init;
      SumOverFrame(init, m, m[k := m[k] + w]);
    } else {
      assert k in init;
      assert Distinct(init);
      SumOverRaise(init, m, k, w);
    }
  }

  /** The sum reads only the keys listed. */
  lemma {:induction false} SumOverFrame<K(!new)>(keys: seq<K>, m: map<K, real>, m': map<K, real>)
    requires forall x :: x in keys ==> x in m && x in m' && m'[x] == m[x]
    ensures SumOver(keys, m') == SumOver(keys, m)
    decreases |keys|
  {
    if keys != [] {
      var init := keys[..|keys| - 1];
      assert forall x :: x in init ==> x in keys;
      SumOverFrame(init, m, m');
    }
  }

  /* ------------------------------ graphology's edge insertion ------------------------------ */

  /** Index of the edge joining `a` and `b`, if any (`agg.edge(a, b)`). */
  function FindEdge(es: seq<WEdge>, a: string, b: string): (r: Option<nat>)
    ensures r.None? ==> forall k :: 0 <= k < |es| ==> !Joins(es[k], a, b)
    ensures r.Some? ==> r.value < |es| && Joins(es[r.value], a, b)
    decreases |es|
  {
    if es == [] then None
    else if Joins(es[|es| - 1], a, b) then Some(|es| - 1)
    else FindEdge(es[..|es| - 1], a, b)
  }

  /**
   * `if (!agg.hasEdge(a, b)) agg.addEdge(a, b, { weight: w }) else` add `w`
   * to that edge's weight.
   */
  function AddOrAccumulate(es: seq<WEdge>, a: string, b: string, w: real): seq<WEdge> {
    match FindEdge(es, a, b)
    case None => es + [WEdge(a, b, Some(w))]
    case Some(k) => es[k := WEdge(es[k].s, es[k].t, Some(W(es[k]) + w))]
  }

  /**
   * Either branch keeps the graph simple, adds `w` to the total weight and to
   * the weight between `a` and `b`, and leaves every other pair alone.
   */
  lemma AddOrAccumulateLaws(es: seq<WEdge>, a: string, b: string, w: real, nodes: seq<string>)
    requires Simple(es) && EndpointsIn(es, nodes) && a in nodes && b in nodes
    ensures Simple(AddOrAccumulate(es, a, b, w))
    ensures EndpointsIn(AddOrAccumulate(es, a, b, w), nodes)
    ensures TotalWeight(AddOrAccumulate(es, a, b, w)) == TotalWeight(es) + w
    ensures forall x, y :: EdgeWeight(AddOrAccumulate(es, a, b, w), x, y)
              == EdgeWeight(es, x, y) + (if Joins(WEdge(a, b, None), x, y) then w else 0.0)
    ensures forall k :: 0 <= k < |AddOrAccumulate(es, a, b, w)| ==>
              (AddOrAccumulate(es, a, b, w)[k].w.Some? || (k < |es| && AddOrAccumulate(es, a, b, w)[k] == es[k]))
  {
    var r := AddOrAccumulate(es, a, b, w);
    match FindEdge(es, a, b)
    case None =>
      assert r == es + [WEdge(a, b, Some(w))];
      AppendEdgeLaws(es, a, b, w, nodes, r);
    case Some(k) =>
      assert r == es[k := WEdge(es[k].s, es[k].t, Some(W(es[k]) + w))];
      RaiseEdgeLaws(es, k, a, b, w, nodes, r);
  }

  /** `addEdge` of an edge not yet there. */
  lemma AppendEdgeLaws(es: seq<WEdge>, a: string, b: string, w: real, nodes: seq<string>, r: seq<WEdge>)
    requires Simple(es) && EndpointsIn(es, nodes) && a in nodes && b in nodes
    requires forall k :: 0 <= k < |es| ==> !Joins(es[k], a, b)
    requires r == es + [WEdge(a, b, Some(w))]
    ensures Simple(r) && EndpointsIn(r, nodes)
    ensures TotalWeight(r) == TotalWeight(es) + w
    ensures forall x, y :: EdgeWeight(r, x, y) == EdgeWeight(es, x, y) + (if Joins(WEdge(a, b, None), x, y) then w else 0.0)
    ensures forall k :: 0 <= k < |r| ==> (r[k].w.Some? || (k < |es| && r[k] == es[k]))
  {
    assert r[..|es|] == es;
    assert Simple(r) by {
      forall i, j | 0 <= i < j < |r|
        ensures !Joins(r[j], r[i].s, r[i].t)
      {
        if j < |es| {
          assert !Joins(es[j], es[i].s, es[i].t);
        } else {
          assert !Joins(es[i], a, b);
        }
      }
    }
    assert EndpointsIn(r, nodes) by {
      forall k | 0 <= k < |r|
        ensures r[k].s in nodes && r[k].t in nodes
      {
        if k < |es| {
          assert r[k] == es[k];
        }
      }
    }
  }

  /** Adding `w` to the weight of edge `k`, which joins `a` and `b`. */
  lemma RaiseEdgeLaws(es: seq<WEdge>, k: nat, a: string, b: string, w: real, nodes: seq<string>, r: seq<WEdge>)
    requires Simple(es) && EndpointsIn(es, nodes) && k < |es| && Joins(es[k], a, b)
    requires r == es[k := WEdge(es[k].s, es[k].t, Some(W(es[k]) + w))]
    ensures Simple(r) && EndpointsIn(r, nodes)
    ensures TotalWeight(r) == TotalWeight(es) + w
    ensures forall x, y :: EdgeWeight(r, x, y) == EdgeWeight(es, x, y) + (if Joins(WEdge(a, b, None), x, y) then w else 0.0)
    ensures forall j :: 0 <= j < |r| ==> (r[j].w.Some? || (j < |es| && r[j] == es[j]))
  {
    var e' := r[k];
    assert r == es[k := e'];
    assert Simple(r) && EndpointsIn(r, nodes) by {
      SameEndpoints(es, r, nodes);
    }
    assert TotalWeight(r) == TotalWeight(es) + w by {
      UpdateTotal(es, k, e');
    }
    forall x, y
      ensures EdgeWeight(r, x, y) == EdgeWeight(es, x, y) + (if Joins(WEdge(a, b, None), x, y) then w else 0.0)
    {
      UpdateEdgeWeight(es, k, e', x, y);
    }
  }

  /** Reweighting edges keeps the graph simple and its endpoints where they were. */
  lemma SameEndpoints(es: seq<WEdge>, r: seq<WEdge>, nodes: seq<string>)
    requires Simple(es) && EndpointsIn(es, nodes) && |r| == |es|
    requires forall j :: 0 <= j < |r| ==> r[j].s == es[j].s && r[j].t == es[j].t
    ensures Simple(r) && EndpointsIn(r, nodes)
  {
    forall i, j | 0 <= i < j < |r|
      ensures !Joins(r[j], r[i].s, r[i].t)
    {
      assert !Joins(es[j], es[i].s, es[i].t);
    }
  }

  /** Replacing edge `k` by one on the same endpoints changes the total by the weight difference. */
  lemma {:induction false} UpdateTotal(es: seq<WEdge>, k: nat, e': WEdge)
    requires k < |es|
    ensures TotalWeight(es[k := e']) == TotalWeight(es) - W(es[k]) + W(e')
    decreases |es|
  {
    var init := es[..|es| - 1];
    if k == |es| - 1 {
      assert es[k := e'][..|es| - 1] == init;
    } else {
      assert es[k := e'][..|es| - 1] == init[k := e'];
      UpdateTotal(init, k, e');
    }
  }

  /** The same for the weight between one pair of nodes. */
  lemma {:induction false} UpdateEdgeWeight(es: seq<WEdge>, k: nat, e': WEdge, x: string, y: string)
    requires k < |es| && e'.s == es[k].s && e'.t == es[k].t
    ensures EdgeWeight(es[k := e'], x, y)
      == EdgeWeight(es, x, y) + (if Joins(es[k], x, y) then W(e') - W(es[k]) else 0.0)
    decreases |es|
  {
    var init := es[..|es| - 1];
    if k == |es| - 1 {
      assert es[k := e'][..|es| - 1] == init;
    } else {
      assert es[k := e'][..|es| - 1] == init[k := e'];
      UpdateEdgeWeight(init, k, e', x, y);
    }
  }

  /* ------------------------------ the phase ------------------------------ */

  /**
   * `aggregationPhase(graph, communities)`: the super-nodes in order of first
   * appearance with their sizes and members, then the self-loops, then the
   * edges between communities.
   */
  method AggregationPhase(g: WGraph, comm: map<string, string>) returns (agg: WGraph, info: map<string, SuperNode>)
    requires ValidGraph(g) && Cover(g, comm)
    ensures ValidGraph(agg)
    ensures agg.nodes == Labels(g.nodes, comm)
    ensures forall c :: c in info <==> c in agg.nodes
    ensures forall c :: c in info ==> info[c].nodes == Members(g.nodes, comm, c) && info[c].size == |info[c].nodes|
    ensures forall c :: EdgeWeight(agg.edges, c, c) == Intra(g.edges, comm, c)
    ensures forall a, b :: a != b ==> EdgeWeight(agg.edges, a, b) == Cross(g.edges, comm, a, b)
    ensures TotalWeight(agg.edges) == TotalWeight(g.edges)
    ensures forall k :: 0 <= k < |agg.edges| ==> agg.edges[k].w.Some?
  {
    var nodes;
    nodes, info := SuperNodes(g, comm);
    var edges := AggregateEdges(g, comm, nodes);
    agg := WGraph(nodes, edges);
  }

  /**
   * `h` is the aggregate of `g` under `comm`: one node per label, the
   * self-loop of a label carries its internal weight, the edge between two
   * labels carries the weight between them, and no weight is lost.
   */
  ghost predicate AggregateOf(h: WGraph, g: WGraph, comm: map<string, string>)
    requires Cover(g, comm)
  {
    ValidGraph(h)
    && h.nodes == Labels(g.nodes, comm)
    && (forall c :: EdgeWeight(h.edges, c, c) == Intra(g.edges, comm, c))
    && (forall a, b :: a != b ==> EdgeWeight(h.edges, a, b) == Cross(g.edges, comm, a, b))
    && TotalWeight(h.edges) == TotalWeight(g.edges)
  }

  /** The self-loops and then the edges between communities. */
  method AggregateEdges(g: WGraph, comm: map<string, string>, nodes: seq<string>) returns (edges: seq<WEdge>)
    requires EndpointsIn(g.edges, g.nodes) && Cover(g, comm)
    requires forall n :: n in g.nodes ==> comm[n] in nodes
    ensures Simple(edges) && EndpointsIn(edges, nodes)
    ensures forall c :: EdgeWeight(edges, c, c) == Intra(g.edges, comm, c)
    ensures forall a, b :: a != b ==> EdgeWeight(edges, a, b) == Cross(g.edges, comm, a, b)
    ensures TotalWeight(edges) == TotalWeight(g.edges)
    ensures forall k :: 0 <= k < |edges| ==> edges[k].w.Some?
  {
    var selfW := SelfWeights(g, comm);
    SelfTableLaws(g.edges, comm, g.nodes, nodes);
    edges := AddSelfLoops(selfW, nodes);
    var inter := InterWeights(g, comm);
    InterTableLaws(g.edges, comm, g.nodes, nodes);
    edges := AddInterEdges(edges, inter, nodes);
    WeightSplit(g.edges, comm);
  }

  /** `Members` over one more node. */
  lemma MembersStep(ns: seq<string>, comm: map<string, string>, p: nat, c: string)
    requires p < |ns|
    ensures Members(ns[..p + 1], comm, c)
      == if ns[p] in comm && comm[ns[p]] == c then Members(ns[..p], comm, c) + [ns[p]] else Members(ns[..p], comm, c)
  {
    assert ns[..p + 1][..p] == ns[..p];
  }

  /** The `graph.forEachNode` loop creating the super-nodes. */
  method SuperNodes(g: WGraph, comm: map<string, string>) returns (nodes: seq<string>, info: map<string, SuperNode>)
    requires Cover(g, comm)
    ensures nodes == Labels(g.nodes, comm)
    ensures forall c :: c in info <==> c in nodes
    ensures forall c :: c in info ==> info[c].nodes == Members(g.nodes, comm, c) && info[c].size == |info[c].nodes|
  {
    nodes := [];
    info := map[];
    assert Labelled(g.nodes, comm);
    var p := 0;
    while p < |g.nodes|
      invariant 0 <= p <= |g.nodes|
      invariant Labelled(g.nodes[..p], comm)
      invariant nodes == Labels(g.nodes[..p], comm)
      invariant info == NodeTable(g.nodes[..p], comm)
    {
      var n := g.nodes[p];
      var c := comm[n];
      var cur := if c in info then info[c] else SuperNode(0, []);
      SuperNodeStep(g.nodes, comm, p, nodes, info, c, cur);
      if c !in info {
        nodes := nodes + [c];
      }
      info := info[c := SuperNode(cur.size + 1, cur.nodes + [n])];
      p := p + 1;
    }
    assert g.nodes[..p] == g.nodes;
    NodeTableKeys(g.nodes, comm);
    NodeTableMembers(g.nodes, comm);
  }

  /** One node of the super-node loop: the label list and the table over one more node. */
  lemma SuperNodeStep(ns: seq<string>, comm: map<string, string>, p: nat, nodes: seq<string>, info: map<string, SuperNode>,
                      c: string, cur: SuperNode)
    requires p < |ns| && Labelled(ns, comm)
    requires Labelled(ns[..p], comm) && nodes == Labels(ns[..p], comm) && info == NodeTable(ns[..p], comm)
    requires c == comm[ns[p]] && cur == if c in info then info[c] else SuperNode(0, [])
    ensures Labelled(ns[..p + 1], comm)
    ensures (if c in info then nodes else nodes + [c]) == Labels(ns[..p + 1], comm)
    ensures info[c := SuperNode(cur.size + 1, cur.nodes + [ns[p]])] == NodeTable(ns[..p + 1], comm)
  {
    LabelledPrefix(ns, comm, p + 1);
    assert c in info <==> c in nodes by {
      NodeTableKeys(ns[..p], comm);
    }
    NodeTableStep(ns, comm, p, c, cur);
    LabelsStep(ns, comm, p);
  }

  lemma LabelledPrefix(ns: seq<string>, comm: map<string, string>, p: nat)
    requires p <= |ns| && Labelled(ns, comm)
    ensures Labelled(ns[..p], comm)
  {
    assert forall x :: x in ns[..p] ==> x in ns;
  }

  /** The super-node attributes after visiting the nodes `ns`, as the loop above builds them. */
  function NodeTable(ns: seq<string>, comm: map<string, string>): map<string, SuperNode>
    requires Labelled(ns, comm)
    decreases |ns|
  {
    if ns == [] then map[]
    else
      var n := ns[|ns| - 1];
      assert forall x :: x in ns[..|ns| - 1] ==> x in ns;
      var t := NodeTable(ns[..|ns| - 1], comm);
      var cur := if comm[n] in t then t[comm[n]] else SuperNode(0, []);
      t[comm[n] := SuperNode(cur.size + 1, cur.nodes + [n])]
  }

  lemma NodeTableStep(ns: seq<string>, comm: map<string, string>, p: nat, c: string, cur: SuperNode)
    requires p < |ns| && Labelled(ns, comm) && c == comm[ns[p]]
    requires cur == if c in NodeTable(ns[..p], comm) then NodeTable(ns[..p], comm)[c] else SuperNode(0, [])
    ensures NodeTable(ns[..p + 1], comm) == NodeTable(ns[..p], comm)[c := SuperNode(cur.size + 1, cur.nodes + [ns[p]])]
  {
    assert ns[..p + 1][..p] == ns[..p];
  }

  /** The table has one entry per label, exactly the labels `Labels` lists. */
  lemma {:induction false} NodeTableKeys(ns: seq<string>, comm: map<string, string>)
    requires Labelled(ns, comm)
    ensures forall c :: c in NodeTable(ns, comm) <==> c in Labels(ns, comm)
    decreases |ns|
  {
    if ns != [] {
      var init := ns[..|ns| - 1];
      assert forall x :: x in init ==> x in ns;
      NodeTableKeys(init, comm);
    }
  }

  /** Each entry lists the label's members in node order, and its size counts them. */
  lemma {:induction false} NodeTableMembers(ns: seq<string>, comm: map<string, string>)
    requires Labelled(ns, comm)
    ensures forall c :: c in NodeTable(ns, comm) ==>
              NodeTable(ns, comm)[c].nodes == Members(ns, comm, c) && NodeTable(ns, comm)[c].size == |Members(ns, comm, c)|
    decreases |ns|
  {
    if ns != [] {
      var init := ns[..|ns| - 1];
      var n := ns[|ns| - 1];
      assert forall x :: x in init ==> x in ns;
      NodeTableMembers(init, comm);
      var t := NodeTable(init, comm);
      if comm[n] !in t {
        assert Members(init, comm, comm[n]) == [] by {
          if Members(init, comm, comm[n]) != [] {
            var x := Members(init, comm, comm[n])[0];
            assert x in init && comm[x] == comm[n];
            NodeTableKeys(init, comm);
          }
        }
      }
    }
  }

  /** `m.get(k) ?? 0` */
  function Acc<K>(m: map<K, real>, k: K): real {
    if k in m then m[k] else 0.0
  }

  /** The first `graph.forEachEdge` loop: `selfW[c]` sums the edges inside `c`. */
  method SelfWeights(g: WGraph, comm: map<string, string>) returns (selfW: OrdMap<string, real>)
    requires EndpointsIn(g.edges, g.nodes) && Cover(g, comm)
    ensures selfW == SelfTable(g.edges, comm)
  {
    selfW := EmptyMap();
    var p := 0;
    while p < |g.edges|
      invariant 0 <= p <= |g.edges|
      invariant selfW == SelfTable(g.edges[..p], comm)
    {
      assert g.edges[p].s in g.nodes && g.edges[p].t in g.nodes;
      SelfTableStep(g.edges, comm, p);
      selfW := SelfEdge(selfW, g.edges[p], comm);
      p := p + 1;
    }
    assert g.edges[..p] == g.edges;
  }

  /** The callback of that loop, for one edge whose endpoints have labels. */
  method SelfEdge(selfW0: OrdMap<string, real>, e: WEdge, comm: map<string, string>) returns (selfW: OrdMap<string, real>)
    requires e.s in comm && e.t in comm
    ensures selfW == SelfAdd(selfW0, e, comm)
  {
    selfW := selfW0;
    var cs, ct := comm[e.s], comm[e.t];
    if cs == ct {
      selfW := Put(selfW, cs, Acc(selfW.m, cs) + W(e));
    }
  }

  /** What one edge does to `selfW`. */
  function SelfAdd(t: OrdMap<string, real>, e: WEdge, comm: map<string, string>): OrdMap<string, real>
  {
    if Internal(e, comm) then Put(t, comm[e.s], Acc(t.m, comm[e.s]) + W(e)) else t
  }

  /** `selfW` after the edges `es`, as the loop above builds it. */
  function SelfTable(es: seq<WEdge>, comm: map<string, string>): OrdMap<string, real>
    decreases |es|
  {
    if es == [] then EmptyMap()
    else SelfAdd(SelfTable(es[..|es| - 1], comm), es[|es| - 1], comm)
  }

  lemma SelfTableStep(es: seq<WEdge>, comm: map<string, string>, p: nat)
    requires p < |es|
    ensures SelfTable(es[..p + 1], comm) == SelfAdd(SelfTable(es[..p], comm), es[p], comm)
  {
    assert es[..p + 1][..p] == es[..p];
  }

  /**
   * `selfW[c]` is the weight inside community `c` (absent: none), its keys are
   * labels of nodes, and its values add up to the weight inside communities.
   */
  lemma SelfTableLaws(es: seq<WEdge>, comm: map<string, string>, ns: seq<string>, nodes: seq<string>)
    requires EndpointsIn(es, ns) && Labelled(ns, comm) && forall n :: n in ns ==> comm[n] in nodes
    ensures SelfTable(es, comm).Valid()
    ensures forall c :: c in SelfTable(es, comm).m ==> c in nodes
    ensures forall c :: Intra(es, comm, c) == Acc(SelfTable(es, comm).m, c)
    ensures SumOver(SelfTable(es, comm).keys, SelfTable(es, comm).m) == IntraTotal(es, comm)
  {
    SelfTableValid(es, comm);
    SelfTableKeys(es, comm, ns, nodes);
    SelfTableSum(es, comm);
    forall c
      ensures Intra(es, comm, c) == Acc(SelfTable(es, comm).m, c)
    {
      SelfTableIntra(es, comm, ns, c);
    }
  }

  lemma {:induction false} SelfTableValid(es: seq<WEdge>, comm: map<string, string>)
    ensures SelfTable(es, comm).Valid()
    decreases |es|
  {
    if es != [] {
      SelfTableValid(es[..|es| - 1], comm);
    }
  }

  lemma {:induction false} SelfTableKeys(es: seq<WEdge>, comm: map<string, string>, ns: seq<string>, nodes: seq<string>)
    requires EndpointsIn(es, ns) && Labelled(ns, comm) && forall n :: n in ns ==> comm[n] in nodes
    ensures forall c :: c in SelfTable(es, comm).m ==> c in nodes
    decreases |es|
  {
    if es != [] {
      var init := es[..|es| - 1];
      var e := es[|es| - 1];
      assert EndpointsIn(init, ns);
      SelfTableKeys(init, comm, ns, nodes);
      assert e.s in ns && e.t in ns;
    }
  }

  lemma {:induction false} SelfTableSum(es: seq<WEdge>, comm: map<string, string>)
    requires SelfTable(es, comm).Valid()
    ensures SumOver(SelfTable(es, comm).keys, SelfTable(es, comm).m) == IntraTotal(es, comm)
    decreases |es|
  {
    if es != [] {
      var init := es[..|es| - 1];
      var e := es[|es| - 1];
      SelfTableValid(init, comm);
      SelfTableSum(init, comm);
      var t := SelfTable(init, comm);
      if Internal(e, comm) {
        var c := comm[e.s];
        if c in t.m {
          SumOverRaise(t.keys, t.m, c, W(e));
        } else {
          SumOverNew(t.keys, t.m, c, W(e));
        }
      }
    }
  }

  lemma {:induction false} SelfTableIntra(es: seq<WEdge>, comm: map<string, string>, ns: seq<string>, c: string)
    requires EndpointsIn(es, ns) && Labelled(ns, comm)
    ensures Intra(es, comm, c) == Acc(SelfTable(es, comm).m, c)
    decreases |es|
  {
    if es != [] {
      var init := es[..|es| - 1];
      var e := es[|es| - 1];
      assert EndpointsIn(init, ns);
      SelfTableIntra(init, comm, ns, c);
      assert e.s in ns && e.t in ns;
    }
  }

  /** The `for (const c in selfW)` loop: one self-loop per entry, in key order. */
  method AddSelfLoops(selfW: OrdMap<string, real>, nodes: seq<string>) returns (edges: seq<WEdge>)
    requires selfW.Valid() && forall c :: c in selfW.m ==> c in nodes
    ensures Simple(edges) && EndpointsIn(edges, nodes)
    ensures forall k :: 0 <= k < |edges| ==> edges[k].w.Some?
    ensures TotalWeight(edges) == SumOver(selfW.keys, selfW.m)
    ensures forall x, y :: EdgeWeight(edges, x, y) == (if x == y && x in selfW.m then selfW.m[x] else 0.0)
  {
    edges := [];
    var q := 0;
    while q < |selfW.keys|
      invariant 0 <= q <= |selfW.keys|
      invariant Simple(edges) && EndpointsIn(edges, nodes)
      invariant forall k :: 0 <= k < |edges| ==> edges[k].w.Some?
      invariant TotalWeight(edges) == SumOver(selfW.keys[..q], selfW.m)
      invariant forall x, y :: EdgeWeight(edges, x, y) == (if x == y && x in selfW.keys[..q] then selfW.m[x] else 0.0)
    {
      var c := selfW.keys[q];
      AddOrAccumulateLaws(edges, c, c, selfW.m[c], nodes);
      SelfLoopStep(selfW.keys, selfW.m, q, edges, AddOrAccumulate(edges, c, c, selfW.m[c]));
      edges := AddOrAccumulate(edges, c, c, selfW.m[c]);
      q := q + 1;
    }
    assert selfW.keys[..q] == selfW.keys;
  }

  /** One entry of the self-loop loop. */
  lemma SelfLoopStep(keys: seq<string>, m: map<string, real>, q: nat, edges: seq<WEdge>, edges': seq<WEdge>)
    requires q < |keys| && Distinct(keys) && forall c :: c in keys ==> c in m
    requires forall x, y :: EdgeWeight(edges, x, y) == (if x == y && x in keys[..q] then m[x] else 0.0)
    requires forall x, y :: EdgeWeight(edges', x, y)
               == EdgeWeight(edges, x, y) + (if Joins(WEdge(keys[q], keys[q], None), x, y) then m[keys[q]] else 0.0)
    ensures forall x, y :: EdgeWeight(edges', x, y) == (if x == y && x in keys[..q + 1] then m[x] else 0.0)
    ensures SumOver(keys[..q + 1], m) == SumOver(keys[..q], m) + m[keys[q]]
  {
    assert keys[..q + 1] == keys[..q] + [keys[q]];
    assert keys[q] !in keys[..q];
    assert keys[..q + 1][..q] == keys[..q];
  }

  /** `inter.get(SortedPair(a, b)) ?? 0`. */
  function InterAt(inter: OrdMap<(string, string), real>, a: string, b: string): real {
    Acc(inter.m, SortedPair(a, b))
  }

  /** A key of `inter`: a sorted pair of two different labels, both super-nodes. */
  predicate PairKey(k: (string, string), nodes: seq<string>) {
    k == SortedPair(k.0, k.1) && k.0 != k.1 && k.0 in nodes && k.1 in nodes
  }

  /** The second `graph.forEachEdge` loop: `inter` sums the crossing weight per sorted label pair. */
  method InterWeights(g: WGraph, comm: map<string, string>) returns (inter: OrdMap<(string, string), real>)
    requires EndpointsIn(g.edges, g.nodes) && Cover(g, comm)
    ensures inter == InterTable(g.edges, comm)
  {
    inter := EmptyMap();
    var p := 0;
    while p < |g.edges|
      invariant 0 <= p <= |g.edges|
      invariant inter == InterTable(g.edges[..p], comm)
    {
      assert g.edges[p].s in g.nodes && g.edges[p].t in g.nodes;
      InterTableStep(g.edges, comm, p);
      inter := InterEdge(inter, g.edges[p], comm);
      p := p + 1;
    }
    assert g.edges[..p] == g.edges;
  }

  /** The callback of that loop, for one edge whose endpoints have labels. */
  method InterEdge(inter0: OrdMap<(string, string), real>, e: WEdge, comm: map<string, string>)
    returns (inter: OrdMap<(string, string), real>)
    requires e.s in comm && e.t in comm
    ensures inter == InterAdd(inter0, e, comm)
  {
    inter := inter0;
    var cs, ct := comm[e.s], comm[e.t];
    if cs != ct {
      var k2 := SortedPair(cs, ct);
      inter := Put(inter, k2, Acc(inter.m, k2) + W(e));
    }
  }

  /** What one edge does to `inter`. */
  function InterAdd(t: OrdMap<(string, string), real>, e: WEdge, comm: map<string, string>): OrdMap<(string, string), real>
  {
    if Crossing(e, comm) then
      var k2 := SortedPair(comm[e.s], comm[e.t]);
      Put(t, k2, Acc(t.m, k2) + W(e))
    else t
  }

  /** `inter` after the edges `es`, as the loop above builds it. */
  function InterTable(es: seq<WEdge>, comm: map<string, string>): OrdMap<(string, string), real>
    decreases |es|
  {
    if es == [] then EmptyMap()
    else InterAdd(InterTable(es[..|es| - 1], comm), es[|es| - 1], comm)
  }

  lemma InterTableStep(es: seq<WEdge>, comm: map<string, string>, p: nat)
    requires p < |es|
    ensures InterTable(es[..p + 1], comm) == InterAdd(InterTable(es[..p], comm), es[p], comm)
  {
    assert es[..p + 1][..p] == es[..p];
  }

  /**
   * `inter` is keyed by sorted pairs of different labels; the entry of a pair
   * is the weight between the two communities (absent: none), and the
   * entries add up to the weight between communities.
   */
  lemma InterTableLaws(es: seq<WEdge>, comm: map<string, string>, ns: seq<string>, nodes: seq<string>)
    requires EndpointsIn(es, ns) && Labelled(ns, comm) && forall n :: n in ns ==> comm[n] in nodes
    ensures InterTable(es, comm).Valid()
    ensures forall k :: k in InterTable(es, comm).m ==> PairKey(k, nodes)
    ensures forall a, b :: a != b ==> Cross(es, comm, a, b) == InterAt(InterTable(es, comm), a, b)
    ensures SumOver(InterTable(es, comm).keys, InterTable(es, comm).m) == CrossTotal(es, comm)
  {
    InterTableValid(es, comm);
    InterTableKeys(es, comm, ns, nodes);
    InterTableSum(es, comm);
    forall a, b | a != b
      ensures Cross(es, comm, a, b) == InterAt(InterTable(es, comm), a, b)
    {
      InterTableCross(es, comm, a, b);
    }
  }

  lemma {:induction false} InterTableValid(es: seq<WEdge>, comm: map<string, string>)
    ensures InterTable(es, comm).Valid()
    decreases |es|
  {
    if es != [] {
      InterTableValid(es[..|es| - 1], comm);
    }
  }

  lemma {:induction false} InterTableKeys(es: seq<WEdge>, comm: map<string, string>, ns: seq<string>, nodes: seq<string>)
    requires EndpointsIn(es, ns) && Labelled(ns, comm) && forall n :: n in ns ==> comm[n] in nodes
    ensures forall k :: k in InterTable(es, comm).m ==> PairKey(k, nodes)
    decreases |es|
  {
    if es != [] {
      var init := es[..|es| - 1];
      var e := es[|es| - 1];
      assert EndpointsIn(init, ns);
      InterTableKeys(init, comm, ns, nodes);
      assert e.s in ns && e.t in ns;
      var k2 := SortedPair(comm[e.s], comm[e.t]);
      SortedPairEq(k2.0, k2.1, comm[e.s], comm[e.t]);
    }
  }

  lemma {:induction false} InterTableSum(es: seq<WEdge>, comm: map<string, string>)
    requires InterTable(es, comm).Valid()
    ensures SumOver(InterTable(es, comm).keys, InterTable(es, comm).m) == CrossTotal(es, comm)
    decreases |es|
  {
    if es != [] {
      var init := es[..|es| - 1];
      var e := es[|es| - 1];
      InterTableValid(init, comm);
      InterTableSum(init, comm);
      var t := InterTable(init, comm);
      if Crossing(e, comm) {
        var k2 := SortedPair(comm[e.s], comm[e.t]);
        if k2 in t.m {
          SumOverRaise(t.keys, t.m, k2, W(e));
        } else {
          SumOverNew(t.keys, t.m, k2, W(e));
        }
      }
    }
  }

  lemma {:induction false} InterTableCross(es: seq<WEdge>, comm: map<string, string>, a: string, b: string)
    requires a != b
    ensures Cross(es, comm, a, b) == InterAt(InterTable(es, comm), a, b)
    decreases |es|
  {
    if es != [] {
      var init := es[..|es| - 1];
      var e := es[|es| - 1];
      InterTableCross(init, comm, a, b);
      if Crossing(e, comm) {
        SortedPairEq(a, b, comm[e.s], comm[e.t]);
      }
    }
  }

  /** The `for (const [k2, w] of inter)` loop: one edge per entry, in insertion order. */
  method AddInterEdges(edges0: seq<WEdge>, inter: OrdMap<(string, string), real>, nodes: seq<string>)
    returns (edges: seq<WEdge>)
    requires Simple(edges0) && EndpointsIn(edges0, nodes)
    requires forall k :: 0 <= k < |edges0| ==> edges0[k].w.Some?
    requires inter.Valid() && forall k :: k in inter.m ==> PairKey(k, nodes)
    ensures Simple(edges) && EndpointsIn(edges, nodes)
    ensures forall k :: 0 <= k < |edges| ==> edges[k].w.Some?
    ensures TotalWeight(edges) == TotalWeight(edges0) + SumOver(inter.keys, inter.m)
    ensures forall x :: EdgeWeight(edges, x, x) == EdgeWeight(edges0, x, x)
    ensures forall x, y :: x != y ==> EdgeWeight(edges, x, y) == EdgeWeight(edges0, x, y) + InterAt(inter, x, y)
  {
    edges := edges0;
    var q := 0;
    while q < |inter.keys|
      invariant 0 <= q <= |inter.keys|
      invariant Simple(edges) && EndpointsIn(edges, nodes)
      invariant forall k :: 0 <= k < |edges| ==> edges[k].w.Some?
      invariant TotalWeight(edges) == TotalWeight(edges0) + SumOver(inter.keys[..q], inter.m)
      invariant forall x :: EdgeWeight(edges, x, x) == EdgeWeight(edges0, x, x)
      invariant forall x, y :: x != y ==>
                  EdgeWeight(edges, x, y) == EdgeWeight(edges0, x, y) + (if SortedPair(x, y) in inter.keys[..q] then inter.m[SortedPair(x, y)] else 0.0)
    {
      var k2 := inter.keys[q];
      assert PairKey(k2, nodes);
      var a, b := k2.0, k2.1;
      AddOrAccumulateLaws(edges, a, b, inter.m[k2], nodes);
      InterEdgeStep(inter.keys, inter.m, q, edges0, edges, AddOrAccumulate(edges, a, b, inter.m[k2]));
      edges := AddOrAccumulate(edges, a, b, inter.m[k2]);
      q := q + 1;
    }
    assert inter.keys[..q] == inter.keys;
  }

  /** One entry of the crossing-edge loop. */
  lemma InterEdgeStep(keys: seq<(string, string)>, m: map<(string, string), real>, q: nat,
                      edges0: seq<WEdge>, edges: seq<WEdge>, edges': seq<WEdge>)
    requires q < |keys| && Distinct(keys) && (forall k :: k in keys ==> k in m)
    requires keys[q] == SortedPair(keys[q].0, keys[q].1) && keys[q].0 != keys[q].1
    requires forall x :: EdgeWeight(edges, x, x) == EdgeWeight(edges0, x, x)
    requires forall x, y :: x != y ==>
               EdgeWeight(edges, x, y) == EdgeWeight(edges0, x, y) + (if SortedPair(x, y) in keys[..q] then m[SortedPair(x, y)] else 0.0)
    requires forall x, y :: EdgeWeight(edges', x, y)
               == EdgeWeight(edges, x, y) + (if Joins(WEdge(keys[q].0, keys[q].1, None), x, y) then m[keys[q]] else 0.0)
    ensures forall x :: EdgeWeight(edges', x, x) == EdgeWeight(edges0, x, x)
    ensures forall x, y :: x != y ==>
              EdgeWeight(edges', x, y) == EdgeWeight(edges0, x, y) + (if SortedPair(x, y) in keys[..q + 1] then m[SortedPair(x, y)] else 0.0)
    ensures SumOver(keys[..q + 1], m) == SumOver(keys[..q], m) + m[keys[q]]
  {
    assert keys[..q + 1] == keys[..q] + [keys[q]];
    assert keys[q] !in keys[..q];
    assert keys[..q + 1][..q] == keys[..q];
    forall x, y | x != y
      ensures EdgeWeight(edges', x, y)
        == EdgeWeight(edges0, x, y) + (if SortedPair(x, y) in keys[..q + 1] then m[SortedPair(x, y)] else 0.0)
    {
      SortedPairEq(x, y, keys[q].0, keys[q].1);
    }
  }
}
