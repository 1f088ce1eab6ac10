/**
 * Reference definitions for the Leiden implementation: the xorshift32
 * generator and the Fisher–Yates shuffle it drives, weighted degrees,
 * modularity Q = Σ_c (L_c/m − d_c²/(4m²)), the gain ΔQ of adding a node to a
 * community, and the laws relating them. The methods of module `Leiden` are
 * proved against these functions.
 *
 * A communities map assigns a label to every node key; each phase is called
 * with a map whose keys are exactly the graph's nodes (`Cover`), and iterating
 * it follows the graph's node order.
 */
module LeidenSpec {
  import opened Common
  import opened WeightedGraphs

  /* ------------------------------ PRNG and shuffle ------------------------------ */

  /** `n >>> 0`: the number modulo 2^32 as an unsigned 32-bit word. */
  function ToUint32(n: int): bv32 {
    (n % 0x1_0000_0000) as bv32
  }

  /** `x ^= x << 13; x >>>= 0` on the 32-bit state. */
  function ShiftXorLeft13(x: bv32): bv32 {
    x ^ (x << 13)
  }

  /** `x ^= x >>> 17; x >>>= 0` */
  function ShiftXorRight17(x: bv32): bv32 {
    x ^ (x >> 17)
  }

  /** `x ^= x << 5; x >>>= 0` */
  function ShiftXorLeft5(x: bv32): bv32 {
    x ^ (x << 5)
  }

  /** One xorshift32 step: the three shift-xor updates in order. */
  function XorShift(x: bv32): bv32 {
    ShiftXorLeft5(ShiftXorRight17(ShiftXorLeft13(x)))
  }

  /** `(x >>> 0) / 0x100000000`: the generator's output for state `x`. */
  function ToUnit(x: bv32): (r: real)
    ensures 0.0 <= r < 1.0
  {
    UnitBounds(x as int);
    (x as int) as real / 4294967296.0
  }

  lemma UnitBounds(n: int)
    requires 0 <= n < 0x1_0000_0000
    ensures 0.0 <= n as real / 4294967296.0 < 1.0
  {
  }

  lemma ProductBelow(u: real, n: real)
    requires 0.0 <= u < 1.0 && n > 0.0
    ensures 0.0 <= u * n < n
  {
  }

  lemma FloorBelow(p: real, n: nat)
    requires 0.0 <= p < n as real
    ensures 0 <= p.Floor < n
  {
  }

  /** `Math.floor(u * (i + 1))` for `u` in [0, 1): an index in [0, i]. */
  function ScaledIndex(u: real, i: nat): (j: nat)
    requires 0.0 <= u < 1.0
    ensures j <= i
  {
    var p := u * (i + 1) as real;
    ProductBelow(u, (i + 1) as real);
    FloorBelow(p, i + 1);
    p.Floor
  }

  /** The shuffle's pick for state `x` at index `i`. */
  function PickIndex(x: bv32, i: nat): (j: nat)
    ensures j <= i
  {
    ScaledIndex(ToUnit(x), i)
  }

  function Swap(s: seq<string>, i: nat, j: nat): (r: seq<string>)
    requires i < |s| && j < |s|
    ensures |r| == |s|
  {
    s[i := s[j]][j := s[i]]
  }

  lemma SwapPermutes(s: seq<string>, i: nat, j: nat)
    requires i < |s| && j < |s|
    ensures multiset(Swap(s, i, j)) == multiset(s)
  {
  }

  /**
   * The shuffle loop from index `i` down to 1: draw the next state, pick
   * `j ∈ [0, i]`, swap cells `i` and `j`. Returns the sequence and the final state.
   */
  function ShuffleFrom(s: seq<string>, i: nat, x: bv32): (r: (seq<string>, bv32))
    requires i < |s|
    ensures |r.0| == |s|
    decreases i
  {
    if i == 0 then (s, x)
    else
      var x' := XorShift(x);
      ShuffleFrom(Swap(s, i, PickIndex(x', i)), i - 1, x')
  }

  /** `shuffleInPlace(arr, rng)` from generator state `x`. */
  function Shuffled(s: seq<string>, x: bv32): (r: (seq<string>, bv32))
    ensures |r.0| == |s|
  {
    if s == [] then (s, x) else ShuffleFrom(s, |s| - 1, x)
  }

  /** The shuffle only permutes: the result holds the same elements, as often. */
  lemma {:induction false} ShuffleFromPermutes(s: seq<string>, i: nat, x: bv32)
    requires i < |s|
    ensures multiset(ShuffleFrom(s, i, x).0) == multiset(s)
    decreases i
  {
    if i > 0 {
      var x' := XorShift(x);
      var t := Swap(s, i, PickIndex(x', i));
      assert ShuffleFrom(s, i, x) == ShuffleFrom(t, i - 1, x');
      SwapPermutes(s, i, PickIndex(x', i));
      ShuffleFromPermutes(t, i - 1, x');
    }
  }

  lemma ShuffledPermutes(s: seq<string>, x: bv32)
    ensures multiset(Shuffled(s, x).0) == multiset(s)
  {
    if s != [] {
      ShuffleFromPermutes(s, |s| - 1, x);
    }
  }

  /* ------------------------------ degrees ------------------------------ */

  /** Sum over the nodes of what one edge adds to each node's degree. */
  function SumContribution(ns: seq<string>, e: WEdge): real
    decreases |ns|
  {
    if ns == [] then 0.0 else SumContribution(ns[..|ns| - 1], e) + Contribution(e, ns[|ns| - 1])
  }

  lemma {:induction false} SumContributionValue(ns: seq<string>, e: WEdge)
    requires Distinct(ns)
    ensures SumContribution(ns, e) == (if e.s in ns then W(e) else 0.0) + (if e.t in ns then W(e) else 0.0)
    decreases |ns|
  {
    if ns != [] {
      var init := ns[..|ns| - 1];
      assert Distinct(init);
      SumContributionValue(init, e);
      assert forall x :: x in ns <==> x in init || x == ns[|ns| - 1];
    }
  }

  lemma {:induction false} SumDegSnoc(ns: seq<string>, es: seq<WEdge>, e: WEdge)
    ensures SumDeg(ns, es + [e]) == SumDeg(ns, es) + SumContribution(ns, e)
    decreases |ns|
  {
    if ns != [] {
      SumDegSnoc(ns[..|ns| - 1], es, e);
      assert (es + [e])[..|es + [e]| - 1] == es;
    }
  }

  /** Σk = 2m: every edge adds its weight once per endpoint, so a self-loop adds 2w to its node. */
  lemma {:induction false} DegreeSum(ns: seq<string>, es: seq<WEdge>)
    requires Distinct(ns) && EndpointsIn(es, ns)
    ensures SumDeg(ns, es) == 2.0 * TotalWeight(es)
    decreases |es|
  {
    if es == [] {
      DegreesOfNoEdges(ns);
    } else {
      var init := es[..|es| - 1];
      var e := es[|es| - 1];
      DegreeSum(ns, init);
      SumDegSnoc(ns, init, e);
      assert init + [e] == es;
      SumContributionValue(ns, e);
    }
  }

  lemma {:induction false} DegreesOfNoEdges(ns: seq<string>)
    ensures SumDeg(ns, []) == 0.0
    decreases |ns|
  {
    if ns != [] {
      DegreesOfNoEdges(ns[..|ns| - 1]);
    }
  }

  /* ------------------------------ communities ------------------------------ */

  /** The communities map has exactly the graph's nodes as keys. */
  ghost predicate Cover(g: WGraph, comm: map<string, string>) {
    forall n :: n in comm <==> n in g.nodes
  }

  ghost predicate Labelled(ns: seq<string>, comm: map<string, string>) {
    forall n :: n in ns ==> n in comm
  }

  /** The distinct labels of `ns`, in order of first appearance (`for (const n in communities)`). */
  function Labels(ns: seq<string>, comm: map<string, string>): (r: seq<string>)
    requires Labelled(ns, comm)
    ensures Distinct(r)
    ensures forall n :: n in ns ==> comm[n] in r
    decreases |ns|
  {
    if ns == [] then []
    else
      var init := Labels(ns[..|ns| - 1], comm);
      var c := comm[ns[|ns| - 1]];
      assert forall x :: x in ns <==> x in ns[..|ns| - 1] || x == ns[|ns| - 1];
      if c in init then init else init + [c]
  }

  /** Every label in `Labels` is the label of some node. */
  lemma {:induction false} LabelWitness(ns: seq<string>, comm: map<string, string>, c: string)
    requires Labelled(ns, comm) && c in Labels(ns, comm)
    ensures exists n :: n in ns && comm[n] == c
    decreases |ns|
  {
    var init := ns[..|ns| - 1];
    var last := ns[|ns| - 1];
    assert forall x :: x in init ==> x in ns;
    if c in Labels(init, comm) {
      LabelWitness(init, comm, c);
    } else {
      assert comm[last] == c;
    }
  }

  /** There are never more labels than nodes. */
  lemma {:induction false} LabelsLength(ns: seq<string>, comm: map<string, string>)
    requires Labelled(ns, comm)
    ensures |Labels(ns, comm)| <= |ns|
    decreases |ns|
  {
    if ns != [] {
      var init := ns[..|ns| - 1];
      assert Labelled(init, comm);
      LabelsLength(init, comm);
    }
  }

  /** `Labels` over one more node: its label goes last when it is new. */
  lemma LabelsStep(ns: seq<string>, comm: map<string, string>, p: nat)
    requires p < |ns| && Labelled(ns, comm)
    ensures Labels(ns[..p + 1], comm)
      == if comm[ns[p]] in Labels(ns[..p], comm) then Labels(ns[..p], comm) else Labels(ns[..p], comm) + [comm[ns[p]]]
  {
    assert ns[..p + 1][..p] == ns[..p];
  }

  /** The nodes of `ns` labelled `c`, in order. */
  function Members(ns: seq<string>, comm: map<string, string>, c: string): (r: seq<string>)
    ensures forall n :: n in r <==> n in ns && n in comm && comm[n] == c
    ensures |r| <= |ns|
    decreases |ns|
  {
    if ns == [] then []
    else
      var init := Members(ns[..|ns| - 1], comm, c);
      var n := ns[|ns| - 1];
      assert forall x :: x in ns <==> x in ns[..|ns| - 1] || x == n;
      if n in comm && comm[n] == c then init + [n] else init
  }

  lemma {:induction false} MembersDistinct(ns: seq<string>, comm: map<string, string>, c: string)
    requires Distinct(ns)
    ensures Distinct(Members(ns, comm, c))
    decreases |ns|
  {
    if ns != [] {
      var init := ns[..|ns| - 1];
      assert Distinct(init);
      MembersDistinct(init, comm, c);
      assert ns[|ns| - 1] !in init;
    }
  }

  /** L_c: weight of the edges with both endpoints labelled `c`. */
  function Intra(es: seq<WEdge>, comm: map<string, string>, c: string): real
    decreases |es|
  {
    if es == [] then 0.0
    else
      var e := es[|es| - 1];
      Intra(es[..|es| - 1], comm, c)
      + (if e.s in comm && e.t in comm && comm[e.s] == c && comm[e.t] == c then W(e) else 0.0)
  }

  /** d_c (also tot[c]): the degree sum of the nodes labelled `c`. */
  function CommDeg(ns: seq<string>, es: seq<WEdge>, comm: map<string, string>, c: string): real
    decreases |ns|
  {
    if ns == [] then 0.0
    else
      var n := ns[|ns| - 1];
      CommDeg(ns[..|ns| - 1], es, comm, c) + (if n in comm && comm[n] == c then Deg(es, n) else 0.0)
  }

  /** `CommDeg` over one more node: its degree counts when it carries the label. */
  lemma CommDegStep(ns: seq<string>, es: seq<WEdge>, comm: map<string, string>, p: nat, c: string)
    requires p < |ns|
    ensures CommDeg(ns[..p + 1], es, comm, c)
      == CommDeg(ns[..p], es, comm, c) + (if ns[p] in comm && comm[ns[p]] == c then Deg(es, ns[p]) else 0.0)
  {
    assert ns[..p + 1][..p] == ns[..p];
  }

  /*
   * The quantities below take `u` = 1/m instead of dividing by m: Lc/m − dc²/(4m²)
   * is written Lc·u − dc²·u²/4 and ΔQ = kin/m − tot·k/(2m²) is written
   * kin·u − k·tot·u²/2. The values are the same; the polynomial form is the one
   * the algebra below is stated in.
   */

  /** One community's share of the modularity. */
  function Term(ns: seq<string>, es: seq<WEdge>, comm: map<string, string>, u: real, c: string): real {
    TermAt(Intra(es, comm, c), CommDeg(ns, es, comm, c), u)
  }

  /** L·u − d²·u²/4, that is L/m − d²/(4m²). */
  function TermAt(l: real, d: real, u: real): real {
    l * u - d * d * u * u / 4.0
  }

  function QSum(S: seq<string>, ns: seq<string>, es: seq<WEdge>, comm: map<string, string>, u: real): real
    decreases |S|
  {
    if S == [] then 0.0 else QSum(S[..|S| - 1], ns, es, comm, u) + Term(ns, es, comm, u, S[|S| - 1])
  }

  /** Modularity: 0 for a graph without nodes or without weight, else Σ_c (L_c/m − d_c²/(4m²)). */
  function Modularity(g: WGraph, comm: map<string, string>): real
    requires Cover(g, comm)
  {
    var m := TotalWeight(g.edges);
    if |g.nodes| == 0 || m == 0.0 then 0.0 else QSum(Labels(g.nodes, comm), g.nodes, g.edges, comm, 1.0 / m)
  }

  /** k_{i,in(C)}: weight of the edges from `i` to nodes labelled `c` (a self-loop never counts, as `i` is unlabelled). */
  function Kin(es: seq<WEdge>, R: map<string, string>, i: string, c: string): real
    decreases |es|
  {
    if es == [] then 0.0
    else
      var e := es[|es| - 1];
      Kin(es[..|es| - 1], R, i, c)
      + (if Incident(e, i) && Other(e, i) in R && R[Other(e, i)] == c then W(e) else 0.0)
  }

  /** ΔQ of adding the unlabelled node `i` to the nodes labelled `c` in `R`; 0 when the graph has no weight. */
  function Gain(g: WGraph, R: map<string, string>, i: string, c: string): real {
    var m := TotalWeight(g.edges);
    if m == 0.0 then 0.0
    else GainAt(Kin(g.edges, R, i, c), Deg(g.edges, i), CommDeg(g.nodes, g.edges, R, c), 1.0 / m)
  }

  function GainAt(kin: real, k: real, tot: real, u: real): real {
    kin * u - k * tot * u * u / 2.0
  }

  /** The labels of `i`'s neighbours, one per incident edge in edge order (`neighborCommunities` before dedup). */
  function NeighbourLabels(es: seq<WEdge>, comm: map<string, string>, i: string): (r: seq<string>)
    ensures forall c :: c in r ==> exists n :: n in comm && comm[n] == c
    decreases |es|
  {
    if es == [] then []
    else
      var e := es[|es| - 1];
      NeighbourLabels(es[..|es| - 1], comm, i)
      + (if Incident(e, i) && Other(e, i) in comm then [comm[Other(e, i)]] else [])
  }
  /** `NeighbourLabels` over one more edge: its far end's label goes last when the edge touches `i`. */
  lemma NeighbourLabelsStep(es: seq<WEdge>, comm: map<string, string>, i: string, j: nat)
    requires j < |es|
    ensures NeighbourLabels(es[..j + 1], comm, i) == NeighbourLabels(es[..j], comm, i)
      + (if Incident(es[j], i) && Other(es[j], i) in comm then [comm[Other(es[j], i)]] else [])
  {
    assert es[..j + 1][..j] == es[..j];
  }

  /**
   * The state a moving pass leaves `i` in when it keeps `i` where it is: no
   * neighbour label offers a positive gain larger than staying does.
   */
  ghost predicate NoGainingMove(g: WGraph, comm: map<string, string>, i: string) {
    i in comm ==>
      Deg(g.edges, i) == 0.0 ||
      forall c :: c in NeighbourLabels(g.edges, comm, i) ==>
        Gain(g, comm - {i}, i, c) <= 0.0 || Gain(g, comm - {i}, i, c) <= Gain(g, comm - {i}, i, comm[i])
  }

  /** Leiden's merge condition: C ∪ {i} has at most two nodes or induces a connected subgraph. */
  ghost predicate ConnectedAfterMerge(g: WGraph, R: map<string, string>, c: string, i: string) {
    var ns := Members(g.nodes, R, c) + [i];
    |ns| <= 2 || Connected(g, set x | x in ns)
  }

  /** The source's `L/m − d²/(4m²)` is the term at scale 1/m. */
  lemma TermForm(l: real, d: real, m: real)
    requires m != 0.0
    ensures l / m - d * d / (4.0 * m * m) == TermAt(l, d, 1.0 / m)
  {
  }

  /** One step of the modularity loop: adding label S[i]'s term extends the sum by one label. */
  lemma QSumStep(S: seq<string>, i: nat, ns: seq<string>, es: seq<WEdge>, comm: map<string, string>,
                 m: real, q: real, l: real, d: real)
    requires i < |S| && m != 0.0
    requires q == QSum(S[..i], ns, es, comm, 1.0 / m)
    requires l == Intra(es, comm, S[i]) && d == CommDeg(ns, es, comm, S[i])
    ensures q + (l / m - d * d / (4.0 * m * m)) == QSum(S[..i + 1], ns, es, comm, 1.0 / m)
  {
    assert S[..i + 1][..i] == S[..i];
    TermForm(l, d, m);
  }

  /** The source's `kin/m − (k·tot)/(2m²)` is the gain at scale 1/m. */
  lemma GainForm(kin: real, k: real, tot: real, m: real)
    requires m != 0.0
    ensures kin / m - (k * tot) / (2.0 * m * m) == GainAt(kin, k, tot, 1.0 / m)
  {
  }

  /* ------------------------------ laws of the gain ------------------------------ */

  lemma {:induction false} NonNegativeCommDeg(ns: seq<string>, es: seq<WEdge>, comm: map<string, string>, c: string)
    requires forall k :: 0 <= k < |es| ==> W(es[k]) >= 0.0
    ensures CommDeg(ns, es, comm, c) >= 0.0
    decreases |ns|
  {
    if ns != [] {
      NonNegativeCommDeg(ns[..|ns| - 1], es, comm, c);
      NonNegativeDeg(es, ns[|ns| - 1]);
    }
  }

  lemma {:induction false} NonNegativeTotal(es: seq<WEdge>)
    requires forall k :: 0 <= k < |es| ==> W(es[k]) >= 0.0
    ensures TotalWeight(es) >= 0.0
    decreases |es|
  {
    if es != [] {
      NonNegativeTotal(es[..|es| - 1]);
    }
  }

  /** With no neighbour labelled `c`, no weight links `i` to `c`. */
  lemma {:induction false} KinWithoutNeighbour(es: seq<WEdge>, comm: map<string, string>, i: string, c: string)
    requires c !in NeighbourLabels(es, comm, i)
    ensures Kin(es, comm - {i}, i, c) == 0.0
    decreases |es|
  {
    if es != [] {
      var init := es[..|es| - 1];
      assert NeighbourLabels(es, comm, i) == NeighbourLabels(init, comm, i)
        + (var e := es[|es| - 1]; if Incident(e, i) && Other(e, i) in comm then [comm[Other(e, i)]] else []);
      KinWithoutNeighbour(init, comm, i, c);
    }
  }

  lemma GainOfNothing(k: real, tot: real, u: real)
    requires k >= 0.0 && tot >= 0.0 && u > 0.0
    ensures GainAt(0.0, k, tot, u) <= 0.0
  {
    assert k * tot >= 0.0;
    assert k * tot * u >= 0.0;
    assert k * tot * u * u >= 0.0;
  }

  /**
   * A node's own community, when no neighbour shares it, offers no gain:
   * with non-negative weights ΔQ = 0 − k_i·tot/(2m²) ≤ 0.
   */
  lemma OwnCommunityWithoutNeighbours(g: WGraph, comm: map<string, string>, i: string)
    requires NonNegative(g) && i in comm
    requires comm[i] !in NeighbourLabels(g.edges, comm, i)
    ensures Gain(g, comm - {i}, i, comm[i]) <= 0.0
  {
    var R := comm - {i};
    KinWithoutNeighbour(g.edges, comm, i, comm[i]);
    NonNegativeDeg(g.edges, i);
    NonNegativeCommDeg(g.nodes, g.edges, R, comm[i]);
    NonNegativeTotal(g.edges);
    var m := TotalWeight(g.edges);
    if m != 0.0 {
      var k, tot := Deg(g.edges, i), CommDeg(g.nodes, g.edges, R, comm[i]);
      PositiveInverse(m);
      GainOfNothing(k, tot, 1.0 / m);
      assert Gain(g, R, i, comm[i]) == GainAt(0.0, k, tot, 1.0 / m);
    }
  }

  lemma PositiveInverse(m: real)
    requires m > 0.0
    ensures 1.0 / m > 0.0
  {
  }

  /** Weight of the self-loops at `i`. */
  function SelfW(es: seq<WEdge>, i: string): real
    decreases |es|
  {
    if es == [] then 0.0
    else
      var e := es[|es| - 1];
      SelfW(es[..|es| - 1], i) + (if e.s == i && e.t == i then W(e) else 0.0)
  }

  /** Labelling `i` with `x` adds to L_x exactly the weight from `i` into `x` plus `i`'s self-loops. */
  lemma {:induction false} IntraMove(es: seq<WEdge>, R: map<string, string>, i: string, x: string, c: string)
    requires i !in R
    ensures Intra(es, R[i := x], c) == Intra(es, R, c) + (if c == x then Kin(es, R, i, x) + SelfW(es, i) else 0.0)
    decreases |es|
  {
    if es != [] {
      IntraMove(es[..|es| - 1], R, i, x, c);
    }
  }

  /** Labelling `i` with `x` adds `i`'s degree to d_x and changes no other d_c. */
  lemma {:induction false} CommDegMove(ns: seq<string>, es: seq<WEdge>, R: map<string, string>, i: string, x: string, c: string)
    requires Distinct(ns) && i !in R
    ensures CommDeg(ns, es, R[i := x], c)
         == CommDeg(ns, es, R, c) + (if c == x && i in ns then Deg(es, i) else 0.0)
    decreases |ns|
  {
    if ns != [] {
      var init := ns[..|ns| - 1];
      assert Distinct(init);
      CommDegMove(init, es, R, i, x, c);
      assert i in ns <==> i in init || i == ns[|ns| - 1];
    }
  }

  /** Changing one community's term changes the sum over a duplicate-free label list by exactly that difference. */
  lemma {:induction false} QSumMove(S: seq<string>, ns: seq<string>, es: seq<WEdge>,
                                    A: map<string, string>, B: map<string, string>, u: real, x: string)
    requires Distinct(S)
    requires forall c :: c != x ==> Term(ns, es, A, u, c) == Term(ns, es, B, u, c)
    ensures QSum(S, ns, es, B, u)
         == QSum(S, ns, es, A, u) + (if x in S then Term(ns, es, B, u, x) - Term(ns, es, A, u, x) else 0.0)
    decreases |S|
  {
    if S != [] {
      var init := S[..|S| - 1];
      assert Distinct(init);
      QSumMove(init, ns, es, A, B, u, x);
      assert x in S <==> x in init || x == S[|S| - 1];
    }
  }

  /** Dropping one element of the label list removes just its term. */
  lemma {:induction false} QSumRemove(S: seq<string>, p: nat, ns: seq<string>, es: seq<WEdge>, comm: map<string, string>, u: real)
    requires p < |S|
    ensures QSum(S, ns, es, comm, u) == QSum(S[..p] + S[p + 1..], ns, es, comm, u) + Term(ns, es, comm, u, S[p])
    decreases |S|
  {
    if p < |S| - 1 {
      var init := S[..|S| - 1];
      QSumRemove(init, p, ns, es, comm, u);
      assert (S[..p] + S[p + 1..])[..|S| - 2] == init[..p] + init[p + 1..];
      assert (S[..p] + S[p + 1..])[|S| - 2] == S[|S| - 1];
    } else {
      assert S[..p] + S[p + 1..] == S[..|S| - 1];
    }
  }

  /** `S` without its element at `p`: same elements but that one, still duplicate-free. */
  lemma RemoveAt(S: seq<string>, p: nat)
    requires Distinct(S) && p < |S|
    ensures Distinct(S[..p] + S[p + 1..])
    ensures forall c :: c in S[..p] + S[p + 1..] <==> c in S && c != S[p]
  {
    var T := S[..p] + S[p + 1..];
    forall a, b | 0 <= a < b < |T|
      ensures T[a] != T[b]
    {
      var a' := if a < p then a else a + 1;
      var b' := if b < p then b else b + 1;
      assert T[a] == S[a'] && T[b] == S[b'];
    }
    forall c
      ensures c in T <==> c in S && c != S[p]
    {
      if c in T {
        var q :| 0 <= q < |T| && T[q] == c;
        var q' := if q < p then q else q + 1;
        assert S[q'] == c;
      }
      if c in S && c != S[p] {
        var q :| 0 <= q < |S| && S[q] == c;
        if q < p {
          assert T[q] == c;
        } else {
          assert T[q - 1] == c;
        }
      }
    }
  }

  /**
   * Summing over a longer duplicate-free list changes nothing when the extra
   * labels have zero terms: the sum depends on the set of labels only.
   */
  lemma {:induction false} QSumSuperset(S: seq<string>, T: seq<string>, ns: seq<string>, es: seq<WEdge>, comm: map<string, string>, u: real)
    requires Distinct(S) && Distinct(T)
    requires forall c :: c in T ==> c in S
    requires forall c :: c in S && c !in T ==> Term(ns, es, comm, u, c) == 0.0
    ensures QSum(S, ns, es, comm, u) == QSum(T, ns, es, comm, u)
    decreases |S|
  {
    if S == [] {
      assert (set x | x in T) == {};
      DistinctCard(T);
    } else {
      var init := S[..|S| - 1];
      var x := S[|S| - 1];
      assert Distinct(init);
      assert forall c :: c in S <==> c in init || c == x;
      if x in T {
        var p :| 0 <= p < |T| && T[p] == x;
        RemoveAt(T, p);
        QSumSuperset(init, T[..p] + T[p + 1..], ns, es, comm, u);
        QSumRemove(T, p, ns, es, comm, u);
      } else {
        QSumSuperset(init, T, ns, es, comm, u);
      }
    }
  }

  /** A string that labels no node has L_c = 0 and d_c = 0. */
  lemma UnusedLabelTermZero(g: WGraph, comm: map<string, string>, u: real, c: string)
    requires Cover(g, comm) && EndpointsIn(g.edges, g.nodes)
    requires c !in Labels(g.nodes, comm)
    ensures Term(g.nodes, g.edges, comm, u, c) == 0.0
  {
    UnusedIntra(g.edges, g.nodes, comm, c);
    UnusedCommDeg(g.nodes, g.edges, comm, c);
  }

  lemma {:induction false} UnusedIntra(es: seq<WEdge>, ns: seq<string>, comm: map<string, string>, c: string)
    requires EndpointsIn(es, ns) && Labelled(ns, comm) && c !in Labels(ns, comm)
    ensures Intra(es, comm, c) == 0.0
    decreases |es|
  {
    if es != [] {
      UnusedIntra(es[..|es| - 1], ns, comm, c);
      var e := es[|es| - 1];
      assert e.s in ns;
    }
  }

  lemma {:induction false} UnusedCommDeg(ns: seq<string>, es: seq<WEdge>, comm: map<string, string>, c: string)
    requires Labelled(ns, comm) && c !in Labels(ns, comm)
    ensures CommDeg(ns, es, comm, c) == 0.0
    decreases |ns|
  {
    if ns != [] {
      var init := ns[..|ns| - 1];
      assert forall x :: x in init ==> x in ns;
      UnusedCommDeg(init, es, comm, c);
      assert ns[|ns| - 1] in ns;
    }
  }

  /** The part of i's own contribution that does not depend on its community: s/m − k²/(4m²). */
  function SelfShare(s: real, k: real, u: real): real {
    s * u - k * k * u * u / 4.0
  }

  lemma TermAlgebra(l: real, kin: real, s: real, d: real, k: real, u: real)
    ensures TermAt(l + kin + s, d + k, u) - TermAt(l, d, u)
         == GainAt(kin, k, d, u) + SelfShare(s, k, u)
  {
  }

  /** Labelling the unlabelled node `i` with `x` leaves the term of every other label unchanged. */
  lemma MoveKeepsOtherTerm(g: WGraph, R: map<string, string>, i: string, x: string, u: real, c: string)
    requires Distinct(g.nodes) && i !in R && c != x
    ensures Term(g.nodes, g.edges, R, u, c) == Term(g.nodes, g.edges, R[i := x], u, c)
  {
    IntraMove(g.edges, R, i, x, c);
    CommDegMove(g.nodes, g.edges, R, i, x, c);
  }

  /** ... and changes the term of `x` by ΔQ(x) + self-loop share − k²/(4m²). */
  lemma MoveChangesOwnTerm(g: WGraph, R: map<string, string>, i: string, x: string, u: real)
    requires Distinct(g.nodes) && i in g.nodes && i !in R
    ensures Term(g.nodes, g.edges, R[i := x], u, x) - Term(g.nodes, g.edges, R, u, x)
         == GainAt(Kin(g.edges, R, i, x), Deg(g.edges, i), CommDeg(g.nodes, g.edges, R, x), u)
          + SelfShare(SelfW(g.edges, i), Deg(g.edges, i), u)
  {
    var B := R[i := x];
    var l := Intra(g.edges, R, x);
    var d := CommDeg(g.nodes, g.edges, R, x);
    var kin := Kin(g.edges, R, i, x);
    var s := SelfW(g.edges, i);
    var k := Deg(g.edges, i);
    IntraMove(g.edges, R, i, x, x);
    CommDegMove(g.nodes, g.edges, R, i, x, x);
    assert Intra(g.edges, B, x) == l + kin + s;
    assert CommDeg(g.nodes, g.edges, B, x) == d + k;
    assert Term(g.nodes, g.edges, B, u, x) == TermAt(l + kin + s, d + k, u);
    assert Term(g.nodes, g.edges, R, u, x) == TermAt(l, d, u);
    TermAlgebra(l, kin, s, d, k, u);
  }

  /** Relabelling a node with an existing label introduces no new label. */
  lemma LabelsAfterMove(g: WGraph, comm: map<string, string>, i: string, x: string)
    requires Cover(g, comm) && i in g.nodes && x in Labels(g.nodes, comm)
    ensures Cover(g, comm[i := x])
    ensures forall c :: c in Labels(g.nodes, comm[i := x]) ==> c in Labels(g.nodes, comm)
  {
    var B := comm[i := x];
    forall c | c in Labels(g.nodes, B)
      ensures c in Labels(g.nodes, comm)
    {
      LabelWitness(g.nodes, B, c);
      var n :| n in g.nodes && B[n] == c;
      if n != i {
        assert comm[n] == c;
      }
    }
  }

  /** The base part of Q that does not depend on which community `i` joins. */
  function MoveBase(g: WGraph, comm: map<string, string>, i: string, u: real): real
    requires Cover(g, comm)
  {
    QSum(Labels(g.nodes, comm), g.nodes, g.edges, comm - {i}, u) + SelfShare(SelfW(g.edges, i), Deg(g.edges, i), u)
  }

  /** Over the old labels, labelling `i` with `x` changes the sum by the change in x's term. */
  lemma MoveQSumOldLabels(g: WGraph, comm: map<string, string>, i: string, x: string, u: real)
    requires ValidGraph(g) && Cover(g, comm) && i in g.nodes
    requires x in Labels(g.nodes, comm)
    ensures QSum(Labels(g.nodes, comm), g.nodes, g.edges, comm[i := x], u)
         == QSum(Labels(g.nodes, comm), g.nodes, g.edges, comm - {i}, u)
          + (Term(g.nodes, g.edges, comm[i := x], u, x) - Term(g.nodes, g.edges, comm - {i}, u, x))
  {
    var R := comm - {i};
    assert comm[i := x] == R[i := x];
    forall c | c != x
      ensures Term(g.nodes, g.edges, R, u, c) == Term(g.nodes, g.edges, R[i := x], u, c)
    {
      MoveKeepsOtherTerm(g, R, i, x, u, c);
    }
    QSumMove(Labels(g.nodes, comm), g.nodes, g.edges, R, R[i := x], u, x);
  }

  /** After the move the sum over the new labels equals the sum over the old ones. */
  lemma MoveQSumNewLabels(g: WGraph, comm: map<string, string>, i: string, x: string, u: real)
    requires ValidGraph(g) && Cover(g, comm) && i in g.nodes
    requires x in Labels(g.nodes, comm)
    ensures Cover(g, comm[i := x])
    ensures QSum(Labels(g.nodes, comm[i := x]), g.nodes, g.edges, comm[i := x], u)
         == QSum(Labels(g.nodes, comm), g.nodes, g.edges, comm[i := x], u)
  {
    var B := comm[i := x];
    var L := Labels(g.nodes, comm);
    LabelsAfterMove(g, comm, i, x);
    forall c | c in L && c !in Labels(g.nodes, B)
      ensures Term(g.nodes, g.edges, B, u, c) == 0.0
    {
      UnusedLabelTermZero(g, B, u, c);
    }
    QSumSuperset(L, Labels(g.nodes, B), g.nodes, g.edges, B, u);
  }

  /** The label sum after labelling `i` with `x`, for any scale `u`. */
  lemma MoveQSum(g: WGraph, comm: map<string, string>, i: string, x: string, u: real)
    requires ValidGraph(g) && Cover(g, comm) && i in g.nodes
    requires x in Labels(g.nodes, comm)
    ensures Cover(g, comm[i := x])
    ensures QSum(Labels(g.nodes, comm[i := x]), g.nodes, g.edges, comm[i := x], u)
         == MoveBase(g, comm, i, u)
          + GainAt(Kin(g.edges, comm - {i}, i, x), Deg(g.edges, i), CommDeg(g.nodes, g.edges, comm - {i}, x), u)
  {
    var R := comm - {i};
    var B := comm[i := x];
    var L := Labels(g.nodes, comm);
    MoveQSumNewLabels(g, comm, i, x, u);
    MoveQSumOldLabels(g, comm, i, x, u);
    assert B == R[i := x];
    MoveChangesOwnTerm(g, R, i, x, u);
    var tb := Term(g.nodes, g.edges, B, u, x);
    var tr := Term(g.nodes, g.edges, R, u, x);
    var qr := QSum(L, g.nodes, g.edges, R, u);
    assert A: QSum(Labels(g.nodes, B), g.nodes, g.edges, B, u) == qr + (tb - tr);
  }

  /**
   * Placing node `i` into an existing community `x` yields modularity
   * base + ΔQ(x): the gain decides the modularity difference between any two
   * destinations, which is why local moving never lowers Q.
   */
  lemma MoveModularity(g: WGraph, comm: map<string, string>, i: string, x: string)
    requires ValidGraph(g) && Cover(g, comm) && i in g.nodes && TotalWeight(g.edges) != 0.0
    requires x in Labels(g.nodes, comm)
    ensures Cover(g, comm[i := x])
    ensures Modularity(g, comm[i := x]) == MoveBase(g, comm, i, 1.0 / TotalWeight(g.edges)) + Gain(g, comm - {i}, i, x)
  {
    MoveQSum(g, comm, i, x, 1.0 / TotalWeight(g.edges));
  }

  /** Moving `i` from its community to `x` changes Q by ΔQ(x) − ΔQ(own community). */
  lemma MoveDifference(g: WGraph, comm: map<string, string>, i: string, x: string)
    requires ValidGraph(g) && Cover(g, comm) && i in g.nodes
    requires x in Labels(g.nodes, comm)
    ensures Cover(g, comm[i := x])
    ensures Modularity(g, comm[i := x]) - Modularity(g, comm)
         == Gain(g, comm - {i}, i, x) - Gain(g, comm - {i}, i, comm[i])
  {
    LabelsAfterMove(g, comm, i, x);
    if TotalWeight(g.edges) != 0.0 {
      var own := comm[i];
      MoveModularity(g, comm, i, x);
      MoveModularity(g, comm, i, own);
      SameLabel(comm, i);
    }
  }

  lemma SameLabel(comm: map<string, string>, i: string)
    requires i in comm
    ensures comm[i := comm[i]] == comm
  {
  }

  /**
   * What a stable node means for modularity: moving it to a neighbour label
   * whose gain is positive does not raise Q.
   */
  lemma StableNodeIsLocalOptimum(g: WGraph, comm: map<string, string>, i: string, c: string)
    requires ValidGraph(g) && Cover(g, comm) && i in g.nodes && Deg(g.edges, i) != 0.0
    requires NoGainingMove(g, comm, i)
    requires c in NeighbourLabels(g.edges, comm, i) && Gain(g, comm - {i}, i, c) > 0.0
    ensures Modularity(g, comm[i := c]) <= Modularity(g, comm)
  {
    var n :| n in comm && comm[n] == c;
    assert c in Labels(g.nodes, comm);
    MoveDifference(g, comm, i, c);
  }

  /* ------------------------------ split labels ------------------------------ */

  predicate AllDigits(s: string) {
    forall i :: 0 <= i < |s| ==> '0' <= s[i] <= '9'
  }

  /** The label `${c}~${idx}` given to piece `idx` of a split community. */
  function SplitLabel(c: string, idx: nat): string {
    c + "~" + NatToString(idx)
  }

  /** `a` has the shape of a piece label of community `c`. */
  predicate IsPieceOf(a: string, c: string) {
    |a| > |c| + 1 && a[..|c|] == c && a[|c|] == '~' && AllDigits(a[|c| + 1..])
  }

  lemma SplitLabelShape(c: string, idx: nat)
    ensures IsPieceOf(SplitLabel(c, idx), c)
  {
    var a := SplitLabel(c, idx);
    assert a[..|c|] == c;
    assert a[|c| + 1..] == NatToString(idx);
  }

  /** Position of the last `ch` in `s`, or −1. */
  function LastIndexOf(s: string, ch: char): (r: int)
    ensures -1 <= r < |s|
    decreases |s|
  {
    if s == [] then -1 else if s[|s| - 1] == ch then |s| - 1 else LastIndexOf(s[..|s| - 1], ch)
  }

  lemma {:induction false} LastIndexAfterDigits(c: string, d: string)
    requires AllDigits(d)
    ensures LastIndexOf(c + "~" + d, '~') == |c|
    decreases |d|
  {
    if d != [] {
      var init := d[..|d| - 1];
      LastIndexAfterDigits(c, init);
      assert (c + "~" + d)[..|c + "~" + d| - 1] == c + "~" + init;
    } else {
      assert c + "~" + d == c + "~";
    }
  }

  /** The value of a decimal digit string. */
  function DigitsValue(s: string): nat
    decreases |s|
  {
    if s == [] then 0
    else
      var v := s[|s| - 1] as int - '0' as int;
      10 * DigitsValue(s[..|s| - 1]) + (if 0 <= v < 10 then v else 0)
  }

  /** Reading back the decimal rendering gives the number. */
  lemma {:induction false} DigitsRoundTrip(n: nat)
    ensures DigitsValue(NatToString(n)) == n
    decreases n
  {
    var d := [('0' as int + n % 10) as char];
    if n < 10 {
      assert NatToString(n) == d;
      assert d[..0] == [];
    } else {
      DigitsRoundTrip(n / 10);
      var s := NatToString(n / 10) + d;
      assert NatToString(n) == s;
      assert s[..|s| - 1] == NatToString(n / 10);
    }
  }

  /** Two piece labels are equal only for the same community and the same index. */
  lemma SplitLabelInjective(c1: string, i1: nat, c2: string, i2: nat)
    requires SplitLabel(c1, i1) == SplitLabel(c2, i2)
    ensures c1 == c2 && i1 == i2
  {
    var a := SplitLabel(c1, i1);
    LastIndexAfterDigits(c1, NatToString(i1));
    LastIndexAfterDigits(c2, NatToString(i2));
    assert |c1| == |c2|;
    assert c1 == a[..|c1|] == c2;
    assert NatToString(i1) == a[|c1| + 1..] == NatToString(i2);
    DigitsRoundTrip(i1);
    DigitsRoundTrip(i2);
  }

  /** No label of `comm` looks like a piece label of another label of `comm`. */
  ghost predicate NoPieceClash(comm: map<string, string>) {
    forall a, b :: a in comm && b in comm ==> !IsPieceOf(comm[a], comm[b])
  }

  /** A string of the piece shape names the community it was cut from. */
  lemma PieceOfUnique(a: string, c1: string, c2: string)
    requires IsPieceOf(a, c1) && IsPieceOf(a, c2)
    ensures c1 == c2
  {
    assert a == c1 + "~" + a[|c1| + 1..];
    assert a == c2 + "~" + a[|c2| + 1..];
    LastIndexAfterDigits(c1, a[|c1| + 1..]);
    LastIndexAfterDigits(c2, a[|c2| + 1..]);
  }

  /* ------------------------------ the split step ------------------------------ */

  /** The nodes labelled `c`. */
  ghost function Class(g: WGraph, comm: map<string, string>, c: string): set<string> {
    set x | x in g.nodes && x in comm && comm[x] == c
  }

  /**
   * `comm` is what cutting every community of `comm0` into its connected
   * pieces gives: each node keeps its label or carries a piece label of it,
   * and two nodes of one community share a label exactly when they are
   * connected inside that community.
   */
  ghost predicate SplitOf(g: WGraph, comm0: map<string, string>, comm: map<string, string>)
    requires Cover(g, comm0)
  {
    && Cover(g, comm)
    && (forall n :: n in g.nodes ==> comm[n] == comm0[n] || IsPieceOf(comm[n], comm0[n]))
    && (forall a, b :: a in g.nodes && b in g.nodes && comm0[a] == comm0[b] ==>
          (comm[a] == comm[b] <==> Reach(g, Class(g, comm0, comm0[a]), a, b)))
  }

  /** Every label's nodes induce a connected subgraph. */
  ghost predicate LabelsConnected(g: WGraph, comm: map<string, string>)
    requires Cover(g, comm)
  {
    forall a, b :: a in g.nodes && b in g.nodes && comm[a] == comm[b] ==> Reach(g, Class(g, comm, comm[a]), a, b)
  }

  /** After the split, nodes sharing a label came from one community, provided no label was piece-shaped already. */
  lemma SplitRefines(g: WGraph, comm0: map<string, string>, comm: map<string, string>, a: string, b: string)
    requires Cover(g, comm0) && SplitOf(g, comm0, comm) && NoPieceClash(comm0)
    requires a in g.nodes && b in g.nodes && comm[a] == comm[b]
    ensures comm0[a] == comm0[b]
  {
    var lab := comm[a];
    if lab != comm0[a] && lab != comm0[b] {
      PieceOfUnique(lab, comm0[a], comm0[b]);
    }
  }

  /**
   * The split leaves every community connected (Leiden's guarantee), as long
   * as no label of the input already has the shape `<another label>~<digits>`.
   */
  lemma SplitIsConnected(g: WGraph, comm0: map<string, string>, comm: map<string, string>)
    requires Cover(g, comm0) && SplitOf(g, comm0, comm) && NoPieceClash(comm0)
    ensures LabelsConnected(g, comm)
  {
    forall a, b | a in g.nodes && b in g.nodes && comm[a] == comm[b]
      ensures Reach(g, Class(g, comm, comm[a]), a, b)
    {
      SplitRefines(g, comm0, comm, a, b);
      var S := Class(g, comm0, comm0[a]);
      var T := Class(g, comm, comm[a]);
      forall x | x in T
        ensures x in S
      {
        SplitRefines(g, comm0, comm, a, x);
      }
      ReachInside(g, S, T, a, b);
    }
  }
}
