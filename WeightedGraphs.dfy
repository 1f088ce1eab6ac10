/**
 * The undirected, simple, self-loop-allowing graphs the community code builds
 * with graphology (`{ type: 'undirected', multi: false, allowSelfLoops: true }`),
 * reduced to what the algorithms read: node keys in insertion order and edges
 * with an optional `weight` attribute (missing means 1). The edge sequence
 * stands for graphology's edge iteration order. Connectivity inside a node
 * set, and the connected components that `graphology-components` computes,
 * are defined here by paths and computed by a worklist search.
 */
module WeightedGraphs {
  import opened Common

  datatype WEdge = WEdge(s: string, t: string, w: Option<real>)

  datatype WGraph = WGraph(nodes: seq<string>, edges: seq<WEdge>)

  /** `attrs.weight ?? 1` */
  function W(e: WEdge): real {
    match e.w
    case Some(x) => x
    case None => 1.0
  }

  /** The edge links `a` and `b`, in either direction. */
  predicate Joins(e: WEdge, a: string, b: string) {
    (e.s == a && e.t == b) || (e.s == b && e.t == a)
  }

  predicate Incident(e: WEdge, n: string) {
    e.s == n || e.t == n
  }

  /** `s === n ? t : s` */
  function Other(e: WEdge, n: string): string {
    if e.s == n then e.t else e.s
  }

  predicate EndpointsIn(edges: seq<WEdge>, nodes: seq<string>) {
    forall k :: 0 <= k < |edges| ==> edges[k].s in nodes && edges[k].t in nodes
  }

  /** No two edges link the same pair of nodes. */
  predicate Simple(edges: seq<WEdge>) {
    forall k, l :: 0 <= k < l < |edges| ==> !Joins(edges[l], edges[k].s, edges[k].t)
  }

  /** Distinct node keys, edges between known nodes, no parallel edges. */
  predicate ValidGraph(g: WGraph) {
    Distinct(g.nodes) && EndpointsIn(g.edges, g.nodes) && Simple(g.edges)
  }

  predicate NonNegative(g: WGraph) {
    forall k :: 0 <= k < |g.edges| ==> W(g.edges[k]) >= 0.0
  }

  /** Sum of the edge weights, each edge counted once. */
  function TotalWeight(edges: seq<WEdge>): real
    decreases |edges|
  {
    if edges == [] then 0.0 else TotalWeight(edges[..|edges| - 1]) + W(edges[|edges| - 1])
  }

  /** What one edge adds to the degree of `n`: its weight per endpoint equal to `n`. */
  function Contribution(e: WEdge, n: string): real {
    (if e.s == n then W(e) else 0.0) + (if e.t == n then W(e) else 0.0)
  }

  /** Weighted degree; a self-loop counts twice. */
  function Deg(edges: seq<WEdge>, n: string): real
    decreases |edges|
  {
    if edges == [] then 0.0 else Deg(edges[..|edges| - 1], n) + Contribution(edges[|edges| - 1], n)
  }

  /** Sum of the degrees of a sequence of nodes. */
  function SumDeg(ns: seq<string>, edges: seq<WEdge>): real
    decreases |ns|
  {
    if ns == [] then 0.0 else SumDeg(ns[..|ns| - 1], edges) + Deg(edges, ns[|ns| - 1])
  }

  lemma NonNegativeDeg(edges: seq<WEdge>, n: string)
    requires forall k :: 0 <= k < |edges| ==> W(edges[k]) >= 0.0
    ensures Deg(edges, n) >= 0.0
    decreases |edges|
  {
    if edges != [] {
      NonNegativeDeg(edges[..|edges| - 1], n);
    }
  }

  /* ---------------- paths and connectivity inside a node set ---------------- */

  /** Some edge links `a` and `b`, both inside `S`: an edge of the subgraph induced by `S`. */
  ghost predicate Adjacent(g: WGraph, S: set<string>, a: string, b: string) {
    a in S && b in S && exists k :: 0 <= k < |g.edges| && Joins(g.edges[k], a, b)
  }

  ghost predicate IsPath(g: WGraph, S: set<string>, p: seq<string>) {
    |p| >= 1
    && (forall i :: 0 <= i < |p| ==> p[i] in S)
    && (forall i :: 0 <= i < |p| - 1 ==> Adjacent(g, S, p[i], p[i + 1]))
  }

  /** `b` can be reached from `a` inside the subgraph induced by `S`. */
  ghost predicate Reach(g: WGraph, S: set<string>, a: string, b: string) {
    exists p :: IsPath(g, S, p) && p[0] == a && p[|p| - 1] == b
  }

  /** The subgraph induced by `S` is connected. */
  ghost predicate Connected(g: WGraph, S: set<string>) {
    forall a, b :: a in S && b in S ==> Reach(g, S, a, b)
  }

  lemma ReachRefl(g: WGraph, S: set<string>, a: string)
    requires a in S
    ensures Reach(g, S, a, a)
  {
    assert IsPath(g, S, [a]);
  }

  lemma AdjacentSym(g: WGraph, S: set<string>, a: string, b: string)
    requires Adjacent(g, S, a, b)
    ensures Adjacent(g, S, b, a)
  {
    var k :| 0 <= k < |g.edges| && Joins(g.edges[k], a, b);
    assert Joins(g.edges[k], b, a);
  }

  lemma ReachStep(g: WGraph, S: set<string>, a: string, b: string, c: string)
    requires Reach(g, S, a, b) && Adjacent(g, S, b, c)
    ensures Reach(g, S, a, c)
  {
    var p :| IsPath(g, S, p) && p[0] == a && p[|p| - 1] == b;
    var q := p + [c];
    assert forall i :: 0 <= i < |q| - 1 ==> q[i] == p[i];
    assert IsPath(g, S, q);
  }

  lemma ReachSym(g: WGraph, S: set<string>, a: string, b: string)
    requires Reach(g, S, a, b)
    ensures Reach(g, S, b, a)
  {
    var p :| IsPath(g, S, p) && p[0] == a && p[|p| - 1] == b;
    var q := seq(|p|, i requires 0 <= i < |p| => p[|p| - 1 - i]);
    forall i | 0 <= i < |q| - 1
      ensures Adjacent(g, S, q[i], q[i + 1])
    {
      AdjacentSym(g, S, p[|p| - 2 - i], p[|p| - 1 - i]);
    }
    assert IsPath(g, S, q);
  }

  lemma ReachSymIff(g: WGraph, S: set<string>, a: string, b: string)
    ensures Reach(g, S, a, b) <==> Reach(g, S, b, a)
  {
    if Reach(g, S, a, b) {
      ReachSym(g, S, a, b);
    }
    if Reach(g, S, b, a) {
      ReachSym(g, S, b, a);
    }
  }

  lemma ReachTrans(g: WGraph, S: set<string>, a: string, b: string, c: string)
    requires Reach(g, S, a, b) && Reach(g, S, b, c)
    ensures Reach(g, S, a, c)
  {
    var p :| IsPath(g, S, p) && p[0] == a && p[|p| - 1] == b;
    var q :| IsPath(g, S, q) && q[0] == b && q[|q| - 1] == c;
    var r := p + q[1..];
    forall i | 0 <= i < |r| - 1
      ensures Adjacent(g, S, r[i], r[i + 1])
    {
      if i < |p| - 1 {
        assert r[i] == p[i] && r[i + 1] == p[i + 1];
      } else {
        assert r[i] == q[i - |p| + 1] && r[i + 1] == q[i - |p| + 2];
      }
    }
    assert IsPath(g, S, r);
  }

  /**
   * A path inside `S` from `a` never leaves a subset `T` that holds everything
   * `a` reaches in `S`, so it is a path inside `T` as well.
   */
  lemma ReachInside(g: WGraph, S: set<string>, T: set<string>, a: string, b: string)
    requires T <= S && Reach(g, S, a, b)
    requires forall x :: x in S && Reach(g, S, a, x) ==> x in T
    ensures Reach(g, T, a, b)
  {
    var p :| IsPath(g, S, p) && p[0] == a && p[|p| - 1] == b;
    forall i | 0 <= i < |p|
      ensures p[i] in T
    {
      var q := p[..i + 1];
      assert IsPath(g, S, q) && q[0] == a && q[|q| - 1] == p[i];
    }
    forall i | 0 <= i < |p| - 1
      ensures Adjacent(g, T, p[i], p[i + 1])
    {
      assert Adjacent(g, S, p[i], p[i + 1]);
    }
    assert IsPath(g, T, p);
  }

  /** No edge of the induced subgraph leaves `R`. */
  ghost predicate Closed(g: WGraph, S: set<string>, R: set<string>) {
    forall v, u :: v in R && Adjacent(g, S, v, u) ==> u in R
  }

  /** Whatever is reachable from inside a closed set lies inside it. */
  lemma ClosedReach(g: WGraph, S: set<string>, R: set<string>, a: string, b: string)
    requires Closed(g, S, R) && a in R && Reach(g, S, a, b)
    ensures b in R
  {
    var p :| IsPath(g, S, p) && p[0] == a && p[|p| - 1] == b;
    var i := 0;
    while i < |p| - 1
      invariant 0 <= i <= |p| - 1 && p[i] in R
    {
      assert Adjacent(g, S, p[i], p[i + 1]);
      i := i + 1;
    }
  }

  /** The nodes of `S` reachable from `start` inside `S`, by a worklist search. */
  method ReachableSet(g: WGraph, S: set<string>, start: string) returns (R: set<string>)
    requires start in S
    ensures R == set b | b in S && Reach(g, S, start, b)
  {
    ReachRefl(g, S, start);
    R := {start};
    var work := [start];
    while work != []
      invariant R <= S && start in R
      invariant forall b :: b in R ==> Reach(g, S, start, b)
      invariant forall x :: x in work ==> x in R
      invariant forall v, u :: v in R && v !in work && Adjacent(g, S, v, u) ==> u in R
      decreases |S - R|, |work|
    {
      var v := work[|work| - 1];
      var rest := work[..|work| - 1];
      assert forall x :: x in work ==> x in rest || x == v;
      ghost var R0 := R;
      R, work := AddNeighbours(g, S, v, R, rest);
      forall u | u in R - R0
        ensures Reach(g, S, start, u)
      {
        ReachStep(g, S, start, v, u);
      }
      if R != R0 {
        CardProperSubset(S - R, S - R0);
      }
    }
    assert Closed(g, S, R);
    forall b | b in S && Reach(g, S, start, b)
      ensures b in R
    {
      ClosedReach(g, S, R, start, b);
    }
  }

  lemma CardSubset<T>(A: set<T>, B: set<T>)
    requires A <= B
    ensures |A| <= |B|
    decreases |A|
  {
    if A != {} {
      var x :| x in A;
      CardSubset(A - {x}, B - {x});
    }
  }

  lemma CardProperSubset<T>(A: set<T>, B: set<T>)
    requires A < B
    ensures |A| < |B|
  {
    assert B - A != {};
    var x :| x in B - A;
    CardSubset(A, B - {x});
  }

  /** One step of the search: every neighbour of `v` inside `S` not yet found is found and queued. */
  method AddNeighbours(g: WGraph, S: set<string>, v: string, R0: set<string>, work0: seq<string>)
    returns (R: set<string>, work: seq<string>)
    requires v in S && R0 <= S
    ensures R0 <= R <= S
    ensures forall x :: x in work <==> x in work0 || x in R - R0
    ensures R == R0 ==> work == work0
    ensures forall u :: Adjacent(g, S, v, u) ==> u in R
    ensures forall u :: u in R - R0 ==> Adjacent(g, S, v, u)
  {
    R, work := R0, work0;
    var k := 0;
    while k < |g.edges|
      invariant 0 <= k <= |g.edges|
      invariant R0 <= R <= S
      invariant forall x :: x in work <==> x in work0 || x in R - R0
      invariant R == R0 ==> work == work0
      invariant forall u :: u in R - R0 ==> Adjacent(g, S, v, u)
      invariant forall j :: 0 <= j < k && Incident(g.edges[j], v) && Other(g.edges[j], v) in S ==> Other(g.edges[j], v) in R
    {
      var e := g.edges[k];
      if Incident(e, v) {
        var u := Other(e, v);
        if u in S && u !in R {
          assert Joins(e, v, u);
          R := R + {u};
          work := work + [u];
        }
      }
      k := k + 1;
    }
    forall u | Adjacent(g, S, v, u)
      ensures u in R
    {
      var j :| 0 <= j < |g.edges| && Joins(g.edges[j], v, u);
      assert Incident(g.edges[j], v) && Other(g.edges[j], v) == u;
    }
  }

  /** A partition of the nodes `ns` into connected pieces with no edge between two pieces. */
  ghost predicate IsComponents(g: WGraph, ns: seq<string>, comps: seq<seq<string>>) {
    var S := set x | x in ns;
    PartialComponents(g, ns, comps, S)
  }

  /** `comps` are components of the subgraph induced by `ns`, and together they cover `seen`. */
  ghost predicate PartialComponents(g: WGraph, ns: seq<string>, comps: seq<seq<string>>, seen: set<string>) {
    var S := set x | x in ns;
    (forall i :: 0 <= i < |comps| ==> comps[i] != [] && Distinct(comps[i]))
    && (forall i, x :: 0 <= i < |comps| && x in comps[i] ==> x in seen)
    && (forall x :: x in seen ==> x in ns && exists i :: 0 <= i < |comps| && x in comps[i])
    && (forall i, j, x :: 0 <= i < j < |comps| && x in comps[i] ==> x !in comps[j])
    && (forall i, x, y :: 0 <= i < |comps| && x in comps[i] && y in comps[i] ==> Reach(g, S, x, y))
    && (forall i, x, y :: 0 <= i < |comps| && x in comps[i] && y in S && Reach(g, S, x, y) ==> y in comps[i])
  }

  /** The position of `x` in `ns`, or `|ns|` when it does not occur. */
  function Pos(ns: seq<string>, x: string): (k: nat)
    ensures k <= |ns| && (k < |ns| ==> ns[k] == x) && (x in ns ==> k < |ns|)
  {
    if ns == [] then 0 else if ns[0] == x then 0 else 1 + Pos(ns[1..], x)
  }

  /** In a duplicate-free list the node at position `k` is at position `k`. */
  lemma PosAt(ns: seq<string>, k: nat)
    requires Distinct(ns) && k < |ns|
    ensures Pos(ns, ns[k]) == k
  {
  }

  /**
   * The order of `connectedComponents`: each piece starts with its earliest
   * node in `ns`, and the pieces come in the order of those first nodes.
   */
  ghost predicate InNodeOrder(ns: seq<string>, comps: seq<seq<string>>) {
    (forall c, x :: 0 <= c < |comps| && x in comps[c] ==> Pos(ns, comps[c][0]) <= Pos(ns, x))
    && (forall c, d :: 0 <= c < d < |comps| && comps[c] != [] && comps[d] != [] ==>
          Pos(ns, comps[c][0]) < Pos(ns, comps[d][0]))
  }

  /**
   * `connectedComponents` on the subgraph induced by `ns`: one piece per
   * reachability class, pieces ordered by their first node in `ns` and members
   * listed in the order of `ns`.
   */
  method Components(g: WGraph, ns: seq<string>) returns (comps: seq<seq<string>>)
    requires Distinct(ns)
    ensures IsComponents(g, ns, comps)
    ensures InNodeOrder(ns, comps)
    ensures |comps| <= |ns|
    ensures ns == [] <==> comps == []
  {
    var S := set x | x in ns;
    comps := [];
    var seen: set<string> := {};
    var i := 0;
    while i < |ns|
      invariant i <= |ns| && Scanned(g, ns, comps, seen, i)
    {
      var n := ns[i];
      if n !in seen {
        var R := ReachableSet(g, S, n);
        var comp := Filter(ns, x => x in R);
        ScanNew(g, ns, S, comps, seen, i, R, comp);
        comps := comps + [comp];
        seen := seen + R;
      }
      i := i + 1;
    }
    ScanDone(g, ns, comps, seen);
  }

  /** After the first `i` nodes: the pieces found so far, in order, cover `seen`, which holds those nodes. */
  ghost predicate Scanned(g: WGraph, ns: seq<string>, comps: seq<seq<string>>, seen: set<string>, i: nat) {
    && Distinct(ns)
    && (forall j :: 0 <= j < i && j < |ns| ==> ns[j] in seen)
    && |comps| <= i
    && (i > 0 ==> comps != [])
    && PartialComponents(g, ns, comps, seen)
    && InNodeOrder(ns, comps) && HeadsBefore(ns, comps, i)
  }

  /** A node not yet seen starts the next piece: the nodes it reaches, in node order. */
  lemma ScanNew(g: WGraph, ns: seq<string>, S: set<string>, comps: seq<seq<string>>, seen: set<string>,
                i: nat, R: set<string>, comp: seq<string>)
    requires i < |ns| && Scanned(g, ns, comps, seen, i) && ns[i] !in seen && S == set x | x in ns
    requires R == set b | b in S && Reach(g, S, ns[i], b)
    requires comp == Filter(ns, x => x in R)
    ensures Scanned(g, ns, comps + [comp], seen + R, i + 1)
  {
    ReachRefl(g, S, ns[i]);
    AddComponent(g, ns, S, comps, seen, ns[i], R, comp);
    StartNext(g, ns, S, comps, seen, i, R, comp);
    HeadsSnoc(ns, comps, i, comp);
  }

  /** Once every node is scanned, the pieces are the components of `ns`. */
  lemma ScanDone(g: WGraph, ns: seq<string>, comps: seq<seq<string>>, seen: set<string>)
    requires Scanned(g, ns, comps, seen, |ns|)
    ensures IsComponents(g, ns, comps) && InNodeOrder(ns, comps)
    ensures |comps| <= |ns| && (ns == [] <==> comps == [])
  {
    assert seen == set x | x in ns;
  }

  /** Every piece begins with a node before position `i`. */
  ghost predicate HeadsBefore(ns: seq<string>, comps: seq<seq<string>>, i: nat) {
    forall c :: 0 <= c < |comps| && comps[c] != [] ==> Pos(ns, comps[c][0]) < i
  }

  /** A piece that begins with `ns[i]` and holds no earlier node keeps the order. */
  lemma HeadsSnoc(ns: seq<string>, comps: seq<seq<string>>, i: nat, comp: seq<string>)
    requires Distinct(ns) && InNodeOrder(ns, comps) && HeadsBefore(ns, comps, i) && i < |ns|
    requires comp != [] && comp[0] == ns[i] && forall p :: 0 <= p < i ==> ns[p] !in comp
    ensures InNodeOrder(ns, comps + [comp]) && HeadsBefore(ns, comps + [comp], i + 1)
  {
    var comps' := comps + [comp];
    assert comps'[|comps|] == comp;
    assert forall c :: 0 <= c < |comps| ==> comps'[c] == comps[c];
    PosAt(ns, i);
    assert forall x :: x in comp ==> i <= Pos(ns, x);
  }

  /** The piece started at an unseen `ns[i]` begins with it and holds no earlier node. */
  lemma StartNext(g: WGraph, ns: seq<string>, S: set<string>, comps: seq<seq<string>>, seen: set<string>,
                  i: nat, R: set<string>, comp: seq<string>)
    requires Distinct(ns) && i < |ns| && ns[i] !in seen && S == set x | x in ns
    requires forall j :: 0 <= j < i ==> ns[j] in seen
    requires PartialComponents(g, ns, comps, seen)
    requires R == set b | b in S && Reach(g, S, ns[i], b)
    requires comp == Filter(ns, x => x in R)
    ensures comp != [] && comp[0] == ns[i] && forall p :: 0 <= p < i ==> ns[p] !in comp
  {
    NewComponent(g, ns, S, comps, seen, ns[i], R, comp);
    ReachRefl(g, S, ns[i]);
    forall j | 0 <= j < i
      ensures ns[j] !in R
    {
      assert ns[j] in seen;
      var c :| 0 <= c < |comps| && ns[j] in comps[c];
      assert ns[j] !in comp;
    }
    FilterFirst(ns, x => x in R, i);
  }

  /** Adding the reachability class of a node not yet seen keeps `PartialComponents`. */
  lemma AddComponent(g: WGraph, ns: seq<string>, S: set<string>, comps: seq<seq<string>>, seen: set<string>,
                     n: string, R: set<string>, comp: seq<string>)
    requires Distinct(ns) && n in ns && n !in seen && S == set x | x in ns
    requires PartialComponents(g, ns, comps, seen)
    requires R == set b | b in S && Reach(g, S, n, b)
    requires comp == Filter(ns, x => x in R)
    ensures PartialComponents(g, ns, comps + [comp], seen + R)
  {
    NewComponent(g, ns, S, comps, seen, n, R, comp);
    var comps' := comps + [comp];
    assert forall i :: 0 <= i < |comps| ==> comps'[i] == comps[i];
    assert comps'[|comps|] == comp;
    forall x | x in seen + R
      ensures exists c :: 0 <= c < |comps'| && x in comps'[c]
    {
      if x in R {
        assert x in comps'[|comps|];
      } else {
        var c :| 0 <= c < |comps| && x in comps[c];
        assert x in comps'[c];
      }
    }
  }

  /** The new piece: non-empty, duplicate-free, exactly `R`, connected, closed and disjoint from the old pieces. */
  lemma NewComponent(g: WGraph, ns: seq<string>, S: set<string>, comps: seq<seq<string>>, seen: set<string>,
                     n: string, R: set<string>, comp: seq<string>)
    requires Distinct(ns) && n in ns && n !in seen && S == set x | x in ns
    requires PartialComponents(g, ns, comps, seen)
    requires R == set b | b in S && Reach(g, S, n, b)
    requires comp == Filter(ns, x => x in R)
    ensures comp != [] && Distinct(comp)
    ensures forall x :: x in comp <==> x in R
    ensures forall x, y :: x in comp && y in comp ==> Reach(g, S, x, y)
    ensures forall x, y :: x in comp && y in S && Reach(g, S, x, y) ==> y in comp
    ensures forall c, x :: 0 <= c < |comps| && x in comps[c] ==> x !in comp
  {
    FilterDistinct(ns, x => x in R);
    ReachRefl(g, S, n);
    assert n in comp;
    forall x, y | x in comp && y in comp
      ensures Reach(g, S, x, y)
    {
      ReachSym(g, S, n, x);
      ReachTrans(g, S, x, n, y);
    }
    forall x, y | x in comp && y in S && Reach(g, S, x, y)
      ensures y in comp
    {
      ReachTrans(g, S, n, x, y);
    }
    forall c, x | 0 <= c < |comps| && x in comps[c]
      ensures x !in comp
    {
      ReachSymIff(g, S, n, x);
    }
  }

  /** A list of at most one node has no piece, or the single piece holding that node. */
  lemma SmallComponents(g: WGraph, ns: seq<string>)
    requires |ns| <= 1
    ensures IsComponents(g, ns, if ns == [] then [] else [ns])
    ensures InNodeOrder(ns, if ns == [] then [] else [ns])
  {
    var S := set x | x in ns;
    if ns != [] {
      var x0 := ns[0];
      assert ns == [x0];
      assert forall x :: x in S <==> x == x0;
      ReachRefl(g, S, x0);
      var comps := [ns];
      assert comps[0] == ns && Distinct(ns);
      assert forall x :: x in S ==> x in comps[0];
      assert forall i, x, y :: 0 <= i < |comps| && x in comps[i] && y in comps[i] ==> Reach(g, S, x, y);
      assert PartialComponents(g, ns, comps, S);
    } else {
      assert PartialComponents(g, ns, [], S);
    }
  }

  /** Every node of `ns` lies in some piece. */
  lemma InSomePiece(g: WGraph, ns: seq<string>, comps: seq<seq<string>>, x: string)
    requires IsComponents(g, ns, comps) && x in ns
    ensures exists i :: 0 <= i < |comps| && x in comps[i]
  {
    var S := set z | z in ns;
    assert PartialComponents(g, ns, comps, S);
    assert x in S;
  }

  /** `x` comes no later in `ns` than any node that reaches it inside `ns`. */
  ghost predicate Earliest(g: WGraph, ns: seq<string>, x: string) {
    forall y :: y in ns && Reach(g, (set z | z in ns), y, x) ==> Pos(ns, x) <= Pos(ns, y)
  }

  /** A member of a piece is its first member exactly when it is the earliest node of its class. */
  lemma HeadIff(g: WGraph, ns: seq<string>, comps: seq<seq<string>>, c: nat, x: string)
    requires IsComponents(g, ns, comps) && InNodeOrder(ns, comps)
    requires c < |comps| && x in comps[c]
    ensures x == comps[c][0] <==> Earliest(g, ns, x)
  {
    var S := set z | z in ns;
    assert PartialComponents(g, ns, comps, S);
    var h := comps[c][0];
    assert h in comps[c];
    if x == h {
      forall y | y in ns && Reach(g, S, y, x)
        ensures Pos(ns, x) <= Pos(ns, y)
      {
        ReachSym(g, S, y, x);
        assert y in S;
      }
    } else {
      assert h in ns && x in ns && Reach(g, S, h, x);
      assert Pos(ns, h) != Pos(ns, x);
    }
  }

  /** Two orderings of the components of one node list have the same first member at each position. */
  lemma {:induction false} HeadsAgree(g: WGraph, ns: seq<string>, c1: seq<seq<string>>, c2: seq<seq<string>>, i: nat)
    requires IsComponents(g, ns, c1) && InNodeOrder(ns, c1)
    requires IsComponents(g, ns, c2) && InNodeOrder(ns, c2)
    requires i < |c1| && i < |c2|
    ensures c1[i][0] == c2[i][0]
    decreases i
  {
    PieceHead(g, ns, c1, i);
    PieceHead(g, ns, c2, i);
    var h1, h2 := c1[i][0], c2[i][0];
    HeadIff(g, ns, c1, i, h1);
    HeadIff(g, ns, c2, i, h2);
    InSomePiece(g, ns, c2, h1);
    var j :| 0 <= j < |c2| && h1 in c2[j];
    HeadIff(g, ns, c2, j, h1);
    InSomePiece(g, ns, c1, h2);
    var k :| 0 <= k < |c1| && h2 in c1[k];
    HeadIff(g, ns, c1, k, h2);
    if j < i {
      HeadsDiffer(g, ns, c1, j, i);
      HeadsAgree(g, ns, c1, c2, j);
      assert false;
    } else if k < i {
      HeadsDiffer(g, ns, c2, k, i);
      HeadsAgree(g, ns, c1, c2, k);
      assert false;
    }
  }

  /** Each piece is non-empty and starts with a node of `ns`. */
  lemma PieceHead(g: WGraph, ns: seq<string>, comps: seq<seq<string>>, i: nat)
    requires IsComponents(g, ns, comps) && i < |comps|
    ensures comps[i] != [] && comps[i][0] in comps[i] && comps[i][0] in ns
  {
    var S := set z | z in ns;
    assert PartialComponents(g, ns, comps, S);
  }

  /** Different pieces start with different nodes. */
  lemma HeadsDiffer(g: WGraph, ns: seq<string>, comps: seq<seq<string>>, i: nat, j: nat)
    requires IsComponents(g, ns, comps) && i < j < |comps|
    ensures comps[i] != [] && comps[j] != [] && comps[i][0] != comps[j][0]
  {
    var S := set z | z in ns;
    assert PartialComponents(g, ns, comps, S);
    assert comps[i][0] in comps[i];
  }

  /** The first ordering has no more pieces than the second. */
  lemma CountAgrees(g: WGraph, ns: seq<string>, c1: seq<seq<string>>, c2: seq<seq<string>>)
    requires IsComponents(g, ns, c1) && InNodeOrder(ns, c1)
    requires IsComponents(g, ns, c2) && InNodeOrder(ns, c2)
    ensures |c1| <= |c2|
  {
    if |c1| > |c2| {
      var S := set z | z in ns;
      assert PartialComponents(g, ns, c1, S) && PartialComponents(g, ns, c2, S);
      var i := |c2|;
      var h := c1[i][0];
      assert h in c1[i];
      HeadIff(g, ns, c1, i, h);
      var j :| 0 <= j < |c2| && h in c2[j];
      HeadIff(g, ns, c2, j, h);
      HeadsAgree(g, ns, c1, c2, j);
      assert false;
    }
  }

  /**
   * The order `connectedComponents` keeps fixes the pieces: two orderings of the
   * components of one node list have the same pieces, with the same first
   * member, at every position. Only the order of later members may differ.
   */
  lemma ComponentsUnique(g: WGraph, ns: seq<string>, c1: seq<seq<string>>, c2: seq<seq<string>>)
    requires IsComponents(g, ns, c1) && InNodeOrder(ns, c1)
    requires IsComponents(g, ns, c2) && InNodeOrder(ns, c2)
    ensures |c1| == |c2|
    ensures forall i :: 0 <= i < |c1| ==> c1[i][0] == c2[i][0]
    ensures forall i, x :: 0 <= i < |c1| ==> (x in c1[i] <==> x in c2[i])
  {
    CountAgrees(g, ns, c1, c2);
    CountAgrees(g, ns, c2, c1);
    var S := set z | z in ns;
    assert PartialComponents(g, ns, c1, S) && PartialComponents(g, ns, c2, S);
    forall i | 0 <= i < |c1|
      ensures c1[i][0] == c2[i][0]
    {
      HeadsAgree(g, ns, c1, c2, i);
    }
    forall i, x | 0 <= i < |c1|
      ensures x in c1[i] <==> x in c2[i]
    {
      HeadsAgree(g, ns, c1, c2, i);
      var h := c1[i][0];
      assert h in c1[i] && h in c2[i];
      if x in c1[i] {
        assert x in S && Reach(g, S, h, x);
      }
      if x in c2[i] {
        assert x in S && Reach(g, S, h, x);
      }
    }
  }

  /** A non-empty node set is connected exactly when it forms a single component. */
  lemma OneComponentIffConnected(g: WGraph, ns: seq<string>, comps: seq<seq<string>>)
    requires IsComponents(g, ns, comps) && ns != []
    ensures |comps| == 1 <==> Connected(g, set x | x in ns)
  {
    var S := set x | x in ns;
    assert ns[0] in ns;
    var i0 :| 0 <= i0 < |comps| && ns[0] in comps[i0];
    if |comps| == 1 {
      forall a, b | a in S && b in S
        ensures Reach(g, S, a, b)
      {
        assert a in ns && b in ns;
        assert a in comps[0] && b in comps[0];
      }
    } else {
      var a, b := comps[0][0], comps[1][0];
      assert b !in comps[0];
      assert !Reach(g, S, a, b);
      assert a in S && b in S;
    }
  }
}
