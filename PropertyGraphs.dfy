/**
 * The attributed graph the extraction pipeline builds with graphology's
 * default `Graph` and then resolves, indexes and reports on. Nodes are keys
 * in insertion order with an attribute object each; edges are kept in
 * insertion order with their endpoints, a generated key and an attribute
 * object. No two edges join the same two nodes. The resolver and the report
 * extractor are modelled as reading edges both ways (`HasEdge`,
 * `DropEdgeData`); graphology's directed `hasEdge`, `getEdgeAttributes` and
 * `dropEdge` are modelled beside them (`HasArc`, `DropArcData`).
 */
module PropertyGraphs {
  import opened Common

  /**
   * An attribute object: the fields the pipeline writes on nodes
   * (`entity_name`, `entity_type`, `description`, `source_id`,
   * `communities`) and on edges (`src_id`, `tgt_id`, `description`,
   * `keywords`, `weight`, `source_id`). A field that is not set is `None`;
   * `source_id` is always a list.
   */
  datatype Attrs = Attrs(entityName: Option<string>, entityType: Option<string>, description: Option<string>,
                         sourceIds: seq<string>, srcId: Option<string>, tgtId: Option<string>,
                         keywords: Option<string>, weight: Option<real>, communities: Option<seq<string>>)

  /** The attribute object with no field set but an empty `source_id`. */
  function NoAttrs(): Attrs {
    Attrs(None, None, None, [], None, None, None, None, None)
  }

  /** `${x}` of an optional attribute: a missing one renders as "undefined". */
  function Render(d: Option<string>): string {
    match d
    case Some(s) => s
    case None => "undefined"
  }

  /** An edge: its generated key (a counter here), its endpoints and its attributes. */
  datatype Edge = Edge(key: nat, source: string, target: string, attrs: Attrs)

  /** The whole state of a graph; `nextKey` numbers the next edge added. */
  datatype GraphData = GraphData(nodes: seq<string>, attrs: map<string, Attrs>, edges: seq<Edge>, nextKey: nat)

  /** The edge links `a` and `b`, in either direction. */
  predicate Joins(e: Edge, a: string, b: string) {
    (e.source == a && e.target == b) || (e.source == b && e.target == a)
  }

  predicate Incident(e: Edge, n: string) {
    e.source == n || e.target == n
  }

  /** The far end of an edge seen from `n`. */
  function Other(e: Edge, n: string): string {
    if e.source == n then e.target else e.source
  }

  /** Two edges in this order: increasing keys, and not joining the same pair. */
  predicate Apart(e: Edge, f: Edge) {
    e.key < f.key && !Joins(f, e.source, e.target)
  }

  predicate Pairwise(es: seq<Edge>) {
    forall k, l :: 0 <= k < l < |es| ==> Apart(es[k], es[l])
  }

  /**
   * Node keys distinct and in step with the attribute map, edges between
   * known nodes with increasing keys below `nextKey`, and no two edges
   * joining the same pair.
   */
  ghost predicate WellFormed(g: GraphData) {
    && Distinct(g.nodes)
    && (forall n :: n in g.attrs <==> n in g.nodes)
    && (forall e :: e in g.edges ==> e.source in g.attrs && e.target in g.attrs && e.key < g.nextKey)
    && Pairwise(g.edges)
  }

  lemma PairwiseSnoc(es: seq<Edge>, x: Edge)
    requires Pairwise(es) && forall e :: e in es ==> Apart(e, x)
    ensures Pairwise(es + [x])
  {
    var r := es + [x];
    forall k, l | 0 <= k < l < |r|
      ensures Apart(r[k], r[l])
    {
      if l == |es| {
        assert r[k] in es;
      }
    }
  }

  lemma PairwiseDelete(es: seq<Edge>, i: nat)
    requires Pairwise(es) && i < |es|
    ensures Pairwise(es[..i] + es[i + 1..])
  {
    var r := es[..i] + es[i + 1..];
    forall k, l | 0 <= k < l < |r|
      ensures Apart(r[k], r[l])
    {
      var k' := if k < i then k else k + 1;
      var l' := if l < i then l else l + 1;
      assert r[k] == es[k'] && r[l] == es[l'];
    }
  }

  /** The position of the edge joining `a` and `b`. */
  function EdgeIndex(edges: seq<Edge>, a: string, b: string): (r: Option<nat>)
    ensures r.Some? ==> r.value < |edges| && Joins(edges[r.value], a, b)
    ensures r.None? ==> forall k :: 0 <= k < |edges| ==> !Joins(edges[k], a, b)
    decreases |edges|
  {
    if edges == [] then None
    else if Joins(edges[|edges| - 1], a, b) then Some(|edges| - 1)
    else EdgeIndex(edges[..|edges| - 1], a, b)
  }

  /** `graph.hasEdge(a, b)` read both ways: an edge joins `a` and `b` in either direction. */
  predicate HasEdge(g: GraphData, a: string, b: string) {
    EdgeIndex(g.edges, a, b).Some?
  }

  /** Some edge joins the two nodes. */
  ghost predicate Joined(g: GraphData, a: string, b: string) {
    exists f :: f in g.edges && Joins(f, a, b)
  }

  /** `hasEdge` holds exactly when some edge joins the two nodes. */
  lemma HasEdgeIff(g: GraphData, a: string, b: string)
    ensures HasEdge(g, a, b) <==> Joined(g, a, b)
  {
    match EdgeIndex(g.edges, a, b)
    case Some(i) =>
      assert g.edges[i] in g.edges;
    case None =>
  }

  /** Dropping the edge joining `a` and `b` keeps every edge that does not join them. */
  lemma DropEdgeKeeps(g: GraphData, a: string, b: string, f: Edge)
    requires f in g.edges && !Joins(f, a, b)
    ensures f in DropEdgeData(g, a, b).edges
  {
    match EdgeIndex(g.edges, a, b)
    case None =>
    case Some(i) =>
      var k :| 0 <= k < |g.edges| && g.edges[k] == f;
      if k < i {
        assert g.edges[..i][k] == f;
      } else {
        assert k > i;
        assert g.edges[i + 1..][k - i - 1] == f;
      }
  }

  /** The edges at `n`, in edge order. */
  function IncidentEdges(edges: seq<Edge>, n: string): (r: seq<Edge>)
    ensures |r| <= |edges|
    ensures forall k :: 0 <= k < |r| ==> Incident(r[k], n) && r[k] in edges
    ensures forall e :: e in edges && Incident(e, n) ==> e in r
    decreases |edges|
  {
    if edges == [] then []
    else
      var last := edges[|edges| - 1];
      IncidentEdges(edges[..|edges| - 1], n) + (if Incident(last, n) then [last] else [])
  }

  /** The edges that do not touch `n`, in edge order. */
  function EdgesAvoiding(edges: seq<Edge>, n: string): (r: seq<Edge>)
    ensures |r| <= |edges|
    ensures forall k :: 0 <= k < |r| ==> !Incident(r[k], n) && r[k] in edges
    ensures forall e :: e in edges && !Incident(e, n) ==> e in r
    decreases |edges|
  {
    if edges == [] then []
    else
      var last := edges[|edges| - 1];
      EdgesAvoiding(edges[..|edges| - 1], n) + (if Incident(last, n) then [] else [last])
  }

  /** `graph.dropEdge(a, b)` read both ways: the edge joining them is removed, the others keep their order. */
  function DropEdgeData(g: GraphData, a: string, b: string): (r: GraphData)
    ensures r.nodes == g.nodes && r.attrs == g.attrs && r.nextKey == g.nextKey
    ensures HasEdge(g, a, b) ==> |r.edges| == |g.edges| - 1
    ensures forall e :: e in r.edges ==> e in g.edges
  {
    match EdgeIndex(g.edges, a, b)
    case None => g
    case Some(i) => g.(edges := g.edges[..i] + g.edges[i + 1..])
  }

  // ---------------------------------------------------------------------
  // The directed reading. `addEdge` on graphology's default mixed graph adds
  // a directed edge, and on directed edges `hasEdge(a, b)`,
  // `getEdgeAttributes(a, b)` and `dropEdge(a, b)` find only an edge running
  // from `a` to `b`. The functions above read every edge both ways.

  /** The edge runs from `a` to `b`. */
  predicate Runs(e: Edge, a: string, b: string) {
    e.source == a && e.target == b
  }

  /** The position of the edge running from `a` to `b`. */
  function ArcIndex(edges: seq<Edge>, a: string, b: string): (r: Option<nat>)
    ensures r.Some? ==> r.value < |edges| && Runs(edges[r.value], a, b)
    ensures r.None? ==> forall k :: 0 <= k < |edges| ==> !Runs(edges[k], a, b)
    decreases |edges|
  {
    if edges == [] then None
    else if Runs(edges[|edges| - 1], a, b) then Some(|edges| - 1)
    else ArcIndex(edges[..|edges| - 1], a, b)
  }

  /** graphology's `graph.hasEdge(a, b)` on directed edges. */
  predicate HasArc(g: GraphData, a: string, b: string) {
    ArcIndex(g.edges, a, b).Some?
  }

  /** Some edge runs from `a` to `b`. */
  ghost predicate Arc(g: GraphData, a: string, b: string) {
    exists f :: f in g.edges && Runs(f, a, b)
  }

  /**
   * The directed `hasEdge` finds exactly the edges running from `a` to `b`,
   * and the undirected reading holds when either direction does.
   */
  lemma HasArcIff(g: GraphData, a: string, b: string)
    ensures HasArc(g, a, b) <==> Arc(g, a, b)
    ensures HasEdge(g, a, b) <==> HasArc(g, a, b) || HasArc(g, b, a)
  {
    HasEdgeIff(g, a, b);
    if HasArc(g, a, b) {
      assert g.edges[ArcIndex(g.edges, a, b).value] in g.edges;
    }
    if HasArc(g, b, a) {
      assert g.edges[ArcIndex(g.edges, b, a).value] in g.edges;
    }
    if Joined(g, a, b) {
      var f :| f in g.edges && Joins(f, a, b);
      var k :| 0 <= k < |g.edges| && g.edges[k] == f;
    }
  }

  /**
   * graphology's `graph.dropEdge(a, b)` on directed edges: it throws
   * `NotFoundGraphError` (`None`) unless an edge runs from `a` to `b`, and
   * otherwise removes that edge.
   */
  function DropArcData(g: GraphData, a: string, b: string): (r: Option<GraphData>)
    ensures r.None? <==> !HasArc(g, a, b)
    ensures r.Some? ==> r.value.nodes == g.nodes && r.value.attrs == g.attrs && r.value.nextKey == g.nextKey
    ensures r.Some? ==> |r.value.edges| == |g.edges| - 1 && forall e :: e in r.value.edges ==> e in g.edges
  {
    match ArcIndex(g.edges, a, b)
    case None => None
    case Some(i) => Some(g.(edges := g.edges[..i] + g.edges[i + 1..]))
  }

  /** `graph.addEdge(a, b, attrs)`: a new edge, last, with the next key. */
  function AddEdgeData(g: GraphData, a: string, b: string, at: Attrs): (r: GraphData)
    ensures r.nodes == g.nodes && r.attrs == g.attrs
    ensures r.edges == g.edges + [Edge(g.nextKey, a, b, at)] && r.nextKey == g.nextKey + 1
  {
    g.(edges := g.edges + [Edge(g.nextKey, a, b, at)], nextKey := g.nextKey + 1)
  }

  /** The node sequence without `n`. */
  function Without(ns: seq<string>, n: string): (r: seq<string>)
    ensures forall x :: x in r <==> x in ns && x != n
    decreases |ns|
  {
    if ns == [] then []
    else
      var init := Without(ns[..|ns| - 1], n);
      var last := ns[|ns| - 1];
      assert forall x :: x in ns <==> x in ns[..|ns| - 1] || x == last;
      if last == n then init else init + [last]
  }

  /** Without a node, distinct keys stay distinct and one fewer remain. */
  lemma {:induction false} WithoutDistinct(ns: seq<string>, n: string)
    requires Distinct(ns)
    ensures Distinct(Without(ns, n))
    ensures |Without(ns, n)| == if n in ns then |ns| - 1 else |ns|
    decreases |ns|
  {
    if ns != [] {
      var init := ns[..|ns| - 1];
      var last := ns[|ns| - 1];
      assert ns == init + [last];
      assert Distinct(init);
      WithoutDistinct(init, n);
      assert last !in init;
      if last != n {
        DistinctAppend(Without(init, n), last);
      }
    }
  }

  /** `graph.dropNode(n)`: the node, its attributes and every edge at it go. */
  function DropNodeData(g: GraphData, n: string): (r: GraphData)
    ensures r.nextKey == g.nextKey && r.attrs == g.attrs - {n}
  {
    GraphData(Without(g.nodes, n), g.attrs - {n}, EdgesAvoiding(g.edges, n), g.nextKey)
  }

  /** Removing an edge keeps the graph well formed. */
  lemma DropEdgeWellFormed(g: GraphData, a: string, b: string)
    requires WellFormed(g)
    ensures WellFormed(DropEdgeData(g, a, b))
  {
    match EdgeIndex(g.edges, a, b)
    case None =>
    case Some(i) =>
      PairwiseDelete(g.edges, i);
  }

  /** Adding an edge between known nodes that were not joined keeps the graph well formed. */
  lemma AddEdgeWellFormed(g: GraphData, a: string, b: string, at: Attrs)
    requires WellFormed(g) && a in g.attrs && b in g.attrs && !HasEdge(g, a, b)
    ensures WellFormed(AddEdgeData(g, a, b, at))
  {
    var x := Edge(g.nextKey, a, b, at);
    forall e | e in g.edges
      ensures Apart(e, x)
    {
      var k :| 0 <= k < |g.edges| && g.edges[k] == e;
    }
    PairwiseSnoc(g.edges, x);
  }

  /** The edges avoiding a node keep their pairwise order. */
  lemma {:induction false} EdgesAvoidingPairwise(edges: seq<Edge>, n: string)
    requires Pairwise(edges)
    ensures Pairwise(EdgesAvoiding(edges, n))
    decreases |edges|
  {
    if edges != [] {
      var init := edges[..|edges| - 1];
      var last := edges[|edges| - 1];
      assert Pairwise(init);
      EdgesAvoidingPairwise(init, n);
      if !Incident(last, n) {
        var ri := EdgesAvoiding(init, n);
        forall e | e in ri
          ensures Apart(e, last)
        {
          var k :| 0 <= k < |init| && init[k] == e;
          assert edges[k] == e;
        }
        PairwiseSnoc(ri, last);
      }
    }
  }

  /** Edges none of which touches `n` all avoid it. */
  lemma {:induction false} AvoidingAll(edges: seq<Edge>, n: string)
    requires forall k :: 0 <= k < |edges| ==> !Incident(edges[k], n)
    ensures EdgesAvoiding(edges, n) == edges
    decreases |edges|
  {
    if edges != [] {
      var init, last := edges[..|edges| - 1], edges[|edges| - 1];
      assert forall k :: 0 <= k < |init| ==> init[k] == edges[k];
      AvoidingAll(init, n);
      AvoidingSnoc(edges, init, last, n);
    }
  }

  lemma AvoidingSnoc(edges: seq<Edge>, init: seq<Edge>, last: Edge, n: string)
    requires edges != [] && init == edges[..|edges| - 1] && last == edges[|edges| - 1]
    requires !Incident(last, n) && EdgesAvoiding(init, n) == init
    ensures EdgesAvoiding(edges, n) == edges
  {
    assert EdgesAvoiding(edges, n) == init + [last];
  }

  /** The edges at a node keep their pairwise order. */
  lemma {:induction false} IncidentEdgesPairwise(edges: seq<Edge>, n: string)
    requires Pairwise(edges)
    ensures Pairwise(IncidentEdges(edges, n))
    decreases |edges|
  {
    if edges != [] {
      var init := edges[..|edges| - 1];
      var last := edges[|edges| - 1];
      assert Pairwise(init);
      IncidentEdgesPairwise(init, n);
      if Incident(last, n) {
        var ri := IncidentEdges(init, n);
        forall e | e in ri
          ensures Apart(e, last)
        {
          var k :| 0 <= k < |init| && init[k] == e;
          assert edges[k] == e;
        }
        PairwiseSnoc(ri, last);
      }
    }
  }

  /** In a well-formed graph the edges at a node lead to distinct neighbours. */
  lemma NeighboursDistinct(g: GraphData, n: string, j: nat, k: nat)
    requires WellFormed(g)
    requires j < k < |IncidentEdges(g.edges, n)|
    ensures Other(IncidentEdges(g.edges, n)[j], n) != Other(IncidentEdges(g.edges, n)[k], n)
  {
    IncidentEdgesPairwise(g.edges, n);
    var es := IncidentEdges(g.edges, n);
    assert Apart(es[j], es[k]);
  }

  /** Removing a node keeps the graph well formed. */
  lemma DropNodeWellFormed(g: GraphData, n: string)
    requires WellFormed(g)
    ensures WellFormed(DropNodeData(g, n))
  {
    EdgesAvoidingPairwise(g.edges, n);
    WithoutDistinct(g.nodes, n);
  }

  /** The graph object: its state is `Data()`. */
  class Graph {
    var nodes: seq<string>
    var attrs: map<string, Attrs>
    var edges: seq<Edge>
    var nextKey: nat

    function Data(): GraphData
      reads this
    {
      GraphData(nodes, attrs, edges, nextKey)
    }

    /** An empty graph. */
    constructor ()
      ensures Data() == GraphData([], map[], [], 0)
    {
      nodes, attrs, edges, nextKey := [], map[], [], 0;
    }

    /** `graph.addNode(n, at)`; graphology refuses a key it already has. */
    method AddNode(n: string, at: Attrs)
      requires n !in attrs
      modifies this
      ensures Data() == old(Data()).(nodes := old(nodes) + [n], attrs := old(attrs)[n := at])
    {
      nodes, attrs := nodes + [n], attrs[n := at];
    }

    predicate HasNode(n: string)
      reads this
    {
      n in attrs
    }

    /** `graph.setNodeAttribute(s)`: the attribute object of `n` is replaced. */
    method SetNodeAttributes(n: string, at: Attrs)
      requires n in attrs
      modifies this
      ensures Data() == old(Data()).(attrs := old(attrs)[n := at])
    {
      attrs := attrs[n := at];
    }

    method DropEdge(a: string, b: string)
      modifies this
      ensures Data() == DropEdgeData(old(Data()), a, b)
    {
      var i := EdgeIndex(edges, a, b);
      if i.Some? {
        edges := edges[..i.value] + edges[i.value + 1..];
      }
    }

    method AddEdge(a: string, b: string, at: Attrs)
      modifies this
      ensures Data() == AddEdgeData(old(Data()), a, b, at)
    {
      edges, nextKey := edges + [Edge(nextKey, a, b, at)], nextKey + 1;
    }

    method DropNode(n: string)
      modifies this
      ensures Data() == DropNodeData(old(Data()), n)
    {
      nodes, attrs, edges := Without(nodes, n), attrs - {n}, EdgesAvoiding(edges, n);
    }
  }
}
