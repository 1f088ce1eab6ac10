/**
 * `_merge_graph_nodes` of `src/entity-resolution.js`: the first node of a
 * component absorbs the others one by one. Each member's description is
 * appended to the target's after " <SEP> ", its source ids are united with
 * the target's, each of its edges is dropped and re-created at the target
 * unless the target is already joined to that neighbour, and the member is
 * removed.
 */
module NodeMerging {
  import opened Common
  import opened PropertyGraphs
  import Grouping

  const Sep: string := " <SEP> "

  /** The target's attributes once a member with attributes `s` is absorbed. */
  function Absorb(t: Attrs, s: Attrs): Attrs {
    t.(description := Some(Render(t.description) + (Sep + Render(s.description))),
       sourceIds := Dedup(t.sourceIds + s.sourceIds))
  }

  /** One callback: drop the edge from `s` to the neighbour, then join `t` to it unless they are joined. */
  function RewireStep(g: GraphData, s: string, t: string, e: Edge): GraphData {
    var nb := Other(e, s);
    var g1 := DropEdgeData(g, s, nb);
    if HasEdge(g1, t, nb) then g1 else AddEdgeData(g1, t, nb, e.attrs)
  }

  /** The callbacks for the edges `es` at `s`, in order. */
  function Rewire(g: GraphData, s: string, t: string, es: seq<Edge>): (r: GraphData)
    ensures r.nodes == g.nodes && r.attrs == g.attrs
    decreases |es|
  {
    if es == [] then g
    else RewireStep(Rewire(g, s, t, es[..|es| - 1]), s, t, es[|es| - 1])
  }

  /** The graph once the target's attribute object has absorbed the member's. */
  function Absorbed(g: GraphData, t: string, s: string): GraphData
    requires t in g.attrs && s in g.attrs
  {
    g.(attrs := g.attrs[t := Absorb(g.attrs[t], g.attrs[s])])
  }

  /** The body of the loop over the members: absorb `s` into `t`, rewire its edges, drop it. */
  function MergeMember(g: GraphData, t: string, s: string): (r: GraphData)
    requires t in g.attrs && s in g.attrs
    ensures r.attrs == g.attrs[t := Absorb(g.attrs[t], g.attrs[s])] - {s}
  {
    var g1 := Absorbed(g, t, s);
    DropNodeData(Rewire(g1, s, t, IncidentEdges(g1.edges, s)), s)
  }

  /** Every member is a node, none twice, and the target is not among them. */
  predicate Mergeable(g: GraphData, t: string, members: seq<string>) {
    t in g.attrs && t !in members && Distinct(members) && forall m :: m in members ==> m in g.attrs
  }

  /** The members absorbed into `t` in order. */
  function MergeFrom(g: GraphData, t: string, members: seq<string>): (r: GraphData)
    requires Mergeable(g, t, members)
    ensures forall x :: x in r.attrs <==> x in g.attrs && x !in members
    ensures forall x :: x in r.attrs && x != t ==> r.attrs[x] == g.attrs[x]
    decreases |members|
  {
    if members == [] then g
    else
      var init := members[..|members| - 1];
      var last := members[|members| - 1];
      assert forall x :: x in members <==> x in init || x == last;
      MergeMember(MergeFrom(g, t, init), t, last)
  }

  /** `_merge_graph_nodes(graph, comp)` on the graph's state. */
  function MergeNodes(g: GraphData, comp: seq<string>): GraphData
    requires Distinct(comp) && forall x :: x in comp ==> x in g.attrs
  {
    if |comp| <= 1 then g else MergeFrom(g, comp[0], comp[1..])
  }

  // ---------------------------------------------------------------------
  // Well-formedness and the node count.

  lemma {:induction false} RewireWellFormed(g: GraphData, s: string, t: string, es: seq<Edge>)
    requires WellFormed(g) && t in g.attrs
    requires forall e :: e in es ==> Other(e, s) in g.attrs
    ensures WellFormed(Rewire(g, s, t, es))
    decreases |es|
  {
    if es != [] {
      var init := es[..|es| - 1];
      var e := es[|es| - 1];
      RewireWellFormed(g, s, t, init);
      var g0 := Rewire(g, s, t, init);
      var nb := Other(e, s);
      DropEdgeWellFormed(g0, s, nb);
      var g1 := DropEdgeData(g0, s, nb);
      if !HasEdge(g1, t, nb) {
        AddEdgeWellFormed(g1, t, nb, e.attrs);
      }
    }
  }

  lemma AttrsWellFormed(g: GraphData, t: string, at: Attrs)
    requires WellFormed(g) && t in g.attrs
    ensures WellFormed(g.(attrs := g.attrs[t := at]))
  {
  }

  lemma IncidentEnds(g: GraphData, s: string)
    requires WellFormed(g)
    ensures forall e :: e in IncidentEdges(g.edges, s) ==> Other(e, s) in g.attrs
  {
    forall e | e in IncidentEdges(g.edges, s)
      ensures Other(e, s) in g.attrs
    {
      assert e in g.edges;
    }
  }

  lemma MergeMemberWellFormed(g: GraphData, t: string, s: string)
    requires WellFormed(g) && t in g.attrs && s in g.attrs
    ensures WellFormed(MergeMember(g, t, s))
    ensures MergeMember(g, t, s).nodes == Without(g.nodes, s)
  {
    var g1 := Absorbed(g, t, s);
    AttrsWellFormed(g, t, Absorb(g.attrs[t], g.attrs[s]));
    IncidentEnds(g1, s);
    var es := IncidentEdges(g1.edges, s);
    RewireWellFormed(g1, s, t, es);
    DropNodeWellFormed(Rewire(g1, s, t, es), s);
  }

  /**
   * Merging keeps the graph well formed and removes exactly the members
   * from the nodes, so the node count falls by the number of members.
   */
  lemma {:induction false} MergeFromNodes(g: GraphData, t: string, members: seq<string>)
    requires WellFormed(g) && Mergeable(g, t, members)
    ensures WellFormed(MergeFrom(g, t, members))
    ensures forall x :: x in MergeFrom(g, t, members).nodes <==> x in g.nodes && x !in members
    ensures |MergeFrom(g, t, members).nodes| == |g.nodes| - |members|
    decreases |members|
  {
    if members != [] {
      var init := members[..|members| - 1];
      var last := members[|members| - 1];
      assert forall x :: x in members <==> x in init || x == last;
      assert Distinct(init) && last !in init;
      MergeFromNodes(g, t, init);
      var g0 := MergeFrom(g, t, init);
      MergeMemberWellFormed(g0, t, last);
      WithoutDistinct(g0.nodes, last);
    }
  }

  /** `_merge_graph_nodes` removes all members but the first: `|comp| - 1` nodes fewer. */
  lemma MergeNodesCount(g: GraphData, comp: seq<string>)
    requires WellFormed(g) && Distinct(comp) && forall x :: x in comp ==> x in g.attrs
    ensures WellFormed(MergeNodes(g, comp))
    ensures forall x :: x in MergeNodes(g, comp).nodes <==> x in g.nodes && (x !in comp || x == comp[0])
    ensures |MergeNodes(g, comp).nodes| == if comp == [] then |g.nodes| else |g.nodes| - (|comp| - 1)
  {
    if |comp| > 1 {
      assert comp == [comp[0]] + comp[1..];
      MergeFromNodes(g, comp[0], comp[1..]);
    }
  }

  /** Which nodes remain, and that only the first member's attributes change. */
  lemma MergeNodesAttrs(g: GraphData, comp: seq<string>)
    requires Distinct(comp) && forall x :: x in comp ==> x in g.attrs
    ensures forall x :: x in MergeNodes(g, comp).attrs <==> x in g.attrs && (x !in comp || x == comp[0])
    ensures forall x :: x in MergeNodes(g, comp).attrs && x !in comp ==> MergeNodes(g, comp).attrs[x] == g.attrs[x]
  {
    if |comp| > 1 {
      assert comp == [comp[0]] + comp[1..];
      assert Mergeable(g, comp[0], comp[1..]);
    }
  }

  // ---------------------------------------------------------------------
  // The target's description and source ids.

  /** " <SEP> " and the rendered description of each member, in order. */
  function Trail(g: GraphData, members: seq<string>): string
    requires forall m :: m in members ==> m in g.attrs
    decreases |members|
  {
    if members == [] then ""
    else Trail(g, members[..|members| - 1]) + (Sep + Render(g.attrs[members[|members| - 1]].description))
  }

  /** The members' source ids, concatenated in order. */
  function AllSources(g: GraphData, members: seq<string>): seq<string>
    requires forall m :: m in members ==> m in g.attrs
    decreases |members|
  {
    if members == [] then []
    else AllSources(g, members[..|members| - 1]) + g.attrs[members[|members| - 1]].sourceIds
  }

  /**
   * The target ends with its own description followed by " <SEP> " and each
   * member's, and with the duplicate-free union of all their source ids.
   */
  lemma {:induction false} MergeFromTarget(g: GraphData, t: string, members: seq<string>)
    requires Mergeable(g, t, members) && members != []
    ensures t in MergeFrom(g, t, members).attrs
    ensures MergeFrom(g, t, members).attrs[t].description
         == Some(Render(g.attrs[t].description) + Trail(g, members))
    ensures MergeFrom(g, t, members).attrs[t].sourceIds
         == Dedup(g.attrs[t].sourceIds + AllSources(g, members))
    decreases |members|
  {
    var init := members[..|members| - 1];
    var last := members[|members| - 1];
    assert forall x :: x in members <==> x in init || x == last;
    assert Distinct(init) && last !in init;
    if init == [] {
      assert MergeFrom(g, t, init) == g;
      assert AllSources(g, init) == [];
      assert AllSources(g, members) == [] + g.attrs[last].sourceIds == g.attrs[last].sourceIds;
      assert Trail(g, members) == "" + (Sep + Render(g.attrs[last].description))
                               == Sep + Render(g.attrs[last].description);
      assert MergeFrom(g, t, members) == MergeMember(g, t, last);
    } else {
      MergeFromTarget(g, t, init);
      var r0 := MergeFrom(g, t, init);
      assert r0.attrs[last] == g.attrs[last];
      var a, b := Render(g.attrs[t].description), Trail(g, init);
      var z := Sep + Render(g.attrs[last].description);
      assert Render(r0.attrs[t].description) == a + b;
      ConcatAssoc(a, b, z);
      var s0, s1 := g.attrs[t].sourceIds, AllSources(g, init);
      ConcatAssoc(s0, s1, g.attrs[last].sourceIds);
      Grouping.DedupConcat(s0 + s1, g.attrs[last].sourceIds);
    }
  }

  // ---------------------------------------------------------------------
  // Rewiring.

  /** Some edge joins `t` and `nb` and carries the attributes `at`. */
  ghost predicate Carries(r: GraphData, t: string, nb: string, at: Attrs) {
    exists f :: f in r.edges && Joins(f, t, nb) && f.attrs == at
  }

  /**
   * What a callback for the neighbour `nb` may do to the edges: add one edge
   * joining `t` and `nb` with attributes `at`, and drop none but the one
   * joining `s` and `nb`. Afterwards `t` and `nb` are joined, by a new edge
   * if they were not before.
   */
  ghost predicate StepResult(r0: GraphData, r: GraphData, s: string, t: string, nb: string, at: Attrs) {
    && (forall f :: f in r.edges ==> f in r0.edges || (Joins(f, t, nb) && f.attrs == at))
    && (forall f :: f in r0.edges && !Joins(f, s, nb) ==> f in r.edges)
    && Joined(r, t, nb)
    && (!Joined(r0, t, nb) ==> Carries(r, t, nb, at))
  }

  lemma RewireStepResult(r0: GraphData, s: string, t: string, e: Edge)
    ensures StepResult(r0, RewireStep(r0, s, t, e), s, t, Other(e, s), e.attrs)
  {
    var nb := Other(e, s);
    var at := e.attrs;
    var g1 := DropEdgeData(r0, s, nb);
    var r := RewireStep(r0, s, t, e);
    HasEdgeIff(g1, t, nb);
    forall f | f in r0.edges && !Joins(f, s, nb)
      ensures f in g1.edges
    {
      DropEdgeKeeps(r0, s, nb, f);
    }
    if !HasEdge(g1, t, nb) {
      var f := Edge(g1.nextKey, t, nb, at);
      assert r.edges == g1.edges + [f];
      assert f in r.edges;
    }
  }

  /** The edges away from `s` are all still in `r`. */
  ghost predicate KeepsAway(g: GraphData, r: GraphData, s: string) {
    forall f :: f in g.edges && !Incident(f, s) ==> f in r.edges
  }

  /** The target is joined to every neighbour handled so far other than `s` itself. */
  ghost predicate JoinedUpTo(r: GraphData, s: string, t: string, es: seq<Edge>, k: nat)
    requires k <= |es|
  {
    forall j :: 0 <= j < k && Other(es[j], s) != s ==> Joined(r, t, Other(es[j], s))
  }

  /** Every neighbour handled so far that the target was not joined to has a new edge with the copied attributes. */
  ghost predicate CopiedUpTo(g: GraphData, r: GraphData, s: string, t: string, es: seq<Edge>, k: nat)
    requires k <= |es|
  {
    forall j :: 0 <= j < k && Other(es[j], s) != s && !Joined(g, t, Other(es[j], s)) ==>
      Carries(r, t, Other(es[j], s), es[j].attrs)
  }

  /** Every edge is an old one or one joining the target to a neighbour handled so far. */
  ghost predicate OnlyNew(g: GraphData, r: GraphData, s: string, t: string, es: seq<Edge>, k: nat)
    requires k <= |es|
  {
    forall f :: f in r.edges ==> f in g.edges || exists j :: 0 <= j < k && Joins(f, t, Other(es[j], s))
  }

  /** An edge joining `t` and a node other than `s` is not the one joining `s` to a neighbour. */
  lemma NotTheDropped(f: Edge, s: string, t: string, n: string, nb: string)
    requires s != t && n != s && Joins(f, t, n)
    ensures !Joins(f, s, nb)
  {
  }

  lemma KeepsAwayStep(g: GraphData, r0: GraphData, r: GraphData, s: string, t: string, nb: string, at: Attrs)
    requires KeepsAway(g, r0, s) && StepResult(r0, r, s, t, nb, at)
    ensures KeepsAway(g, r, s)
  {
  }

  lemma JoinedStep(r0: GraphData, r: GraphData, s: string, t: string, es: seq<Edge>, k: nat, at: Attrs)
    requires s != t && k < |es| && JoinedUpTo(r0, s, t, es, k) && StepResult(r0, r, s, t, Other(es[k], s), at)
    ensures JoinedUpTo(r, s, t, es, k + 1)
  {
    forall j | 0 <= j < k && Other(es[j], s) != s
      ensures Joined(r, t, Other(es[j], s))
    {
      var f :| f in r0.edges && Joins(f, t, Other(es[j], s));
      NotTheDropped(f, s, t, Other(es[j], s), Other(es[k], s));
      assert f in r.edges;
    }
  }

  lemma OnlyNewStep(g: GraphData, r0: GraphData, r: GraphData, s: string, t: string, es: seq<Edge>, k: nat, at: Attrs)
    requires k < |es| && OnlyNew(g, r0, s, t, es, k) && StepResult(r0, r, s, t, Other(es[k], s), at)
    ensures OnlyNew(g, r, s, t, es, k + 1)
  {
  }

  /** A neighbour not joined to the target before the rewiring is not joined to it when its turn comes. */
  lemma NewNeighbour(g: GraphData, r0: GraphData, s: string, t: string, es: seq<Edge>, k: nat)
    requires WellFormed(g) && es == IncidentEdges(g.edges, s) && k < |es|
    requires !Joined(g, t, Other(es[k], s)) && OnlyNew(g, r0, s, t, es, k)
    ensures !Joined(r0, t, Other(es[k], s))
  {
    var nb := Other(es[k], s);
    forall f | f in r0.edges
      ensures !Joins(f, t, nb)
    {
      if f !in g.edges {
        var j :| 0 <= j < k && Joins(f, t, Other(es[j], s));
        NeighboursDistinct(g, s, j, k);
      }
    }
  }

  lemma NewNeighbourBefore(g: GraphData, r0: GraphData, s: string, t: string, es: seq<Edge>, k: nat)
    requires WellFormed(g) && es == IncidentEdges(g.edges, s) && k < |es| && OnlyNew(g, r0, s, t, es, k)
    ensures Other(es[k], s) != s && !Joined(g, t, Other(es[k], s)) ==> !Joined(r0, t, Other(es[k], s))
  {
    if !Joined(g, t, Other(es[k], s)) {
      NewNeighbour(g, r0, s, t, es, k);
    }
  }

  lemma CarriesKept(r0: GraphData, r: GraphData, s: string, t: string, n: string, an: Attrs, nb: string, at: Attrs)
    requires s != t && n != s && Carries(r0, t, n, an) && StepResult(r0, r, s, t, nb, at)
    ensures Carries(r, t, n, an)
  {
    var f :| f in r0.edges && Joins(f, t, n) && f.attrs == an;
    NotTheDropped(f, s, t, n, nb);
    assert f in r.edges;
  }

  lemma CopiedStep(g: GraphData, r0: GraphData, r: GraphData, s: string, t: string, es: seq<Edge>, k: nat)
    requires s != t && k < |es|
    requires CopiedUpTo(g, r0, s, t, es, k)
    requires Other(es[k], s) != s && !Joined(g, t, Other(es[k], s)) ==> !Joined(r0, t, Other(es[k], s))
    requires StepResult(r0, r, s, t, Other(es[k], s), es[k].attrs)
    ensures CopiedUpTo(g, r, s, t, es, k + 1)
  {
    forall j | 0 <= j < k && Other(es[j], s) != s && !Joined(g, t, Other(es[j], s))
      ensures Carries(r, t, Other(es[j], s), es[j].attrs)
    {
      CarriesKept(r0, r, s, t, Other(es[j], s), es[j].attrs,
                  Other(es[k], s), es[k].attrs);
    }
  }

  /** The four facts hold after the callbacks for the first `k` edges at `s`. */
  lemma {:induction false} RewirePrefix(g: GraphData, s: string, t: string, es: seq<Edge>, k: nat, r: GraphData)
    requires WellFormed(g) && s != t
    requires es == IncidentEdges(g.edges, s) && k <= |es| && r == Rewire(g, s, t, es[..k])
    ensures KeepsAway(g, r, s) && JoinedUpTo(r, s, t, es, k)
    ensures CopiedUpTo(g, r, s, t, es, k) && OnlyNew(g, r, s, t, es, k)
    decreases k
  {
    if k > 0 {
      var r0 := Rewire(g, s, t, es[..k - 1]);
      RewirePrefix(g, s, t, es, k - 1, r0);
      RewireNext(g, s, t, es, k - 1, r0);
      var e := es[k - 1];
      var at := e.attrs;
      assert StepResult(r0, r, s, t, Other(e, s), at) by {
        RewireStepResult(r0, s, t, e);
        assert e.attrs == at;
      }
      KeepsAwayStep(g, r0, r, s, t, Other(e, s), at);
      JoinedStep(r0, r, s, t, es, k - 1, at);
      OnlyNewStep(g, r0, r, s, t, es, k - 1, at);
      NewNeighbourBefore(g, r0, s, t, es, k - 1);
      CopiedStep(g, r0, r, s, t, es, k - 1);
    }
  }

  /**
   * One member's merge keeps every edge away from it, joins the target to
   * each of its neighbours, and gives each neighbour the target was not
   * joined to a new edge with the copied attributes.
   */
  lemma MergeMemberEdges(g: GraphData, t: string, s: string)
    requires WellFormed(g) && s != t && s in g.attrs && t in g.attrs
    ensures forall f :: f in g.edges && !Incident(f, s) ==> f in MergeMember(g, t, s).edges
    ensures forall e :: e in g.edges && Incident(e, s) && Other(e, s) != s ==>
              Joined(MergeMember(g, t, s), t, Other(e, s))
    ensures forall e :: e in g.edges && Incident(e, s) && Other(e, s) != s && !Joined(g, t, Other(e, s)) ==>
              Carries(MergeMember(g, t, s), t, Other(e, s), e.attrs)
  {
    var g1 := Absorbed(g, t, s);
    AttrsWellFormed(g, t, Absorb(g.attrs[t], g.attrs[s]));
    var es := IncidentEdges(g1.edges, s);
    var rw := Rewire(g1, s, t, es);
    assert es[..|es|] == es;
    RewirePrefix(g1, s, t, es, |es|, rw);
    DropMember(g1, rw, MergeMember(g, t, s), s, t, es);
  }

  /** Every edge the callbacks for `es` add copies one of `es`: it joins `t` to that edge's far end with its attributes. */
  ghost predicate CopiesOf(g: GraphData, r: GraphData, s: string, t: string, es: seq<Edge>) {
    forall f :: f in r.edges ==> f in g.edges || exists e :: e in es && Joins(f, t, Other(e, s)) && f.attrs == e.attrs
  }

  lemma {:induction false} RewireCopies(g: GraphData, s: string, t: string, es: seq<Edge>)
    ensures CopiesOf(g, Rewire(g, s, t, es), s, t, es)
    decreases |es|
  {
    if es != [] {
      var init, last := es[..|es| - 1], es[|es| - 1];
      RewireCopies(g, s, t, init);
      var r0 := Rewire(g, s, t, init);
      RewireStepResult(r0, s, t, last);
      forall f | f in Rewire(g, s, t, es).edges
        ensures f in g.edges || exists e :: e in es && Joins(f, t, Other(e, s)) && f.attrs == e.attrs
      {
        if f !in r0.edges {
          assert last in es;
        } else if f !in g.edges {
          var e :| e in init && Joins(f, t, Other(e, s)) && f.attrs == e.attrs;
          assert e in es;
        }
      }
    }
  }

  /**
   * The corrected merge copies edge attributes: every edge it leaves is an
   * edge of the graph, or joins the target to a neighbour of the member and
   * carries the attributes of the edge that joined the member to it.
   */
  lemma MergeMemberKeepsEdgeAttrs(g: GraphData, t: string, s: string)
    requires t in g.attrs && s in g.attrs
    ensures forall f :: f in MergeMember(g, t, s).edges ==>
              f in g.edges || exists e :: e in g.edges && Incident(e, s) && Joins(f, t, Other(e, s)) && f.attrs == e.attrs
  {
    var g1 := Absorbed(g, t, s);
    var es := IncidentEdges(g1.edges, s);
    var rw := Rewire(g1, s, t, es);
    RewireCopies(g1, s, t, es);
    forall f | f in MergeMember(g, t, s).edges
      ensures f in g.edges || exists e :: e in g.edges && Incident(e, s) && Joins(f, t, Other(e, s)) && f.attrs == e.attrs
    {
      var k :| 0 <= k < |EdgesAvoiding(rw.edges, s)| && EdgesAvoiding(rw.edges, s)[k] == f;
      assert f in rw.edges;
      if f !in g.edges {
        var e :| e in es && Joins(f, t, Other(e, s)) && f.attrs == e.attrs;
        var j :| 0 <= j < |es| && es[j] == e;
      }
    }
  }

  lemma Avoids(rw: GraphData, f: Edge, s: string, t: string, nb: string)
    requires f in rw.edges && Joins(f, t, nb) && s != t && nb != s
    ensures f in DropNodeData(rw, s).edges
  {
    assert !Incident(f, s);
  }

  /** The facts of `RewirePrefix` for all edges at `s` survive dropping `s`. */
  lemma DropMember(g: GraphData, rw: GraphData, r: GraphData, s: string, t: string, es: seq<Edge>)
    requires s != t && es == IncidentEdges(g.edges, s) && r == DropNodeData(rw, s)
    requires KeepsAway(g, rw, s) && JoinedUpTo(rw, s, t, es, |es|) && CopiedUpTo(g, rw, s, t, es, |es|)
    ensures forall f :: f in g.edges && !Incident(f, s) ==> f in r.edges
    ensures forall e :: e in g.edges && Incident(e, s) && Other(e, s) != s ==> Joined(r, t, Other(e, s))
    ensures forall e :: e in g.edges && Incident(e, s) && Other(e, s) != s && !Joined(g, t, Other(e, s)) ==>
              Carries(r, t, Other(e, s), e.attrs)
  {
    forall e | e in g.edges && Incident(e, s) && Other(e, s) != s
      ensures Joined(r, t, Other(e, s))
      ensures !Joined(g, t, Other(e, s)) ==> Carries(r, t, Other(e, s), e.attrs)
    {
      var j :| 0 <= j < |es| && es[j] == e;
      var nb := Other(e, s);
      var f :| f in rw.edges && Joins(f, t, nb);
      Avoids(rw, f, s, t, nb);
      if !Joined(g, t, nb) {
        var f' :| f' in rw.edges && Joins(f', t, nb) && f'.attrs == e.attrs;
        Avoids(rw, f', s, t, nb);
      }
    }
  }

  // ---------------------------------------------------------------------
  // A whole component.

  /** Every edge of `g` away from all the members is still in `r`. */
  ghost predicate KeptOff(g: GraphData, r: GraphData, members: seq<string>) {
    forall f :: f in g.edges && f.source !in members && f.target !in members ==> f in r.edges
  }

  /** `t` is joined in `r` to every node outside the members that a member was joined to in `g`. */
  ghost predicate Inherits(g: GraphData, r: GraphData, t: string, members: seq<string>) {
    forall f, m :: f in g.edges && m in members && Incident(f, m) && Other(f, m) !in members ==>
      Joined(r, t, Other(f, m))
  }

  /** What merging `s` into `t` does to the edges, as `MergeMemberEdges` proves it. */
  ghost predicate Moved(r0: GraphData, r: GraphData, t: string, s: string) {
    (forall f :: f in r0.edges && !Incident(f, s) ==> f in r.edges) &&
    (forall e :: e in r0.edges && Incident(e, s) && Other(e, s) != s ==> Joined(r, t, Other(e, s)))
  }

  lemma MergeEdgesStep(g: GraphData, r0: GraphData, r: GraphData, t: string, members: seq<string>, init: seq<string>, last: string)
    requires forall x :: x in members <==> x in init || x == last
    requires t != last && t !in init && last !in init
    requires KeptOff(g, r0, init) && Inherits(g, r0, t, init) && Moved(r0, r, t, last)
    ensures KeptOff(g, r, members) && Inherits(g, r, t, members)
  {
    forall f, m | f in g.edges && m in members && Incident(f, m) && Other(f, m) !in members
      ensures Joined(r, t, Other(f, m))
    {
      var nb := Other(f, m);
      if m in init {
        var f' :| f' in r0.edges && Joins(f', t, nb);
        assert f' in r.edges;
      } else {
        assert f in r0.edges;
      }
    }
  }

  /**
   * Merging the members into `t` keeps every edge away from all members,
   * and joins `t` to every node outside the members that some member was
   * joined to.
   */
  lemma {:induction false} MergeFromEdges(g: GraphData, t: string, members: seq<string>, r: GraphData)
    requires WellFormed(g) && Mergeable(g, t, members) && r == MergeFrom(g, t, members)
    ensures KeptOff(g, r, members) && Inherits(g, r, t, members)
    decreases |members|
  {
    if members != [] {
      var init := members[..|members| - 1];
      var last := members[|members| - 1];
      assert forall x :: x in members <==> x in init || x == last;
      assert Mergeable(g, t, init);
      var r0 := MergeFrom(g, t, init);
      MergeFromEdges(g, t, init, r0);
      MergeFromNodes(g, t, init);
      assert r == MergeMember(r0, t, last);
      MergeMemberEdges(r0, t, last);
      MergeEdgesStep(g, r0, r, t, members, init, last);
    }
  }

  /** No edge of a well-formed graph touches a node it does not have. */
  lemma EdgesAtNodes(g: GraphData, gone: seq<string>)
    requires WellFormed(g) && forall x :: x in gone ==> x !in g.attrs
    ensures forall f :: f in g.edges ==> f.source !in gone && f.target !in gone
  {
  }

  /**
   * `_merge_graph_nodes` keeps the edges away from the absorbed members,
   * leaves no edge at an absorbed member, and joins the first node to every
   * outside neighbour of the absorbed ones; an edge between the first node
   * and an absorbed one becomes a self-loop at the first node.
   */
  lemma MergeNodesEdges(g: GraphData, comp: seq<string>)
    requires WellFormed(g) && Distinct(comp) && comp != [] && forall x :: x in comp ==> x in g.attrs
    ensures forall f :: f in g.edges && f.source !in comp[1..] && f.target !in comp[1..] ==>
              f in MergeNodes(g, comp).edges
    ensures forall f :: f in MergeNodes(g, comp).edges ==> f.source !in comp[1..] && f.target !in comp[1..]
    ensures forall f, m :: f in g.edges && m in comp[1..] && Incident(f, m) && Other(f, m) !in comp[1..] ==>
              HasEdge(MergeNodes(g, comp), comp[0], Other(f, m))
    ensures forall m :: m in comp[1..] && HasEdge(g, comp[0], m) ==> HasEdge(MergeNodes(g, comp), comp[0], comp[0])
  {
    var r := MergeNodes(g, comp);
    var t := comp[0];
    var members := comp[1..];
    MergeNodesCount(g, comp);
    EdgesAtNodes(r, members);
    if |comp| > 1 {
      assert Mergeable(g, t, members);
      MergeFromEdges(g, t, members, r);
      assert KeptOff(g, r, members);
      forall x
        ensures HasEdge(r, t, x) <==> Joined(r, t, x)
      {
        HasEdgeIff(r, t, x);
      }
      forall m | m in members && HasEdge(g, t, m)
        ensures Joined(r, t, t)
      {
        HasEdgeIff(g, t, m);
        var f :| f in g.edges && Joins(f, t, m);
        assert Incident(f, m) && Other(f, m) == t;
      }
    }
  }

  // ---------------------------------------------------------------------
  // The callback as written. The pipeline's edges are directed, so
  // `dropEdge(s, nb)` throws unless the edge runs from `s` to `nb`, and
  // `hasEdge(t, nb)` misses an edge running from `nb` to `t`; the callback is
  // handed the neighbour's node attributes. `MergeMember` above is the
  // corrected merge.

  /** The nodes with an edge into `s`, in edge order. */
  function InNeighbours(edges: seq<Edge>, s: string): (r: seq<string>)
    ensures forall e :: e in edges && e.target == s ==> e.source in r
    decreases |edges|
  {
    if edges == [] then []
    else
      var last := edges[|edges| - 1];
      InNeighbours(edges[..|edges| - 1], s) + (if last.target == s then [last.source] else [])
  }

  /** The nodes `s` has an edge to, in edge order. */
  function OutNeighbours(edges: seq<Edge>, s: string): (r: seq<string>)
    ensures forall e :: e in edges && e.source == s ==> e.target in r
    decreases |edges|
  {
    if edges == [] then []
    else
      var last := edges[|edges| - 1];
      OutNeighbours(edges[..|edges| - 1], s) + (if last.source == s then [last.target] else [])
  }

  /**
   * The neighbours `forEachNeighbor(s, ...)` visits on a mixed graph: those
   * with an edge into `s`, then those `s` has an edge to, each once.
   */
  function NeighbourOrder(g: GraphData, s: string): (r: seq<string>)
    ensures Distinct(r)
    ensures forall e :: e in g.edges && Incident(e, s) ==> Other(e, s) in r
  {
    Dedup(InNeighbours(g.edges, s) + OutNeighbours(g.edges, s))
  }

  /** The node attributes the callback is handed for `nb`. */
  function NodeAttrs(g: GraphData, nb: string): Attrs {
    if nb in g.attrs then g.attrs[nb] else NoAttrs()
  }

  /**
   * One callback as written: `dropEdge(s, nb)` throws (`None`) unless an edge
   * runs from `s` to `nb`; then `t` gets an edge to `nb` with the neighbour's
   * attributes unless an edge already runs from `t` to `nb`.
   */
  function ArcStep(g: GraphData, s: string, t: string, nb: string): (r: Option<GraphData>)
    ensures r.None? <==> !HasArc(g, s, nb)
    ensures r.Some? ==> r.value.nodes == g.nodes && r.value.attrs == g.attrs
    ensures r.Some? ==> forall f :: f in r.value.edges ==> f in g.edges || f.source == t
  {
    match DropArcData(g, s, nb)
    case None => None
    case Some(g1) => Some(if HasArc(g1, t, nb) then g1 else AddEdgeData(g1, t, nb, NodeAttrs(g1, nb)))
  }

  /** The callbacks for the neighbours `nbs` in order; the first throw ends the loop. */
  function ArcRewire(g: GraphData, s: string, t: string, nbs: seq<string>): (r: Option<GraphData>)
    ensures r.Some? ==> r.value.nodes == g.nodes && r.value.attrs == g.attrs
    decreases |nbs|
  {
    if nbs == [] then Some(g)
    else
      match ArcRewire(g, s, t, nbs[..|nbs| - 1])
      case None => None
      case Some(r0) => ArcStep(r0, s, t, nbs[|nbs| - 1])
  }

  /** The body of the member loop as written; `None` when a `dropEdge` throws. */
  function MergeMemberAsWritten(g: GraphData, t: string, s: string): (r: Option<GraphData>)
    requires t in g.attrs && s in g.attrs
    ensures r.Some? ==> r.value.attrs == g.attrs[t := Absorb(g.attrs[t], g.attrs[s])] - {s}
  {
    var g1 := Absorbed(g, t, s);
    match ArcRewire(g1, s, t, NeighbourOrder(g1, s))
    case None => None
    case Some(rw) => Some(DropNodeData(rw, s))
  }

  /** The callbacks as written only remove edges and add edges leaving `t`. */
  lemma {:induction false} ArcRewireEdges(g: GraphData, s: string, t: string, nbs: seq<string>)
    ensures ArcRewire(g, s, t, nbs).Some? ==>
              forall f :: f in ArcRewire(g, s, t, nbs).value.edges ==> f in g.edges || f.source == t
    decreases |nbs|
  {
    if nbs != [] {
      ArcRewireEdges(g, s, t, nbs[..|nbs| - 1]);
    }
  }

  /**
   * The loop as written throws once it reaches a neighbour `s` has no edge
   * to: no earlier callback adds one, since every new edge leaves `t`.
   */
  lemma {:induction false} ArcRewireThrows(g: GraphData, s: string, t: string, nbs: seq<string>, nb: string)
    requires s != t && nb in nbs && !Arc(g, s, nb)
    ensures ArcRewire(g, s, t, nbs).None?
    decreases |nbs|
  {
    var init, last := nbs[..|nbs| - 1], nbs[|nbs| - 1];
    assert nbs == init + [last];
    if nb in init {
      ArcRewireThrows(g, s, t, init, nb);
    } else {
      ArcRewireEdges(g, s, t, init);
      match ArcRewire(g, s, t, init)
      case None =>
      case Some(r0) =>
        HasArcIff(r0, s, nb);
    }
  }

  /**
   * As written, a member with an edge coming in from a neighbour it has no
   * edge to cannot be merged: `dropEdge(member, neighbour)` throws
   * `NotFoundGraphError`.
   */
  lemma InNeighbourThrows(g: GraphData, t: string, s: string, nb: string)
    requires s != t && t in g.attrs && s in g.attrs && Arc(g, nb, s) && !Arc(g, s, nb)
    ensures MergeMemberAsWritten(g, t, s).None?
  {
    var g1 := Absorbed(g, t, s);
    var e :| e in g.edges && Runs(e, nb, s);
    assert Incident(e, s) && Other(e, s) == nb;
    ArcRewireThrows(g1, s, t, NeighbourOrder(g1, s), nb);
  }

  /** Relationship AMAZON -> APPLE INC, stored in sorted order; APPLE and APPLE INC are the same entity. */
  function AppleGraph(): GraphData {
    GraphData(["AMAZON", "APPLE", "APPLE INC"],
              map["AMAZON" := NoAttrs(), "APPLE" := NoAttrs(), "APPLE INC" := NoAttrs()],
              [Edge(0, "AMAZON", "APPLE INC", NoAttrs())], 1)
  }

  /** Merging APPLE INC into APPLE throws as written; the corrected merge joins APPLE to AMAZON. */
  lemma AppleIncThrows()
    ensures MergeMemberAsWritten(AppleGraph(), "APPLE", "APPLE INC").None?
    ensures Joined(MergeMember(AppleGraph(), "APPLE", "APPLE INC"), "APPLE", "AMAZON")
  {
    AppleAsWritten(AppleGraph());
    AppleCorrected(AppleGraph());
  }

  lemma AppleAsWritten(g: GraphData)
    requires g == AppleGraph()
    ensures MergeMemberAsWritten(g, "APPLE", "APPLE INC").None?
  {
    assert Runs(g.edges[0], "AMAZON", "APPLE INC");
    assert !Arc(g, "APPLE INC", "AMAZON") by {
      forall f | f in g.edges
        ensures !Runs(f, "APPLE INC", "AMAZON")
      {
      }
    }
    InNeighbourThrows(g, "APPLE", "APPLE INC", "AMAZON");
  }

  lemma AppleCorrected(g: GraphData)
    requires g == AppleGraph()
    ensures Joined(MergeMember(g, "APPLE", "APPLE INC"), "APPLE", "AMAZON")
  {
    var e := g.edges[0];
    assert WellFormed(g);
    MergeMemberEdges(g, "APPLE", "APPLE INC");
    assert e in g.edges && Incident(e, "APPLE INC") && Other(e, "APPLE INC") == "AMAZON";
  }

  /** The neighbour order of `s` when its one edge runs to `nb`. */
  lemma SoleNeighbour(g: GraphData, s: string, nb: string, e: Edge, rest: seq<Edge>)
    requires g.edges == [e] + rest && Runs(e, s, nb) && nb != s
    requires forall f :: f in rest ==> !Incident(f, s)
    ensures NeighbourOrder(g, s) == [nb]
  {
    assert InNeighbours(g.edges, s) == [] by {
      InNeighboursNone(g.edges, s);
    }
    assert OutNeighbours(g.edges, s) == [nb] by {
      OutNeighboursOne(g.edges, e, rest, s);
    }
  }

  lemma {:induction false} InNeighboursNone(edges: seq<Edge>, s: string)
    requires forall f :: f in edges ==> f.target != s
    ensures InNeighbours(edges, s) == []
    decreases |edges|
  {
    if edges != [] {
      InNeighboursNone(edges[..|edges| - 1], s);
    }
  }

  lemma {:induction false} OutNeighboursOne(edges: seq<Edge>, e: Edge, rest: seq<Edge>, s: string)
    requires edges == [e] + rest && e.source == s
    requires forall f :: f in rest ==> f.source != s
    ensures OutNeighbours(edges, s) == [e.target]
    decreases |edges|
  {
    if rest == [] {
      assert edges[..0] == [];
    } else {
      var init := edges[..|edges| - 1];
      assert init == [e] + rest[..|rest| - 1];
      assert edges[|edges| - 1] == rest[|rest| - 1];
      OutNeighboursOne(init, e, rest[..|rest| - 1], s);
    }
  }

  /** Dropping the edge from `s` to `nb`, the first, leaves the others. */
  lemma SoleDrop(g1: GraphData, s: string, nb: string, e: Edge, rest: seq<Edge>)
    requires g1.edges == [e] + rest && Runs(e, s, nb) && forall f :: f in rest ==> !Incident(f, s)
    ensures DropArcData(g1, s, nb) == Some(g1.(edges := rest))
  {
    var i := ArcIndex(g1.edges, s, nb);
    assert Runs(g1.edges[0], s, nb);
    assert i.Some?;
    assert forall j :: 0 <= j < |rest| ==> !Incident(rest[j], s);
    assert forall k :: 1 <= k < |g1.edges| ==> g1.edges[k] == rest[k - 1];
    assert i.value == 0;
    assert g1.edges[..0] + g1.edges[1..] == rest;
  }

  /**
   * As written, merging `s` into `t` when the one edge at `s` runs from `s`
   * to `nb` drops that edge and, as no edge runs from `t` to `nb`, adds one
   * carrying `nb`'s node attributes.
   */
  lemma SoleMergeAsWritten(g: GraphData, t: string, s: string, nb: string, e: Edge, rest: seq<Edge>)
    requires s != t && nb != s && nb != t && s in g.attrs && t in g.attrs
    requires g.edges == [e] + rest && Runs(e, s, nb) && forall f :: f in rest ==> !Incident(f, s)
    requires !Arc(g, t, nb)
    ensures MergeMemberAsWritten(g, t, s).Some?
    ensures MergeMemberAsWritten(g, t, s).value.edges == rest + [Edge(g.nextKey, t, nb, NodeAttrs(g, nb))]
  {
    var g1 := Absorbed(g, t, s);
    var rw := AddEdgeData(g1.(edges := rest), t, nb, NodeAttrs(g1, nb));
    SoleRewire(g1, t, s, nb, e, rest);
    assert MergeMemberAsWritten(g, t, s) == Some(DropNodeData(rw, s));
    assert NodeAttrs(g1, nb) == NodeAttrs(g, nb);
    var es := rest + [Edge(g.nextKey, t, nb, NodeAttrs(g, nb))];
    assert rw.edges == es;
    assert forall k :: 0 <= k < |es| ==> !Incident(es[k], s) by {
      forall k | 0 <= k < |es|
        ensures !Incident(es[k], s)
      {
        if k < |rest| {
          assert es[k] == rest[k] && rest[k] in rest;
        }
      }
    }
    AvoidingAll(es, s);
  }

  /** The one callback as written, for the neighbour `nb`. */
  lemma SoleRewire(g1: GraphData, t: string, s: string, nb: string, e: Edge, rest: seq<Edge>)
    requires s != t && nb != s
    requires g1.edges == [e] + rest && Runs(e, s, nb) && forall f :: f in rest ==> !Incident(f, s)
    requires !Arc(g1, t, nb)
    ensures ArcRewire(g1, s, t, NeighbourOrder(g1, s)) == Some(AddEdgeData(g1.(edges := rest), t, nb, NodeAttrs(g1, nb)))
  {
    SoleNeighbour(g1, s, nb, e, rest);
    assert [nb][..0] == [];
    assert ArcRewire(g1, s, t, [nb]) == ArcStep(g1, s, t, nb);
    var d := g1.(edges := rest);
    SoleDrop(g1, s, nb, e, rest);
    assert !HasArc(d, t, nb) by {
      HasArcIff(d, t, nb);
      assert forall f :: f in rest ==> f in g1.edges;
    }
  }

  /**
   * As written, `hasEdge(t, nb)` misses an edge running from `nb` to `t`, so
   * merging `s` into `t` adds a second edge joining `t` and `nb`; the
   * corrected merge keeps a well-formed graph (`MergeMemberWellFormed`).
   */
  lemma ReverseEdgeAdded(g: GraphData, t: string, s: string, nb: string, e: Edge, rest: seq<Edge>, f: Edge)
    requires s != t && nb != s && nb != t && s in g.attrs && t in g.attrs
    requires g.edges == [e] + rest && Runs(e, s, nb) && forall f :: f in rest ==> !Incident(f, s)
    requires !Arc(g, t, nb) && f in rest && Runs(f, nb, t) && f.key < g.nextKey
    ensures MergeMemberAsWritten(g, t, s).Some?
    ensures !Pairwise(MergeMemberAsWritten(g, t, s).value.edges)
  {
    SoleMergeAsWritten(g, t, s, nb, e, rest);
    var es := MergeMemberAsWritten(g, t, s).value.edges;
    var k :| 0 <= k < |rest| && rest[k] == f;
    assert es[k] == f && es[|es| - 1] == Edge(g.nextKey, t, nb, NodeAttrs(g, nb));
    assert !Apart(es[k], es[|es| - 1]);
  }

  /** Member `a` is related to `b` with weight 2; `a` is to be merged into `c`. */
  function SampleEdge(): Edge {
    Edge(0, "a", "b", NoAttrs().(weight := Some(2.0)))
  }

  function Sample(): GraphData {
    GraphData(["c", "a", "b"], map["c" := NoAttrs(), "a" := NoAttrs(), "b" := NoAttrs()], [SampleEdge()], 1)
  }

  /** The corrected merge of `a` into `c` re-creates the one edge as an edge from `c` to `b`. */
  lemma SampleMerge()
    ensures MergeMember(Sample(), "c", "a").edges == [Edge(1, "c", "b", SampleEdge().attrs)]
  {
    var g1 := Absorbed(Sample(), "c", "a");
    var e := SampleEdge();
    assert g1.edges == [e];
    var es := IncidentEdges(g1.edges, "a");
    assert es == [e];
    assert es[..0] == [];
    var d := DropEdgeData(g1, "a", "b");
    assert EdgeIndex(g1.edges, "a", "b") == Some(0);
    assert d.edges == [];
    assert !HasEdge(d, "c", "b");
    var rw := AddEdgeData(d, "c", "b", e.attrs);
    assert Rewire(g1, "a", "c", es) == rw;
    assert rw.edges == [Edge(1, "c", "b", e.attrs)];
    assert EdgesAvoiding(rw.edges, "a") == rw.edges;
  }

  /**
   * As written, the re-created edge from `c` to `b` carries `b`'s node
   * attributes and has lost its weight; the corrected merge keeps it.
   */
  lemma NeighbourAttrsLoseWeight()
    ensures MergeMemberAsWritten(Sample(), "c", "a").Some?
    ensures MergeMemberAsWritten(Sample(), "c", "a").value.edges == [Edge(1, "c", "b", NoAttrs())]
    ensures MergeMember(Sample(), "c", "a").edges == [Edge(1, "c", "b", NoAttrs().(weight := Some(2.0)))]
  {
    SampleMerge();
    SampleAsWritten(Sample());
  }

  lemma SampleAsWritten(g: GraphData)
    requires g == Sample()
    ensures MergeMemberAsWritten(g, "c", "a").Some?
    ensures MergeMemberAsWritten(g, "c", "a").value.edges == [Edge(1, "c", "b", NoAttrs())]
  {
    assert g.edges == [SampleEdge()] + [];
    assert !Arc(g, "c", "b") by {
      forall f | f in g.edges
        ensures !Runs(f, "c", "b")
      {
      }
    }
    SoleMergeAsWritten(g, "c", "a", "b", SampleEdge(), []);
    assert NodeAttrs(g, "b") == NoAttrs();
  }

  // ---------------------------------------------------------------------
  // The graph object.

  /** The callbacks of `graph.forEachNeighbor(s, ...)`, over the edges at `s` as they were when it began. */
  method RewireEdges(graph: Graph, s: string, t: string)
    modifies graph
    ensures graph.Data() == Rewire(old(graph.Data()), s, t, IncidentEdges(old(graph.edges), s))
  {
    ghost var g0 := graph.Data();
    var es := IncidentEdges(graph.edges, s);
    var k := 0;
    while k < |es|
      invariant 0 <= k <= |es|
      invariant graph.Data() == Rewire(g0, s, t, es[..k])
    {
      RewireNext(g0, s, t, es, k, graph.Data());
      RewireOne(graph, s, t, es[k]);
      k := k + 1;
    }
    assert es[..|es|] == es;
  }

  /**
   * One callback of `forEachNeighbor`, corrected to read edges both ways and
   * to copy the edge's own attributes; `ArcStep` is the callback as written.
   */
  method RewireOne(graph: Graph, s: string, t: string, e: Edge)
    modifies graph
    ensures graph.Data() == RewireStep(old(graph.Data()), s, t, e)
  {
    var nb := Other(e, s);
    graph.DropEdge(s, nb);
    if !HasEdge(graph.Data(), t, nb) {
      graph.AddEdge(t, nb, e.attrs);
    }
  }

  lemma RewireNext(g: GraphData, s: string, t: string, es: seq<Edge>, k: nat, r0: GraphData)
    requires k < |es| && r0 == Rewire(g, s, t, es[..k])
    ensures Rewire(g, s, t, es[..k + 1]) == RewireStep(r0, s, t, es[k])
  {
    assert es[..k + 1][..k] == es[..k];
  }

  /** One pass of the loop over the members of `_merge_graph_nodes`. */
  method MergeInto(graph: Graph, t: string, s: string)
    requires t in graph.attrs && s in graph.attrs
    modifies graph
    ensures graph.Data() == MergeMember(old(graph.Data()), t, s)
  {
    graph.SetNodeAttributes(t, Absorb(graph.attrs[t], graph.attrs[s]));
    RewireEdges(graph, s, t);
    graph.DropNode(s);
  }

  /** One more member, merged after the others. */
  lemma MergeFromNext(g: GraphData, t: string, members: seq<string>, j: nat, r0: GraphData)
    requires Mergeable(g, t, members) && j < |members|
    requires r0 == MergeFrom(g, t, members[..j])
    ensures t in r0.attrs && members[j] in r0.attrs
    ensures MergeFrom(g, t, members[..j + 1]) == MergeMember(r0, t, members[j])
  {
    NextInGraph(g, t, members, j, r0);
    MergeablePrefix(g, t, members, j + 1);
    PrefixSnoc(members, j);
    MergeFromSnoc(g, t, members[..j + 1]);
  }

  lemma NextInGraph(g: GraphData, t: string, members: seq<string>, j: nat, r0: GraphData)
    requires Mergeable(g, t, members) && j < |members|
    requires r0 == MergeFrom(g, t, members[..j])
    ensures t in r0.attrs && members[j] in r0.attrs
  {
    MergeablePrefix(g, t, members, j);
    FreshAfterPrefix(members, j);
  }

  lemma PrefixSnoc(s: seq<string>, j: nat)
    requires j < |s|
    ensures s[..j + 1][..j] == s[..j] && s[..j + 1][j] == s[j]
  {
  }

  lemma FreshAfterPrefix(members: seq<string>, j: nat)
    requires Distinct(members) && j < |members|
    ensures members[j] !in members[..j]
  {
  }

  lemma MergeFromSnoc(g: GraphData, t: string, members: seq<string>)
    requires Mergeable(g, t, members) && members != []
    ensures Mergeable(g, t, members[..|members| - 1])
    ensures MergeFrom(g, t, members)
      == MergeMember(MergeFrom(g, t, members[..|members| - 1]), t, members[|members| - 1])
  {
  }

  lemma MergeablePrefix(g: GraphData, t: string, members: seq<string>, j: nat)
    requires Mergeable(g, t, members) && j <= |members|
    ensures Mergeable(g, t, members[..j])
  {
    assert forall x :: x in members[..j] ==> x in members;
  }

  /** The loop over the members of `_merge_graph_nodes`. */
  method MergeMembers(graph: Graph, t: string, members: seq<string>)
    requires Mergeable(graph.Data(), t, members)
    modifies graph
    ensures graph.Data() == MergeFrom(old(graph.Data()), t, members)
  {
    ghost var g0 := graph.Data();
    var j := 0;
    MergeablePrefix(g0, t, members, 0);
    while j < |members|
      invariant 0 <= j <= |members|
      invariant Mergeable(g0, t, members[..j])
      invariant graph.Data() == MergeFrom(g0, t, members[..j])
    {
      MergeFromNext(g0, t, members, j, graph.Data());
      MergeablePrefix(g0, t, members, j + 1);
      MergeInto(graph, t, members[j]);
      j := j + 1;
    }
    assert members[..|members|] == members;
  }

  /** `_merge_graph_nodes(graph, comp)` with the corrected callback. */
  method MergeGraphNodes(graph: Graph, comp: seq<string>)
    requires Distinct(comp) && forall x :: x in comp ==> x in graph.attrs
    modifies graph
    ensures graph.Data() == MergeNodes(old(graph.Data()), comp)
  {
    if |comp| > 1 {
      assert Mergeable(graph.Data(), comp[0], comp[1..]);
      MergeMembers(graph, comp[0], comp[1..]);
    }
  }
}
