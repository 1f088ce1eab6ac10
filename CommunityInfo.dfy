// `addCommunityInfo2Graph`: add a community's title to the `communities`
// list of each of its nodes that the graph holds.

module CommunityInfo {
  import opened Common
  import opened PropertyGraphs

  /** `graph.getNodeAttribute(n, "communities") || []`. */
  function Titles(at: Attrs): seq<string> {
    if at.communities.Some? then at.communities.value else []
  }

  /**
   * `[...new Set([...curr, title])]` as the node's `communities`: the titles
   * it had and `title`, once each; nothing else about the node changes.
   */
  function WithTitle(at: Attrs, title: string): Attrs {
    at.(communities := Some(Dedup(Titles(at) + [title])))
  }

  /** The new `communities` holds the old titles and `title`, once each; nothing else about the node changes. */
  lemma WithTitleLaws(at: Attrs, title: string)
    ensures var r := WithTitle(at, title);
            r.communities.Some? && Distinct(Titles(r))
            && (forall c :: c in Titles(r) <==> c in Titles(at) || c == title)
            && r.(communities := at.communities) == at
  {
    var d := Titles(at) + [title];
    assert forall c :: c in d <==> c in Titles(at) || c == title;
  }

  /** Adding a title twice is adding it once. */
  lemma WithTitleTwice(at: Attrs, title: string)
    ensures WithTitle(WithTitle(at, title), title) == WithTitle(at, title)
  {
    var d := Titles(WithTitle(at, title));
    DedupOfDistinct(d);
    DedupSnoc(d, title);
  }

  /** The attributes after the `nodes.forEach` loop. */
  function Tagged(attrs: map<string, Attrs>, nodes: seq<string>, title: string): map<string, Attrs>
    decreases |nodes|
  {
    if nodes == [] then attrs
    else
      var t := Tagged(attrs, nodes[..|nodes| - 1], title);
      var n := nodes[|nodes| - 1];
      if n in t then t[n := WithTitle(t[n], title)] else t
  }

  /**
   * What tagging `nodes` did to `attrs` when the result is `r`: the graph
   * keeps its nodes; each listed node it holds has the title once, however
   * often it is listed, and every other node is untouched.
   */
  ghost predicate TaggedShape(attrs: map<string, Attrs>, nodes: seq<string>, title: string, r: map<string, Attrs>) {
    r.Keys == attrs.Keys && ListedTagged(attrs, nodes, title, r) && UnlistedKept(attrs, nodes, r)
  }

  ghost predicate ListedTagged(attrs: map<string, Attrs>, nodes: seq<string>, title: string, r: map<string, Attrs>)
    requires r.Keys == attrs.Keys
  {
    forall n :: n in attrs && n in nodes ==> r[n] == WithTitle(attrs[n], title)
  }

  ghost predicate UnlistedKept(attrs: map<string, Attrs>, nodes: seq<string>, r: map<string, Attrs>)
    requires r.Keys == attrs.Keys
  {
    forall n :: n in attrs && n !in nodes ==> r[n] == attrs[n]
  }

  lemma {:induction false} TaggedLaws(attrs: map<string, Attrs>, nodes: seq<string>, title: string)
    ensures TaggedShape(attrs, nodes, title, Tagged(attrs, nodes, title))
    decreases |nodes|
  {
    if nodes != [] {
      var init := nodes[..|nodes| - 1];
      TaggedLaws(attrs, init, title);
      TaggedStep(attrs, nodes, title, Tagged(attrs, init, title), Tagged(attrs, nodes, title));
    }
  }

  /** Tagging one more node keeps the shape. */
  lemma TaggedStep(attrs: map<string, Attrs>, nodes: seq<string>, title: string,
                   t: map<string, Attrs>, r: map<string, Attrs>)
    requires nodes != [] && TaggedShape(attrs, nodes[..|nodes| - 1], title, t)
    requires r == var n := nodes[|nodes| - 1]; if n in t then t[n := WithTitle(t[n], title)] else t
    ensures TaggedShape(attrs, nodes, title, r)
  {
    var init := nodes[..|nodes| - 1];
    var n := nodes[|nodes| - 1];
    assert nodes == init + [n];
    assert r.Keys == t.Keys;
    ListedStep(attrs, init, n, title, t, r);
    UnlistedStep(attrs, init, n, title, t, r);
  }

  /** Tagging one more node: every listed node now has the title. */
  lemma ListedStep(attrs: map<string, Attrs>, init: seq<string>, n: string, title: string,
                   t: map<string, Attrs>, r: map<string, Attrs>)
    requires t.Keys == attrs.Keys && ListedTagged(attrs, init, title, t) && UnlistedKept(attrs, init, t)
    requires r == if n in t then t[n := WithTitle(t[n], title)] else t
    requires r.Keys == attrs.Keys
    ensures ListedTagged(attrs, init + [n], title, r)
  {
    if n in t {
      NewTitleAt(attrs, init, n, title, t);
    }
    forall x | x in attrs && x in init + [n]
      ensures r[x] == WithTitle(attrs[x], title)
    {
      if x != n {
        assert x in init;
      }
    }
  }

  /** The node just tagged has the title once, whether or not it was listed before. */
  lemma NewTitleAt(attrs: map<string, Attrs>, init: seq<string>, n: string, title: string, t: map<string, Attrs>)
    requires t.Keys == attrs.Keys && ListedTagged(attrs, init, title, t) && UnlistedKept(attrs, init, t)
    requires n in t
    ensures WithTitle(t[n], title) == WithTitle(attrs[n], title)
  {
    if n in init {
      WithTitleTwice(attrs[n], title);
    } else {
      assert t[n] == attrs[n];
    }
  }

  /** Tagging one more node: the unlisted nodes are still untouched. */
  lemma UnlistedStep(attrs: map<string, Attrs>, init: seq<string>, n: string, title: string,
                     t: map<string, Attrs>, r: map<string, Attrs>)
    requires t.Keys == attrs.Keys && UnlistedKept(attrs, init, t)
    requires r == if n in t then t[n := WithTitle(t[n], title)] else t
    requires r.Keys == attrs.Keys
    ensures UnlistedKept(attrs, init + [n], r)
  {
    forall x | x in attrs && x !in init + [n]
      ensures r[x] == attrs[x]
    {
      assert x !in init && x != n;
    }
  }

  /** Recording the same community again changes nothing. */
  lemma TaggedIdempotent(attrs: map<string, Attrs>, nodes: seq<string>, title: string)
    ensures Tagged(Tagged(attrs, nodes, title), nodes, title) == Tagged(attrs, nodes, title)
  {
    var once := Tagged(attrs, nodes, title);
    TaggedLaws(attrs, nodes, title);
    TaggedLaws(once, nodes, title);
    forall n | n in once && n in nodes
      ensures Tagged(once, nodes, title)[n] == once[n]
    {
      WithTitleTwice(attrs[n], title);
    }
  }

  /** A well-formed graph stays well formed. */
  lemma TaggedWellFormed(g: GraphData, nodes: seq<string>, title: string)
    requires WellFormed(g)
    ensures WellFormed(g.(attrs := Tagged(g.attrs, nodes, title)))
  {
    TaggedLaws(g.attrs, nodes, title);
  }

  /** `addCommunityInfo2Graph(graph, nodes, title)`. */
  method AddCommunityInfo(graph: Graph, nodes: seq<string>, title: string)
    modifies graph
    ensures graph.Data() == old(graph.Data()).(attrs := Tagged(old(graph.attrs), nodes, title))
  {
    ghost var g := graph.Data();
    for i := 0 to |nodes|
      invariant graph.Data() == g.(attrs := Tagged(g.attrs, nodes[..i], title))
    {
      var n := nodes[i];
      if n in graph.attrs {
        graph.SetNodeAttributes(n, WithTitle(graph.attrs[n], title));
      }
      assert nodes[..i + 1][..i] == nodes[..i];
    }
    assert nodes[..|nodes|] == nodes;
  }
}
