/**
 * `searchGraph` of the query script: a plain keyword filter over the graph.
 * The query's lower-cased white-space tokens longer than two characters are
 * the terms; a node or an edge is picked when some term occurs in its
 * lower-cased text; each pick renders as a context line, duplicates are
 * dropped, and the lines are joined by newlines, nodes first.
 */
module SearchGraph {
  import opened Common
  import opened Strings
  import opened PropertyGraphs

  /** The query terms: lower-cased `split(/\s+/)` pieces of more than two characters. */
  function Terms(query: string): seq<string> {
    Filter(SplitWs(Lower(query)), (t: string) => |t| > 2)
  }

  lemma TermsLaws(query: string)
    ensures forall t :: t in Terms(query) ==> |t| > 2 && NoSpace(t)
    ensures forall t :: t in SplitWs(Lower(query)) && |t| > 2 ==> t in Terms(query)
  {
  }

  /** `terms.some(term => content.includes(term))`. */
  function Some(terms: seq<string>, content: string): bool
    decreases |terms|
  {
    terms != [] && (Contains(content, terms[0]) || Some(terms[1..], content))
  }

  lemma {:induction false} SomeIff(terms: seq<string>, content: string)
    ensures Some(terms, content) <==> exists t :: t in terms && Contains(content, t)
    decreases |terms|
  {
    if terms != [] {
      SomeIff(terms[1..], content);
      assert forall t :: t in terms <==> t == terms[0] || t in terms[1..];
    }
  }

  /** The text a node is searched in: `${node} ${attrs.description}`, lower-cased. */
  function NodeContent(n: string, a: Attrs): string {
    Lower(n + " " + Render(a.description))
  }

  /** The text an edge is searched in: `${source} ${target} ${attrs.description}`, lower-cased. */
  function EdgeContent(e: Edge): string {
    Lower(e.source + " " + e.target + " " + Render(e.attrs.description))
  }

  function NodeLine(n: string, a: Attrs): string {
    "- Entity: " + n + " (Type: " + Render(a.entityType) + ")\n  - Description: " + Render(a.description)
  }

  function EdgeLine(e: Edge): string {
    "- Relationship: " + e.source + " <-> " + e.target + "\n  - Description: " + Render(e.attrs.description)
  }

  /** The lines of the picked nodes among the first `i`, in node order. */
  function NodeLines(g: GraphData, terms: seq<string>, i: nat): seq<string>
    requires i <= |g.nodes| && forall n :: n in g.nodes ==> n in g.attrs
  {
    if i == 0 then []
    else
      var n := g.nodes[i - 1];
      NodeLines(g, terms, i - 1) + (if Some(terms, NodeContent(n, g.attrs[n])) then [NodeLine(n, g.attrs[n])] else [])
  }

  /** The lines of the picked edges among the first `i`, in edge order. */
  function EdgeLines(g: GraphData, terms: seq<string>, i: nat): seq<string>
    requires i <= |g.edges|
  {
    if i == 0 then []
    else
      var e := g.edges[i - 1];
      EdgeLines(g, terms, i - 1) + (if Some(terms, EdgeContent(e)) then [EdgeLine(e)] else [])
  }

  /** The distinct context lines, in the order they were first added: the `Set`'s contents. */
  function ContextLines(g: GraphData, query: string): seq<string>
    requires forall n :: n in g.nodes ==> n in g.attrs
  {
    var terms := Terms(query);
    Dedup(NodeLines(g, terms, |g.nodes|) + EdgeLines(g, terms, |g.edges|))
  }

  /** `searchGraph(graph, query)`. */
  function Context(g: GraphData, query: string): string
    requires forall n :: n in g.nodes ==> n in g.attrs
  {
    Join(ContextLines(g, query), "\n")
  }

  /** A node's line is listed exactly when some term occurs in the node's text. */
  lemma {:induction false} NodeLinesIff(g: GraphData, terms: seq<string>, i: nat, line: string)
    requires i <= |g.nodes| && forall n :: n in g.nodes ==> n in g.attrs
    ensures line in NodeLines(g, terms, i) <==>
      exists k :: 0 <= k < i && Some(terms, NodeContent(g.nodes[k], g.attrs[g.nodes[k]]))
                 && line == NodeLine(g.nodes[k], g.attrs[g.nodes[k]])
    decreases i
  {
    if i > 0 {
      NodeLinesIff(g, terms, i - 1, line);
    }
  }

  /** An edge's line is listed exactly when some term occurs in the edge's text. */
  lemma {:induction false} EdgeLinesIff(g: GraphData, terms: seq<string>, i: nat, line: string)
    requires i <= |g.edges|
    ensures line in EdgeLines(g, terms, i) <==>
      exists k :: 0 <= k < i && Some(terms, EdgeContent(g.edges[k])) && line == EdgeLine(g.edges[k])
    decreases i
  {
    if i > 0 {
      EdgeLinesIff(g, terms, i - 1, line);
    }
  }

  lemma {:induction false} NodeLinesShape(g: GraphData, terms: seq<string>, i: nat)
    requires i <= |g.nodes| && forall n :: n in g.nodes ==> n in g.attrs
    ensures forall x :: x in NodeLines(g, terms, i) ==> MatchesAt(x, "- E", 0)
    decreases i
  {
    if i > 0 {
      NodeLinesShape(g, terms, i - 1);
      var n := g.nodes[i - 1];
      assert NodeLine(n, g.attrs[n])[..3] == "- E";
    }
  }

  lemma {:induction false} EdgeLinesShape(g: GraphData, terms: seq<string>, i: nat)
    requires i <= |g.edges|
    ensures forall x :: x in EdgeLines(g, terms, i) ==> MatchesAt(x, "- R", 0)
    decreases i
  {
    if i > 0 {
      EdgeLinesShape(g, terms, i - 1);
      assert EdgeLine(g.edges[i - 1])[..3] == "- R";
    }
  }

  /** Node lines come first, then edge lines, each without duplicates. */
  lemma ContextOrder(g: GraphData, query: string)
    requires forall n :: n in g.nodes ==> n in g.attrs
    ensures ContextLines(g, query)
         == Dedup(NodeLines(g, Terms(query), |g.nodes|)) + Dedup(EdgeLines(g, Terms(query), |g.edges|))
  {
    var terms := Terms(query);
    var a, b := NodeLines(g, terms, |g.nodes|), EdgeLines(g, terms, |g.edges|);
    NodeLinesShape(g, terms, |g.nodes|);
    EdgeLinesShape(g, terms, |g.edges|);
    DedupDisjoint(a, b);
  }

  /** A join of non-empty pieces is empty exactly when there are none. */
  lemma JoinEmpty(parts: seq<string>, sep: string)
    requires forall x :: x in parts ==> x != []
    ensures Join(parts, sep) == [] <==> parts == []
  {
    if parts != [] {
      assert parts[0] in parts;
      if |parts| > 1 {
        assert Join(parts, sep) == parts[0] + sep + Join(parts[1..], sep);
      }
    }
  }

  /** The result is empty exactly when no node and no edge is picked. */
  lemma ContextEmpty(g: GraphData, query: string)
    requires forall n :: n in g.nodes ==> n in g.attrs
    ensures Context(g, query) == [] <==>
      NodeLines(g, Terms(query), |g.nodes|) == [] && EdgeLines(g, Terms(query), |g.edges|) == []
  {
    var terms := Terms(query);
    NodeLinesShape(g, terms, |g.nodes|);
    EdgeLinesShape(g, terms, |g.edges|);
    JoinDedupEmpty(NodeLines(g, terms, |g.nodes|), EdgeLines(g, terms, |g.edges|));
  }

  /** Lines that all start with a marker join, deduplicated, to nothing only when there are none. */
  lemma JoinDedupEmpty(a: seq<string>, b: seq<string>)
    requires forall x :: x in a ==> MatchesAt(x, "- E", 0)
    requires forall x :: x in b ==> MatchesAt(x, "- R", 0)
    ensures Join(Dedup(a + b), "\n") == [] <==> a == [] && b == []
  {
    var lines := Dedup(a + b);
    forall x | x in lines
      ensures x != []
    {
      assert x in a + b;
    }
    JoinEmpty(lines, "\n");
    if a + b != [] {
      assert (a + b)[0] in lines;
    }
  }

  /** Without a term longer than two characters nothing is picked. */
  lemma NoTerms(g: GraphData, query: string)
    requires forall n :: n in g.nodes ==> n in g.attrs
    requires Terms(query) == []
    ensures Context(g, query) == []
  {
    assert forall i :: 0 <= i <= |g.nodes| ==> NodeLines(g, [], i) == [] by {
      forall i | 0 <= i <= |g.nodes|
        ensures NodeLines(g, [], i) == []
      {
        if NodeLines(g, [], i) != [] {
          NodeLinesIff(g, [], i, NodeLines(g, [], i)[0]);
        }
      }
    }
    assert forall i :: 0 <= i <= |g.edges| ==> EdgeLines(g, [], i) == [] by {
      forall i | 0 <= i <= |g.edges|
        ensures EdgeLines(g, [], i) == []
      {
        if EdgeLines(g, [], i) != [] {
          EdgeLinesIff(g, [], i, EdgeLines(g, [], i)[0]);
        }
      }
    }
  }

  /** The node loop: each picked node's line is added to the set and counted. */
  method ScanNodes(g: GraphData, terms: seq<string>) returns (seen: seq<string>, count: nat)
    requires forall n :: n in g.nodes ==> n in g.attrs
    ensures seen == Dedup(NodeLines(g, terms, |g.nodes|)) && count == |NodeLines(g, terms, |g.nodes|)|
  {
    seen, count := [], 0;
    ghost var lines: seq<string> := [];
    for i := 0 to |g.nodes|
      invariant lines == NodeLines(g, terms, i)
      invariant seen == Dedup(lines) && count == |lines|
    {
      var n := g.nodes[i];
      var attrs := g.attrs[n];
      var picked := Some(terms, NodeContent(n, attrs));
      var line := NodeLine(n, attrs);
      NodeLinesNext(g, terms, i, lines, picked, line);
      if picked {
        seen := AddSeen(seen, lines, line);
        count := count + 1;
        lines := lines + [line];
      }
    }
  }

  lemma NodeLinesNext(g: GraphData, terms: seq<string>, i: nat, lines: seq<string>, picked: bool, line: string)
    requires i < |g.nodes| && forall n :: n in g.nodes ==> n in g.attrs
    requires lines == NodeLines(g, terms, i)
    requires picked == Some(terms, NodeContent(g.nodes[i], g.attrs[g.nodes[i]]))
    requires line == NodeLine(g.nodes[i], g.attrs[g.nodes[i]])
    ensures NodeLines(g, terms, i + 1) == if picked then lines + [line] else lines
  {
    assert lines + [] == lines;
  }

  lemma EdgeLinesNext(g: GraphData, terms: seq<string>, i: nat, lines: seq<string>, picked: bool, line: string)
    requires i < |g.edges|
    requires lines == EdgeLines(g, terms, i)
    requires picked == Some(terms, EdgeContent(g.edges[i]))
    requires line == EdgeLine(g.edges[i])
    ensures EdgeLines(g, terms, i + 1) == if picked then lines + [line] else lines
  {
    assert lines + [] == lines;
  }

  /** One `Set.add`: the insertion-ordered set of `lines` extended by `line`. */
  method AddSeen(seen: seq<string>, ghost lines: seq<string>, line: string) returns (r: seq<string>)
    requires seen == Dedup(lines)
    ensures r == Dedup(lines + [line])
  {
    DedupSnoc(lines, line);
    r := if line in seen then seen else seen + [line];
  }

  /** The edge loop, continuing the set and the count the node loop left. */
  method ScanEdges(g: GraphData, terms: seq<string>, front: seq<string>, seen0: seq<string>, count0: nat)
    returns (seen: seq<string>, count: nat)
    requires seen0 == Dedup(front) && count0 == |front|
    ensures seen == Dedup(front + EdgeLines(g, terms, |g.edges|)) && count == |front| + |EdgeLines(g, terms, |g.edges|)|
  {
    seen, count := seen0, count0;
    ghost var lines: seq<string> := [];
    assert front + lines == front;
    for i := 0 to |g.edges|
      invariant lines == EdgeLines(g, terms, i)
      invariant seen == Dedup(front + lines) && count == |front| + |lines|
    {
      var e := g.edges[i];
      var picked := Some(terms, EdgeContent(e));
      var line := EdgeLine(e);
      EdgeLinesNext(g, terms, i, lines, picked, line);
      if picked {
        ConcatAssoc(front, lines, [line]);
        seen := AddSeen(seen, front + lines, line);
        count := count + 1;
        lines := lines + [line];
      }
    }
  }

  /**
   * `searchGraph`: the node loop, then the edge loop, then the set's lines
   * joined by newlines. The pick count is only logged by the original; it is
   * returned here.
   */
  method Search(g: GraphData, query: string) returns (context: string, evidenceCount: nat)
    requires forall n :: n in g.nodes ==> n in g.attrs
    ensures context == Context(g, query)
    ensures evidenceCount == |NodeLines(g, Terms(query), |g.nodes|)| + |EdgeLines(g, Terms(query), |g.edges|)|
  {
    var terms := Terms(query);
    var seen, count := ScanNodes(g, terms);
    seen, evidenceCount := ScanEdges(g, terms, NodeLines(g, terms, |g.nodes|), seen, count);
    context := Join(seen, "\n");
  }
}
