/**
 * The data of the full-text index: documents, the gram-to-entries maps,
 * what `addTo*Index` does to them and what `buildIndex` leaves.
 */
module SearchIndex {
  import opened Common
  import opened SearchText
  import opened Grouping
  import opened PropertyGraphs

  /** The `type` of an indexed document: `"node"` or `"edge"`. */
  datatype Kind = NodeDoc | EdgeDoc

  /** An index entry `{ id, type, text }`; `text` is the normalised text. */
  datatype Doc = Doc(id: string, kind: Kind, text: string)

  /** The results key `${type}:${id}`; the two kinds render differently, so it is the pair. */
  type Key = (Kind, string)

  function KeyOf(d: Doc): Key {
    (d.kind, d.id)
  }

  /**
   * A gram's entries. The source keeps them in a `Set` of object literals,
   * and no two literals are the same object, so every `add` adds an entry:
   * one per occurrence, in insertion order.
   */
  type Index = OrdMap<string, seq<Doc>>

  /** What `entityIndex` holds for a node or an edge. */
  datatype Entity = NodeEntity(attrs: Attrs) | EdgeEntity(attrs: Attrs, source: string, target: string)

  /** The four maps of a `FullTextSearch` object. */
  datatype Indices = Indices(bigram: Index, trigram: Index, keyword: Index, entity: OrdMap<string, Entity>)

  function NoIndices(): Indices {
    Indices(EmptyMap(), EmptyMap(), EmptyMap(), EmptyMap())
  }

  /** `grams.forEach(g => { if (!index.has(g)) index.set(g, new Set()); index.get(g).add(d) })`. */
  function AddAll(idx: Index, grams: seq<string>, d: Doc): Index
    decreases |grams|
  {
    if grams == [] then idx else Extend(AddAll(idx, grams[..|grams| - 1], d), grams[|grams| - 1], [d])
  }

  /** `n` copies of `d`. */
  function Copies(d: Doc, n: nat): (r: seq<Doc>)
    ensures |r| == n && forall x :: x in r ==> x == d
  {
    if n == 0 then [] else Copies(d, n - 1) + [d]
  }

  /** How often `x` occurs in `s`. */
  function Occurrences(s: seq<string>, x: string): nat
    decreases |s|
  {
    if s == [] then 0 else Occurrences(s[..|s| - 1], x) + (if s[|s| - 1] == x then 1 else 0)
  }

  /** `AddAll` over one more gram. */
  lemma AddAllSnoc(idx: Index, grams: seq<string>, i: nat, d: Doc)
    requires i < |grams|
    ensures AddAll(idx, grams[..i + 1], d) == Extend(AddAll(idx, grams[..i], d), grams[i], [d])
  {
    assert grams[..i + 1][..i] == grams[..i];
  }

  /** The index stays valid. */
  lemma {:induction false} AddAllValid(idx: Index, grams: seq<string>, d: Doc)
    requires idx.Valid()
    ensures AddAll(idx, grams, d).Valid()
    decreases |grams|
  {
    if grams != [] {
      var init := grams[..|grams| - 1];
      AddAllValid(idx, init, d);
      var prev := AddAll(idx, init, d);
      PutValid(prev, grams[|grams| - 1], Get(prev, grams[|grams| - 1]) + [d]);
    }
  }

  /** Each gram's entries gain one copy of `d` per occurrence of the gram. */
  lemma {:induction false} AddAllEntries(idx: Index, grams: seq<string>, d: Doc, g: string)
    ensures Get(AddAll(idx, grams, d), g) == Get(idx, g) + Copies(d, Occurrences(grams, g))
    decreases |grams|
  {
    if grams != [] {
      AddAllEntries(idx, grams[..|grams| - 1], d, g);
      AddAllEntriesStep(idx, grams, d, g);
    }
  }

  lemma AddAllEntriesStep(idx: Index, grams: seq<string>, d: Doc, g: string)
    requires grams != []
    requires Get(AddAll(idx, grams[..|grams| - 1], d), g)
          == Get(idx, g) + Copies(d, Occurrences(grams[..|grams| - 1], g))
    ensures Get(AddAll(idx, grams, d), g) == Get(idx, g) + Copies(d, Occurrences(grams, g))
  {
    var init := grams[..|grams| - 1];
    if grams[|grams| - 1] == g {
      var c := Occurrences(init, g);
      assert Copies(d, c + 1) == Copies(d, c) + [d];
    }
  }

  /** The grams become keys of the index; no other key appears. */
  lemma {:induction false} AddAllKeys(idx: Index, grams: seq<string>, d: Doc)
    ensures forall g :: g in AddAll(idx, grams, d).m <==> g in idx.m || g in grams
    decreases |grams|
  {
    if grams != [] {
      var init := grams[..|grams| - 1];
      AddAllKeys(idx, init, d);
      assert forall g :: g in grams <==> g in init || g == grams[|grams| - 1];
    }
  }

  lemma WholePrefix(s: seq<string>)
    ensures s[..|s|] == s
  {
  }

  /** A node's text, `${id} ${attrs.description || ""}`. */
  function NodeText(id: string, at: Attrs): string {
    id + " " + (if at.description.Some? then at.description.value else "")
  }

  /** An edge's text, `${source} ${target} ${attrs.description || ""}`. */
  function EdgeText(e: Edge): string {
    e.source + " " + e.target + " " + (if e.attrs.description.Some? then e.attrs.description.value else "")
  }

  /** `addToBigramIndex`, `addToTrigramIndex` and `addToKeywordIndex` on one text. */
  function IndexText(s: Indices, text: string, id: string, kind: Kind): Indices {
    var t := Normalize(text);
    var d := Doc(id, kind, t);
    s.(bigram := AddAll(s.bigram, Bigrams(t), d),
       trigram := AddAll(s.trigram, Trigrams(t), d),
       keyword := AddAll(s.keyword, Keywords(t), d))
  }

  /** One node of `forEachNode`: its text is indexed and its attributes recorded. */
  function NodeStep(s: Indices, n: string, at: Attrs): Indices {
    var t := IndexText(s, NodeText(n, at), n, NodeDoc);
    t.(entity := Put(t.entity, n, NodeEntity(at)))
  }

  /** One edge of `forEachEdge`; `edgeKey` renders graphology's edge keys. */
  function EdgeStep(s: Indices, e: Edge, edgeKey: nat -> string): Indices {
    var t := IndexText(s, EdgeText(e), edgeKey(e.key), EdgeDoc);
    t.(entity := Put(t.entity, edgeKey(e.key), EdgeEntity(e.attrs, e.source, e.target)))
  }

  /** The `forEachNode` pass of `buildIndex` over the first `k` nodes. */
  function IndexNodes(s: Indices, g: GraphData, k: nat): Indices
    requires k <= |g.nodes|
    decreases k
  {
    if k == 0 then s
    else
      var n := g.nodes[k - 1];
      NodeStep(IndexNodes(s, g, k - 1), n, if n in g.attrs then g.attrs[n] else NoAttrs())
  }

  /** The `forEachEdge` pass over the first `k` edges. */
  function IndexEdges(s: Indices, g: GraphData, edgeKey: nat -> string, k: nat): Indices
    requires k <= |g.edges|
    decreases k
  {
    if k == 0 then s else EdgeStep(IndexEdges(s, g, edgeKey, k - 1), g.edges[k - 1], edgeKey)
  }

  /** The indices `buildIndex(graph)` leaves: cleared, then every node, then every edge. */
  function IndexGraph(g: GraphData, edgeKey: nat -> string): Indices {
    IndexEdges(IndexNodes(NoIndices(), g, |g.nodes|), g, edgeKey, |g.edges|)
  }

}
