/**
 * `src/extractors/base-extractor.js`: the records of one chunk become
 * entities or relationships grouped by name and by sorted endpoint pair
 * (`_entities_and_relations`); the groups of all chunks are combined key by
 * key and every group is merged into one entity or relationship
 * (`_merge_nodes`, `_merge_edges`, `extract`). The chat model that
 * summarises long descriptions is the parameter `chat`.
 */
module BaseExtractor {
  import opened Common
  import opened Strings
  import opened Utils
  import opened Grouping

  /** `PROMPTS.DEFAULT_TUPLE_DELIMITER`. */
  const TupleDelimiter: string := "<|>"

  /** The separator of merged descriptions. */
  const Sep: string := " <SEP> "

  /** A merged description with more parts than this is summarised. */
  const SummaryThreshold: nat := 12

  /* ------------------------------ one chunk's records ------------------------------ */

  /** What one record contributes. */
  datatype Parsed = AsEntity(entity: Entity) | AsRelation(relation: Relationship) | Discarded

  /** `new Set(entity_types.map((t) => t.toLowerCase()))`, as a sequence. */
  function LowerAll(ts: seq<string>): seq<string> {
    seq(|ts|, i requires 0 <= i < |ts| => Lower(ts[i]))
  }

  /** `ent_types.has(entity.entity_type.toLowerCase())`. */
  predicate Configured(e: Entity, entityTypes: seq<string>) {
    Lower(e.entityType) in LowerAll(entityTypes)
  }

  /** `record.split(tuple_delimiter)`. */
  function Attributes(record: string): seq<string> {
    SplitMarkers(record, [TupleDelimiter])
  }

  /**
   * The body of the loop of `_entities_and_relations`: an entity of a
   * configured type, else a relationship, else nothing.
   */
  function Classify(record: string, chunkKey: string, entityTypes: seq<string>,
                    parseFloat: string -> Option<real>): Parsed
  {
    var attrs := Attributes(record);
    var entity := EntityOf(attrs, chunkKey);
    if entity.Some? && Configured(entity.value, entityTypes) then AsEntity(entity.value)
    else
      var relation := RelationshipOf(attrs, chunkKey, parseFloat);
      if relation.Some? then AsRelation(relation.value) else Discarded
  }

  /** An entity record of a type that is not configured is dropped, not read as a relationship. */
  lemma UnconfiguredDropped(record: string, chunkKey: string, entityTypes: seq<string>,
                            parseFloat: string -> Option<real>)
    requires EntityOf(Attributes(record), chunkKey).Some?
    requires !Configured(EntityOf(Attributes(record), chunkKey).value, entityTypes)
    ensures Classify(record, chunkKey, entityTypes, parseFloat) == Discarded
  {
    var attrs := Attributes(record);
    assert CleanStr(attrs[0]) == "entity";
    assert !IsKind(attrs[0], "relationship");
  }

  /** The records of a chunk, classified. */
  function ParseAll(records: seq<string>, chunkKey: string, entityTypes: seq<string>,
                    parseFloat: string -> Option<real>): seq<Parsed>
  {
    seq(|records|, i requires 0 <= i < |records| => Classify(records[i], chunkKey, entityTypes, parseFloat))
  }

  /** The kept entities, in record order. */
  function Entities(ps: seq<Parsed>): seq<Entity>
    decreases |ps|
  {
    if ps == [] then []
    else
      var last := ps[|ps| - 1];
      Entities(ps[..|ps| - 1]) + (if last.AsEntity? then [last.entity] else [])
  }

  /** The relationships, in record order. */
  function Relations(ps: seq<Parsed>): seq<Relationship>
    decreases |ps|
  {
    if ps == [] then []
    else
      var last := ps[|ps| - 1];
      Relations(ps[..|ps| - 1]) + (if last.AsRelation? then [last.relation] else [])
  }

  /** The grouping key of an entity. */
  function EntityName(e: Entity): string {
    e.entityName
  }

  /**
   * The grouping key of a relationship: `JSON.stringify([src, tgt].sort())`
   * stands for the already sorted pair itself.
   */
  function EdgeKey(r: Relationship): (string, string) {
    (r.srcId, r.tgtId)
  }

  /** What one record does to the entity groups. */
  function AddEntity(nodes: OrdMap<string, seq<Entity>>, p: Parsed): OrdMap<string, seq<Entity>> {
    if p.AsEntity? then Extend(nodes, p.entity.entityName, [p.entity]) else nodes
  }

  /** What one record does to the relationship groups. */
  function AddRelation(edges: OrdMap<(string, string), seq<Relationship>>, p: Parsed)
    : OrdMap<(string, string), seq<Relationship>>
  {
    if p.AsRelation? then Extend(edges, EdgeKey(p.relation), [p.relation]) else edges
  }

  lemma GroupStep(ps: seq<Parsed>, i: nat)
    requires i < |ps|
    ensures GroupBy(Entities(ps[..i + 1]), EntityName) == AddEntity(GroupBy(Entities(ps[..i]), EntityName), ps[i])
    ensures GroupBy(Relations(ps[..i + 1]), EdgeKey) == AddRelation(GroupBy(Relations(ps[..i]), EdgeKey), ps[i])
  {
    var prefix, p := ps[..i], ps[i];
    assert ps[..i + 1] == prefix + [p];
    assert (prefix + [p])[..|prefix|] == prefix;
    assert Entities(prefix + [p]) == Entities(prefix) + (if p.AsEntity? then [p.entity] else []);
    assert Relations(prefix + [p]) == Relations(prefix) + (if p.AsRelation? then [p.relation] else []);
    if p.AsEntity? {
      GroupBySnoc(Entities(prefix), p.entity, EntityName);
    } else {
      assert Entities(prefix + [p]) == Entities(prefix);
    }
    if p.AsRelation? {
      GroupBySnoc(Relations(prefix), p.relation, EdgeKey);
    } else {
      assert Relations(prefix + [p]) == Relations(prefix);
    }
  }

  /**
   * `_entities_and_relations(chunk_key, records, "<|>")`: the entities
   * grouped by name and the relationships by endpoint pair, each group in
   * record order.
   */
  method EntitiesAndRelations(chunkKey: string, records: seq<string>, entityTypes: seq<string>,
                              parseFloat: string -> Option<real>)
    returns (nodes: OrdMap<string, seq<Entity>>, edges: OrdMap<(string, string), seq<Relationship>>)
    ensures nodes == GroupBy(Entities(ParseAll(records, chunkKey, entityTypes, parseFloat)), EntityName)
    ensures edges == GroupBy(Relations(ParseAll(records, chunkKey, entityTypes, parseFloat)), EdgeKey)
  {
    ghost var ps := ParseAll(records, chunkKey, entityTypes, parseFloat);
    nodes, edges := EmptyMap(), EmptyMap();
    var i := 0;
    while i < |records|
      invariant i <= |records|
      invariant nodes == GroupBy(Entities(ps[..i]), EntityName)
      invariant edges == GroupBy(Relations(ps[..i]), EdgeKey)
    {
      var p := Classify(records[i], chunkKey, entityTypes, parseFloat);
      GroupStep(ps, i);
      nodes := AddEntity(nodes, p);
      edges := AddRelation(edges, p);
      i := i + 1;
    }
    assert ps[..|records|] == ps;
  }

  /* ------------------------------ the most frequent type ------------------------------ */

  /** How often `x` occurs in `ts`. */
  function Occurrences(ts: seq<string>, x: string): nat
    decreases |ts|
  {
    if ts == [] then 0 else Occurrences(ts[..|ts| - 1], x) + (if ts[|ts| - 1] == x then 1 else 0)
  }

  /** `ts.reduce((acc, t) => { acc[t] = (acc[t] || 0) + 1; return acc; }, {})`. */
  function Tally(ts: seq<string>): OrdMap<string, nat>
    decreases |ts|
  {
    if ts == [] then EmptyMap()
    else
      var t := Tally(ts[..|ts| - 1]);
      var x := ts[|ts| - 1];
      Put(t, x, (if x in t.m then t.m[x] else 0) + 1)
  }

  lemma {:induction false} TallyValid(ts: seq<string>)
    ensures Tally(ts).Valid()
    decreases |ts|
  {
    if ts != [] {
      var init := ts[..|ts| - 1];
      var x := ts[|ts| - 1];
      TallyValid(init);
      var t := Tally(init);
      PutValid(t, x, (if x in t.m then t.m[x] else 0) + 1);
    }
  }

  /** The tally lists the types in order of first appearance. */
  lemma {:induction false} TallyKeys(ts: seq<string>)
    ensures Tally(ts).keys == Dedup(ts)
    decreases |ts|
  {
    if ts != [] {
      var init := ts[..|ts| - 1];
      var x := ts[|ts| - 1];
      TallyKeys(init);
      TallyValid(init);
      var t := Tally(init);
      assert x in t.m <==> x in Dedup(init);
      assert ts == init + [x];
      DedupSnoc(init, x);
    }
  }

  /** The tally counts every type and lists the types in order of first appearance. */
  lemma TallyLaws(ts: seq<string>)
    ensures Tally(ts).Valid()
    ensures Tally(ts).keys == Dedup(ts)
  {
    TallyValid(ts);
    TallyKeys(ts);
  }

  /** The tally holds exactly the types that occur, with their number of occurrences. */
  lemma {:induction false} TallyCount(ts: seq<string>, x: string)
    ensures x in Tally(ts).m <==> x in ts
    ensures x in Tally(ts).m ==> Tally(ts).m[x] == Occurrences(ts, x)
    decreases |ts|
  {
    if ts != [] {
      var init := ts[..|ts| - 1];
      assert ts == init + [ts[|ts| - 1]];
      TallyCount(init, x);
      if x !in init {
        OccurrencesAbsent(init, x);
      }
    }
  }

  lemma {:induction false} OccurrencesAbsent(ts: seq<string>, x: string)
    requires x !in ts
    ensures Occurrences(ts, x) == 0
    decreases |ts|
  {
    if ts != [] {
      OccurrencesAbsent(ts[..|ts| - 1], x);
    }
  }

  /**
   * `keys.reduce((a, b) => counts[a] > counts[b] ? a : b)`, as the index of
   * the key it returns: a largest count, the last key among equals.
   */
  function BestIndex(keys: seq<string>, counts: map<string, nat>): (i: nat)
    requires keys != [] && forall k :: k in keys ==> k in counts
    ensures i < |keys|
    ensures forall j :: 0 <= j < |keys| ==> counts[keys[j]] <= counts[keys[i]]
    ensures forall j :: i < j < |keys| ==> counts[keys[j]] < counts[keys[i]]
    decreases |keys|
  {
    if |keys| == 1 then 0
    else
      var init := keys[..|keys| - 1];
      var a := BestIndex(init, counts);
      assert forall j :: 0 <= j < |init| ==> init[j] == keys[j];
      if counts[keys[a]] > counts[keys[|keys| - 1]] then a else |keys| - 1
  }

  /** The position, among the distinct types, of the type `_merge_nodes` keeps. */
  function MostFrequentIndex(ts: seq<string>): (i: nat)
    requires ts != []
    ensures i < |Dedup(ts)|
  {
    TallyLaws(ts);
    var t := Tally(ts);
    assert ts[|ts| - 1] in t.keys;
    BestIndex(t.keys, t.m)
  }

  /** The type `_merge_nodes` keeps. */
  function MostFrequent(ts: seq<string>): string
    requires ts != []
  {
    Dedup(ts)[MostFrequentIndex(ts)]
  }

  /**
   * The kept type occurs, no type occurs more often, and every type first
   * seen after it occurs strictly less often: ties go to the type first
   * seen latest.
   */
  lemma MostFrequentLaws(ts: seq<string>, x: string)
    requires ts != [] && x in ts
    ensures MostFrequent(ts) in ts
    ensures Occurrences(ts, x) <= Occurrences(ts, MostFrequent(ts))
    ensures forall j :: MostFrequentIndex(ts) < j < |Dedup(ts)| ==>
              Occurrences(ts, Dedup(ts)[j]) < Occurrences(ts, MostFrequent(ts))
  {
    TallyLaws(ts);
    var keys := Dedup(ts);
    var t := Tally(ts);
    var i := MostFrequentIndex(ts);
    var r := keys[i];
    assert r in keys;
    TallyCount(ts, r);
    TallyCount(ts, x);
    assert x in keys;
    var jx :| 0 <= jx < |keys| && keys[jx] == x;
    assert t.m[keys[jx]] <= t.m[r];
    forall j | i < j < |keys|
      ensures Occurrences(ts, keys[j]) < Occurrences(ts, r)
    {
      assert keys[j] in keys;
      TallyCount(ts, keys[j]);
    }
  }

  /* ------------------------------ merging ------------------------------ */

  /** The text sent to the summary model (`SUMMARIZE_DESCRIPTIONS_PROMPT` is `template`). */
  function SummaryPrompt(template: string, name: string, descriptions: string, language: string): string {
    ReplaceFirst(ReplaceFirst(ReplaceFirst(template, "{entity_name}", name), "{description_list}", descriptions),
                 "{language}", language)
  }

  /** The description after the optional summary call. */
  function Summarised(name: string, descriptions: string, template: string, language: string,
                      chat: string -> string): string
  {
    if |SplitMarkers(descriptions, [Sep])| > SummaryThreshold
    then chat(SummaryPrompt(template, name, descriptions, language))
    else descriptions
  }

  /** A merged entity. */
  datatype MergedEntity = MergedEntity(entityName: string, entityType: string, description: string,
                                       sourceIds: seq<string>)

  function EntityTypes(es: seq<Entity>): seq<string> {
    seq(|es|, i requires 0 <= i < |es| => es[i].entityType)
  }

  function EntityDescriptions(es: seq<Entity>): seq<string> {
    seq(|es|, i requires 0 <= i < |es| => es[i].description)
  }

  function EntitySources(es: seq<Entity>): seq<string> {
    seq(|es|, i requires 0 <= i < |es| => es[i].sourceId)
  }

  /** `_merge_nodes(entity_name, entities)`. */
  function MergeNodes(entityName: string, entities: seq<Entity>, template: string, language: string,
                      chat: string -> string): (r: Option<MergedEntity>)
    ensures r.None? <==> entities == []
    ensures r.Some? ==> r.value.entityName == entityName && r.value.sourceIds == Dedup(EntitySources(entities))
  {
    if entities == [] then None
    else
      var descriptions := Join(Dedup(EntityDescriptions(entities)), Sep);
      Some(MergedEntity(entityName, MostFrequent(EntityTypes(entities)),
                        Summarised(entityName, descriptions, template, language, chat),
                        Dedup(EntitySources(entities))))
  }

  /** The merged type is a most frequent type of the group, ties going to the type first seen latest. */
  lemma MergedType(entityName: string, entities: seq<Entity>, template: string, language: string,
                   chat: string -> string, i: nat)
    requires i < |entities|
    ensures MergeNodes(entityName, entities, template, language, chat).value.entityType in EntityTypes(entities)
    ensures Occurrences(EntityTypes(entities), entities[i].entityType)
         <= Occurrences(EntityTypes(entities), MergeNodes(entityName, entities, template, language, chat).value.entityType)
  {
    var ts := EntityTypes(entities);
    assert ts[i] == entities[i].entityType;
    MostFrequentLaws(ts, ts[i]);
  }

  /** No `" <SEP> "` occurs in a text without `<`. */
  lemma NoSepWithoutBracket(s: string)
    requires '<' !in s
    ensures forall p: nat :: !MatchesAt(s, Sep, p)
  {
    forall p: nat
      ensures !MatchesAt(s, Sep, p)
    {
      if p + |Sep| <= |s| {
        assert s[p + 1] in s;
        assert s[p..p + |Sep|][1] == s[p + 1];
      }
    }
  }

  /** In `first + " <SEP> " + tail`, the first separator is the one after `first` when `first` has no `<`. */
  lemma FirstSep(first: string, tail: string)
    requires '<' !in first
    ensures NextMarker(first + Sep + tail, [Sep], 0) == Some((|first| as nat, 0 as nat))
  {
    var s := first + Sep + tail;
    var p := |first|;
    assert s[p..p + |Sep|] == Sep;
    assert MatchesAt(s, [Sep][0], p);
    forall q: nat | q < p
      ensures !MatchesAt(s, Sep, q)
    {
      if q + |Sep| <= |s| {
        assert s[q..q + |Sep|][1] == s[q + 1];
        if q + 1 < p {
          assert s[q + 1] == first[q + 1];
          assert first[q + 1] in first;
        } else {
          assert s[q + 1] == Sep[0];
        }
      }
    }
    var r := NextMarker(s, [Sep], 0);
    assert r.Some?;
    assert r.value.0 == p;
  }

  /**
   * Splitting a `" <SEP> "` join of texts without `<` on `" <SEP> "` gives
   * the texts back; cleaned descriptions hold no `<`.
   */
  lemma {:induction false} SplitJoinSep(parts: seq<string>)
    requires parts != []
    requires forall i :: 0 <= i < |parts| ==> '<' !in parts[i]
    ensures SplitMarkers(Join(parts, Sep), [Sep]) == parts
    decreases |parts|
  {
    var s := Join(parts, Sep);
    if |parts| == 1 {
      NoSepWithoutBracket(parts[0]);
      assert NextMarker(s, [Sep], 0).None?;
    } else {
      var first := parts[0];
      var rest := parts[1..];
      assert parts == [first] + rest;
      JoinCons(first, rest, Sep);
      var tail := Join(rest, Sep);
      FirstSep(first, tail);
      SplitJoinSep(rest);
      assert s[..|first|] == first;
      assert s[|first| + |Sep|..] == tail;
    }
  }

  /**
   * When no description holds `<` (as after `clean_str`), the summary is
   * asked for exactly when the group has more than 12 distinct descriptions;
   * otherwise the description is their `" <SEP> "` join in first-occurrence order.
   */
  lemma MergedDescription(entityName: string, entities: seq<Entity>, template: string, language: string,
                          chat: string -> string)
    requires entities != []
    requires forall i :: 0 <= i < |entities| ==> '<' !in entities[i].description
    ensures |Dedup(EntityDescriptions(entities))| <= SummaryThreshold ==>
              MergeNodes(entityName, entities, template, language, chat).value.description
              == Join(Dedup(EntityDescriptions(entities)), Sep)
    ensures |Dedup(EntityDescriptions(entities))| > SummaryThreshold ==>
              MergeNodes(entityName, entities, template, language, chat).value.description
              == chat(SummaryPrompt(template, entityName, Join(Dedup(EntityDescriptions(entities)), Sep), language))
  {
    var ds := EntityDescriptions(entities);
    var parts := Dedup(ds);
    assert ds[0] in parts;
    forall i | 0 <= i < |parts|
      ensures '<' !in parts[i]
    {
      assert parts[i] in ds;
    }
    SplitJoinSep(parts);
  }

  /** A merged relationship. */
  datatype MergedRelationship = MergedRelationship(srcId: string, tgtId: string, description: string,
                                                   keywords: seq<string>, weight: real, sourceIds: seq<string>)

  function RelationDescriptions(rs: seq<Relationship>): seq<string> {
    seq(|rs|, i requires 0 <= i < |rs| => rs[i].description)
  }

  function RelationKeywords(rs: seq<Relationship>): seq<string> {
    seq(|rs|, i requires 0 <= i < |rs| => rs[i].keywords)
  }

  function RelationSources(rs: seq<Relationship>): seq<string> {
    seq(|rs|, i requires 0 <= i < |rs| => rs[i].sourceId)
  }

  function RelationWeights(rs: seq<Relationship>): seq<real> {
    seq(|rs|, i requires 0 <= i < |rs| => rs[i].weight)
  }

  /** `_merge_edges(edge_key, edges_data)`. */
  function MergeEdges(edges: seq<Relationship>, template: string, language: string,
                      chat: string -> string): (r: Option<MergedRelationship>)
    ensures r.None? <==> edges == []
    ensures r.Some? ==> r.value.srcId == edges[0].srcId && r.value.tgtId == edges[0].tgtId
    ensures r.Some? ==> r.value.weight == SumReals(RelationWeights(edges))
    ensures r.Some? ==> r.value.keywords == Dedup(RelationKeywords(edges))
    ensures r.Some? ==> r.value.sourceIds == Dedup(RelationSources(edges))
  {
    if edges == [] then None
    else
      var descriptions := Join(Dedup(RelationDescriptions(edges)), Sep);
      var name := edges[0].srcId + " -> " + edges[0].tgtId;
      Some(MergedRelationship(edges[0].srcId, edges[0].tgtId,
                              Summarised(name, descriptions, template, language, chat),
                              Dedup(RelationKeywords(edges)), SumReals(RelationWeights(edges)),
                              Dedup(RelationSources(edges))))
  }

  /** The weights of two groups add up when the groups are concatenated. */
  lemma MergedWeightAppend(a: seq<Relationship>, b: seq<Relationship>, template: string, language: string,
                           chat: string -> string)
    requires a != [] && b != []
    ensures MergeEdges(a + b, template, language, chat).value.weight
         == MergeEdges(a, template, language, chat).value.weight + MergeEdges(b, template, language, chat).value.weight
  {
    assert RelationWeights(a + b) == RelationWeights(a) + RelationWeights(b);
    SumRealsAppend(RelationWeights(a), RelationWeights(b));
  }

  /* ------------------------------ extract ------------------------------ */

  /** What `_process_single_content` returns for one chunk. */
  datatype ChunkResult = ChunkResult(nodes: OrdMap<string, seq<Entity>>,
                                     edges: OrdMap<(string, string), seq<Relationship>>, tokenCount: nat)

  function NodeMaps(results: seq<ChunkResult>): seq<OrdMap<string, seq<Entity>>> {
    seq(|results|, i requires 0 <= i < |results| => results[i].nodes)
  }

  function EdgeMaps(results: seq<ChunkResult>): seq<OrdMap<(string, string), seq<Relationship>>> {
    seq(|results|, i requires 0 <= i < |results| => results[i].edges)
  }

  function TokenSum(results: seq<ChunkResult>): nat
    decreases |results|
  {
    if results == [] then 0 else TokenSum(results[..|results| - 1]) + results[|results| - 1].tokenCount
  }

  /** Results with `null` dropped (`.filter(Boolean)`). */
  function Somes<T>(s: seq<Option<T>>): seq<T>
    decreases |s|
  {
    if s == [] then []
    else Somes(s[..|s| - 1]) + (if s[|s| - 1].Some? then [s[|s| - 1].value] else [])
  }

  /** `_merge_nodes` over the combined groups, in key order. */
  function NodeMerges(nodes: OrdMap<string, seq<Entity>>, template: string, language: string,
                      chat: string -> string): seq<Option<MergedEntity>>
    requires nodes.Valid()
  {
    seq(|nodes.keys|, i requires 0 <= i < |nodes.keys| =>
      MergeNodes(nodes.keys[i], nodes.m[nodes.keys[i]], template, language, chat))
  }

  /** `_merge_edges` over the combined groups, in key order. */
  function EdgeMerges(edges: OrdMap<(string, string), seq<Relationship>>, template: string, language: string,
                      chat: string -> string): seq<Option<MergedRelationship>>
    requires edges.Valid()
  {
    seq(|edges.keys|, i requires 0 <= i < |edges.keys| => MergeEdges(edges.m[edges.keys[i]], template, language, chat))
  }

  /** A sequence without `None` loses nothing to the filter. */
  lemma {:induction false} SomesAll<T>(s: seq<Option<T>>)
    requires forall i :: 0 <= i < |s| ==> s[i].Some?
    ensures |Somes(s)| == |s|
    ensures forall i :: 0 <= i < |s| ==> Somes(s)[i] == s[i].value
    decreases |s|
  {
    if s != [] {
      var init := s[..|s| - 1];
      SomesAll(init);
    }
  }

  /** `combined.get(k).push(...value)` for every entry of one chunk's map, in its key order. */
  method MergeInto<K(!new), V>(acc: OrdMap<K, seq<V>>, om: OrdMap<K, seq<V>>) returns (r: OrdMap<K, seq<V>>)
    requires om.Valid()
    ensures r == MergeKeys(acc, om, om.keys)
  {
    r := acc;
    var j := 0;
    while j < |om.keys|
      invariant j <= |om.keys|
      invariant r == MergeKeys(acc, om, om.keys[..j])
    {
      var k := om.keys[j];
      assert om.keys[..j + 1][..j] == om.keys[..j];
      r := Extend(r, k, om.m[k]);
      j := j + 1;
    }
    assert om.keys[..|om.keys|] == om.keys;
  }

  lemma CombineSnoc<K(!new), V>(maps: seq<OrdMap<K, seq<V>>>, i: nat)
    requires i < |maps| && forall j :: 0 <= j < |maps| ==> maps[j].Valid()
    ensures CombineAll(maps[..i + 1]) == MergeKeys(CombineAll(maps[..i]), maps[i], maps[i].keys)
  {
    assert maps[..i + 1][..i] == maps[..i];
  }

  /**
   * `extract` after `Promise.all`: the chunk maps combined key by key in
   * chunk order, every group merged, `null` results dropped, and the token
   * counts summed.
   */
  method Extract(results: seq<ChunkResult>, template: string, language: string, chat: string -> string)
    returns (entities: seq<MergedEntity>, relationships: seq<MergedRelationship>, tokens: nat)
    requires forall i :: 0 <= i < |results| ==> results[i].nodes.Valid() && results[i].edges.Valid()
    ensures CombineAll(NodeMaps(results)).Valid() && CombineAll(EdgeMaps(results)).Valid()
    ensures entities == Somes(NodeMerges(CombineAll(NodeMaps(results)), template, language, chat))
    ensures relationships == Somes(EdgeMerges(CombineAll(EdgeMaps(results)), template, language, chat))
    ensures tokens == TokenSum(results)
  {
    var nodes, edges;
    nodes, edges, tokens := CombineResults(results);
    CombineAllKeys(NodeMaps(results));
    CombineAllKeys(EdgeMaps(results));
    entities := MergeAllNodes(nodes, template, language, chat);
    relationships := MergeAllEdges(edges, template, language, chat);
  }

  /** The loop of `extract` over the chunk results. */
  method CombineResults(results: seq<ChunkResult>)
    returns (nodes: OrdMap<string, seq<Entity>>, edges: OrdMap<(string, string), seq<Relationship>>, tokens: nat)
    requires forall i :: 0 <= i < |results| ==> results[i].nodes.Valid() && results[i].edges.Valid()
    ensures nodes == CombineAll(NodeMaps(results)) && edges == CombineAll(EdgeMaps(results))
    ensures tokens == TokenSum(results)
  {
    ghost var nm := NodeMaps(results);
    ghost var em := EdgeMaps(results);
    nodes, edges := EmptyMap(), EmptyMap();
    tokens := 0;
    var i := 0;
    while i < |results|
      invariant i <= |results|
      invariant nodes == CombineAll(nm[..i]) && edges == CombineAll(em[..i])
      invariant tokens == TokenSum(results[..i])
    {
      CombineSnoc(nm, i);
      CombineSnoc(em, i);
      assert results[..i + 1][..i] == results[..i];
      nodes := MergeInto(nodes, results[i].nodes);
      edges := MergeInto(edges, results[i].edges);
      tokens := tokens + results[i].tokenCount;
      i := i + 1;
    }
    assert nm[..|results|] == nm && em[..|results|] == em && results[..|results|] == results;
  }

  /** `for (const [name, entities] of combined_nodes) ... _merge_nodes`, `null` dropped. */
  method MergeAllNodes(nodes: OrdMap<string, seq<Entity>>, template: string, language: string,
                       chat: string -> string) returns (r: seq<MergedEntity>)
    requires nodes.Valid()
    ensures r == Somes(NodeMerges(nodes, template, language, chat))
  {
    ghost var ms := NodeMerges(nodes, template, language, chat);
    r := [];
    var i := 0;
    while i < |nodes.keys|
      invariant i <= |nodes.keys|
      invariant r == Somes(ms[..i])
    {
      var k := nodes.keys[i];
      var merged := MergeNodes(k, nodes.m[k], template, language, chat);
      assert ms[..i + 1][..i] == ms[..i];
      if merged.Some? {
        r := r + [merged.value];
      }
      i := i + 1;
    }
    assert ms[..|nodes.keys|] == ms;
  }

  /** `for (const [key, edges] of combined_edges) ... _merge_edges`, `null` dropped. */
  method MergeAllEdges(edges: OrdMap<(string, string), seq<Relationship>>, template: string, language: string,
                       chat: string -> string) returns (r: seq<MergedRelationship>)
    requires edges.Valid()
    ensures r == Somes(EdgeMerges(edges, template, language, chat))
  {
    ghost var ms := EdgeMerges(edges, template, language, chat);
    r := [];
    var i := 0;
    while i < |edges.keys|
      invariant i <= |edges.keys|
      invariant r == Somes(ms[..i])
    {
      var merged := MergeEdges(edges.m[edges.keys[i]], template, language, chat);
      assert ms[..i + 1][..i] == ms[..i];
      if merged.Some? {
        r := r + [merged.value];
      }
      i := i + 1;
    }
    assert ms[..|edges.keys|] == ms;
  }

  /**
   * Chunk maps made by `EntitiesAndRelations` have no empty group, so no
   * merge result is dropped: one merged entity per distinct name, in order
   * of first appearance over the chunks.
   */
  lemma NoEntityDropped(results: seq<ChunkResult>, template: string, language: string, chat: string -> string)
    requires forall i :: 0 <= i < |results| ==> results[i].nodes.Valid()
    requires forall i, x :: 0 <= i < |results| && x in results[i].nodes.m ==> results[i].nodes.m[x] != []
    ensures CombineAll(NodeMaps(results)).Valid()
    ensures |Somes(NodeMerges(CombineAll(NodeMaps(results)), template, language, chat))|
         == |Dedup(AllKeys(NodeMaps(results)))|
  {
    var maps := NodeMaps(results);
    CombineAllKeys(maps);
    var c := CombineAll(maps);
    var ms := NodeMerges(c, template, language, chat);
    forall i | 0 <= i < |ms|
      ensures ms[i].Some?
    {
      CombineAllNonEmpty(maps, c.keys[i]);
    }
    SomesAll(ms);
  }

  /** A group made by `GroupBy` is never empty. */
  lemma GroupsNonEmpty<K(!new), V>(vs: seq<V>, key: V -> K, k: K)
    requires k in GroupBy(vs, key).m
    ensures GroupBy(vs, key).m[k] != []
  {
    GroupByEntry(vs, key, k);
  }
}
