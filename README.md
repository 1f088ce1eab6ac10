# GraphRAG core in Dafny

This project models the core of GraphRAG, a JavaScript system that builds a knowledge graph from text with a large language model. It then consolidates and analyses the graph for retrieval. Each core source file has its own Dafny module, and the model takes the same form as the code. Loops that update state are methods with loop invariants. Each method is proved against a specification function, and lemmas state what the code promises about that function.

The model covers:

- **Community detection.** The model covers Leiden local moving, connectivity-preserving refinement, aggregation into super-nodes and modularity. It also models the seeded xorshift shuffle and the hierarchical driver, which records the per-level community tables and the node attributes (`src/community/leiden.js`). All of these work on a weighted projection of the property graph (`WeightedGraphs`, `Leiden`, `LeidenSpec`, `LeidenAggregation`, `LeidenDriver`, `CommunityInfo`).
- **Full-text search.** The model covers text normalisation and the bigram, trigram and keyword indices. It also covers fuzzy matching by Levenshtein distance, the blended search and the sequential search with its early returns (`src/fulltext-search.js`: `SearchText`, `Levenshtein`, `TextSearch`, `SearchIndex`, `SearchRanking`, `SearchBlend`, `Sorting`).
- **Entity resolution.** The model covers the similarity test, the parsing of the model's yes/no replies, and the candidate buckets and batches. It covers the closure of confirmed pairs into connected components, and the in-place merging of each component into one node (`src/entity-resolution.js`: `EntityResolution`, `Resolution`, `Grouping`, `NodeMerging`).
- **Extraction.** The model covers record cleaning and splitting, entity and relationship records, grouping and merging of nodes and edges, and the gleaning loop with its history and token count (`src/utils.js`, `src/extractors/*.js`: `Utils`, `BaseExtractor`, `GraphExtractorBasic`).
- **Community reports.** The model covers the grouping of nodes by community, the entity and relationship tables, the cleaning of the reply and the report record (`CommunityReports`).
- **Front-end helpers.** The model covers:
  - the visualisation formatter and the two text chunkers (`GraphVisualization`);
  - the demo's paragraph packer (`WaterMarginDemo`);
  - the keyword filter of `searchGraph` (`SearchGraph`);
  - the message normalisation, classification and retry loop of the LLM service (`LlmService`);
  - argument parsing, text cleaning, CSV chunking and the retry wrapper of the data loader (`LoadData`).
- **Shared modules.** `PropertyGraphs` is the attributed graph shared by the extractors and the resolver. `Strings` and `Common` hold string helpers, `Option` and an insertion-ordered map that stands for JavaScript's `Map`.

The collaborators the code calls out to are parameters of the model. These are:

- the language model's chat replies;
- `parseFloat` and `JSON.parse`/`JSON.stringify`;
- PageRank and Louvain;
- the random jitter draw;
- the outcome of an API call;
- the response cache;
- an injective rendering of edge keys.

Each is an arbitrary function or value, so every property holds whatever it returns. Doubles are modelled as reals. Graphs are simple: no two edges join the same two nodes.

Two points of the code shape the model:

- `src/index.js:88` creates a graphology `Graph` with default options, which is a mixed graph, and adds each relationship with `addEdge`, which makes a directed edge from the relationship's first name to its second (`src/utils.js:103` sorts the pair). On such edges graphology's `hasEdge(a, b)`, `getEdgeAttributes(a, b)` and `dropEdge(a, b)` find only an edge running from `a` to `b`, and `dropEdge` throws when there is none. The community detection and search code reads edges through `forEachNeighbor` and `forEachEdge`, which see both directions. The entity merge (`src/entity-resolution.js:90-94`) and the relation table of the report extractor (`src/community/community-reports-extractor.js:62-63`) use the directed lookups as if edges had no direction. The model's resolver and report extractor run the corrected, undirected reading (`PropertyGraphs.HasEdge`, `DropEdgeData`). The directed reading as written is modelled beside it (`PropertyGraphs.HasArc`, `DropArcData`, `NodeMerging.MergeMemberAsWritten`, `CommunityReports.ArcRelations`), and the fourth to sixth "## Findings" rows state what it does.
- The line-by-line path of `scripts/load_data.js:280-284` hands `_process_single_content` records of the form `{text, chunk_id}`. The extractor reads `content` and `doc_id` from its argument (`src/extractors/graph-extractor-basic.js:24`), so on that path both are `undefined`. The model's loader builds the chunks and leaves this hand-off out.

## Model

| member | source | states |
|---|---|---|
| WeightedGraphs.ReachSymIff | src/community/leiden.js:262-282 | reachability inside a node set is symmetric, the undirected reading of graphology's subgraph |
| WeightedGraphs.ReachTrans | src/community/leiden.js:262-282 | reachability inside a node set is transitive |
| WeightedGraphs.ClosedReach | src/community/leiden.js:203 | everything reachable from inside an edge-closed set stays inside it |
| WeightedGraphs.ReachableSet | src/community/leiden.js:203 | the worklist search returns exactly the nodes reachable from `start` inside `S` |
| WeightedGraphs.Components | src/community/leiden.js:203 | `connectedComponents`: the pieces are duplicate-free, pairwise disjoint, cover the node list, each is connected and closed, and two nodes share a piece exactly when they are connected; each piece starts with its earliest node in the node list, and the pieces come in the order of those first nodes |
| WeightedGraphs.ScanNew | src/community/leiden.js:203 | a node not yet seen starts the next piece, which is its reachability class in node order and keeps the piece order |
| WeightedGraphs.ScanDone | src/community/leiden.js:203 | once every node is scanned the pieces are the components, in node order |
| WeightedGraphs.SmallComponents | src/community/leiden.js:188 | a list of at most one node has no piece or the one piece holding it, in node order |
| WeightedGraphs.HeadIff | src/community/leiden.js:203 | a member of a piece is its first member exactly when no node earlier in the list reaches it |
| WeightedGraphs.HeadsAgree | src/community/leiden.js:203 | two orderings of the components in node order have the same first member at every position |
| WeightedGraphs.CountAgrees | src/community/leiden.js:203 | two orderings of the components in node order have the same number of pieces |
| WeightedGraphs.ComponentsUnique | src/community/leiden.js:203 | the order fixes the pieces: two orderings of the components in node order have, position by position, the same first member and the same members |
| WeightedGraphs.NewComponent | src/community/leiden.js:203 | a new piece is non-empty, duplicate-free, exactly the reachability class, connected, closed and disjoint from the earlier pieces |
| WeightedGraphs.OneComponentIffConnected | src/community/leiden.js:280-281 | a non-empty node set is connected exactly when `connectedComponents` yields one piece |
| Leiden.Rng.constructor | src/community/leiden.js:5-6 | the generator's state starts as `seed >>> 0` |
| Leiden.Rng.Next | src/community/leiden.js:7-13 | one call applies the three shift-xor steps to the 32-bit state and returns state/2^32, which lies in [0, 1) |
| Leiden.ShuffleInPlace | src/community/leiden.js:16-21 | the array afterwards equals the reference shuffle of its old contents from the generator's old state, and is a permutation of them |
| Leiden.ComputeGraphBase | src/community/leiden.js:30-41 | `m` is the sum of the edge weights counted once (missing weight 1), `k` has a key for every node, and every node's `k` is its weighted degree |
| Leiden.ComputeTotByCommunity | src/community/leiden.js:44-51 | `tot[c]` is the degree sum of c's members for every label, and its keys are exactly the labels in use |
| Leiden.CalculateModularity | src/community/leiden.js:54-87 | the result is the modularity Σ_c (L_c/m − d_c²/(4m²)) of the reference definition, and 0 for an empty or weightless graph |
| Leiden.LabelOrder | src/community/leiden.js:67-72 | the `dc` loop meets the labels in first-appearance order over the nodes |
| Leiden.IntraWeights | src/community/leiden.js:73-78 | `Lc[c]` is the weight of the edges with both ends labelled c |
| Leiden.DeltaQAddToCommunity | src/community/leiden.js:91-104 | the loop computes the reference gain kin/m − k_i·tot_c/(2m²) of adding the unlabelled node to c (0 when m = 0) |
| Leiden.NeighbourCommunities | src/community/leiden.js:138-142 | the candidate `Set`: the neighbour labels of i, first-seen order, without duplicates, each a label in use |
| Leiden.CommunityMembers | src/community/leiden.js:263-266 | the nodes labelled c, in node order |
| Leiden.IsConnectedAfterMerge | src/community/leiden.js:262-282 | true exactly when C ∪ {i} has at most two nodes or induces a connected subgraph |
| Leiden.ChooseCommunity | src/community/leiden.js:148-161 | the candidate loop keeps the first candidate with the strictly largest positive gain (that also passes the merge check when constrained), otherwise the node's own label |
| Leiden.MoveNode | src/community/leiden.js:132-166 | one node step: only i's label changes, `tot` stays exact, a degree-0 node stays, a move goes to a label in use with positive gain (and connectivity when constrained), an unconstrained step never lowers modularity, and a node that stays has no gaining move |
| Leiden.LocalMovingPhase | src/community/leiden.js:109-170 | returns its input for an empty graph; keeps the key set and adds no label; degree-0 nodes keep their label; modularity never falls (non-negative weights); at most `maxIterations` passes; after a pass without moves no node has a gaining move; pass `i` visits the nodes in the `i`-th shuffle of one generator seeded with `seed >>> 0` |
| Leiden.PassOrder | src/community/leiden.js:128-130 | a pass's order is the reference shuffle of a copy of the node list, from the generator's current state, and a permutation of the nodes |
| Leiden.MovingPass | src/community/leiden.js:129-166 | one shuffled pass keeps `tot` exact, adds no label, never lowers modularity, and a pass that moves nothing returns its input with every node stable |
| Leiden.RefinementPhase | src/community/leiden.js:175-259 | with m = 0 the input comes back; otherwise the split step yields a split of the input (each community cut into its connected pieces) and the merge pass only moves nodes to labels present after the split, never moving a degree-0 node; the merge pass is a sequence of labellings from the split to the result, one node at a time in graph order |
| Leiden.SplitDisconnected | src/community/leiden.js:179-211 | the result is a split of the input: the same communities where they are connected, and pieces `${c}~${idx}` where they are not; two members of a community share a label exactly when they are connected inside it; for every community the pieces in `connectedComponents` order are recorded, and a member of piece `idx` is labelled `${c}~${idx}` |
| Leiden.CutAll | src/community/leiden.js:186-211 | cutting the communities one after another in label order cuts each one and records its pieces |
| Leiden.CutNext | src/community/leiden.js:186-211 | cutting one more community `c` labels its pieces in `connectedComponents` order and records them, and keeps every earlier community as it was cut |
| Leiden.SplitDone | src/community/leiden.js:179-211 | once every label is cut the labelling is a split of the input, with the pieces of every community recorded |
| Leiden.SplitCommunity | src/community/leiden.js:187-210 | with at most one member or one component nothing changes; otherwise exactly the members of c get piece labels, one per component, a member of piece `idx` in `connectedComponents` order getting `${c}~${idx}` |
| Leiden.LabelPieces | src/community/leiden.js:207-210 | every member of c gets a piece label, the member of piece `idx` getting `${c}~${idx}`, and two members share one exactly when they are connected inside c |
| Leiden.LabelOfPiece | src/community/leiden.js:204-210 | a member of piece `idx` carries `${c}~${idx}` when there are two pieces or more, and `c` otherwise |
| Leiden.PiecesLabelledFrame | src/community/leiden.js:186-211 | relabelling other communities' members leaves the cut of c as it was |
| Leiden.AllLabelledStep | src/community/leiden.js:186-211 | cutting one more community keeps the earlier cuts |
| Leiden.PieceLabelsFixed | src/community/leiden.js:203-210 | the piece labels of a cut community are fixed: two labellings that cut it in `connectedComponents` order agree on every member |
| Leiden.SplitFixed | src/community/leiden.js:179-211 | the split has one outcome: two labellings that meet the contract of `SplitDisconnected` for one input are equal |
| Leiden.PiecePair | src/community/leiden.js:207-210 | two members receive the same piece label exactly when they are connected inside the community |
| Leiden.AssignPieces | src/community/leiden.js:207-210 | every member of piece idx gets the label `${c}~${idx}`; other nodes keep theirs |
| Leiden.AssignLabel | src/community/leiden.js:209 | every member of one piece gets `newC`; other nodes keep theirs |
| Leiden.MergePass | src/community/leiden.js:217-256 | the constrained pass in node order keeps `tot` exact, adds no label and never moves a degree-0 node; its labellings go from the input to the result, and step `p` changes at most the label of node `p`, to a community where it gains and stays connected |
| Leiden.StepsSnoc | src/community/leiden.js:217-256 | one more node's step extends the trace of the merge pass |
| Leiden.MoveOutcome | src/community/leiden.js:148-163 | what the chosen target means: an existing label, positive gain and admissibility for a move, no lowering of modularity and stability when unconstrained |
| Leiden.KeptIsStable | src/community/leiden.js:148-161 | when the node stays, no candidate label gains more than staying |
| Leiden.TotAfterRemoval | src/community/leiden.js:145-146 | removing i lowers its community's degree sum by k_i and keeps the table exact |
| Leiden.TotAfterInsertion | src/community/leiden.js:162-163 | adding i to x raises x's degree sum by k_i and keeps the table exact |
| Leiden.MoveNeverLowers | src/community/leiden.js:148-163 | the candidate loop's choice never lowers modularity |
| LeidenSpec.ScaledIndex | src/community/leiden.js:18 | `Math.floor(u·(i+1))` for u in [0, 1) lies in [0, i] |
| LeidenSpec.ShuffleFromPermutes | src/community/leiden.js:16-21 | the reference shuffle keeps the multiset of elements |
| LeidenSpec.ShuffledPermutes | src/community/leiden.js:16-21 | the whole shuffle is a permutation of its input |
| LeidenSpec.DegreeSum | src/community/leiden.js:30-41 | Σk = 2m: each edge adds its weight to both endpoint degrees, a self-loop adding 2w to its node |
| LeidenSpec.DegreesOfNoEdges | src/community/leiden.js:33 | with no edges every degree is 0 |
| LeidenSpec.Labels | src/community/leiden.js:46-49 | the distinct labels of the nodes in first-appearance order, each one some node's label |
| LeidenSpec.LabelWitness | src/community/leiden.js:46-49 | every listed label is the label of some node |
| LeidenSpec.LabelsLength | src/community/leiden.js:46-49 | never more labels than nodes |
| LeidenSpec.Members | src/community/leiden.js:263-266 | the members of c in node order, exactly the nodes labelled c |
| LeidenSpec.NeighbourLabels | src/community/leiden.js:139-142 | one label per incident edge, in edge order, each the far end's label |
| LeidenSpec.TermForm | src/community/leiden.js:84 | the source's `L/m − d²/(4m²)` equals the modelled term at scale 1/m |
| LeidenSpec.QSumStep | src/community/leiden.js:80-85 | adding one label's `L/m − d²/(4m²)` to the sum over the labels before it gives the sum over one label more |
| LeidenSpec.GainForm | src/community/leiden.js:103 | the source's `kin/m − k·tot/(2m²)` equals the modelled gain at scale 1/m |
| LeidenSpec.KinWithoutNeighbour | src/community/leiden.js:95-100 | with no neighbour labelled c no weight links i to c |
| LeidenSpec.OwnCommunityWithoutNeighbours | src/community/leiden.js:148-161 | a node's own community with no neighbour in it offers gain ≤ 0 (non-negative weights), so staying never counts as a gain |
| LeidenSpec.IntraMove | src/community/leiden.js:73-78 | labelling i with x adds to L_x exactly i's weight into x plus its self-loops |
| LeidenSpec.CommDegMove | src/community/leiden.js:69-72 | labelling i with x adds k_i to d_x and leaves every other d_c |
| LeidenSpec.QSumSuperset | src/community/leiden.js:80-85 | the modularity sum depends only on the set of labels: extra labels with zero terms change nothing |
| LeidenSpec.UnusedLabelTermZero | src/community/leiden.js:80-85 | a string that labels no node has L_c = 0 and d_c = 0 |
| LeidenSpec.MoveKeepsOtherTerm | src/community/leiden.js:80-85 | placing i in x leaves every other label's term unchanged |
| LeidenSpec.MoveChangesOwnTerm | src/community/leiden.js:80-104 | placing i in x changes x's term by ΔQ(x) plus a part independent of x |
| LeidenSpec.LabelsAfterMove | src/community/leiden.js:162 | relabelling a node with an existing label introduces no new label |
| LeidenSpec.MoveQSum | src/community/leiden.js:80-85 | the label sum after placing i in x is the base sum plus the change of x's term, at any scale |
| LeidenSpec.MoveModularity | src/community/leiden.js:54-104 | placing i into an existing community x gives modularity base + ΔQ(x), so the gain decides which destination is better |
| LeidenSpec.MoveDifference | src/community/leiden.js:145-163 | moving i from its community to x changes Q by ΔQ(x) − ΔQ(own community) |
| LeidenSpec.StableNodeIsLocalOptimum | src/community/leiden.js:148-161 | a node that stays cannot raise Q by moving to any neighbour label |
| LeidenSpec.SplitLabelInjective | src/community/leiden.js:208 | two piece labels `${c}~${idx}` are equal only for the same community and index |
| LeidenSpec.DigitsRoundTrip | src/community/leiden.js:208 | reading back `${idx}` gives idx |
| LeidenSpec.PieceOfUnique | src/community/leiden.js:208 | a piece label names the one community it was cut from |
| LeidenSpec.SplitRefines | src/community/leiden.js:179-211 | after the split, nodes sharing a label came from one community, provided no input label was already piece-shaped |
| LeidenSpec.SplitIsConnected | src/community/leiden.js:179-211 | after the split every community induces a connected subgraph (Leiden's guarantee), under the same proviso |
| LeidenAggregation.WeightSplit | src/community/leiden.js:298-333 | every edge is internal or crossing, so the two totals make up the graph's weight |
| LeidenAggregation.AddOrAccumulateLaws | src/community/leiden.js:308-331 | both branches of add-or-accumulate keep the graph simple, add w to the total and to the weight between a and b, and leave every other pair alone |
| LeidenAggregation.AppendEdgeLaws | src/community/leiden.js:308-328 | `addEdge` of an edge not yet there adds exactly its weight |
| LeidenAggregation.RaiseEdgeLaws | src/community/leiden.js:310-331 | raising an existing edge's weight by w adds w to that pair only |
| LeidenAggregation.AggregationPhase | src/community/leiden.js:285-336 | one super-node per distinct label in first-appearance order, with its members and size; the self-loop of c weighs the intra-community weight, the edge between two labels weighs the crossing weight, so total weight is conserved; every edge carries a weight |
| LeidenAggregation.AggregateEdges | src/community/leiden.js:298-333 | the self-loops then the crossing edges, with the weights above |
| LeidenAggregation.SuperNodes | src/community/leiden.js:289-296 | the super-node loop yields the labels in first-appearance order and, per label, its members and their count |
| LeidenAggregation.NodeTableKeys | src/community/leiden.js:290-296 | one entry per label in use |
| LeidenAggregation.NodeTableMembers | src/community/leiden.js:290-296 | each entry lists the label's members in node order and its size counts them |
| LeidenAggregation.SelfWeights | src/community/leiden.js:299-306 | `selfW[c]` is the weight of the edges inside c |
| LeidenAggregation.SelfTableLaws | src/community/leiden.js:299-306 | `selfW` has no absent entries with weight, its keys are labels in use, and its values add up to the weight inside communities |
| LeidenAggregation.AddSelfLoops | src/community/leiden.js:307-313 | the added self-loops keep the graph simple, each carries a weight, the loop at c weighs `selfW[c]`, no other pair gets weight, and the total is the sum of `selfW` |
| LeidenAggregation.InterWeights | src/community/leiden.js:316-325 | `inter` sums the crossing weight per sorted label pair |
| LeidenAggregation.InterTableLaws | src/community/leiden.js:316-325 | `inter` is keyed by sorted pairs of different labels; an entry is the weight between the two communities; entries add up to the crossing weight |
| LeidenAggregation.AddInterEdges | src/community/leiden.js:326-333 | adding the `inter` edges keeps the graph simple, leaves self-loops alone, and raises the weight between two labels by their `inter` entry, so the total grows by the sum of `inter` |
| LeidenDriver.FirstLargest | src/community/leiden.js:358 | the reduce picks a largest component, the first among equals |
| LeidenDriver.InducedSubgraph | src/community/leiden.js:359-365 | the sub-graph has exactly the chosen nodes and the edges of g between two of them, and is simple |
| LeidenDriver.WorkingGraph | src/community/leiden.js:350-367 | without `useLcc` the graph itself; with it, the sub-graph on the first largest connected component, the components taken in `connectedComponents` order |
| LeidenDriver.LargestTieEarliest | src/community/leiden.js:358 | a tie between largest components goes to the one whose first node comes first in the graph: any other component of that size starts later |
| LeidenDriver.InducedEdgesSameMembers | src/community/leiden.js:362-365 | the edges kept depend only on which nodes are kept, not on their order |
| LeidenDriver.LargestComponentUnique | src/community/leiden.js:354-365 | the largest component is fixed by the graph: any two choices take the same position, first node, members and edges |
| LeidenDriver.Singletons | src/community/leiden.js:370-406 | every node starts in its own community |
| LeidenDriver.ChainWeight | src/community/leiden.js:398-404 | every level's graph weighs what the first one does |
| LeidenDriver.ComputeLeidenCommunities | src/community/leiden.js:339-411 | `{}` for an empty graph; at most `maxLevels` levels and at least one for a non-empty graph; each level's graph is the aggregate of the one before, the first being the graph or its first largest component in `connectedComponents` order; level `l` ran local moving from singletons with seed `(seed + l) >>> 0` and `maxLocalIters`, then refinement, with what each phase promises; the loop stops early only when the last aggregate has at most one node or as many as its level's graph |
| LeidenDriver.LevelLoop | src/community/leiden.js:372-408 | the level loop from singletons on the working graph: at most `maxLevels` levels and at least one when `maxLevels >= 1`; every level traced with its seed and both phases; the last aggregate is the aggregate of the last level; fewer than `maxLevels` levels only when that aggregate has at most one node or as many as its level's graph |
| LeidenDriver.RanSnoc | src/community/leiden.js:377-408 | a level that ran both phases extends a trace whose levels all did |
| LeidenDriver.LinkedSnoc | src/community/leiden.js:377-408 | a level run on the last aggregate from singletons with the next seed extends the linked trace |
| LeidenDriver.MoveLevel | src/community/leiden.js:381-384 | local moving with what it went through: its seed, pass count, convergence and pass orders, as `LocalMovingPhase` promises |
| LeidenDriver.RefineLevel | src/community/leiden.js:387 | refinement with its split and its merge pass's labellings, as `RefinementPhase` promises |
| LeidenDriver.AddLevel | src/community/leiden.js:377-408 | one pass of the level loop extends the chain of levels by the refined communities of `current` and their aggregate, and the trace by that level, run from singletons with seed `(seed + level) >>> 0` |
| LeidenDriver.OneLevel | src/community/leiden.js:381-398 | local moving with seed `(seed + level) >>> 0`, refinement, then aggregation: the refined labels cover the graph and the aggregate has no more nodes than `current`, and at least one when `current` has one; the level's trace records both phases with what they promise |
| LeidenDriver.TallyLaws | src/community/leiden.js:421-438 | a level's report lists its labels in first-appearance order; each lists its nodes in order and weighs Σ rank·weight over them |
| LeidenDriver.TallyEntry | src/community/leiden.js:427-437 | a label's entry lists its members and holds Σ rank·weight over them; a label without an entry has no members |
| LeidenDriver.ArgMax | src/community/leiden.js:442 | the key with the largest weight, the first on ties |
| LeidenDriver.NormalisedBounds | src/community/leiden.js:440-444 | with a positive largest weight, after division the largest is exactly 1, none exceeds 1, and non-negative weights stay non-negative |
| LeidenDriver.Normalize | src/community/leiden.js:440-444 | the normalisation loop computes the reference normalisation (unchanged when empty or the maximum is not positive) |
| LeidenDriver.LevelReport | src/community/leiden.js:422-445 | one level's report is the normalised tally of its nodes |
| LeidenDriver.TallyNodes | src/community/leiden.js:425-438 | the node loop computes the tally |
| LeidenDriver.Run | src/community/leiden.js:414-452 | one report per level the driver computes from `g` (none for an empty graph): the first level's graph is `g` or its first largest component in `connectedComponents` order, level `l` ran local moving from singletons with seed `(seed + l) >>> 0` and the default pass cap, then refinement, on the aggregate of level `l - 1`, and the loop stopped early only on an aggregate of at most one node or of the same size; at most `maxLevels` levels and at least one for a non-empty graph; each report is the normalised tally of its level |
| LeidenDriver.LevelReports | src/community/leiden.js:421-446 | the loop over the levels turns each into its report |
| CommunityInfo.WithTitleLaws | src/community/leiden.js:458-459 | the node's `communities` becomes the titles it had plus the new one, each once; nothing else about the node changes |
| CommunityInfo.WithTitleTwice | src/community/leiden.js:458-459 | adding a title twice is adding it once |
| CommunityInfo.TaggedLaws | src/community/leiden.js:455-461 | the graph keeps its nodes; each listed node it holds gets the title, every other node is untouched; unknown names are skipped |
| CommunityInfo.TaggedIdempotent | src/community/leiden.js:455-461 | recording the same community again changes nothing |
| CommunityInfo.TaggedWellFormed | src/community/leiden.js:455-461 | a well-formed graph stays well formed |
| CommunityInfo.AddCommunityInfo | src/community/leiden.js:455-461 | the method leaves the graph equal to the reference tagging of its old attributes |
| SearchText.NormalizeLaws | src/fulltext-search.js:73-83 | the normalised text is normal and keeps, in order, every non-space character of the masked text |
| SearchText.MaskLowerChars | src/fulltext-search.js:75-78 | after masking, every character is an ideograph, a word character or white space |
| SearchText.CollapseKeeps | src/fulltext-search.js:79-80 | collapsing white-space runs keeps every other character, in order |
| SearchText.TrimSlice | src/fulltext-search.js:81 | `trim()` removes a prefix and a suffix of white space |
| SearchText.TrimNormal | src/fulltext-search.js:79-81 | trimming the collapsed masked text leaves normal text |
| SearchText.NormalFixed | src/fulltext-search.js:73-83 | normal text is a fixed point of normalisation |
| SearchText.NormalizeIdempotent | src/fulltext-search.js:73-83 | normalising twice is normalising once |
| SearchText.TrimFull | src/fulltext-search.js:92-108 | the test `w.trim().length === w.length` holds exactly when `w` has no white space at either end |
| SearchText.WindowCount | src/fulltext-search.js:89-105 | the loop bound `i < text.length - (n - 1)` visits no position, or only positions whose window of n characters lies inside the text |
| SearchText.WindowsShape | src/fulltext-search.js:86-115 | at most one window per position, each of length n, no white space at its ends |
| SearchText.WindowsFrom | src/fulltext-search.js:90-107 | every window is the substring at a visited position |
| SearchText.WindowsComplete | src/fulltext-search.js:90-110 | every visited position whose window has non-space ends contributes that window |
| SearchText.BigramsLaws | src/fulltext-search.js:86-99 | the bigrams are exactly the white-space-free two-character substrings, no more of them than the text has positions |
| SearchText.TrigramsLaws | src/fulltext-search.js:102-115 | a trigram has length 3 and non-space ends, and every such substring is a trigram |
| SearchText.SolidBigrams | src/fulltext-search.js:86-99 | text without white space yields one bigram per position, repeats included |
| SearchText.CjkChars | src/fulltext-search.js:122 | the matches of the ideograph pattern are exactly the one-character strings of ideographs occurring in the text |
| SearchText.KeywordsLaws | src/fulltext-search.js:118-136 | the keywords are, without repeats, exactly the white-space tokens of two or more characters and the single ideographs of the text |
| SearchText.KeywordsSolid | src/fulltext-search.js:118-136 | no keyword is empty or holds white space |
| Levenshtein.DistSelf | src/fulltext-search.js:139-162 | equal prefixes are at distance 0 |
| Levenshtein.DistSymmetric | src/fulltext-search.js:139-162 | swapping the two strings leaves the distance unchanged |
| Levenshtein.DistBounds | src/fulltext-search.js:139-162 | the distance is at least the difference of the lengths and at most the larger length |
| Levenshtein.DistZero | src/fulltext-search.js:139-162 | distance 0 means the prefixes are equal |
| Levenshtein.DistApart | src/fulltext-search.js:139-162 | prefixes with no character in common are as far apart as the longer one is long |
| Levenshtein.DistanceLaws | src/fulltext-search.js:139-162 | the distance is 0 exactly for equal strings and equals the length against the empty string; it is symmetric and lies between the length difference and the larger length |
| TextSearch.TrimKeepsAll | src/fulltext-search.js:92-108 | the trim test is true exactly when the window has no white space at either end |
| TextSearch.GenerateGrams | src/fulltext-search.js:86-115 | the window loop returns the windows the reference defines (bigrams for n = 2, trigrams for n = 3) |
| TextSearch.LevenshteinDistance | src/fulltext-search.js:139-162 | the table-filling method returns the edit distance |
| TextSearch.FillRow | src/fulltext-search.js:147-159 | after filling row i, each entry is the distance of the matching prefixes, and no other row changes |
| TextSearch.DistStep | src/fulltext-search.js:149-157 | an inner entry copies the diagonal when the characters match, else is 1 plus the least of its three neighbours |
| TextSearch.CloseMatches | src/fulltext-search.js:174-189 | the candidate loop keeps, in order, the records of the candidates at similarity at least the threshold |
| TextSearch.BumpDocs | src/fulltext-search.js:206-244 | the entry loop computes the reference tally step |
| TextSearch.TallyTerms | src/fulltext-search.js:204-215 | the term loop computes the reference tally, skipping terms the index lacks (also lines 235-246) |
| TextSearch.RankTerms | src/fulltext-search.js:217-255 | sorting and rescaling give the reference ranking |
| TextSearch.AllCandidates | src/fulltext-search.js:301-304 | the fuzzy candidates are every entry of the bigram index, in order (also lines 380-383) |
| TextSearch.Accumulate | src/fulltext-search.js:276-283 | one strategy's pass computes the reference crediting of `allResults` (also lines 289-296, 311-318) |
| TextSearch.FullTextSearch.constructor | src/fulltext-search.js:7-17 | the three indices start empty |
| TextSearch.FullTextSearch.AddToBigramIndex | src/fulltext-search.js:20-35 | the bigram index gains one entry per bigram of the normalised text; the other indices are unchanged |
| TextSearch.FullTextSearch.AddToTrigramIndex | src/fulltext-search.js:38-53 | the trigram index gains one entry per trigram; the other indices are unchanged |
| TextSearch.FullTextSearch.AddToKeywordIndex | src/fulltext-search.js:56-70 | the keyword index gains one entry per keyword; the other indices are unchanged |
| TextSearch.FullTextSearch.AddKeywords | src/fulltext-search.js:60-69 | the keyword loop files the document under each given word |
| TextSearch.FullTextSearch.AddText | src/fulltext-search.js:427-445 | one text goes into all three indices |
| TextSearch.FullTextSearch.BuildIndex | src/fulltext-search.js:411-449 | the indices become the reference indexing of the graph's nodes then edges, whatever they held before, so rebuilding from the same graph gives the same state |
| TextSearch.FullTextSearch.IndexAllNodes | src/fulltext-search.js:424-432 | the node pass indexes every node in order |
| TextSearch.FullTextSearch.AddNode | src/fulltext-search.js:425-431 | one node is indexed under its name and description text |
| TextSearch.FullTextSearch.IndexAllEdges | src/fulltext-search.js:434-448 | the edge pass indexes every edge in order |
| TextSearch.FullTextSearch.AddEdge | src/fulltext-search.js:435-447 | one edge is indexed under its relationship text |
| TextSearch.FullTextSearch.FuzzySearch | src/fulltext-search.js:170-192 | the method returns the reference fuzzy results of the normalised query |
| TextSearch.FullTextSearch.SearchByBigram | src/fulltext-search.js:199-226 | the method returns the ranking of the bigram index against the query's bigrams |
| TextSearch.FullTextSearch.SearchByKeywords | src/fulltext-search.js:230-257 | the method returns the ranking of the keyword index against the query's keywords |
| TextSearch.FullTextSearch.Search | src/fulltext-search.js:262-326 | the method returns the reference blended search of the normalised query |
| TextSearch.FullTextSearch.SearchSequentially | src/fulltext-search.js:332-404 | the method returns the reference sequential search of the normalised query |
| SearchIndex.Copies | src/fulltext-search.js:24-34 | n entries, each the given document |
| SearchIndex.AddAllSnoc | src/fulltext-search.js:24-34 | indexing one more gram extends its entry list by the document |
| SearchIndex.AddAllValid | src/fulltext-search.js:24-34 | adding to an index keeps the key order and the map in step |
| SearchIndex.AddAllEntries | src/fulltext-search.js:24-34 | each gram's entry list gains one copy of the document per occurrence of the gram; other lists keep theirs |
| SearchIndex.AddAllKeys | src/fulltext-search.js:25-27 | the grams become keys of the index and no other key appears |
| SearchRanking.MatchesIff | src/fulltext-search.js:174-189 | before sorting, the matches are exactly the close candidates' records |
| SearchRanking.SimilarityBounds | src/fulltext-search.js:176-181 | `1 - d / max(len(q), len(t))` lies in [0, 1] and is 1 exactly for equal strings |
| SearchRanking.FuzzyLaws | src/fulltext-search.js:170-192 | the results are the close candidates' records, sorted by descending similarity, a permutation of the matches, each with similarity in [threshold, 1] |
| SearchRanking.HitBounds | src/fulltext-search.js:181-188 | a kept record has similarity in [threshold, 1] |
| SearchRanking.KeyCountWitness | src/fulltext-search.js:206-212 | a key with a positive count comes from some visited entry |
| SearchRanking.BumpAllAt | src/fulltext-search.js:206-213 | after one term's entries, a key's score grows by its number of entries and its matched terms by that many copies of the term |
| SearchRanking.TallyAt | src/fulltext-search.js:204-215 | every key's record exists exactly when a visited entry has that key, counts those entries, and lists one term per visit |
| SearchRanking.WithRelevance | src/fulltext-search.js:219-253 | every record keeps its hit and gets relevance score / number of terms |
| SearchRanking.ValuesOk | src/fulltext-search.js:204-215 | every record of the tally is as the tally law says |
| SearchRanking.RankSorted | src/fulltext-search.js:217-249 | the ranking is in descending score |
| SearchRanking.RankOk | src/fulltext-search.js:216-224 | every ranked record is correct in hit and relevance |
| SearchRanking.RankComplete | src/fulltext-search.js:204-224 | every key some entry of a query term has gets a ranked record |
| SearchRanking.HitCountBound | src/fulltext-search.js:204-215 | with each key once per list, a key's score is at most the number of terms |
| SearchRanking.KeywordRelevance | src/fulltext-search.js:230-257 | over an index without repeated keys per list, every relevance lies in (0, 1] |
| SearchRanking.AddSingle | src/fulltext-search.js:56-70 | indexing a new key under distinct words keeps keys single per list |
| SearchRanking.BuiltKeywordSingle | src/fulltext-search.js:411-449 | the keyword index of a built graph holds each document at most once per keyword, so keyword relevance is within (0, 1] |
| SearchRanking.NodesPassSingle | src/fulltext-search.js:424-432 | after the node pass, each node's key appears at most once per keyword |
| SearchRanking.EdgesPassSingle | src/fulltext-search.js:434-448 | the edge pass keeps keys single per keyword |
| SearchRanking.EdgeKeysSnoc | src/fulltext-search.js:434-436 | the k-th edge's key is new to the index so far |
| SearchRanking.EdgeStepSingle | src/fulltext-search.js:435-447 | one edge's step keeps keys single per keyword |
| SearchRanking.NodeKeysSnoc | src/fulltext-search.js:424-425 | the k-th node's key is new to the index so far |
| SearchRanking.KeywordsSingle | src/fulltext-search.js:56-70 | indexing one text's keywords keeps keys single per list |
| SearchRanking.NodeStepSingle | src/fulltext-search.js:425-431 | one node's step keeps keys single per keyword |
| SearchRanking.IndexNodesSnoc | src/fulltext-search.js:424-432 | the node pass over one more node is one more node step |
| SearchRanking.IndexEdgesSnoc | src/fulltext-search.js:434-448 | the edge pass over one more edge is one more edge step |
| SearchRanking.EdgeFresh | src/fulltext-search.js:434-436 | an edge key is neither a node's nor an earlier edge's |
| SearchRanking.IndexedAaa | src/fulltext-search.js:20-35 | indexing "aaa" files it under its bigrams as they are |
| SearchRanking.BigramRelevanceAboveOne | src/fulltext-search.js:199-226 | bigram relevance can exceed 1: the query "aa" scores 2 against the document "aaa", which has "aa" twice |
| SearchRanking.RankOne | src/fulltext-search.js:216-224 | one record over a one-term query ranks as itself |
| SearchRanking.TallyOfAaa | src/fulltext-search.js:204-215 | the tally of "aa" against "aaa" is one record of score 2 |
| SearchRanking.EntriesOfAaa | src/fulltext-search.js:20-35 | "aaa" is filed twice under "aa" |
| SearchBlend.RankCredits | src/fulltext-search.js:276-296 | a ranked strategy credits each record its weighted relevance, in order |
| SearchBlend.FuzzyCredits | src/fulltext-search.js:311-318 | the fuzzy strategy credits each match its weighted similarity, in order |
| SearchBlend.Reps | src/fulltext-search.js:282-317 | n copies of a method name |
| SearchBlend.AddCreditsValid | src/fulltext-search.js:276-283 | a strategy's pass keeps `allResults` well formed |
| SearchBlend.AddCreditsKeyed | src/fulltext-search.js:277-280 | a strategy's pass keeps every record under its own key |
| SearchBlend.AddCreditsKeys | src/fulltext-search.js:277-280 | after a pass, a key is present exactly when it was, or the strategy credits it |
| SearchBlend.AddCreditsTotal | src/fulltext-search.js:281-316 | a pass adds to `totalScore` the weights it gives the key |
| SearchBlend.AddCreditMethods | src/fulltext-search.js:282-317 | one record pushes the strategy's name for its own key and no other |
| SearchBlend.AddCreditsMethods | src/fulltext-search.js:282-317 | a pass pushes its name once per credit for the key |
| SearchBlend.BlendValid | src/fulltext-search.js:270-319 | the three passes keep the map well formed and keyed right |
| SearchBlend.BlendTotal | src/fulltext-search.js:270-319 | a key's `totalScore` is 0.4 × its bigram relevances + 0.6 × its keyword relevances + (when fuzzy runs) 0.3 × its similarities, each only when enabled |
| SearchBlend.GuardedMethods | src/fulltext-search.js:270-319 | a switchable pass pushes its name once per credit when it runs, nothing otherwise |
| SearchBlend.BlendMethods | src/fulltext-search.js:270-319 | a key's `methods` list each enabled strategy once per record it has for the key, bigram, then keyword, then fuzzy |
| SearchBlend.BlendKeys | src/fulltext-search.js:270-319 | a key is in the map exactly when some strategy that ran credited it |
| SearchBlend.ResultsLaws | src/fulltext-search.js:321-325 | at most `maxResults` records of the map, in non-increasing `totalScore`; all of them when the map has no more |
| SearchBlend.Tag | src/fulltext-search.js:348-372 | each record is scored by its relevance and tagged with one method |
| SearchBlend.TagFuzzy | src/fulltext-search.js:391-398 | each match is scored by its similarity and tagged fuzzy |
| SearchBlend.SequentialLaws | src/fulltext-search.js:332-404 | at most `maxResults` records from the first enabled strategy that found any (keyword, bigram, fuzzy), tagged with that strategy alone; empty exactly when none did or `maxResults` is 0 |
| Sorting.Insert | src/fulltext-search.js:191 | insertion into the sorted result adds exactly one element; order and contents are stated by InsertSorted and InsertPermutes (also lines 218, 249, 322) |
| Sorting.SortDesc | src/fulltext-search.js:191 | the sort with a `b - a` comparator keeps the length; order and permutation are stated by SortDescLaws (also lines 218, 249, 322) |
| Sorting.InsertSorted | src/fulltext-search.js:191 | inserting into a sorted sequence keeps it sorted |
| Sorting.InsertMembers | src/fulltext-search.js:191 | every element other than x comes from the input |
| Sorting.InsertPermutes | src/fulltext-search.js:191 | inserting adds x and loses nothing |
| Sorting.SortDescLaws | src/fulltext-search.js:191 | the sort is in descending order and a permutation of its input (also lines 218, 249, 322) |
| Sorting.SortDescMembers | src/fulltext-search.js:191 | the sort has the same elements as its input (also lines 218, 249, 322) |
| Sorting.SortDescSorted | src/fulltext-search.js:191 | a sequence already in order is left as it is (also lines 218, 249, 322) |
| Sorting.InsertLast | src/fulltext-search.js:191 | an element no greater than the rest goes to the end |
| Sorting.Take | src/fulltext-search.js:323 | `slice(0, n)` keeps the first `min(n, length)` elements (also lines 355, 372, 398) |
| Sorting.TakeSorted | src/fulltext-search.js:323 | a prefix of a sorted sequence is sorted |
| SearchRanking.BumpAllValid | src/fulltext-search.js:206-213 | one term's pass keeps the tally well formed |
| SearchRanking.TallyValid | src/fulltext-search.js:204-215 | the whole tally is well formed |
| EntityResolution.SimilaritySymmetric | src/entity-resolution.js:16-44 | `is_similarity(a, b)` equals `is_similarity(b, a)` |
| EntityResolution.SimilarIgnoringCase | src/entity-resolution.js:16-25 | names equal up to letter case are similar; every name is similar to itself |
| EntityResolution.FallbackLenient | src/entity-resolution.js:21-31 | every pair the edit-distance test accepts, the length fallback of the `catch` branch accepts too |
| EntityResolution.SameLettersSimilar | src/entity-resolution.js:33-43 | non-empty names spelt with the same letters, in any case, are similar |
| EntityResolution.LevenshteinCall | src/entity-resolution.js:22 | `editDistance.levenshtein(a, b)` without its cost callbacks throws exactly when both strings are non-empty, and never gives a number |
| EntityResolution.AsWrittenIff | src/entity-resolution.js:16-44 | as written, two non-empty names are similar exactly when their lengths differ by at most half the shorter length or the Jaccard test holds, and an empty name is similar to nothing |
| EntityResolution.AsWrittenLenient | src/entity-resolution.js:21-31 | as written, every pair of non-empty names the edit-distance test accepts is still accepted |
| EntityResolution.ApartNotSimilar | src/entity-resolution.js:16-44 | with the edit distance computed, two non-empty names with no letter in common are not similar |
| EntityResolution.IbmHpSimilarAsWritten | src/entity-resolution.js:21-31 | IBM and HP are similar as written, through the length fallback, and not similar with the edit distance computed |
| EntityResolution.RunEnd | src/entity-resolution.js:54-55 | the end of the longest run of digits (or letters) from a position: every character before it is in the class, the one at it is not |
| EntityResolution.TagAtIff | src/entity-resolution.js:54-55 | a match of the question-number pattern (a run of digits between two record separators) at a position exists exactly when the tag test holds, and its capture is the whole run |
| EntityResolution.RunEndIs | src/entity-resolution.js:54-55 | a run that stops at a non-class character ends there |
| EntityResolution.FirstTag | src/entity-resolution.js:54-55 | `match` finds the leftmost tag at or after the start, or none exists |
| EntityResolution.DecimalOfNatToString | src/entity-resolution.js:58 | `parseInt` of the decimal text of k is k (also line 154) |
| EntityResolution.ProcessResults | src/entity-resolution.js:49-67 | the record loop returns the reference decisions of the reply's records |
| EntityResolution.DecisionsRange | src/entity-resolution.js:61-62 | every decision is `question - 1` for a question no larger than `num_records` |
| EntityResolution.DecisionsIff | src/entity-resolution.js:53-65 | a decision is in the list exactly when some record carries a question number and `yes` |
| EntityResolution.RecordsOfPlain | src/entity-resolution.js:51 | a reply without `##` is one record |
| EntityResolution.ZeroRecord | src/entity-resolution.js:54-59 | a record whose question number is 0 followed by `yes` parses to question 0 and the word `yes` |
| EntityResolution.ZeroQuestion | src/entity-resolution.js:61-62 | as written, a reply whose only record gives question 0 and `yes`, to a batch of one, yields the decision -1; counting questions from 1 yields none (also lines 166-168) |
| EntityResolution.ZeroDecisions | src/entity-resolution.js:61-62 | the decisions of the zero reply under either lower bound |
| EntityResolution.BucketByType | src/entity-resolution.js:112-116 | the node loop fills the reference type buckets |
| EntityResolution.MembersIff | src/entity-resolution.js:112-116 | a node is in a type's bucket exactly when it has that type |
| EntityResolution.MembersDistinct | src/entity-resolution.js:112-116 | a bucket holds each node once |
| EntityResolution.ClustersLaws | src/entity-resolution.js:108-116 | every node is in the bucket of its type (`-` when it has none) and no other, once |
| EntityResolution.CandidatesOf | src/entity-resolution.js:124-133 | the two nested loops give the reference candidate list |
| EntityResolution.RowPairsIff | src/entity-resolution.js:125-131 | the inner loop yields exactly the similar pairs with the row's node first |
| EntityResolution.PairsBeforeIff | src/entity-resolution.js:124-133 | the rows so far yield exactly the similar pairs whose first index is before the row |
| EntityResolution.CandidatePairsIff | src/entity-resolution.js:124-133 | a candidate is exactly a similar pair of bucket members with the first before the second |
| EntityResolution.RowPairsDistinct | src/entity-resolution.js:125-131 | one row yields no pair twice |
| EntityResolution.PairsBeforeDistinct | src/entity-resolution.js:124-133 | the rows yield no pair twice |
| EntityResolution.CandidatesAsWritten | src/entity-resolution.js:124-133 | as written, a bucket of non-empty names yields every candidate pair the edit-distance test yields |
| EntityResolution.CandidatePairsOnce | src/entity-resolution.js:124-133 | in a bucket of distinct names, each unordered pair is a candidate at most once and never reversed |
| EntityResolution.JobsFromLaws | src/entity-resolution.js:148-149 | the batches of a type hold its candidates in order, 1 to 50 at a time |
| EntityResolution.PromptWithoutPlaceholder | src/entity-resolution.js:160-163 | a template without `{input_text}` is sent unchanged, so the model never sees the candidates |
| EntityResolution.ReplaceFirstAfter | src/entity-resolution.js:160-163 | `replace` with a pattern absent from a prefix and whose first character does not recur matches right after the prefix; the text put in is what the replacement string stands for there (`$&`, `` $` `` and `$'` being the pattern, the prefix and the rest), and a replacement without `$` goes in as it is |
| EntityResolution.DollarNameSubstitution | src/entity-resolution.js:160-163 | `$&` in the replacement text expands to the matched placeholder |
| EntityResolution.DollarNameKeepsPlaceholder | src/entity-resolution.js:160-163 | a question text holding `$&` puts the placeholder itself back into the prompt |
| EntityResolution.PromptWithPlaceholder | src/entity-resolution.js:151-163 | the first placeholder gives way to what the question lines stand for as a replacement string, which is the lines themselves when they hold no `$` |
| Resolution.AddOnce | src/entity-resolution.js:142-181 | adding to an insertion-ordered set keeps it distinct and adds exactly x |
| Resolution.JobDecisions | src/entity-resolution.js:164-166 | counting questions from 1, every decision indexes the batch |
| Resolution.AddDecisionsIff | src/entity-resolution.js:167-169 | after a batch, a pair is in `pairs_to_merge` exactly when it was, or it is the sorted pair of a decision |
| Resolution.ConfirmIff | src/entity-resolution.js:146-171 | a pair ends confirmed exactly when it was there before or some decision on some batch names it |
| Resolution.CandidatesOfType | src/entity-resolution.js:121-135 | every pair in a type's candidate list joins two different, similar nodes of that type |
| Resolution.AllJobsOk | src/entity-resolution.js:146-149 | every batch holds candidates only |
| Resolution.ChosenSorted | src/entity-resolution.js:168 | a decided pair is stored sorted, its names different and of one type |
| Resolution.AddDecisionsOk | src/entity-resolution.js:167-169 | a batch's decisions add only candidate pairs |
| Resolution.ConfirmOk | src/entity-resolution.js:146-171 | all confirmed pairs are candidates, sorted |
| Resolution.ConfirmedLaws | src/entity-resolution.js:119-171 | each unordered pair is confirmed at most once, sorted, and names two different nodes of one type with similar names |
| Resolution.TotalZero | src/entity-resolution.js:134-140 | without candidates the model is never asked and nothing is confirmed |
| Resolution.ConnectNodesLaws | src/entity-resolution.js:178-181 | each name of a pair is a node of the connection graph once, and no other name is |
| Resolution.ConnectEdgesLaws | src/entity-resolution.js:182-183 | each pair is exactly one edge, from its first name to its second, and no other edge exists |
| Resolution.BuildConnectGraph | src/entity-resolution.js:177-184 | the pair loop builds the reference connection graph |
| Resolution.MergeAll | src/entity-resolution.js:190-192 | with the corrected callback, which reads edges both ways (see ## Findings), after merging each component the members other than the first are gone and a node in no component keeps its attributes |
| Resolution.MergeAllWellFormed | src/entity-resolution.js:190-192 | merging the components keeps the graph well formed |
| Resolution.MergeAllNext | src/entity-resolution.js:190-192 | after the first k components, the next one is still whole in the graph |
| Resolution.MergeComponents | src/entity-resolution.js:190-192 | the loop leaves the graph as the reference merge of all components, with the corrected callback, which reads edges both ways (see ## Findings) |
| Resolution.ListCandidates | src/entity-resolution.js:119-135 | the type loop fills `candidate_resolution` and counts `num_candidates` as its total |
| Resolution.AskModel | src/entity-resolution.js:149-169 | one batch: the prompt, the reply, the decisions, and the sorted pairs they add |
| Resolution.ConfirmNext | src/entity-resolution.js:146-171 | asking about one batch leaves the later batches, then the later types |
| Resolution.AskAll | src/entity-resolution.js:146-171 | the nested loops confirm exactly the reference pairs over all batches |
| Resolution.Resolve | src/entity-resolution.js:105-195 | the components come from the confirmed pairs, are separate and present in the graph, and the graph ends merged by each in turn, with the corrected callback, which reads edges both ways (see ## Findings) |
| Resolution.ComponentFacts | src/entity-resolution.js:187-188 | each member and edge of the connection graph lies in one component |
| Resolution.MergeAllLeaves | src/entity-resolution.js:190-192 | only the first member of each component is left; a node in no component is untouched |
| Resolution.ConnectPresent | src/entity-resolution.js:177-184 | the connection graph's nodes are nodes of the graph |
| Resolution.PairTogether | src/entity-resolution.js:182-188 | the names of a pair share a component |
| Resolution.MergedPairs | src/entity-resolution.js:105-195 | for any pairs of different nodes, resolving leaves at most one name of each pair |
| Resolution.ResolvedParts | src/entity-resolution.js:187-188 | the components are separate and made of nodes of the graph |
| Resolution.ResolveLaws | src/entity-resolution.js:105-195 | after `resolve` with the corrected callback, which reads edges both ways (see ## Findings), the graph is well formed, each component keeps only its first member, of each confirmed pair at most one name is left, and a node in no confirmed pair keeps its attributes |
| Resolution.SurvivorEarliest | src/entity-resolution.js:178-192 | the name each component keeps (`nodes_to_merge[0]`, line 76) comes before every other member in the node order of `connect_graph` |
| Resolution.ConnectNodesPrefix | src/entity-resolution.js:179-185 | the nodes added for the first `k` pairs are a prefix of the nodes for all pairs |
| Resolution.ConnectNodesOrder | src/entity-resolution.js:179-185 | `connect_graph` orders names by first appearance: a name of the first `k` pairs comes before a name none of them holds |
| Resolution.OnePairComponent | src/entity-resolution.js:178-192 | one confirmed pair `(a, b)` gives the single component `[a, b]`, so `a` is the name kept |
| Resolution.PiecesOfTwo | src/entity-resolution.js:188-189 | the separate pieces of the nodes `[a, b]` in node order, one holding both, are `[[a, b]]` |
| Resolution.SharedNameTogether | src/entity-resolution.js:177-192 | two confirmed pairs sharing a name end in one component |
| Resolution.OneComponent | src/entity-resolution.js:187-188 | a node lies in at most one component |
| Resolution.NothingConfirmed | src/entity-resolution.js:140 | with no confirmed pair there is no component and the graph is unchanged (also lines 177-192) |
| NodeMerging.Rewire | src/entity-resolution.js:90-95 | the corrected rewiring, over the edges at the member in either direction, changes edges only: the nodes and their attributes stay |
| NodeMerging.MergeMember | src/entity-resolution.js:80-98 | the corrected merge of one member, reading edges both ways: the target gets the merged description and source ids and the member is removed; other attributes stay |
| NodeMerging.MergeFrom | src/entity-resolution.js:79-99 | absorbing the members removes exactly them; every node but the target keeps its attributes |
| NodeMerging.RewireWellFormed | src/entity-resolution.js:90-95 | rewiring keeps the graph well formed |
| NodeMerging.MergeMemberWellFormed | src/entity-resolution.js:80-98 | one member's merge keeps the graph well formed |
| NodeMerging.MergeFromNodes | src/entity-resolution.js:79-99 | merging keeps the graph well formed and removes exactly the members, so the node count falls by their number |
| NodeMerging.MergeNodesCount | src/entity-resolution.js:73-99 | `_merge_graph_nodes` leaves the graph with one node fewer than the component has members |
| NodeMerging.MergeNodesAttrs | src/entity-resolution.js:73-99 | the nodes left are those outside the component plus its first member, and only the first member's attributes change |
| NodeMerging.MergeFromTarget | src/entity-resolution.js:84-87 | the target's description is its own followed by ` <SEP> ` and each member's, and its source ids are the duplicate-free union of all of theirs |
| NodeMerging.NotTheDropped | src/entity-resolution.js:91 | an edge between the target and another node is not the edge dropped |
| NodeMerging.NewNeighbour | src/entity-resolution.js:92 | a neighbour not joined to the target before is not joined when its turn comes |
| NodeMerging.RewirePrefix | src/entity-resolution.js:90-95 | after the first k callbacks, other edges are kept, the target joins each neighbour so far, and new edges copy attributes |
| NodeMerging.MergeMemberEdges | src/entity-resolution.js:90-98 | one member's merge keeps every edge away from it, joins the target to each of its neighbours, and gives each new neighbour an edge with the copied attributes |
| NodeMerging.DropMember | src/entity-resolution.js:98 | the rewiring facts survive dropping the member |
| NodeMerging.MergeFromEdges | src/entity-resolution.js:79-99 | merging keeps every edge away from the members and joins the target to each outside neighbour of a member |
| NodeMerging.EdgesAtNodes | src/entity-resolution.js:90-95 | no edge of a well-formed graph touches a missing node |
| NodeMerging.MergeNodesEdges | src/entity-resolution.js:73-99 | edges away from the absorbed members stay, none touches an absorbed member, the first node joins every outside neighbour, and an edge between the first node and a member becomes a self-loop |
| NodeMerging.SampleMerge | src/entity-resolution.js:90-95 | in the sample graph (`a` related to `b` with weight 2), the corrected merge of `a` into `c` re-creates the single edge as an edge from `c` to `b` with its own attributes |
| NodeMerging.NeighbourAttrsLoseWeight | src/entity-resolution.js:90-93 | as written, the callback's second argument is the neighbour's node attributes, so merging `a` into `c` re-creates the edge to `b` without its weight; the corrected merge keeps weight 2 |
| NodeMerging.RewireCopies | src/entity-resolution.js:90-94 | every edge the corrected callbacks add joins the target to the far end of one of the member's edges and carries that edge's attributes |
| NodeMerging.MergeMemberKeepsEdgeAttrs | src/entity-resolution.js:90-98 | every edge the corrected merge leaves is an edge of the graph, or joins the target to a neighbour of the member and carries the attributes of the edge that joined the member to that neighbour |
| NodeMerging.RewireEdges | src/entity-resolution.js:90-95 | the `forEachNeighbor` loop over the edges at the member as they were when it began computes the reference rewiring, with the corrected callback, which reads edges both ways (see ## Findings) |
| NodeMerging.MergeInto | src/entity-resolution.js:80-98 | one pass of the member loop computes the reference merge of that member, with the corrected callback, which reads edges both ways (see ## Findings) |
| NodeMerging.MergeFromNext | src/entity-resolution.js:79-99 | merging one more member after the others |
| NodeMerging.MergeMembers | src/entity-resolution.js:79-99 | the member loop leaves the graph as the reference merge, with the corrected callback, which reads edges both ways (see ## Findings) |
| NodeMerging.MergeGraphNodes | src/entity-resolution.js:73-103 | `_merge_graph_nodes` with the corrected callback, which reads edges both ways (see ## Findings), leaves the graph as the reference merge of the component (unchanged for at most one member) |
| NodeMerging.RewireOne | src/entity-resolution.js:90-94 | one `forEachNeighbor` callback, corrected (see ## Findings): it drops the edge joining the member and the neighbour in either direction, and joins the target to the neighbour with the edge's own attributes unless an edge already joins them either way; as written (`NodeMerging.ArcStep`) the lookups are directed and line 93 copies the neighbour's node attributes |
| NodeMerging.InNeighbours | src/entity-resolution.js:90 | every node with an edge into the member is listed |
| NodeMerging.OutNeighbours | src/entity-resolution.js:90 | every node the member has an edge to is listed |
| NodeMerging.NeighbourOrder | src/entity-resolution.js:90 | `forEachNeighbor` visits each neighbour once, in-neighbours first, and every edge at the member leads to one it visits |
| NodeMerging.ArcStep | src/entity-resolution.js:90-94 | the callback as written throws exactly when no edge runs from the member to the neighbour; otherwise nodes and attributes stay and every new edge leaves the target |
| NodeMerging.ArcRewire | src/entity-resolution.js:90-95 | the `forEachNeighbor` loop as written, stopped by the first throw, keeps the nodes and their attributes |
| NodeMerging.MergeMemberAsWritten | src/entity-resolution.js:80-98 | the member loop's body as written: when it does not throw, the target gets the merged attributes and the member is removed |
| NodeMerging.ArcRewireEdges | src/entity-resolution.js:90-95 | the callbacks as written only remove edges or add edges leaving the target |
| NodeMerging.ArcRewireThrows | src/entity-resolution.js:91 | as written, the loop throws once it reaches a neighbour the member has no edge to |
| NodeMerging.InNeighbourThrows | src/entity-resolution.js:90-91 | as written, a member with an incoming edge from a neighbour it has no edge to cannot be merged: `dropEdge` throws |
| NodeMerging.AppleIncThrows | src/entity-resolution.js:90-91 | with AMAZON related to APPLE INC, merging APPLE INC into APPLE throws as written; the corrected merge joins APPLE to AMAZON |
| NodeMerging.SoleMergeAsWritten | src/entity-resolution.js:90-98 | as written, a member whose one edge runs to a neighbour ends with that edge replaced by one from the target carrying the neighbour's node attributes |
| NodeMerging.ReverseEdgeAdded | src/entity-resolution.js:92-93 | as written, `hasEdge` misses an edge running from the neighbour to the target, so the merge leaves two edges joining them |
| NodeMerging.SampleAsWritten | src/entity-resolution.js:90-98 | as written, merging `a` into `c` in the sample graph gives one edge from `c` to `b` with `b`'s empty node attributes |
| Grouping.GroupBySnoc | src/extractors/base-extractor.js:37-40 | grouping one more value extends its key's group |
| Grouping.GroupByValid | src/extractors/base-extractor.js:25-56 | the grouping keeps key order and map in step |
| Grouping.GroupByKeys | src/extractors/base-extractor.js:37-55 | groups come in order of first appearance of their key, each key once |
| Grouping.GroupByEntry | src/extractors/base-extractor.js:37-55 | a key has a group exactly when some value has that key, and the group holds those values in order |
| Grouping.MergeKeysEntry | src/extractors/base-extractor.js:152-159 | each key of one map has its group appended once; other keys keep theirs |
| Grouping.MergeKeysValid | src/extractors/base-extractor.js:152-159 | merging one map keeps the combined map well formed |
| Grouping.MergeKeysKeys | src/extractors/base-extractor.js:152-159 | merging one map adds its new keys at the end |
| Grouping.CombineAllEntry | src/extractors/base-extractor.js:147-159 | the combined map holds, for every key, the groups of all maps for that key, in map order |
| Grouping.CombineAllKeys | src/extractors/base-extractor.js:147-159 | the combined keys are all maps' keys in order of first appearance |
| Grouping.DedupConcat | src/entity-resolution.js:85-87 | `[...new Set(a.concat(b))]` equals deduplicating the deduplicated prefix then the suffix |
| Grouping.CombineAllNonEmpty | src/extractors/base-extractor.js:147-159 | no combined group is empty when no group of any map is |
| Grouping.CombineGroups | src/extractors/base-extractor.js:147-159 | combining the groups of the chunks is grouping all values, chunk after chunk |
| Utils.ReplaceAllAbsent | src/utils.js:13-17 | a global `replace` of a pattern that does not occur changes nothing |
| Utils.ReplaceAllRemoves | src/utils.js:13-17 | when the replacement shares no character with the pattern, one pass leaves no occurrence of it |
| Utils.ReplacePrefixBack | src/utils.js:13-17 | a prefix of the result free of replacement characters is a prefix of the input |
| Utils.MatchesCons | src/utils.js:13-17 | a match at the front of a longer string starts with its first character |
| Utils.StripOuterBrackets | src/utils.js:24 | `/^<(.+)>$/` removes the outer `<` and `>` of a string of three or more characters that has both, and nothing otherwise |
| Utils.DropUnwanted | src/utils.js:21 | no `"`, C0 or C1 control character is left |
| Utils.DropBrackets | src/utils.js:26 | no `<` or `>` is left, and every character left comes from the input |
| Utils.CleanStr | src/utils.js:6-29 | a cleaned string has no quote, control character or angle bracket |
| Utils.CleanChars | src/utils.js:21-26 | trimming and the outer-bracket strip bring no deleted character back |
| Utils.TrimIn | src/utils.js:21 | every character of a trimmed string comes from the string |
| Utils.CleanValue | src/utils.js:6-9 | a non-string comes back unchanged, a string comes back cleaned |
| Utils.StripThenRemove | src/utils.js:24-26 | stripping the outer brackets changes nothing in the end, since the next step removes every bracket |
| Utils.UnescapeOrder | src/utils.js:13-14 | `&amp;` is decoded first, so `&amp;lt;` decodes all the way to `<` |
| Utils.CleanStrSteps | src/utils.js:6-29 | `clean_str` is decoding, deleting unwanted characters and trimming, then deleting every bracket |
| Utils.AbsentHead | src/utils.js:13-17 | a pattern whose first character is absent occurs nowhere |
| Utils.UnescapePlain | src/utils.js:12-17 | without `&` nothing is decoded |
| Utils.CleanBracketed | src/utils.js:21-26 | trimming comes before the brackets go, so `<A >` cleans to `A ` |
| Utils.DropBracketsWrapped | src/utils.js:26 | a bracket-free text wrapped in `<` and `>` comes back whole |
| Utils.FilterKeepsAll | src/utils.js:51 | a filter every element passes changes nothing |
| Utils.SplitByMultiMarkers | src/utils.js:37-52 | without markers `[content]`; otherwise every piece is free of markers and not blank |
| Utils.SplitByMultiMarkersOne | src/utils.js:37-52 | with one marker, a piece is kept exactly when it is a non-blank piece of `content.split(marker)`, and when no piece is blank, joining the kept pieces by the marker gives the content back |
| Utils.CleanName | src/utils.js:67-96 | upper-casing keeps the cleaned length |
| Utils.EntityOf | src/utils.js:60-80 | an entity exactly when there are four or more attributes, the first cleans to `entity` and the name is not empty; its fields are the cleaned, upper-cased name and type, the cleaned description and the chunk key |
| Utils.RelationshipOf | src/utils.js:88-114 | a relationship exactly when there are five or more attributes and the first cleans to `relationship`; the endpoints are the sorted cleaned names, the weight is the last attribute's number or 1.0, description, keywords and chunk key as given |
| Utils.RelationshipFrom | src/utils.js:95-113 | the fields of the relationship once the list is long enough |
| Utils.RelationshipSorted | src/utils.js:103-107 | the source id is never after the target id |
| Utils.RelationshipFromSwap | src/utils.js:103-107 | swapping source and target yields the same relationship |
| BaseExtractor.UnconfiguredDropped | src/extractors/base-extractor.js:32-47 | an entity record of a type not configured is dropped, not read as a relationship |
| BaseExtractor.GroupStep | src/extractors/base-extractor.js:29-57 | one record extends the entity or the relationship grouping |
| BaseExtractor.EntitiesAndRelations | src/extractors/base-extractor.js:24-59 | the record loop groups the configured entities by name and the relationships by sorted endpoint pair, each group in record order |
| BaseExtractor.TallyValid | src/extractors/base-extractor.js:67-70 | the type tally is well formed |
| BaseExtractor.TallyKeys | src/extractors/base-extractor.js:67-71 | the tally lists the types in order of first appearance |
| BaseExtractor.TallyLaws | src/extractors/base-extractor.js:67-70 | the tally counts every type and lists them in order of first appearance |
| BaseExtractor.TallyCount | src/extractors/base-extractor.js:67-70 | the tally holds exactly the types present, each with its number of occurrences |
| BaseExtractor.BestIndex | src/extractors/base-extractor.js:71-73 | the reduce returns a key of largest count; every later key counts strictly less, so ties go to the last |
| BaseExtractor.MostFrequentIndex | src/extractors/base-extractor.js:71-73 | the kept type's position among the distinct types |
| BaseExtractor.MostFrequentLaws | src/extractors/base-extractor.js:66-73 | the kept type occurs, none occurs more often, and every type first seen after it occurs strictly less often |
| BaseExtractor.MergeNodes | src/extractors/base-extractor.js:61-98 | null exactly for an empty group; otherwise the name is kept and the source ids are the duplicate-free union |
| BaseExtractor.MergedType | src/extractors/base-extractor.js:66-73 | the merged type is a type of the group that no other type of it outnumbers |
| BaseExtractor.NoSepWithoutBracket | src/extractors/base-extractor.js:81 | no ` <SEP> ` occurs in a text without `<` |
| BaseExtractor.FirstSep | src/extractors/base-extractor.js:81 | in a join, the first separator follows the first text when it has no `<` |
| BaseExtractor.SplitJoinSep | src/extractors/base-extractor.js:75-81 | splitting a ` <SEP> ` join of texts without `<` gives the texts back |
| BaseExtractor.MergedDescription | src/extractors/base-extractor.js:75-90 | with no `<` in the descriptions, the summary is asked for exactly when there are more than 12 distinct descriptions; otherwise the description is their ` <SEP> ` join |
| BaseExtractor.MergeEdges | src/extractors/base-extractor.js:100-133 | null exactly for an empty group; otherwise the first edge's endpoints, the sum of the weights, and duplicate-free keywords and source ids |
| BaseExtractor.MergedWeightAppend | src/extractors/base-extractor.js:106 | the weights of two groups add up when the groups are concatenated |
| BaseExtractor.SomesAll | src/extractors/base-extractor.js:176-178 | a list without null loses nothing to `filter(Boolean)` |
| BaseExtractor.MergeInto | src/extractors/base-extractor.js:152-159 | one chunk's map is appended key by key, in its key order |
| BaseExtractor.CombineSnoc | src/extractors/base-extractor.js:151-161 | combining one more chunk merges its maps into the combination so far |
| BaseExtractor.Extract | src/extractors/base-extractor.js:137-194 | the merged entities and relationships of the combined groups, nulls dropped, and the summed token count |
| BaseExtractor.CombineResults | src/extractors/base-extractor.js:147-161 | the loop over the chunk results combines their maps in chunk order and sums their token counts |
| BaseExtractor.MergeAllNodes | src/extractors/base-extractor.js:172-178 | the merge loop returns each group's merged entity in key order, nulls dropped |
| BaseExtractor.MergeAllEdges | src/extractors/base-extractor.js:182-188 | the merge loop returns each group's merged relationship in key order, nulls dropped |
| BaseExtractor.NoEntityDropped | src/extractors/base-extractor.js:147-178 | chunk maps have no empty group, so no merge result is dropped: one entity per distinct name, in order of first appearance |
| BaseExtractor.GroupsNonEmpty | src/extractors/base-extractor.js:37-40 | a group is never empty |
| GraphExtractorBasic.Asking | src/extractors/graph-extractor-basic.js:43-57 | a request extends the history by one user message |
| GraphExtractorBasic.Answered | src/extractors/graph-extractor-basic.js:50-60 | an answer extends the history by one model message |
| GraphExtractorBasic.GleaningShape | src/extractors/graph-extractor-basic.js:34-71 | one extraction prompt first, each answer belongs to its prompt, and the yes/no prompt and the second continuation come exactly when the yes/no answer does not stop the loop |
| GraphExtractorBasic.GleaningHistories | src/extractors/graph-extractor-basic.js:37-71 | history prompts alternate continuation, yes/no, continuation, and each history extends the previous one by the answer and the new request |
| GraphExtractorBasic.GleaningTotals | src/extractors/graph-extractor-basic.js:34-50 | `final_result` is the first answer followed by the gleaning answers (not the yes/no answer), and `token_count` adds the extraction prompt and every answer |
| GraphExtractorBasic.HistoryStaysShort | src/extractors/graph-extractor-basic.js:66-70 | no history sent has more than 7 messages, so the cut to the last 4 never applies |
| GraphExtractorBasic.ShortAnswerContinues | src/extractors/graph-extractor-basic.js:62-64 | a yes/no answer shorter than two characters never stops the gleaning |
| GraphExtractorBasic.Glean | src/extractors/graph-extractor-basic.js:34-71 | the gleaning loop produces the reference conversation, result and token count |
| GraphExtractorBasic.TrimAll | src/extractors/graph-extractor-basic.js:80 | one trimmed piece per piece |
| GraphExtractorBasic.Records | src/extractors/graph-extractor-basic.js:78-81 | the records are exactly the trimmed `##` pieces that are non-empty and hold no completion marker |
| GraphExtractorBasic.RecordsKeepAll | src/extractors/graph-extractor-basic.js:78-81 | when every trimmed piece passes, the records are the trimmed pieces |
| GraphExtractorBasic.LineEnd | src/extractors/graph-extractor-basic.js:85 | the first end of line from a position (`.` does not cross one) |
| GraphExtractorBasic.LastClose | src/extractors/graph-extractor-basic.js:85 | the last `)` in a range, or none |
| GraphExtractorBasic.NoCloseOnLine | src/extractors/graph-extractor-basic.js:85 | a `(` whose line has no later `)` opens no match |
| GraphExtractorBasic.CloseOnLine | src/extractors/graph-extractor-basic.js:85 | greedy `.*`: a `(` matches up to the last `)` on its line |
| GraphExtractorBasic.ParenMatch | src/extractors/graph-extractor-basic.js:85 | `/\((.*)\)/` finds the leftmost `(` with a `)` later on its line, and the last such `)`; none when no `(` has one |
| GraphExtractorBasic.Inner | src/extractors/graph-extractor-basic.js:85-86 | the capture holds no line terminator, and null exactly when nothing matches |
| GraphExtractorBasic.InnerWrapped | src/extractors/graph-extractor-basic.js:85-86 | a parenthesised line comes back without its outer parentheses |
| GraphExtractorBasic.CleanedRecords | src/extractors/graph-extractor-basic.js:83-88 | no more records than before, each non-empty and on one line |
| GraphExtractorBasic.CleanedWrapped | src/extractors/graph-extractor-basic.js:83-88 | records that are all parenthesised lines lose only their parentheses |
| GraphExtractorBasic.ChunkOf | src/extractors/graph-extractor-basic.js:23-97 | a chunk's grouped nodes and edges are well-formed maps |
| GraphExtractorBasic.ProcessSingleContent | src/extractors/graph-extractor-basic.js:23-97 | the method returns the reference result of one chunk |
| GraphExtractorBasic.ChunksOf | src/extractors/base-extractor.js:142-145 | one well-formed result per chunk |
| GraphExtractorBasic.ExtractDocument | src/extractors/base-extractor.js:137-194 | a document's entities and relationships are the merges of the combined groups of its chunks, with the summed token count |
| CommunityReports.Sections | src/community/community-reports-extractor.js:37-39 | one `## summary` section per finding, in order |
| CommunityReports.JoinPartAt | src/community/community-reports-extractor.js:37-40 | every piece of a join occurs in it |
| CommunityReports.TextOutputLaws | src/community/community-reports-extractor.js:35-41 | the text starts with the `# title` line and holds every finding's section |
| CommunityReports.RowSound | src/community/community-reports-extractor.js:59-70 | a record of row i is that of a later node joined to node i |
| CommunityReports.RowComplete | src/community/community-reports-extractor.js:59-70 | with edges read both ways (corrected, see ## Findings), every later node joined to node i has its record in row i |
| CommunityReports.RelationsSound | src/community/community-reports-extractor.js:57-71 | every record of `rela_list` is that of a pair i < j of community nodes joined by an edge |
| CommunityReports.RelationsComplete | src/community/community-reports-extractor.js:57-71 | with edges read both ways (corrected, see ## Findings), every pair i < j of community nodes joined by an edge in either direction has its record in `rela_list` |
| CommunityReports.RowRelationsLength | src/community/community-reports-extractor.js:58-71 | row i lists no more records than there are nodes after it |
| CommunityReports.ScanRelations | src/community/community-reports-extractor.js:57-71 | the nested loops build the reference relation list, with edges read both ways (corrected, see ## Findings) |
| CommunityReports.ArcRowSound | src/community/community-reports-extractor.js:59-70 | as written, each record of row i names node i and a later node it has an edge to |
| CommunityReports.ArcRelationsSound | src/community/community-reports-extractor.js:57-71 | as written, each record names a pair i < j with an edge running from node i to node j |
| CommunityReports.ReversedPairOmitted | src/community/community-reports-extractor.js:62-63 | with ZEUS listed before APOLLO and the edge running from APOLLO to ZEUS, the scan as written records nothing; the corrected scan records the pair |
| CommunityReports.IndexOfChar | src/community/community-reports-extractor.js:106-112 | `indexOf` is the first position of the character, or none when it is absent |
| CommunityReports.LastIndexOfChar | src/community/community-reports-extractor.js:111 | `lastIndexOf` is the last position of the character, or none when it is absent |
| CommunityReports.BracketEnd | src/community/community-reports-extractor.js:121 | where `\s*[}\]]` matching at a position ends |
| CommunityReports.KeptRun | src/community/community-reports-extractor.js:121 | inside a run without commas everything is kept |
| CommunityReports.BracketRun | src/community/community-reports-extractor.js:121 | `\s*[}\]]` matches white space then a bracket, no comma |
| CommunityReports.ScanIsKept | src/community/community-reports-extractor.js:121 | the replace drops exactly the commas followed by white space and a closing bracket, and keeps everything else |
| CommunityReports.KeptFirst | src/community/community-reports-extractor.js:121 | a first character that is not a comma is kept |
| CommunityReports.KeptLast | src/community/community-reports-extractor.js:121 | a last character that is not a comma is kept and ends the result |
| CommunityReports.FromBraceLaws | src/community/community-reports-extractor.js:105-108 | cutting from the first `{` leaves a text that starts with it and keeps every later `}` |
| CommunityReports.BracedLaws | src/community/community-reports-extractor.js:111-118 | a text starting with `{` and holding a later `}` is cut from its start to its last `}` |
| CommunityReports.JsonTextLaws | src/community/community-reports-extractor.js:94-121 | when the unfenced reply holds `{`, the text given to `JSON.parse` starts with `{`, and ends with `}` when one follows; only trailing commas are dropped on the way |
| CommunityReports.WeightAppend | src/community/community-reports-extractor.js:130-133 | the weight of two node lists together is the sum of their weights |
| CommunityReports.ReportForLaws | src/community/community-reports-extractor.js:46-162 | with the corrected `catch` (see ## Findings): null for fewer than two nodes and for a reply `JSON.parse` rejects; a report only from a reply that parses and passes the schema, listing the community's nodes and weighing their PageRank sum |
| CommunityReports.TotalRank | src/community/community-reports-extractor.js:130-133 | the reduce sums the nodes' PageRank, 0 where missing |
| CommunityReports.ExtractReport | src/community/community-reports-extractor.js:46-162 | the call rejects exactly when the community has two or more nodes and `JSON.parse` throws on the cleaned reply (the `catch` reads an out-of-scope `cleaned_response`, see ## Findings); otherwise it resolves to the community's report or null |
| CommunityReports.GroupsAt | src/community/community-reports-extractor.js:194-201 | a label has a group exactly when some node has it, and the group is its community |
| CommunityReports.CommunityIff | src/community/community-reports-extractor.js:194-201 | a node is in community c exactly when its label is c |
| CommunityReports.Top | src/community/community-reports-extractor.js:210 | every label is below `Top`, which bounds the ascending `for ... in` over integer keys |
| CommunityReports.Texts | src/community/community-reports-extractor.js:225-227 | one text per structured report, in order |
| CommunityReports.CollectIff | src/community/community-reports-extractor.js:208-224 | what is collected is exactly the non-null results of the communities with labels below c |
| CommunityReports.ReportsLaws | src/community/community-reports-extractor.js:164-238 | of the reference report list, which `Extract` returns whenever no reply fails `JSON.parse` and which the corrected `extract` always returns: a report is in it exactly when some community's reply yields it; each passes the schema, covers two or more nodes of one community the grouping made, and weighs their PageRank sum |
| CommunityReports.CommunityAbove | src/community/community-reports-extractor.js:194-201 | labels at or above `Top` have no nodes |
| CommunityReports.GroupNodes | src/community/community-reports-extractor.js:194-201 | the grouping loop builds the reference groups |
| CommunityReports.ReportCommunity | src/community/community-reports-extractor.js:210-219 | one turn of the report loop gives a promise that rejects exactly when that label's community gets a reply `JSON.parse` rejects, and otherwise resolves to its report or null |
| CommunityReports.Extract | src/community/community-reports-extractor.js:164-238 | `extract` rejects, through `Promise.all`, exactly when some community's reply is one `JSON.parse` rejects; otherwise `structured_output` is the reference list of reports and `output` their texts |
| CommunityReports.NoJsonRejects | src/community/community-reports-extractor.js:92-160 | as written, a community of two nodes whose reply is `no JSON here` makes the call reject, where the corrected `catch` gives null |
| CommunityReports.StripLeadTick | src/community/community-reports-extractor.js:98-102 | a text that does not start with a backquote loses nothing to the fence removals at its front |
| CommunityReports.CleanedPlain | src/community/community-reports-extractor.js:94-121 | a reply without braces, commas, surrounding white space or fences reaches `JSON.parse` unchanged |
| CommunityReports.AskReport | src/community/community-reports-extractor.js:52-125 | the prompt from the community's two tables, the relation table read both ways (corrected, see ## Findings), goes to the model, and its cleaned reply is parsed |
| CommunityReports.ReportsToSnoc | src/community/community-reports-extractor.js:210-224 | one more label appends that community's report, if any, to the list |
| CommunityReports.RejectsBelowSnoc | src/community/community-reports-extractor.js:210-222 | the labels below c + 1 include a rejecting one exactly when those below c do or c rejects |
| CommunityReports.NoRejectAbove | src/community/community-reports-extractor.js:194-201 | only a label that has nodes can reject |
| CommunityReports.RejectsBelowTop | src/community/community-reports-extractor.js:210-222 | some label rejects exactly when some label visited by the loop does |
| CommunityReports.CollectReports | src/community/community-reports-extractor.js:208-224 | the report loop and `Promise.all` give the reference reports of the labels visited, and reject exactly when one of them rejects |
| CommunityReports.CollectStep | src/community/community-reports-extractor.js:210-219 | one turn of the report loop extends the reports and the rejection flag by label c |
| CommunityReports.TextsOf | src/community/community-reports-extractor.js:225-227 | the map over the structured reports gives one text per report, in order |
| GraphVisualization.Sentences | src/utils/graph-visualization.js:266-273 | the sentences, each with its mark, then the text after the last mark: at least one, at most one more than the characters |
| GraphVisualization.SentencesFlatten | src/utils/graph-visualization.js:266-273 | the sentences put back together are the text |
| GraphVisualization.SentencesShape | src/utils/graph-visualization.js:266-273 | every sentence but the last ends with its one mark; the last holds none |
| GraphVisualization.BlankIff | src/utils/graph-visualization.js:277-310 | `s.trim()` is empty exactly when every character is white space |
| GraphVisualization.TrimAfterBlank | src/utils/graph-visualization.js:279-280 | blank text in front changes nothing after trimming |
| GraphVisualization.NonBlankAppend | src/utils/graph-visualization.js:282 | appending keeps a non-blank chunk non-blank |
| GraphVisualization.TrimTwice | src/utils/graph-visualization.js:279-287 | a trimmed string is its own trim |
| GraphVisualization.Trimmed | src/utils/graph-visualization.js:279 | each piece trimmed, one per piece |
| GraphVisualization.PackTrimmed | src/utils/graph-visualization.js:270-284 | every chunk pushed in the loop is trimmed and non-empty |
| GraphVisualization.PushSqueeze | src/utils/graph-visualization.js:275-283 | one step appends the piece's non-space characters at the end |
| GraphVisualization.PackSqueeze | src/utils/graph-visualization.js:270-284 | the chunks and the accumulator hold the pieces' non-space characters, in order |
| GraphVisualization.PushLong | src/utils/graph-visualization.js:275-283 | a chunk over the limit is always the trim of the single piece that started it |
| GraphVisualization.PackLong | src/utils/graph-visualization.js:270-284 | every chunk over the limit is one trimmed piece |
| GraphVisualization.PackShort | src/utils/graph-visualization.js:270-284 | pieces within the limit all go into the accumulator |
| GraphVisualization.PackCount | src/utils/graph-visualization.js:270-288 | no more chunks than pieces |
| GraphVisualization.SmartChunksTrimmed | src/utils/graph-visualization.js:264-291 | every chunk is trimmed and non-empty |
| GraphVisualization.SmartChunksSqueeze | src/utils/graph-visualization.js:264-291 | only white space is lost: the chunks hold the text's other characters, in order |
| GraphVisualization.SmartChunksLong | src/utils/graph-visualization.js:264-291 | a chunk longer than the limit is one trimmed sentence |
| GraphVisualization.SmartChunksShort | src/utils/graph-visualization.js:264-291 | a text within the limit is one chunk, its trim, or none when blank |
| GraphVisualization.SmartChunksCount | src/utils/graph-visualization.js:264-291 | no more chunks than sentences |
| GraphVisualization.SmartChunkText | src/utils/graph-visualization.js:264-291 | the sentence loop computes the reference chunks |
| GraphVisualization.RunEnd | src/utils/graph-visualization.js:306 | the end of the white-space run from a position |
| GraphVisualization.RunEndPast | src/utils/graph-visualization.js:306 | a white-space run reaches at least any position it covers |
| GraphVisualization.LastNewline | src/utils/graph-visualization.js:306 | the last newline in a range, or none |
| GraphVisualization.BreakAt | src/utils/graph-visualization.js:306 | a separator `/\n\s*\n/` matched at a position is white space of length two or more |
| GraphVisualization.SplitParagraphs | src/utils/graph-visualization.js:306 | the split returns at least one piece |
| GraphVisualization.Paragraphs | src/utils/graph-visualization.js:306 | `content.split(/\n\s*\n/)` returns at least one paragraph |
| GraphVisualization.SplitSqueeze | src/utils/graph-visualization.js:306 | the paragraphs keep every non-space character, in order |
| GraphVisualization.SqueezeCut | src/utils/graph-visualization.js:306 | cutting out white space keeps the other characters |
| GraphVisualization.ParagraphsSqueeze | src/utils/graph-visualization.js:306 | the paragraphs hold the content's non-space characters, in order |
| GraphVisualization.BreakFound | src/utils/graph-visualization.js:306 | a separator at a position is found there |
| GraphVisualization.SplitNoBlankLine | src/utils/graph-visualization.js:306 | pieces cut before any separator hold none |
| GraphVisualization.CutNoBlankLine | src/utils/graph-visualization.js:306 | a piece cut before any separator holds none |
| GraphVisualization.ParagraphsNoBlankLine | src/utils/graph-visualization.js:306 | no paragraph holds a separator |
| GraphVisualization.PlainSpaces | src/utils/graph-visualization.js:315 | the ideographic space becomes a plain space; nothing else changes |
| GraphVisualization.PlainSpacesNoop | src/utils/graph-visualization.js:314-315 | after collapsing white space nothing is left for the ideographic-space replace |
| GraphVisualization.CleanLaws | src/utils/graph-visualization.js:313-316 | cleaning collapses and trims, keeping every non-space character |
| GraphVisualization.CleanNonEmpty | src/utils/graph-visualization.js:310-316 | a paragraph that is not blank does not clean to nothing |
| GraphVisualization.KeepCases | src/utils/graph-visualization.js:310-325 | blank paragraphs are skipped; a cleaned length over `maxChunkSize` is re-chunked, over `minChunkSize` kept whole, otherwise dropped |
| GraphVisualization.KeepTrimmed | src/utils/graph-visualization.js:310-325 | whatever a paragraph contributes is trimmed and non-empty |
| GraphVisualization.SqueezeKeeps | src/utils/graph-visualization.js:313-316 | a non-space character survives squeezing |
| GraphVisualization.KeepLong | src/utils/graph-visualization.js:318-321 | a long paragraph loses only white space to chunking |
| GraphVisualization.MarkdownChunksTrimmed | src/utils/graph-visualization.js:299-338 | every chunk of the file is trimmed and non-empty |
| GraphVisualization.ChunkParagraph | src/utils/graph-visualization.js:310-325 | one pass of the paragraph loop computes the reference contribution |
| GraphVisualization.ReadMarkdownChunks | src/utils/graph-visualization.js:305-326 | the paragraph loop computes the reference chunks of the content |
| GraphVisualization.OrElse | src/utils/graph-visualization.js:30-51 | the JavaScript `or` default gives the fallback for an unset or empty value |
| GraphVisualization.GroupOf | src/utils/graph-visualization.js:33 | the group is the entity type, or `OTHER`; never empty |
| GraphVisualization.ColorOf | src/utils/graph-visualization.js:35 | the colour comes from the palette, and is missing exactly when the type's entry (key `undefined` for an unset type) is missing or empty and `OTHER` has none |
| GraphVisualization.WeightOf | src/utils/graph-visualization.js:50-53 | an unset or zero weight counts as 1 |
| GraphVisualization.WidthOf | src/utils/graph-visualization.js:53 | the width is twice the weight, clamped to [1, 5] |
| GraphVisualization.DefaultColors | src/utils/graph-visualization.js:15-35 | with the built-in palette every node gets a colour: its type's or `OTHER`'s |
| GraphVisualization.UnweightedWidth | src/utils/graph-visualization.js:53 | an edge without weight has width 2 |
| GraphVisualization.FormatGraph | src/utils/graph-visualization.js:10-62 | one vis node per node and one vis edge per edge, in graph order, each the reference record; no `nodeColors` means the built-in palette |
| WaterMarginDemo.TrimmedFilterClean | water_margin_demo.js:23-24 | trimming every piece and dropping the empty ones leaves trimmed, non-empty paragraphs |
| WaterMarginDemo.DemoParagraphsClean | water_margin_demo.js:21-24 | the demo's paragraphs are trimmed and non-empty |
| WaterMarginDemo.JoinedTrimmed | water_margin_demo.js:38 | two trimmed non-empty strings joined by a blank line are trimmed |
| WaterMarginDemo.AddAllCurrent | water_margin_demo.js:29-40 | the current chunk is trimmed, and empty only before the first paragraph |
| WaterMarginDemo.AddStep | water_margin_demo.js:31-39 | one step keeps the chunks and the current chunk trimmed and non-empty |
| WaterMarginDemo.AddJoin | water_margin_demo.js:31-39 | a step extends the joined text by a blank line and the paragraph |
| WaterMarginDemo.AddAllJoin | water_margin_demo.js:29-40 | the chunks and the current chunk joined by blank lines are the paragraphs joined by blank lines |
| WaterMarginDemo.AddAllCount | water_margin_demo.js:29-40 | no more chunks than paragraphs |
| WaterMarginDemo.AddSize | water_margin_demo.js:31-39 | a step keeps every chunk either a single paragraph or within `CHUNK_SIZE + 2` |
| WaterMarginDemo.AddAllSize | water_margin_demo.js:9-38 | a chunk of several paragraphs is at most `CHUNK_SIZE + 2` long, the size test leaving the blank line out |
| WaterMarginDemo.PackParagraphsCount | water_margin_demo.js:26-45 | every chunk is non-empty and trimmed, there is one when there are paragraphs, none without, and never more chunks than paragraphs |
| WaterMarginDemo.PackParagraphsJoin | water_margin_demo.js:26-45 | joining the chunks with a blank line gives the paragraphs joined with a blank line |
| WaterMarginDemo.PackParagraphsSize | water_margin_demo.js:9-38 | a chunk longer than `CHUNK_SIZE + 2` is a single paragraph |
| WaterMarginDemo.PackLoop | water_margin_demo.js:26-45 | the packing loop computes the reference chunks |
| WaterMarginDemo.DemoChunks | water_margin_demo.js:15-46 | the demo's chunks of the file content are the packing of its paragraphs with `CHUNK_SIZE` 1000 |
| SearchGraph.TermsLaws | search_graph.js:139-142 | every term is longer than two characters and has no white space, and every such lower-cased token is a term |
| SearchGraph.SomeIff | search_graph.js:148-159 | `some(term => content.includes(term))` holds exactly when some term occurs in the content |
| SearchGraph.NodeLinesIff | search_graph.js:146-154 | a node's line is listed exactly when some term occurs in its lower-cased `${node} ${description}` |
| SearchGraph.EdgeLinesIff | search_graph.js:156-165 | an edge's line is listed exactly when some term occurs in its lower-cased `${source} ${target} ${description}` |
| SearchGraph.NodeLinesShape | search_graph.js:149-151 | every node line starts `- E` |
| SearchGraph.EdgeLinesShape | search_graph.js:160-162 | every edge line starts `- R` |
| SearchGraph.ContextOrder | search_graph.js:143-170 | node lines come first, then edge lines, without duplicates |
| SearchGraph.JoinEmpty | search_graph.js:170 | a join of non-empty lines is empty exactly when there are none |
| SearchGraph.ContextEmpty | search_graph.js:138-171 | the result is `""` exactly when no node and no edge is picked |
| SearchGraph.NoTerms | search_graph.js:139-142 | without a term longer than two characters nothing is picked |
| SearchGraph.ScanNodes | search_graph.js:146-154 | the node loop puts the picked nodes' lines in the set, without duplicates, and counts them |
| SearchGraph.ScanEdges | search_graph.js:156-165 | the edge loop continues the set and the count |
| SearchGraph.Search | search_graph.js:138-171 | `searchGraph` returns the reference context, and `evidenceCount` counts every pick, repeats included |
| SearchGraph.AddSeen | search_graph.js:150-160 | `contextSet.add(line)` extends the insertion-ordered set of the lines so far by one line |
| LlmService.GeminiRole | src/llm-service.js:88-92 | `assistant` becomes `model`; any other role is kept; the result is never `assistant` |
| LlmService.NormalizeEntry | src/llm-service.js:80-97 | no normalised message has the role `assistant` |
| LlmService.NormalizeContents | src/llm-service.js:73-101 | one message per element of an array, one message otherwise |
| LlmService.NormalizeLaws | src/llm-service.js:73-101 | a non-blank string is one user message; a blank string or any other non-array value is one user message of its JSON text; an array maps element by element |
| LlmService.EntryLaws | src/llm-service.js:80-97 | a string is a user message; a value without a role is a user message of its JSON; a role keeps its `parts` array or wraps its `content` (`""` when missing), `assistant` renamed |
| LlmService.ClassifyOrder | src/llm-service.js:161-182 | an invalid-key message wins over a timeout, which wins over a retriable code; anything else is fatal |
| LlmService.Pow2 | src/llm-service.js:184 | `Math.pow(2, attempt)` is at least 1 |
| LlmService.Backoff | src/llm-service.js:183-184 | the wait after attempt a lies in [400·2^a, 400·2^a + 199] |
| LlmService.ErrorText | src/llm-service.js:161 | the classified text is the status, a space, and the error's message, or `String(err)` when the message is missing or empty |
| LlmService.MessageText | src/llm-service.js:174 | the timeout reply shows the message as it is, empty included, and `undefined` when it is missing |
| LlmService.StepLaws | src/llm-service.js:151-182 | only a success returns its text and is cached; only a retriable error asks for another attempt; an invalid key gives its fixed reply, a timeout the timeout prefix and the error's message, and a fatal or last retriable error the failure prefix and the classified text |
| LlmService.AttemptsCalls | src/llm-service.js:128-190 | between one and four calls, one wait before each call but the first |
| LlmService.AttemptsBackoff | src/llm-service.js:183-188 | the wait before call k + 1 lies in [400·2^k, 400·2^k + 199] |
| LlmService.AttemptsRetried | src/llm-service.js:177-189 | another call follows only an attempt that asked for one |
| LlmService.AttemptsLast | src/llm-service.js:155-182 | the last call decides the reply and what is cached; a retriable error ends the loop only on the fourth attempt |
| LlmService.ChatShortcuts | src/llm-service.js:104-125 | without a client, the fixed unavailable message and no call; with a non-empty cached reply, that reply and no call; otherwise one to four calls |
| LlmService.ChatRetries | src/llm-service.js:128-190 | every call but the last met a retriable error, and what is cached is a call's response text |
| LlmService.OnError | src/llm-service.js:160-182 | the `catch` gives the fixed reply for an error that ends the loop, or asks for a retry for a retriable one |
| LlmService.AttemptOnce | src/llm-service.js:130-189 | one pass either finishes with its reply and cache write, or, before the last attempt, yields the wait before the next |
| LlmService.Retry | src/llm-service.js:128-190 | the retry loop computes the reference run of up to four attempts |
| LlmService.Chat | src/llm-service.js:103-191 | `chat` computes the reference reply, calls, waits and cache write, and the request's contents are the normalised input |
| LoadData.DigitRun | scripts/load_data.js:62-70 | the digit run `parseInt` reads: every character in it is a digit of the radix, the next is not |
| LoadData.DigitRunAll | scripts/load_data.js:62-70 | an all-digit string is one run |
| LoadData.ValueNatToString | scripts/load_data.js:62-70 | the digits of n read back as n |
| LoadData.UnsignedDecimal | scripts/load_data.js:62-70 | a non-empty decimal run reads as its value |
| LoadData.ParseIntNatToString | scripts/load_data.js:62-70 | `parseInt` of the decimal text of any natural number is that number |
| LoadData.StepAt | scripts/load_data.js:49-87 | every argument moves the scan forward by one, or two for a flag that takes a value |
| LoadData.ParseNoArgs | scripts/load_data.js:39-47 | with no arguments every option keeps its default |
| LoadData.ParseKeepsFile | scripts/load_data.js:84-86 | once a non-empty data file is set, no later argument replaces it |
| LoadData.ParseFirstFile | scripts/load_data.js:84-86 | a non-empty first argument that is not a flag is the data file |
| LoadData.StepFromArgs | scripts/load_data.js:56-83 | one argument sets a string option only to a command-line argument |
| LoadData.ParseFromArgs | scripts/load_data.js:49-87 | the whole scan sets string options only to arguments or defaults |
| LoadData.ParseArgsFromArgs | scripts/load_data.js:38-90 | the parsed data file, mode and algorithm come from the command line or the defaults |
| LoadData.ParseArgsLoop | scripts/load_data.js:49-89 | the `for` loop computes the reference parse, `--help` included |
| LoadData.CleanLaws | scripts/load_data.js:129-144 | a cleaned text has at least 10 characters, single spaces, no space at either end, and keeps every other character in order; shorter or missing text gives null |
| LoadData.Truncate | scripts/load_data.js:178-183 | a text over the limit is cut to it and marked with `...`; otherwise it is unchanged |
| LoadData.RowChunkLaws | scripts/load_data.js:157-186 | a chunk is never empty nor over the mode's limit plus three; uncut it is trimmed; in `fixed` mode it has at least ten characters |
| LoadData.TruncateKept | scripts/load_data.js:168-183 | cutting a kept text of ten or more trimmed characters at a limit of at least ten leaves ten or more characters, still trimmed when no cut was needed |
| LoadData.TruncateLaws | scripts/load_data.js:178-183 | cutting a non-empty trimmed text leaves it non-empty, and trimmed when nothing was cut |
| LoadData.CollectTake | scripts/load_data.js:154-187 | the handler keeps exactly the first `rowLimit` chunks, none for a NaN or non-positive limit |
| LoadData.KeptRows | scripts/load_data.js:157-186 | every kept chunk is some row's chunk, in row order |
| LoadData.KeptLength | scripts/load_data.js:157-186 | at most one chunk per row |
| LoadData.CollectLaws | scripts/load_data.js:147-190 | at most `rowLimit` chunks and one per row, each non-empty and within its mode's bound plus three |
| LoadData.OnRow | scripts/load_data.js:154-188 | the row handler computes the reference chunk of the row |
| LoadData.ReadCsvChunks | scripts/load_data.js:147-190 | the rows streamed in order yield the reference chunk list |
| LoadData.RetryFromShape | scripts/load_data.js:322-339 | from attempt a: at most `maxRetries - a + 1` calls, the wait after failed attempt k is k·2000 ms, and no result only when a is past `maxRetries` |
| LoadData.RetryFromEnding | scripts/load_data.js:322-339 | the last call decides: its results, or its error on attempt `maxRetries`; every earlier call failed |
| LoadData.WithRetryLaws | scripts/load_data.js:321-340 | at most `maxRetries` runs, the first success returned, the last error rethrown, nothing returned when `maxRetries` is below 1 or NaN |
| LoadData.RunWithRetry | scripts/load_data.js:321-340 | the `for` loop with its early return and rethrow computes the reference run |
| PropertyGraphs.EdgeIndex | src/entity-resolution.js:91-92 | read both ways (corrected): the position of the edge joining two nodes in either direction, or none when no edge joins them |
| PropertyGraphs.HasEdgeIff | src/entity-resolution.js:92 | `hasEdge` read both ways (corrected) holds exactly when some edge joins the two nodes in either direction |
| PropertyGraphs.ArcIndex | src/entity-resolution.js:91-92 | graphology's directed lookup: the position of an edge running from the first node to the second, or none when no edge does |
| PropertyGraphs.HasArcIff | src/entity-resolution.js:92 | the directed `hasEdge` holds exactly when an edge runs from the first node to the second, and the undirected reading holds exactly when either direction does |
| PropertyGraphs.DropArcData | src/entity-resolution.js:91 | the directed `dropEdge` throws exactly when no edge runs from the first node to the second, and otherwise removes one edge; nodes and attributes stay |
| PropertyGraphs.AvoidingAll | src/entity-resolution.js:98 | when no edge touches the node, the edges avoiding it are all of them |
| PropertyGraphs.DropEdgeKeeps | src/entity-resolution.js:91 | `dropEdge` keeps every edge that does not join the two nodes |
| PropertyGraphs.IncidentEdges | src/entity-resolution.js:90 | exactly the edges at the node, in edge order |
| PropertyGraphs.EdgesAvoiding | src/entity-resolution.js:98 | exactly the edges not touching the node, in edge order |
| PropertyGraphs.DropEdgeData | src/entity-resolution.js:91 | `dropEdge` read both ways (corrected) removes one edge when one joins the nodes in either direction and adds none; nodes and attributes stay |
| PropertyGraphs.AddEdgeData | src/entity-resolution.js:93 | `addEdge` appends one edge with the next key; nodes and attributes stay |
| PropertyGraphs.Without | src/entity-resolution.js:98 | the node list without the node |
| PropertyGraphs.WithoutDistinct | src/entity-resolution.js:98 | removing a node keeps the keys distinct and leaves one fewer |
| PropertyGraphs.DropNodeData | src/entity-resolution.js:98 | `dropNode` removes the node's attributes and nothing else of them |
| PropertyGraphs.DropEdgeWellFormed | src/entity-resolution.js:91 | removing an edge keeps the graph well formed |
| PropertyGraphs.AddEdgeWellFormed | src/entity-resolution.js:92-93 | adding an edge between known, unjoined nodes keeps the graph well formed |
| PropertyGraphs.PairwiseSnoc | src/entity-resolution.js:92-93 | an edge apart from all others keeps the edge list free of parallel edges |
| PropertyGraphs.PairwiseDelete | src/entity-resolution.js:91 | deleting an edge keeps the list free of parallel edges |
| PropertyGraphs.EdgesAvoidingPairwise | src/entity-resolution.js:98 | the edges avoiding a node have no parallel pair |
| PropertyGraphs.IncidentEdgesPairwise | src/entity-resolution.js:90 | the edges at a node have no parallel pair |
| PropertyGraphs.NeighboursDistinct | src/entity-resolution.js:90 | in a well-formed graph the edges at a node lead to distinct neighbours |
| PropertyGraphs.DropNodeWellFormed | src/entity-resolution.js:98 | removing a node keeps the graph well formed |
| PropertyGraphs.Graph.constructor | src/entity-resolution.js:177 | `new Graph()` is empty |
| PropertyGraphs.Graph.AddNode | src/entity-resolution.js:180-181 | `addNode` appends a new node with its attributes; nothing else changes |
| PropertyGraphs.Graph.SetNodeAttributes | src/community/leiden.js:458-459 | the node's attribute object is replaced; nothing else changes |
| PropertyGraphs.Graph.DropEdge | src/entity-resolution.js:91 | the graph becomes `DropEdgeData` of the old graph, the corrected `dropEdge` read both ways |
| PropertyGraphs.Graph.AddEdge | src/entity-resolution.js:93 | the graph becomes `AddEdgeData` of the old graph |
| PropertyGraphs.Graph.DropNode | src/entity-resolution.js:98 | the graph becomes `DropNodeData` of the old graph |
| Strings.TrimStart | src/fulltext-search.js:81 | the longest suffix that does not start with white space, everything cut being white space |
| Strings.TrimEnd | src/fulltext-search.js:81 | the longest prefix that does not end with white space, everything cut being white space |
| Strings.Trim | src/fulltext-search.js:81 | `trim()` leaves no white space at either end and loses only white space |
| Strings.CollapseWs | src/fulltext-search.js:79-80 | `replace(/\s+/g, " ")` never lengthens the text, and keeps whether it starts with white space |
| Strings.CollapseIdempotent | src/fulltext-search.js:79-80 | collapsing twice is collapsing once |
| Strings.SplitWs | search_graph.js:141 | `split(/\s+/)` gives at least one piece, none with white space |
| Strings.JoinSplitWs | search_graph.js:141 | joining the white-space pieces with one space is collapsing the text |
| Strings.FindFrom | src/llm-service.js:164 | the first occurrence from a position, or none |
| Strings.ContainsIff | src/llm-service.js:164-172 | `includes` holds exactly when the pattern occurs somewhere |
| Strings.SplitMarkers | src/utils.js:46-48 | `split` on literal markers gives at least one piece, none containing a marker |
| Strings.JoinSplitMarker | src/extractors/graph-extractor-basic.js:79 | joining the pieces of a split with its separator gives the text back |
| Strings.SubstitutionPlain | src/entity-resolution.js:160-163 | a replacement string without `$` stands for itself wherever the match is |
| Strings.SubstitutionPatterns | src/extractors/base-extractor.js:83-88 | in a replacement string `$$` is a dollar, `$&` the match, `` $` `` the text before it, `$'` the text after it, and `$1` stays literal since a string pattern has no groups |

## Left out

- PropertyGraphs.HasEdge reads an edge both ways. graphology's `hasEdge(a, b)` on the pipeline's directed edges finds only an edge running from `a` to `b`; that reading is `PropertyGraphs.HasArc`.
- PropertyGraphs.EdgeIndex finds an edge joining the nodes in either direction; the directed lookup is `PropertyGraphs.ArcIndex`.
- PropertyGraphs.HasEdgeIff is about the undirected reading; the directed `hasEdge` is stated by `PropertyGraphs.HasArcIff`.
- PropertyGraphs.DropEdgeData removes an edge joining the nodes in either direction and does nothing when none does. graphology's `dropEdge(a, b)` on directed edges removes only an edge running from `a` to `b` and throws otherwise; that reading is `PropertyGraphs.DropArcData`.
- PropertyGraphs.Graph.DropEdge is the undirected `DropEdgeData` of the previous line and never throws; the directed `dropEdge` is `PropertyGraphs.DropArcData`.
- NodeMerging.Rewire states the corrected rewiring, over the edges at the member in either direction. As written, (a) `dropEdge(member, neighbour)` at `src/entity-resolution.js:91` throws for a neighbour with an edge into the member and none back (`NodeMerging.InNeighbourThrows`, `AppleIncThrows`); (b) `hasEdge(target, neighbour)` at line 92 misses an edge from the neighbour to the target, so a second edge joining them is added (`NodeMerging.ReverseEdgeAdded`); (c) the new edge carries the neighbour's node attributes (`NodeMerging.NeighbourAttrsLoseWeight`). The rewiring as written is `NodeMerging.ArcRewire`.
- NodeMerging.RewireOne is the corrected callback, which reads edges both ways and copies the edge's own attributes. As written, (a) `dropEdge(member, neighbour)` at `src/entity-resolution.js:91` throws for a neighbour with an edge into the member and none back (`NodeMerging.InNeighbourThrows`, `AppleIncThrows`); (b) `hasEdge(target, neighbour)` at line 92 misses an edge from the neighbour to the target, so a second edge joining them is added (`NodeMerging.ReverseEdgeAdded`); (c) the new edge carries the neighbour's node attributes (`NodeMerging.NeighbourAttrsLoseWeight`). The callback as written is `NodeMerging.ArcStep`.
- NodeMerging.MergeMember is the corrected merge of one member. As written, (a) `dropEdge(member, neighbour)` at `src/entity-resolution.js:91` throws for a neighbour with an edge into the member and none back (`NodeMerging.InNeighbourThrows`, `AppleIncThrows`); (b) `hasEdge(target, neighbour)` at line 92 misses an edge from the neighbour to the target, so a second edge joining them is added (`NodeMerging.ReverseEdgeAdded`); (c) the new edge carries the neighbour's node attributes (`NodeMerging.NeighbourAttrsLoseWeight`). The merge as written is `NodeMerging.MergeMemberAsWritten`.
- NodeMerging.RewireEdges runs the corrected callback, so it never throws and never adds a second edge; as written, (a) to (c) of the `NodeMerging.Rewire` line apply.
- NodeMerging.MergeInto merges one member with the corrected callback; as written, (a) to (c) of the `NodeMerging.Rewire` line apply.
- NodeMerging.MergeMembers merges with the corrected callback; as written, (a) to (c) of the `NodeMerging.Rewire` line apply to each member's merge, and the loop stops at the first throw.
- NodeMerging.MergeGraphNodes merges with the corrected callback; as written, (a) to (c) of the `NodeMerging.Rewire` line apply to each member's merge, and `_merge_graph_nodes` throws at the first throw.
- Resolution.MergeAll merges each component with the corrected callback. As written, `resolve` rejects with graphology's `NotFoundGraphError` once a merged member has an edge coming in from a neighbour it has no edge to, for example AMAZON related to APPLE INC when APPLE INC is merged into APPLE (`NodeMerging.AppleIncThrows`), and it can leave two edges joining the survivor and a neighbour (`NodeMerging.ReverseEdgeAdded`); those outcomes of the whole resolver are not stated.
- Resolution.MergeComponents merges with the corrected callback. As written, `resolve` rejects with graphology's `NotFoundGraphError` once a merged member has an edge coming in from a neighbour it has no edge to, for example AMAZON related to APPLE INC when APPLE INC is merged into APPLE (`NodeMerging.AppleIncThrows`), and it can leave two edges joining the survivor and a neighbour (`NodeMerging.ReverseEdgeAdded`); those outcomes of the whole resolver are not stated.
- Resolution.Resolve merges with the corrected callback. As written, `resolve` rejects with graphology's `NotFoundGraphError` once a merged member has an edge coming in from a neighbour it has no edge to, for example AMAZON related to APPLE INC when APPLE INC is merged into APPLE (`NodeMerging.AppleIncThrows`), and it can leave two edges joining the survivor and a neighbour (`NodeMerging.ReverseEdgeAdded`); those outcomes of the whole resolver are not stated.
- Resolution.ResolveLaws states the outcome of `resolve` with the corrected callback. As written, `resolve` rejects with graphology's `NotFoundGraphError` once a merged member has an edge coming in from a neighbour it has no edge to, for example AMAZON related to APPLE INC when APPLE INC is merged into APPLE (`NodeMerging.AppleIncThrows`), and it can leave two edges joining the survivor and a neighbour (`NodeMerging.ReverseEdgeAdded`); those outcomes of the whole resolver are not stated.
- CommunityReports.ScanRelations reads each pair's edge both ways, as corrected. As written, `hasEdge(source, target)` and `getEdgeAttributes(source, target)` at `src/community/community-reports-extractor.js:62-63` find only an edge running from the earlier node of the community to the later one, so a pair whose edge runs the other way has no record, for example ZEUS listed before APOLLO with the edge running from APOLLO to ZEUS; the scan as written is `CommunityReports.ArcRelations` (`ArcRelationsSound`, `ReversedPairOmitted`).
- CommunityReports.RowComplete is about the corrected scan of the previous line; as written, row i omits a later node whose edge runs into node i.
- CommunityReports.RelationsComplete is about the corrected scan; as written, a pair i < j whose edge runs from node j to node i has no record (`CommunityReports.ReversedPairOmitted`).
- CommunityReports.AskReport builds its prompt from the corrected relation table; as written the table omits the pairs whose edge runs from the later node to the earlier one.
- Resolution.AskModel, Resolution.AskAll, Resolution.Resolve: the decoding of replies counts question numbers from 1, as corrected. As written, a `yes` to question 0 pushes the decision -1 (`src/entity-resolution.js:61-62`), `batch[-1]` is `undefined`, and `sort()` at line 168 throws, so `resolve` rejects; `EntityResolution.ZeroQuestion` states the decoding as written, and the rejection of the whole resolver is not stated.
- CommunityReports.ReportsLaws states the report list of the corrected `extract`. As written, `extract` rejects instead once any reply fails `JSON.parse`; `CommunityReports.Extract` states when.
- `getStats` (src/fulltext-search.js:452) only counts index sizes, so it is not modelled; the index sizes are stated by the build lemmas.
- Console logging, progress callbacks and timing output are not modelled anywhere.
- `toLowerCase` and `toUpperCase` are modelled on ASCII letters only; Unicode case mapping is outside the model.
- The model does not cover a negative `maxResults` (JavaScript's `slice(0, -n)`); result limits are natural numbers.
- Graphology edge keys are a parameter `edgeKey`, assumed injective; graphology itself is not part of this model.
- The rank table's key uniqueness is assumed of the caller's input, as the code does.
- PageRank (src/community/community-reports-extractor.js:177-179) and Louvain (src/community/community-reports-extractor.js:187-191) are parameters, not algorithms of the model.
- `JSON.parse`, `JSON.stringify` and the zod report schema are opaque predicates and functions; only the checks the code spells out are modelled.
- The extra fields a search strategy copies into its result records are not modelled; only id, name, score and method are.
- The visualisation's styling constants, colours and the HTML of node titles are not modelled; palette lookups through object-prototype keys are not modelled.
- The demo's rejection on a failed file read is not modelled; the chunkers start from the file's text.
- `generateGenericVisualizationFile` (HTML generation) and `displayGraphInsights` (console output) are not modelled.
- The LLM transport is not modelled: the Gemini client, the `Promise.race` timer and `timeoutMs`, `setTimeout`, cache files and their expiry, and `initializeAI`. The outcome of each call and the jitter draw are parameters instead.
- The model leaves out these parts of `scripts/load_data.js`: `processChunksOneByOne`, `runGraphRAGWithDelay`, `main`, `showHelp` and the visualisation step.
- String lengths and positions are counted in characters, not UTF-16 code units, wherever the code uses `.length`, `substring` or `slice`. A character outside the Basic Multilingual Plane counts as one where JavaScript counts two. This affects the loader's length limits, the chunkers of `src/utils/graph-visualization.js:276` and `src/utils/graph-visualization.js:318-322`, the demo's packer at `water_margin_demo.js:32`, the term filter at `search_graph.js:142`, the length tests of `is_similarity` at `src/entity-resolution.js:23`, `src/entity-resolution.js:28` and `src/entity-resolution.js:40`, and the bigram, trigram and keyword slices of `src/fulltext-search.js:88-125`.
- The default `.sort()` on strings (`src/utils.js:103`, `src/extractors/base-extractor.js:50`, `src/entity-resolution.js:168`) compares UTF-16 code units; the model compares characters, which orders characters outside the Basic Multilingual Plane differently.
- `parseInt` is exact for every size of number, with no double rounding.
- JavaScript visits integer-like object keys first, in numeric order, in `for…in` and `Object.keys`. The model visits keys in insertion order everywhere. This differs for node ids or labels that look like integers at `src/community/leiden.js:181`, `src/community/leiden.js:187`, `src/community/leiden.js:264` and `src/community/leiden.js:307`, for the per-community tallies that `src/community/leiden.js:425` walks with `for…in` and `src/community/leiden.js:440` lists with `Object.values`, which set the order of the community records `LeidenDriver.TallyLaws` states, and for the `type_counts` object of `src/extractors/base-extractor.js:67-72`.
- The `edit-distance` package (`src/entity-resolution.js:3`) is not part of this model. Its documented call is `levenshtein(a, b, insert, remove, update)`, which takes three cost callbacks and returns a mapping object that holds the distance. `src/entity-resolution.js:22` calls it with two arguments and compares the result with a number. The model reads the package from that documented interface: with two non-empty names the missing callback throws and the `catch` length fallback of lines 26-30 decides, and with an empty name the mapping object comes back and the comparison is false (`EntityResolution.LevenshteinCall`, `IsSimilarityAsWritten`, `AsWrittenIff`). The resolver runs the corrected test, which computes the edit distance of the lower-cased names with the model's own Levenshtein distance (`EntityResolution.IsSimilarity`); the seventh "## Findings" row states the difference.
- EntityResolution.SimilaritySymmetric, EntityResolution.SimilarIgnoringCase and EntityResolution.SameLettersSimilar are about the corrected test. As written the test is also symmetric, and two empty names are not similar.
- Resolution.ListCandidates, Resolution.CandidatesOfType, Resolution.ConfirmedLaws and Resolution.Resolve build the candidate lists with the corrected similarity test. As written, the lists of a bucket of non-empty names hold every corrected candidate and more (`EntityResolution.CandidatesAsWritten`, `IbmHpSimilarAsWritten`), so more pairs are put to the model; an empty name is never a candidate.
- The `a|b` pair key of the aggregation phase is modelled as a pair. A label that contains `|` would make two different pairs share a key in the code; the model assumes no label does.
- Floating-point rounding is out of scope: modularity, gains, similarities and scores are reals, and the test tolerances are not modelled.
- `Promise.all` in the extractor and in the report extractor is modelled as a sequential map, which gives the same results because the steps do not share state.
- Timestamps are not modelled: `metadata.created_at` and the `Date.now`-based document ids.
- `searchGraphWithFullText`, `handleQuery` with its answer regexes, and `loadGraphFromDb` in `search_graph.js` are not modelled. The database, SQLite schema, `saveGraphToDb` and `runGraphRAG` orchestration are not modelled either.
- The history cut in the gleaning loop is modelled, and the model proves that it never removes anything with `MAX_GLEANINGS = 2`.
- graphology-components is not part of this model. The model computes connected components by reachability. Its contract fixes what the library's order fixes: each piece starts with its earliest node in graph order, and the pieces come in the order of those first nodes (`WeightedGraphs.Components`, `WeightedGraphs.ComponentsUnique`). So the survivor of each merge, the largest component chosen at `src/community/leiden.js:358` and the index in every piece label `${c}~${idx}` are the library's. The model lists the other members of a piece in graph node order; the library lists them in the order its depth-first stack discovers them. That changes the node order of the working graph Leiden builds at `src/community/leiden.js:359-361` (`LeidenDriver.WorkingGraph`, `LeidenDriver.Run`), and so the shuffles and the levels that follow. It also changes the order in which `resolve` merges the other members, and so the order of the descriptions and source ids the survivor collects.
- The prompt text of `src/prompts.js` is not modelled; only the delimiters `<|>`, `##` and `<|COMPLETE|>` are.
- Duplicated CSV loaders, cache and database maintenance scripts, the HTTP server and `config.js` are outside the core and not modelled.

## Findings

| source | as written | input that shows it | evidently intended | confidence | as-written member | corrected member |
|---|---|---|---|---|---|---|
| src/entity-resolution.js:90-93 | the edge re-attached to the merged node takes the attributes that `forEachNeighbor` hands its callback, which are the neighbour's node attributes | a node `a` with one edge of weight 2 to `b`, stored from `a` to `b`, merged into `c` | the re-attached edge keeps the attributes, and so the weight, of the original edge | not executed | NodeMerging.NeighbourAttrsLoseWeight | NodeMerging.MergeMemberKeepsEdgeAttrs |
| src/entity-resolution.js:61-62 | the question number of a reply record is used as an index after subtracting 1, with no lower bound on it | a reply to a batch of one whose only record names question 0 with `yes`, which gives the decision -1, so `batch[-1]` is undefined at line 168 and `sort()` throws | question numbers count from 1, and a record outside 1 to the batch size is ignored | not executed | EntityResolution.ZeroQuestion | Resolution.JobDecisions |
| src/community/community-reports-extractor.js:148-150 | `cleaned_response` is declared with `let` inside the `try` block, so the `SyntaxError` branch of the `catch` reads a name out of scope and throws a ReferenceError; `_extract_community_report` rejects and `Promise.all` makes `extract` reject with it | a community of two nodes whose reply is `no JSON here` | a reply `JSON.parse` rejects is logged and that community gets no report, like a schema failure | not executed | CommunityReports.NoJsonRejects | CommunityReports.ReportForLaws |
| src/entity-resolution.js:91 | `dropEdge(member, neighbour)` is directed on the pipeline's directed edges, so it throws `NotFoundGraphError` for a neighbour whose edge runs into the member, and `resolve` rejects | AMAZON related to APPLE INC (edge from AMAZON to APPLE INC), with APPLE INC merged into APPLE | the edge joining the member and the neighbour, in either direction, is removed and re-attached to the survivor | not executed | NodeMerging.AppleIncThrows | NodeMerging.MergeMemberEdges |
| src/entity-resolution.js:92 | `hasEdge(target, neighbour)` is directed, so it misses an edge running from the neighbour to the target and a second edge joining them is added | a member `s` with one edge to `n`, merged into `t`, where an edge already runs from `n` to `t` | no second edge is added when the target and the neighbour are joined either way | not executed | NodeMerging.ReverseEdgeAdded | NodeMerging.MergeMemberWellFormed |
| src/community/community-reports-extractor.js:62-63 | `hasEdge(source, target)` is directed, so a pair whose edge runs from the later node to the earlier one gets no relation record | a community listing ZEUS before APOLLO, with the edge running from APOLLO to ZEUS | every pair joined by an edge in either direction has its record | not executed | CommunityReports.ReversedPairOmitted | CommunityReports.RelationsComplete |
| src/entity-resolution.js:22 | `editDistance.levenshtein(a_lower, b_lower)` is called without the insert, remove and update callbacks the `edit-distance` package requires, so for two non-empty names it throws and the `catch` length comparison decides; this rests on the package's documented interface, since the package is not part of this model | the names IBM and HP, which share no letter and differ in length by 1, half the shorter length | the edit distance of the lower-cased names decides, and names with no letter in common are not similar | not executed | EntityResolution.IbmHpSimilarAsWritten | EntityResolution.ApartNotSimilar |

Which half each part of the model runs:

- The merge methods (`NodeMerging.RewireOne`, `RewireEdges`, `MergeInto`, `MergeMembers`, `MergeGraphNodes`) and the resolver built on them (`Resolution.MergeComponents`, `MergeAll`, `Resolve`) run the corrected callback, which reads edges both ways and copies the edge's own attributes. The code as written is the function `NodeMerging.MergeMemberAsWritten`.
- The report extractor (`CommunityReports.ScanRelations`, `AskReport`) reads each pair's edge both ways, as corrected. `CommunityReports.ArcRelations` is the scan as written.
- The resolver's candidate search (`Resolution.ListCandidates`, `Resolve`) uses the corrected similarity test, which computes the edit distance. `EntityResolution.IsSimilarityAsWritten` is the test as written.
- The resolver's batch decoding (`Resolution.AskModel`, `AskAll`) counts questions from 1, as corrected. `EntityResolution.ZeroQuestion` shows the decoding as written.
- The report methods (`CommunityReports.ExtractReport`, `ReportCommunity`, `CollectReports`, `Extract`) run the code as written and reject on a reply `JSON.parse` rejects. `CommunityReports.ReportFor` and `Reports` give the corrected result, which is also what the as-written methods resolve to when nothing rejects.
