# Compact Prediction Tree — a Dafny model

This project models the core of `cpt-rust`, a Compact Prediction Tree. That is a
sequence-prediction structure with three parts:

- a prefix tree kept in an append-only arena of nodes, addressed by 1-based
  node ids, with a data-less root at id 1;
- an inverted index: a strictly ascending list of symbols, each with the bag
  of node ids that hold it;
- a lookup table that records, for each trained sequence, the node its last
  symbol reached.

The operations modelled are:

- **Training** (`add_sequence`, `add_child`, `child_exists`, `new_node`,
  `insert_value`). Each sequence is merged into the tree by find-or-create of
  children.
- **Index lookups**. Exact lookup by binary search; scored lookup by one
  metric or several.
- **Similarity-score algebra** (`compute_similarity`, `cmp`, `get_zero`, `+`,
  `+=`, `sum`).
- **Path matching** (`match_sequence` with its forward and backward walks).
  This covers per-metric aggregation and one stable sort per metric.
- **Prediction** (`predict`). Prefix symbols lead to leaves, leaves to
  training sequences, and sequences to consequents. Support is counted per
  symbol, with confidence, ranking and reversal.
- **The older copy of training in `src/lib.rs`**. It has a partial equality
  on data and no index or lookup table.

Every panic of the source is an `Err` of the `Common.Result` type, tagged with
the kind of panic. A loop that never ends is `Err(Diverges)`. Hash maps are
association lists whose contracts speak only of keys and values, never of
order. The modules follow the source files:

| module | source |
|---|---|
| `Common` | shared result, option and ordering types |
| `DataTypes` | `src/cpt/data_types.rs` |
| `Nodes` | `src/nodes.rs` |
| `CptNodes` | `src/cpt/nodes.rs` |
| `Search` | the standard library's `binary_search_by`, as the index and `predict` use it |
| `InvertedIndex`, `SimilarValues` | `InvertedIndex` in `src/cpt.rs` |
| `Tree`, `TreeInvariant` | `CPT` training in `src/cpt.rs` |
| `Sorting` | the stable `sort_by`, `sort` and `dedup` that `src/cpt.rs` calls |
| `Paths`, `Matching` | `match_sequence*` in `src/cpt.rs` |
| `Predict`, `PredictTermination` | `predict` in `src/cpt.rs` |
| `Scenario` | concrete trees: the training test of `tests/cpt.rs`, and the defect below |
| `Legacy` | `src/lib.rs` |

In two places the code does something other than what its comments and names
suggest. The model does what the code does:

- **The consequent walk at the root.** `predict` collects a consequent by
  walking from a sequence's end node toward the root, and the data-less root
  is where that walk has to end at the latest. The loop at
  `src/cpt.rs:466-489` neither breaks nor moves on at a node without data, so
  it spins forever once it reaches the root. `Predict.Walk` returns
  `Err(Diverges)` there.
- **The sequence lookup.** The code runs a binary search over the lookup
  table (`src/cpt.rs:446`), which is kept in training order and not sorted.
  That search is what `Predict.Predict` models (see Findings).

The two copies of training also differ from each other. `child_exists` in
`src/cpt.rs` unwraps each child's data and panics on a child without data
(`Tree.ChildExists`, `Err(MissingData)`). The copy in `src/lib.rs` compares
optional data with a partial equality that never matches the `None` symbol
(`Legacy.ChildExists`). As a result, `Legacy.RetrainNoDataGrows` shows that
retraining `[None]` grows the tree every time.

## Model

| member | source | states |
|---|---|---|
| DataTypes.Compare | src/cpt/data_types.rs:15-20 | the derived symbol order says Equal exactly for equal symbols |
| DataTypes.BelowIsStrictTotalOrder | src/cpt/data_types.rs:15-20 | the derived order is a strict total order: every Integer before every U8, by payload within a variant, and antisymmetric as a three-way comparison |
| DataTypes.ComputeSimilarity | src/cpt/data_types.rs:40-63 | StrictEqual always gives IsEqual(true) and SequenceLength always Length(1), whatever the operands; AlgebraicDistance succeeds exactly on two Integers and gives their absolute difference; any U8 operand panics |
| DataTypes.ComputeSimilaritySymmetric | src/cpt/data_types.rs:45-61 | every metric gives the same result with the operands swapped |
| DataTypes.CompareScores | src/cpt/data_types.rs:68-113 | comparison succeeds exactly on two Similarity, two Distance or two Length scores; Length and Similarity compare by value, Distance in reverse; IsEqual, None and mixed variants panic |
| DataTypes.CostAndRewardOrdering | src/cpt/data_types.rs:73-113 | Distance(2) ranks above Distance(5), Length(1) below Length(3), and IsEqual and mixed comparisons panic |
| DataTypes.Zero | src/cpt/data_types.rs:116-126 | every score except None has a zero, and that zero is a left and right identity of `+` for it; None panics |
| DataTypes.ZeroIsIdentityForVariant | src/cpt/data_types.rs:116-126 | the zero is a right identity for every score of the same variant, so the zero of any IsEqual is IsEqual(true) |
| DataTypes.Add | src/cpt/data_types.rs:128-168 | `+` succeeds exactly on two scores of the same non-None variant; numeric variants add their ranks, IsEqual takes the conjunction; anything else panics |
| DataTypes.AddCommutative | src/cpt/data_types.rs:128-168 | `+` is commutative, panics included |
| DataTypes.AddAssociative | src/cpt/data_types.rs:170-174 | `+`, and hence `+=`, is associative whenever both inner sums succeed, so accumulating scores in order gives the same total as summing them |
| DataTypes.SumRejectsNonSimilarity | src/cpt/data_types.rs:176-193 | the sum of nothing is None, and a sum whose first item is not a Similarity panics |
| DataTypes.SumOfSimilarities | src/cpt/data_types.rs:176-193 | a non-empty sum of Similarity scores is the Similarity of the total of their values |
| DataTypes.Sum | src/cpt/data_types.rs:176-193 | the sum over an iterator of scores; its contract is stated by `DataTypes.SumRejectsNonSimilarity` and `DataTypes.SumOfSimilarities` |
| DataTypes.SumFrom | src/cpt/data_types.rs:182-191 | the loop of that sum from a given accumulator; its contract is stated by the same two lemmas |
| Nodes.Index0 | src/nodes.rs:51-55 | the 0-based position never underflows and converts back to the same id |
| Nodes.Index0RoundTrip | src/nodes.rs:51-60 | building an id from a 0-based position and taking its position gives the position back |
| Nodes.Root | src/nodes.rs:41-43 | `NodeId::new()`, and likewise `default()`, is the id at position 0, the root |
| Nodes.NewWithValue | src/nodes.rs:45-49 | the id has `index1` equal to the value, and the value 0 panics |
| Nodes.CompareIds | src/nodes.rs:21-37 | id equality and ordering are exactly those of `index1` |
| Nodes.CompareIdsTotalOrder | src/nodes.rs:21-25 | the id ordering is antisymmetric and transitive |
| Nodes.NewNode | src/nodes.rs:93-99 | a new node has no parent, no children and the given data |
| Nodes.Get | src/nodes.rs:82-85 | the node's data; `Nodes.NewNode` and `Nodes.SetData` state what it reads after each constructor and rewrite |
| Nodes.SetData | src/nodes.rs:82-90 | writing the data through `get_mut` changes the data that `get` reads and nothing else |
| CptNodes.NewNode | src/cpt/nodes.rs:36-42 | a new node has no parent, no children and the given data |
| CptNodes.Get | src/cpt/nodes.rs:25-28 | the node's data; `CptNodes.SetData` and `CptNodes.SetDataOfGet` state how it and `get_mut` agree |
| CptNodes.SetData | src/cpt/nodes.rs:25-33 | writing through `get_mut` changes only the data, which `get` then reads |
| CptNodes.SetDataOfGet | src/cpt/nodes.rs:25-33 | writing back the data `get` read leaves the node unchanged |
| Search.BinarySearchBy | src/cpt.rs:67-72 | a hit is at a position the probe calls Equal; on a partitioned list a miss gives the insertion point, with everything before it Less and everything from it on Greater |
| Search.NotFoundMeansAbsent | src/cpt.rs:67-81 | on a partitioned list the search misses exactly when no element matches |
| InvertedIndex.Empty | src/cpt.rs:37-42 | the new index is valid, holds no values and files no ids |
| InvertedIndex.Locate | src/cpt.rs:124 | on ascending values, a hit is the value's position; a miss is the position that keeps the values ascending once the value is inserted there |
| InvertedIndex.AscendingPositionUnique | src/cpt.rs:45-56 | in strictly ascending values, a value sits at one position only |
| InvertedIndex.GetValueIds | src/cpt.rs:65-82 | the lookup finds a bag exactly when the value was inserted, and then it is the bag at that value's position |
| InvertedIndex.InsertValue | src/cpt.rs:120-132 | values stay strictly ascending and parallel to non-empty bags; the value's bag gains the id at its end (a singleton bag for a new value); every other bag is unchanged; the value set gains the value, the id set gains the id, and ids stay unique when the new id is fresh |
| InvertedIndex.InsertKnownValue | src/cpt.rs:125 | a known value keeps its place and gets the id appended to its bag, every other value's lookup is unchanged |
| InvertedIndex.InsertNewValue | src/cpt.rs:126-130 | a new value inserted at the search's insertion point gets a singleton bag, keeps the values ascending and leaves every other lookup unchanged |
| SimilarValues.Lookup | src/cpt.rs:89 | the score table has an entry for a node exactly when the node is one of its keys |
| SimilarValues.Push | src/cpt.rs:97-99 | `entry(id).or_insert(vec![]).push(e)` appends e to that node's scores and changes no other node |
| SimilarValues.PushAll | src/cpt.rs:96-100 | the keys afterwards are the old keys and the bag's ids, and well-formed, tagged tables stay so; the entries per node are stated by `SimilarValues.PushAllEntries` |
| SimilarValues.PushAllEntries | src/cpt.rs:96-100 | pushing one score for every id of a bag adds to each node as many copies as the bag holds it |
| SimilarValues.ValueOf | src/cpt.rs:105-106 | a node id is found in some bag exactly when the index files it, and then under a value the index holds |
| SimilarValues.GetSimilarValueIds | src/cpt.rs:84-118 | the lookup panics exactly when a scanning metric cannot compare some indexed value with the query; on success each node's scores are, metric by metric in request order, IsEqual(true) if StrictEqual and the node is in the query's bag, and the metric of the node's own value against the query for any other metric; each score has its metric's variant |
| SimilarValues.FoldMetrics | src/cpt.rs:91-116 | the loop over the requested metrics succeeds exactly when every metric can compare the query with the indexed values; the entries it adds are stated by `SimilarValues.FoldMetricsEntries` |
| SimilarValues.AddMetric | src/cpt.rs:93-115 | one metric succeeds exactly when it can compare the query with every indexed value; the entries it adds are stated by `SimilarValues.AddMetricEntries` |
| SimilarValues.Scan | src/cpt.rs:104-113 | the scan of the stored values panics exactly when some value cannot be compared with the query under the metric; the entries it adds are stated by `SimilarValues.ScanEntriesIsValueOf` |
| SimilarValues.FoldMetricsEntries | src/cpt.rs:91-116 | the metrics' scores accumulate per node in request order after whatever the table already held |
| SimilarValues.AddMetricEntries | src/cpt.rs:93-115 | one metric appends to a node exactly that metric's score for the node, or nothing |
| SimilarValues.ScanEntriesIsValueOf | src/cpt.rs:104-113 | the full scan gives each node exactly one score, from the value it is filed under, or none if it is not indexed |
| SimilarValues.SimilarKeys | src/cpt.rs:84-118 | the anchors are the query's bag when StrictEqual is requested, together with every indexed node when any other metric is |
| SimilarValues.ExpectedNonEmpty | src/cpt.rs:91-116 | a node receives some score exactly when it is an anchor as described above |
| Sorting.Insert | src/cpt.rs:313-316 | inserting into a sorted list keeps it sorted and adds exactly the one element |
| Sorting.SortBy | src/cpt.rs:313-316 | the sort returns a sorted permutation of its input |
| Sorting.SortByIsStable | src/cpt.rs:313-316 | the sort is stable: the elements sharing any one key keep their relative order |
| Sorting.SecondSortIsPrimary | src/cpt.rs:312-317 | sorting a list already sorted by one key by a second key orders it by the second key first and the first key second |
| Sorting.SortDedup | src/cpt.rs:423-425 | `sort` then `dedup` keeps exactly the elements of the input, strictly ascending |
| Sorting.AscendingIsUnique | src/cpt.rs:453-455 | two strictly ascending lists with the same elements are equal, so the deduplicated result is determined by the input's element set |
| Tree.Default | src/cpt.rs:148-154 | the new tree holds one node and an empty lookup table |
| Tree.Get | src/cpt.rs:207-211 | a node is found exactly for an id inside the arena |
| Tree.GetData | src/cpt.rs:220-222 | reading the data of an id outside the arena panics; otherwise it is that node's data |
| Tree.UpdateNode | src/cpt.rs:213-218 | the node at the id is replaced and every other node, the index and the lookup table are kept; an id outside the arena panics |
| Tree.NewNode | src/cpt.rs:199-205 | the node is appended at the end of the arena under the id whose 0-based position is the old length, and filed in the index under its data; a node without data panics |
| Tree.ScanChildren | src/cpt.rs:232-237 | the scan over the children panics on a child outside the arena or without data, and otherwise finds the last child holding the data, or none when no child holds it |
| Tree.ChildExists | src/cpt.rs:224-240 | a node outside the arena has no matching child; otherwise the result is that of the scan over its children |
| Tree.AddChild | src/cpt.rs:242-264 | succeeds exactly when the child lookup does; either returns the existing matching child with the tree unchanged, or adds exactly one node holding the data below the given node, appends it to the node's children and files it in the index |
| Tree.AddItems | src/cpt.rs:273-276 | training adds at most one node per symbol, keeps the index valid and the lookup table unchanged, and ends on a node holding the last symbol |
| Tree.AddSequence | src/cpt.rs:270-279 | the lookup table gains exactly one entry, the node reached after the last symbol, or the start node for an empty sequence |
| Tree.AddSequenceToRoot | src/cpt.rs:266-268 | training from the root; its contract is stated by `TreeInvariant.RootTrainingKeepsWellFormed` |
| Tree.FollowMeansNoChange | src/cpt.rs:244-262 | when a path of existing children already spells the sequence, training it changes nothing and ends at that path's end |
| Tree.AddChildKeepsChild | src/cpt.rs:246-255 | adding a child never changes which child a node finds for a data value it already had |
| Tree.AddChildIsFound | src/cpt.rs:242-264 | after add_child under an existing node, child_exists finds the returned node for that data |
| Tree.TrainedPathFollows | src/cpt.rs:270-277 | after training, the sequence can be followed from its start node through existing children to the node training ended on |
| Tree.RetrainIsIdempotent | src/cpt.rs:270-279 | training the same sequence again from an existing node adds no node and no index entry; it only records the same end node again |
| Tree.RetrainFromMissingNodeGrows | src/cpt.rs:247-255 | from a start id outside the arena, every retraining appends a new orphan node |
| TreeInvariant.DefaultIsWellFormed | src/cpt.rs:148-154 | the new tree satisfies the tree invariant: linked parents and children, distinct siblings, an index that files every non-root node under its data and nothing else |
| TreeInvariant.ChildExistsSucceeds | src/cpt.rs:224-240 | on a well-formed tree child_exists never panics |
| TreeInvariant.AddChildKeepsWellFormed | src/cpt.rs:242-264 | add_child under an existing node of a well-formed tree succeeds and keeps it well-formed, so siblings never share equal data |
| TreeInvariant.AddItemsKeepsWellFormed | src/cpt.rs:273-276 | training from an existing node of a well-formed tree succeeds, keeps it well-formed and ends on an existing node |
| TreeInvariant.AddSequenceKeepsWellFormed | src/cpt.rs:270-279 | add_sequence from an existing node of a well-formed tree succeeds and keeps it well-formed, lookup table included |
| TreeInvariant.RootTrainingKeepsWellFormed | src/cpt.rs:266-268 | add_sequence_to_root on a well-formed tree succeeds, keeps it well-formed and records the node reached from the root |
| Paths.ScoreAll | src/cpt.rs:396-398 | one score per requested metric, in request order, each the metric of the node's data against the query symbol; the first metric that cannot compare them panics |
| Paths.ExtendByChildren | src/cpt.rs:393-401 | the extensions of a path are exactly the path followed by one scored child |
| Paths.ExtendByChildrenCount | src/cpt.rs:393-401 | the extensions come one per existing child holding data, in the order of the children, so a child listed twice extends the path twice |
| Paths.ExtendPath | src/cpt.rs:391-402 | a path ending outside the arena is dropped; otherwise its extensions are exactly its children with their scores |
| Paths.ExtendAll | src/cpt.rs:391-403 | one forward round keeps exactly the one-step extensions of the current paths |
| Paths.ExtendMatches | src/cpt.rs:388-404 | after all rounds, a path survives exactly when it starts with a current path and each later step is a scored child of the step before, matched against the next query symbol |
| Paths.Forward | src/cpt.rs:368-408 | an empty query matches nothing; otherwise the anchors come from the scored lookup of the first symbol |
| Paths.ForwardIsComplete | src/cpt.rs:368-408 | the forward paths are exactly the child chains from an anchor of the first symbol with one step per query symbol, so paths that run out of children early are dropped |
| Paths.ClimbPath | src/cpt.rs:349-359 | one backward step prepends the scored parent of the path's first node, or keeps the path when that node is outside the arena, has no parent, or has the data-less root as parent; a parent outside the arena or a metric that cannot compare panics |
| Paths.ClimbEach | src/cpt.rs:349-360 | each path takes its own backward step; none is dropped |
| Paths.ClimbKeepsChains | src/cpt.rs:346-361 | after any number of backward steps every path is still a parent chain ending at its anchor and matching the query's tail |
| Paths.Backward | src/cpt.rs:325-366 | an empty query matches nothing; otherwise there is exactly one path per anchor of the last symbol |
| Paths.BackwardWalksUp | src/cpt.rs:325-366 | each backward path is a chain of parents ending at its anchor, each step scored against the query symbol at the same distance from the end; it is no longer than the query, and shorter only when its first node is stuck below the root |
| Paths.ParentChainUnique | src/cpt.rs:349-359 | the backward path of an anchor is determined by the anchor and the query |
| Matching.Accumulate | src/cpt.rs:299 | `entry(metric).or_insert(zero) += score` sets that metric's total to the old total plus the score, or the score itself on first sight, and keeps the other totals; a None score or a mismatched variant panics |
| Matching.AccumulateAll | src/cpt.rs:298-300 | accumulating a path's scores fails only by a missing zero or a mismatched addition; the totals are stated by `Matching.AccumulateAllTally` |
| Matching.PathTotals | src/cpt.rs:295-303 | a path's totals; their contents are stated by `Matching.PathTotalsTally` |
| Matching.AccumulateAllTally | src/cpt.rs:298-300 | accumulating a path's scores leaves each metric's total equal to the sum of that metric's scores |
| Matching.PathTotalsTally | src/cpt.rs:295-303 | a path's totals hold, per metric, the sum of the scores of that metric along the path |
| Matching.Aggregate | src/cpt.rs:295-310 | there is one result per matched path, pairing the path with its totals, and the aggregation panics exactly when some path's totals do |
| Matching.Matched | src/cpt.rs:289-293 | the paths of the requested direction; they are characterised by `Paths.ForwardIsComplete` and `Paths.BackwardWalksUp` |
| Matching.SortByMetric | src/cpt.rs:313-316 | the sort by one metric panics exactly when some result lacks the metric or has a score `cmp` rejects; otherwise it is the stable ascending sort under `cmp` |
| Matching.SortAll | src/cpt.rs:312-317 | one stable sort per metric in list order gives a permutation ordered by the last metric first and the one before it second |
| Matching.SortAllOk | src/cpt.rs:312-317 | the sorts succeed exactly when at most one result exists or every result can be ranked by every metric |
| Matching.StrictEqualCannotRank | src/cpt.rs:313-316 | with StrictEqual among the metrics, two results or more always panic |
| Matching.MatchSequence | src/cpt.rs:281-323 | the results are a permutation of the matched paths with their totals, ordered by the last metric first and the one before it second |
| Matching.BestComesLast | src/cpt.rs:311-317 | no result is ranked strictly better than the last one under the last metric: smallest Distance or largest Length last |
| Matching.MatchedTotals | src/cpt.rs:295-310 | every result's total for a metric is the sum of that metric's step scores along its path |
| Matching.StrictEqualRankingFails | src/cpt.rs:311-317 | match_sequence with StrictEqual and at least two matched paths panics |
| Predict.Prefix | src/cpt.rs:422 | the prefix is the last n symbols of the query; an n longer than the query panics |
| Predict.PrefixSet | src/cpt.rs:423-425 | the prefix set holds exactly the prefix's symbols, strictly ascending |
| Predict.NextLevel | src/cpt.rs:441-443 | the next level holds exactly the children of the current nodes |
| Predict.Descend | src/cpt.rs:436-444 | the descent fails only on a missing node or when it runs out of fuel, and from no nodes finds nothing; the leaves it finds are stated by `Predict.DescendFindsLeaves`, and that it ends by `PredictTermination.DescendTerminates` |
| Predict.DescendFindsLeaves | src/cpt.rs:439-444 | the descent collects exactly the leaves reachable from the start nodes |
| Predict.SequenceIdOf | src/cpt.rs:446 | the lookup gives a position in the lookup table, or its length when it falls off the end; on an ascending table it names the sequence ending at the leaf whenever there is one |
| Predict.PositionOf | src/cpt.rs:446 | the first position of the leaf in the lookup table, or the table's length when it is absent |
| Predict.SearchAgreesWhenAscending | src/cpt.rs:446 | on an ascending lookup table the binary search names a sequence ending at the leaf exactly when the leaf is in the table, and then the same position as the linear scan; for a leaf not in the table it gives the insertion point, which may name another sequence |
| Predict.IdsFor | src/cpt.rs:430-450 | the sequence ids of one prefix symbol are the positions of exactly the leaves below the nodes holding it |
| Predict.IdsForAll | src/cpt.rs:430-450 | the ids of the prefix set are exactly those of its symbols together |
| Predict.Candidates | src/cpt.rs:422-455 | the candidate sequence ids are exactly those of the prefix's symbols, strictly ascending and without duplicates |
| Predict.Walk | src/cpt.rs:466-489 | the consequent holds the data of the nodes met walking toward the root, none of which occurs in the query; the walk ends at a node whose data occurs in the query, at a missing node, or after a node without parent; its only failure is looping forever, and on a well-shaped arena that happens only at the data-less root (`PredictTermination.WalkFailsOnlyAtRoot`) |
| Predict.ConsequentOf | src/cpt.rs:462 | a sequence id past the end of the lookup table selects no consequent; otherwise the consequent is the walk from the sequence's end node, holding no query symbol |
| Predict.Consequents | src/cpt.rs:461-496 | the consequents of all candidates succeed exactly when each does, and hold no query symbol |
| Predict.CountOne | src/cpt.rs:478 | one occurrence raises that symbol's support by one and no other |
| Predict.CountAll | src/cpt.rs:460-478 | the counted symbols are exactly the earlier ones and those of the consequents, each once; the support of each is stated by `Predict.CountAllCounts` |
| Predict.CountAllCounts | src/cpt.rs:461-496 | a symbol's support is its number of occurrences across all consequents |
| Predict.Confidence | src/cpt.rs:533-538 | confidence times the number of nodes holding the symbol is its support |
| Predict.Score | src/cpt.rs:533-538 | every counted symbol gets its support and confidence; a symbol the index lacks panics |
| Predict.RankPredictions | src/cpt.rs:542-558 | the ranking is a permutation ordered by support descending, then confidence descending |
| Predict.ReversedIsBestFirst | src/cpt.rs:558 | reversing a list sorted ascending by support then confidence puts the best first |
| Predict.PredictReportsSupport | src/cpt.rs:410-561 | each prediction is one distinct consequent symbol, with its support counted across the consequents and its confidence, and every such symbol is predicted once |
| Predict.PredictWith | src/cpt.rs:410-561 | the prediction pipeline for any way of locating sequences: a prefix longer than the query panics, the other failures are a missing node, a walk that never ends or a symbol the index lacks, and the predictions are ordered best first |
| Predict.Predict | src/cpt.rs:410-561 | a prefix longer than the query panics; otherwise the predictions are ordered best first |
| PredictTermination.DescendTerminates | src/cpt.rs:439-444 | on a well-shaped arena the leaf descent from existing nodes ends within the fuel granted |
| PredictTermination.CandidatesSucceed | src/cpt.rs:422-455 | on a well-formed tree the candidate lookup panics exactly when the prefix is longer than the query |
| PredictTermination.LeafWalkSucceeds | src/cpt.rs:466-489 | a walk from a leaf below a node holding a query symbol ends, and ends at a node of the arena whose data is a query symbol, so it never reaches the root |
| PredictTermination.WalkFailsOnlyAtRoot | src/cpt.rs:466-489 | on a well-shaped arena, with fuel at least the start node's position, a walk fails only when it has climbed to the data-less root, where the loop neither breaks nor moves on |
| PredictTermination.ConsequentFailsOnlyAtRoot | src/cpt.rs:461-489 | on a well-shaped arena the consequent of any selected sequence, however it was located, fails only when its walk from the sequence's end node climbs to the root |
| PredictTermination.ConsequentsSucceed | src/cpt.rs:461-496 | with sequence ids found by a linear scan, every consequent walk of a well-formed tree ends |
| PredictTermination.ScoreSucceeds | src/cpt.rs:533-538 | every symbol held in a well-formed tree is indexed, so scoring never panics |
| PredictTermination.PredictFixed | src/cpt.rs:446 | with the lookup by linear scan, a prefix longer than the query panics and the predictions are ordered best first |
| PredictTermination.PredictFixedSucceeds | src/cpt.rs:410-561 | on a well-formed tree the corrected prediction panics exactly when the prefix is longer than the query |
| Scenario.TrainingBuildsExpectedTree | tests/cpt.rs:9-29 | training [2,2,3] then [2,3,3] from the root gives six nodes, values [2,3] with bags [[2,3],[4,5,6]], lookup table [4,6], and get_value_ids(2) = [2,3] |
| Scenario.TrainingBuildsTrained | src/cpt.rs:270-279 | training [9], [2], [9], [9], [5] gives the tree with lookup table [2,3,2,2,4] |
| Scenario.TrainedWellFormed | src/cpt.rs:242-279 | the tree so trained satisfies the tree invariant |
| Scenario.PredictDiverges | src/cpt.rs:446 | predicting from [2] with prefix length 1 on that tree never returns |
| Scenario.PredictFixedReturns | src/cpt.rs:446 | the same prediction with the lookup by linear scan returns no predictions |
| Legacy.Equals | src/lib.rs:15-23 | two Integers are equal exactly when their numbers are; None equals nothing, not even None |
| Legacy.EqualsIsPartial | src/lib.rs:15-23 | the equality is symmetric and reflexive on Integers only |
| Legacy.Default | src/lib.rs:135-141 | the new tree has exactly one node, the root, with no parent, no children and no data |
| Legacy.RootId | src/lib.rs:54-56 | the root id names a node of the new tree |
| Legacy.Get | src/lib.rs:64-68 | a node is found exactly for an id inside the arena |
| Legacy.GetData | src/lib.rs:77-79 | an id outside the arena panics; otherwise the result is the node's data |
| Legacy.UpdateNode | src/lib.rs:70-75 | the node at the id is replaced and every other node kept; an id outside the arena panics |
| Legacy.NewNode | src/lib.rs:58-62 | the node is appended under the id whose 0-based position is the old length; only a full arena, where the length plus one wraps to 0, panics |
| Legacy.ScanChildren | src/lib.rs:84-93 | panics on a child outside the arena, and otherwise finds the last child equal to the data, or none |
| Legacy.ChildExists | src/lib.rs:81-95 | a node outside the arena has no matching child; otherwise the result is the scan over its children |
| Legacy.AddChild | src/lib.rs:97-119 | either returns the matching child with the arena unchanged, or appends one node with the given parent and data and appends its id to the parent's children |
| Legacy.AddItems | src/lib.rs:125-131 | training adds at most one node per symbol and nothing for an empty sequence |
| Legacy.AddSequence | src/lib.rs:125-131 | training succeeds exactly when every step does and grows the arena by at most the sequence's length |
| Legacy.AddSequenceToRoot | src/lib.rs:121-123 | training from the root; its contract is stated by `Legacy.RootTrainingSucceeds` |
| Legacy.FollowMeansNoChange | src/lib.rs:97-119 | when a path of existing children already spells the sequence, training it changes nothing |
| Legacy.AddChildIsFound | src/lib.rs:81-119 | after adding an Integer below an existing node, child_exists finds the returned node |
| Legacy.TrainedPathFollows | src/lib.rs:125-131 | after training an Integer sequence, it can be followed through existing children to the node training ended on |
| Legacy.RetrainIsIdempotent | src/lib.rs:125-131 | retraining an identical Integer sequence from an existing node leaves the tree unchanged |
| Legacy.RetrainNoDataGrows | src/lib.rs:15-23 | because None never equals None, retraining [None] from the root adds a node every time |
| Legacy.TrainingSucceeds | src/lib.rs:97-131 | on an arena whose child ids all exist, training from an existing node never panics while the arena has room |
| Legacy.RootTrainingSucceeds | src/lib.rs:121-123 | add_sequence_to_root on such an arena never panics while the arena has room, and keeps child ids existing |

## Left out

- Logging (`println!`), `to_json`, `to_json_pretty` and `to_dot`. They print or serialise and leave the tree unchanged. The JSON layout belongs to serde, a library outside the model.
- `src/python.rs`, `src/main.rs` and `test.py`. They are a Python binding and drivers around the core.
- `SequenceRetreiveFunction` and the duplicate match-function enum in `src/cpt.rs`. They are unused, or the same as the one modelled.
- The `alphabet` field of the `src/lib.rs` tree. It is never written after construction.
- Floating point. `Similarity` scores and confidences are exact reals, and `Distance` is the exact absolute difference of two integers, so f32 rounding and overflow are not modelled.
- `usize` in `src/cpt.rs`. Lengths and ids are unbounded naturals there. In `Legacy`, `len().wrapping_add(1)` and the 32-bit payload of `Integer` are modelled exactly.
- Hash-map iteration order. The scored lookup and the support count are association lists, and no contract speaks of their order, so the order of the anchors and of equally-ranked results is left open.
- Tie order in the `predict` sort. Its comparator never answers Equal, so it is not a valid order on exact ties. `Predict.RankPredictions` fixes a stable order instead, and ties of support and confidence come out in an unspecified order.
- Which panic fires first when several could. Each panic is one `Err` kind, and only its presence is stated.
- Paths.ExtendAll, Paths.ExtendMatches and Paths.ForwardIsComplete: state which paths survive each round, not how often each occurs; the multiplicity is stated for one path's extensions only, by `Paths.ExtendByChildrenCount`.
- Search.BinarySearchBy: models the halving search with an early return on the first `Equal` probe, as `slice::binary_search_by` is written in the Rust standard library from version 1.52 to 1.81. Before 1.52, and again from 1.82, the library defers the decision: it keeps the upper half on `Equal` and decides only after a last comparison. On a sorted list without duplicates both forms agree, but on the unsorted lookup table of `predict` they can select different sequences (lookup table [2,4,2], leaf 4: position 1 here, insertion point 3 under the deferred form). The Findings scenario gives position 4 under every form. The standard library leaves the result on unsorted input unspecified.
- Fuel. The leaf descent and the consequent walk get one round more than the arena has nodes. On a well-formed tree the descent never exhausts it (`PredictTermination.DescendTerminates`). A walk from any node of the arena, and so the consequent of any selected sequence whichever lookup chose it, fails only after climbing to the data-less root, where the source loops forever (`PredictTermination.WalkFailsOnlyAtRoot`, `PredictTermination.ConsequentFailsOnlyAtRoot`). So `Err(Diverges)` from `predict` on a well-formed tree is never a fuel shortfall.
- Predict.Predict: requires a valid index (sorted, parallel, non-empty bags), which every index built by `insert_value` satisfies (`InvertedIndex.InsertValue`), because the fields are only written there.
- Legacy.RetrainIsIdempotent: covers sequences of Integers only, because retraining `None` is not idempotent (`Legacy.RetrainNoDataGrows`).
- Tree.AddItems: does not state find-or-create node by node; `Tree.AddChild`, `Tree.FollowMeansNoChange` and `Tree.TrainedPathFollows` state it.
- Predict.Predict: states ordering and the panic on a long prefix; the support and confidence of each prediction are stated, for any sequence locator, by `Predict.PredictReportsSupport`.

## Findings

| source | as written | input that shows it | evidently intended | confidence | as-written member | corrected member |
|---|---|---|---|---|---|---|
| src/cpt.rs:446 | the leaf is looked up by binary search in the lookup table, which is kept in training order, not sorted; a miss falls back to the insertion point, which can name another sequence or none | train [9], [2], [9], [9], [5] from the root (lookup table [2,3,2,2,4]) and call predict([Integer 2], 1): the search for leaf 3 lands on position 4, whose consequent walk reaches the root, so predict never returns | the position of the sequence that ends at the leaf, found by a linear scan: predict returns no predictions | not executed | Scenario.PredictDiverges | PredictTermination.PredictFixedSucceeds |
