# GraphRec core in Dafny

A model of the parts of GraphRec whose correctness is not visible in any one function: the
temporal-graph engine (`graphrec_core/dgsr/`), the ranking steps, and three protocols over shared
state. Almost every piece has a fast form and a simple form, and the main results say that they agree.

`dafny verify dfyconfig.toml` checks the whole project.

## What is modelled

**The engine.** Events are numbers in (time, row) order; users and items are numbers; a graph is the
log with a visibility mask.

- `Sorting` holds the library sorts and the fact every order argument rests on: a strictly sorted
  arrangement is determined by its members.
- `TemporalGraph` is the log, the per-node indexes and the lookup of a node's newest visible events.
- `Reach` proves that the frontier loop with its early exits reaches what `sampling_order + 1` rounds
  of a naive operator reach, which expands every node found so far, and is refused exactly when those
  nodes are too many.
- `Walks` tells what is reached without the expansion: the ends of short walks that alternate between
  items and users along their newest visible events, `item_neighbor_limit` of an item and `recent_items`
  of a user.
- `Induced` is the node-induced multigraph and the loops that collect it; `Messaging` builds incoming
  messages from nested lists and from one flat sorted table and proves both the same.
- `Sampler` is the caching sampler: a cached answer is the recomputed one, and the cache lists exactly
  the most recently used keys. `SampleShape` proves every sample well formed; `SampleContents` reads its
  events, its messages and the reasons for refusing it off the log, the mask and the limits.
- `VirtualRoot` is `_sample_virtual`; `RootTable` and `RootRefinement` prove that, handed a known user's
  own visible history, it samples the nodes `sample` samples, with the root moved to the last local
  index, and the same messages if and only if no item keeps an event of another user that ties in time
  with an earlier-numbered event of the root. `RootTies` has a log on either side of that condition.
- `VirtualShape` proves every virtual sample well formed. `VirtualCounts` gives what each of its
  destinations keeps, from the log, the history and the limits: an item its induced events and the history
  events on it, the root its history events on sampled items. Its ranks can therefore exceed
  `position_capacity`, which looks at the training log alone; they fit if and only if none of these
  numbers, cut to the limit of its side, does.
- `GruSchedule` proves that the batched schedule of `ChronologicalGRU` is a left fold per destination;
  `Collate` that a batch is a disjoint union that can be taken apart again, on which recurrences give
  what they give sample by sample.
- `CoreFilter` and `Splits` are the core filter and the splits of `data.py`; `SplitContents` reads roles,
  examples and graphs off the log and the fractions.

**Ranking.** `TopK` (partition-based selection against the full sort), `Rerank` (freshness displacement
and diversity cap), `Mmr` (incremental similarity against similarity from scratch). Scores are `real`;
`TopK` adds the two infinities and NaN.

**Protocols.** Each database transaction, script or locked section is one step; requests interleave
between steps.

- `Admission`: sliding windows in Redis and in the in-process fallback, and the leased slots. The state
  carries the log of all admissions, so that bounds over whole runs can be stated.
- `Sessions`: login, refresh in two steps (lookup, conditional update), logout and family revocation.
- `TrainingQueue`: submission, cancellation, claiming, progress, success, failure and worker death.
- `ModelLifecycle`: activation, rollback and archiving of one tenant's versions.

In the last three, functions give the step (`Next`) and the run (`Run`), a class with the source's fields
has one method per operation whose contract is that step, and the invariants are lemmas over every run.

## Assumptions

- The clock of an admission store does not go backwards, and a key keeps one limit and one window.
- One worker executes a claimed job (the advisory lock at `graphrec_core/dgsr/worker.py:389-393`).
- Admission bounds are per store: Redis and each process's fallback count separately.
- Rollback protection needs activation stamps that increase in lock order. `now` is read before the lock
  (`graphrec_core/models_reg/service.py:141-144`), so this is not guaranteed;
  `ModelLifecycle.OutOfOrderStampsLoseIt` gives a run in which the previous version is archived.
- Step functions, cosine similarity, freshness and readiness checks are arbitrary functions or inputs.

## Where the code and its comments differ

- `graphrec_core/usage/admission.py:163-165` gives growth of a full table as the reason for a refusal;
  the code also refuses a subject that is already in the table and has admissions left.
  `Admission.LocalFallback.Window` states when, exactly; `Admission.FillTable` gets there from an empty
  table.
- `graphrec_core/serving/pipeline.py:302` says that ties and order are those of `top_k`. The two differ
  when a score is positive infinity and at least one finite score is asked for, and only then
  (`TopK.AgreeExactly`); `TopK.InfinityDiffers` has an input.

## Model

| member | source | states |
|---|---|---|
| TemporalGraph.Index | graphrec_core/dgsr/data.py:61-65 | one pass files every event under its node, oldest first |
| TemporalGraph.RecentIsNewest | graphrec_core/dgsr/graph.py:99-109 | a lookup returns exactly the newest `limit` visible events of the node up to the cutoff (0: all), oldest first |
| Sorting.SortCanonical | graphrec_core/dgsr/serving.py:306 | whatever a correct sort returns on keys without ties, it is the modelled sort |
| Reach.Collect | graphrec_core/dgsr/graph.py:150-153 | the loop over sorted nodes collects the opposite ends of their newest events, whatever the order |
| Reach.FrontierRound | graphrec_core/dgsr/graph.py:148-168 | expanding only the frontier finds the same users and items as re-expanding every node found so far |
| Walks.LookupMeans | graphrec_core/dgsr/graph.py:99-109 | a lookup returns an event if and only if it is the node's, visible up to the cutoff, and (unless the limit is 0) fewer than `limit` such events are later |
| Walks.AcrossMeans | graphrec_core/dgsr/graph.py:148-166 | expanding items finds exactly the users of their newest `item_neighbor_limit` visible events, expanding users exactly the items of their newest `recent_items` |
| Walks.ReachedMeans | graphrec_core/dgsr/graph.py:142-168 | sampling reaches the root and exactly the ends of walks from its newest items: users in at most 2 * (`sampling_order` + 1) nodes, items in one more |
| Walks.VirtualReachedMeans | graphrec_core/dgsr/serving.py:241-269 | the same for a virtual root, from the items of its newest `recent_items` history events, avoiding the user it stands for |
| Reach.RoundsFixed | graphrec_core/dgsr/graph.py:154-167 | once a round adds nothing, later rounds add nothing, which justifies the early exits |
| Reach.Expand | graphrec_core/dgsr/graph.py:145-168 | the loop reaches exactly the nodes of `sampling_order + 1` naive rounds and is refused exactly when they exceed `max_sample_nodes` |
| Induced.InOrderIsEdgeSet | graphrec_core/dgsr/graph.py:175-187 | the double loop meets every visible event up to the cutoff between two sampled nodes, once |
| Induced.UserIncidentIsAt | graphrec_core/dgsr/graph.py:173-182 | a user's incident list is that user's induced events, oldest first |
| Induced.ItemIncidentIsAt | graphrec_core/dgsr/graph.py:183-189 | an item's incident list, sorted, is that item's induced events, oldest first |
| Messaging.RankChosen | graphrec_core/dgsr/graph.py:199-204 | one destination's chosen events, ranked from both ends |
| Messaging.NestedMessages | graphrec_core/dgsr/graph.py:191-206 | the nested loops give the messages of what each destination keeps, with counts and last sources |
| Messaging.MessagesPerDestination | graphrec_core/dgsr/graph.py:191-206 | per destination: its own edges oldest first, relative + position = count - 1, last source is the newest edge's, and nothing kept gives 0 and -1 |
| Messaging.BlocksWellRanked | graphrec_core/dgsr/graph.py:191-206 | every edge's position is the number of earlier edges of its destination |
| Messaging.GroupIsPositions | graphrec_core/dgsr/serving.py:331-338 | a maximal run of the stable argsort holds exactly one destination's rows, in table order |
| Messaging.GroupRun | graphrec_core/dgsr/serving.py:333-335 | the boundaries cut the sorted table into maximal runs that tile it |
| Messaging.GroupRows | graphrec_core/dgsr/serving.py:336-347 | one group's last `limit` rows are what its destination keeps |
| Messaging.FlatMessages | graphrec_core/dgsr/serving.py:321-349 | the flat grouping gives the messages of what each destination keeps, empty destinations included |
| Messaging.FlatIsNested | graphrec_core/dgsr/serving.py:321-349 | for every edge table, flat grouping and nested per-destination lists give the same messages |
| Sampler.CollectUser | graphrec_core/dgsr/graph.py:177-187 | one user's events are filed under both ends, and the loop stops exactly when the edge limit is passed |
| Sampler.CollectEdges | graphrec_core/dgsr/graph.py:175-187 | the edges are refused exactly when the induced multigraph exceeds `max_sample_edges`, wherever the loop noticed |
| Sampler.SortItems | graphrec_core/dgsr/graph.py:188-189 | after sorting, the item lists are the items' induced events in order |
| Sampler.BuildSample | graphrec_core/dgsr/graph.py:170-211 | from the reached nodes to the sample defined by the node-induced multigraph alone |
| Sampler.TemporalSampler.Compute | graphrec_core/dgsr/graph.py:141-211 | an uncached call returns the expected sample or the exact reason for refusing it |
| Sampler.TemporalSampler.Sample | graphrec_core/dgsr/graph.py:136-216 | cached or not, the result is the one recomputation gives; the cache stays sound and least recently used first |
| Sampler.RecencyMeans | graphrec_core/dgsr/graph.py:138-140 | the order of last use: every used key once, and of two keys the one used later comes later |
| Sampler.TemporalSampler.Store | graphrec_core/dgsr/graph.py:212-215 | storing and evicting leaves the newest `graph_cache_size` entries |
| Sampler.TemporalSampler.MoveToEnd | graphrec_core/dgsr/graph.py:138-140 | a hit moves its entry to the end and changes nothing else |
| Sampler.TemporalSampler.constructor | graphrec_core/dgsr/graph.py:125-127 | a new sampler has an empty, valid cache |
| Sampler.AfterRight | graphrec_core/dgsr/graph.py:137-216 | every entry of the cache after a request is the sample of its key |
| Sampler.AfterMostRecent | graphrec_core/dgsr/graph.py:138-140 | the cache lists exactly the most recently used keys, each once, in order of last use |
| Sampler.CacheBounded | graphrec_core/dgsr/graph.py:212-215 | it never holds more than `graph_cache_size` entries and no key twice |
| SampleShape.RoundsConnected | graphrec_core/dgsr/graph.py:142-168 | every reached node has an induced edge |
| SampleShape.CapacityCovers | graphrec_core/dgsr/data.py:218-223 | `position_capacity` covers what any node of the log can keep |
| SampleContents.SampleOutcomes | graphrec_core/dgsr/graph.py:136-187 | refused without visible events, then when users plus items exceed a nonzero `max_sample_nodes`, then when the induced events exceed a nonzero `max_sample_edges`, and not otherwise |
| SampleContents.VirtualOutcomes | graphrec_core/dgsr/serving.py:240-287 | the same for a history, all of it counted with the edges |
| SampleContents.SampleEvents | graphrec_core/dgsr/graph.py:170-187 | the sample's events are exactly the visible ones up to the cutoff between its users and items |
| SampleContents.SampleMessages | graphrec_core/dgsr/graph.py:188-211 | a destination's messages are its newest induced events, oldest first, `recent_items` of a user and `item_neighbor_limit` of an item, each with its event, the other end as source and both ranks |
| SampleShape.CapacityIsLeast | graphrec_core/dgsr/data.py:218-223 | `position_capacity` is the least number, from 1, that no user's degree cut to `recent_items` and no item's degree cut to a nonzero limit exceeds |
| SampleShape.RanksBelowIff | graphrec_core/dgsr/graph.py:199-204 | the ranks of a side are below a capacity if and only if no destination keeps more edges than that |
| SampleShape.SampleWellFormed | graphrec_core/dgsr/graph.py:136-216 | induced events are visible and within the sample, counts are at least 1, last sources and indices in range, ranks below `position_capacity` |
| VirtualRoot.ExpandVirtual | graphrec_core/dgsr/serving.py:241-269 | the virtual root's expansion reaches the naive rounds from its newest history items, never the root itself |
| VirtualRoot.TableInRange | graphrec_core/dgsr/serving.py:288-305 | every line of the edge table has local indices in range |
| VirtualRoot.BuildVirtual | graphrec_core/dgsr/serving.py:271-318 | edge table, sort and the two groupings give the specified sample |
| VirtualRoot.SampleVirtual | graphrec_core/dgsr/serving.py:240-318 | the method returns the specified sample, or refuses exactly when the nodes or the edges plus the history are too many |
| VirtualRoot.TableSorts | graphrec_core/dgsr/serving.py:301-306 | the sort keys never repeat, so the sorted table is strictly ordered |
| VirtualShape.ReachedAttached | graphrec_core/dgsr/serving.py:241-269 | every user reached has an induced edge; every item has one or is in the history |
| VirtualShape.VirtualWellFormed | graphrec_core/dgsr/serving.py:240-318 | for a non-empty history: induced events visible and within the sample, root last, counts at least 1, last sources and indices in range |
| VirtualCounts.SortKeepsOccurrences | graphrec_core/dgsr/serving.py:301-306 | sorting the edge table does not change how many lines a node has |
| VirtualCounts.ExactCounts | graphrec_core/dgsr/serving.py:271-312 | an item keeps its induced events and the history events on it, cut to `item_neighbor_limit`; a sampled user its induced events and the root its history events on sampled items, cut to `recent_items` |
| VirtualCounts.ItemRanksIff | graphrec_core/dgsr/serving.py:310-312 | the items' ranks are below a capacity if and only if no sampled item has more induced and history events, cut to the limit, than that |
| VirtualCounts.UserRanksIff | graphrec_core/dgsr/data.py:218-223 | the users' ranks are below `position_capacity` if and only if the root has no more history events on sampled items, cut to `recent_items`, than that |
| VirtualCounts.LimitsSuffice | graphrec_core/dgsr/serving.py:308-312 | `recent_items` and a nonzero `item_neighbor_limit` within the capacity are enough for the ranks |
| VirtualCounts.CapacityExceeded | graphrec_core/dgsr/data.py:218-223 | a log of one event and a history of two on its item: a rank reaches `position_capacity` |
| RootTable.SameNodes | graphrec_core/dgsr/serving.py:241-269 | the virtual root reaches the same items, and the same users other than itself, as ordinary sampling |
| RootTable.SortedTraces | graphrec_core/dgsr/serving.py:288-306 | the sorted edge table lists the induced events of the ordinary sample, each once |
| RootRefinement.FiledRearranges | graphrec_core/dgsr/serving.py:288-312 | the lines filed under a node are the node's induced events, each once |
| RootRefinement.KeptInOrder | graphrec_core/dgsr/serving.py:288-312 | a user's newest lines are its newest induced events, oldest first, and so are an item's when none it keeps ties |
| RootRefinement.OrderIffNoTies | graphrec_core/dgsr/serving.py:288-312 | the lines an item keeps are the events it keeps, in order, if and only if none of those is another user's and ties with an earlier event of the root |
| RootRefinement.RootTakesPlace | graphrec_core/dgsr/serving.py:297-306 | where the event order has the last other user's event of a tied group, the table has an event of the root |
| RootRefinement.TieReorders | graphrec_core/dgsr/serving.py:299-306 | a tie puts the other user's later event in front of the root's |
| RootRefinement.KeptIffNoTies | graphrec_core/dgsr/serving.py:308-312 | a destination keeps the same messages in both samples if and only if no event it keeps ties; a user always does |
| RootRefinement.LabelIsMoved | graphrec_core/dgsr/serving.py:271-274 | a user's virtual index is its ordinary index with the root moved to the end |
| RootRefinement.SideSame | graphrec_core/dgsr/serving.py:308-312 | one destination has the same ordered messages in both samples if and only if no event it keeps ties |
| RootRefinement.VirtualRefinesOrdinary | graphrec_core/dgsr/serving.py:240-318 | given a known user's whole visible history: same items, same users with the root last, and the same ordered messages, ranks, counts and last source at every destination if and only if no item keeps an event that ties with an earlier one of the root, whether or not the audit column of event ids is compared too |
| RootRefinement.UntiedRefines | graphrec_core/dgsr/serving.py:240-318 | a log without visible ties always meets that condition |
| RootRefinement.BothSample | graphrec_core/dgsr/serving.py:240-318 | without size limits both kinds of sampling succeed on a non-empty history |
| RootTies.KeptTieDiffers | graphrec_core/dgsr/serving.py:297-306 | two tied events: both samplings succeed, and the item's newest message comes from the other user in one and from the root in the other |
| RootTies.DroppedTieIsHarmless | graphrec_core/dgsr/serving.py:308-312 | the same tie with a newer event and a limit of one: the messages agree, event ids included, although the log has a tie |
| GruSchedule.SliceIsRank | graphrec_core/dgsr/model.py:72-78 | the slice taken at step p holds exactly the edges of position p |
| GruSchedule.SliceDestinations | graphrec_core/dgsr/model.py:76-79 | no slice contains a destination twice, and it contains every destination with an edge left |
| GruSchedule.StepSlice | graphrec_core/dgsr/model.py:77-86 | one batched step advances each destination of the slice by its own next edge and no other |
| GruSchedule.Forward | graphrec_core/dgsr/model.py:66-88 | for any step function, each destination ends with the left fold over its own edges, oldest to newest |
| GruSchedule.FoldReads | graphrec_core/dgsr/model.py:77-86 | run with a step that appends its source, the recurrence lists the destination's sources, each edge once, oldest first |
| GruSchedule.MessagesFold | graphrec_core/dgsr/model.py:51-58 | messages meet what the schedule needs, and the fold runs over what the destination kept |
| Collate.CatMessages | graphrec_core/dgsr/graph.py:242-255 | concatenation with shifted sources, destinations and last sources (-1 kept) |
| Collate.CollateGraphs | graphrec_core/dgsr/graph.py:231-262 | the batch is the shifted union of the rows; an empty list is refused |
| Collate.SplitRecovers | graphrec_core/dgsr/graph.py:242-255 | cutting one direction of a batch at a sample's offsets gives its messages back |
| Collate.BatchSplits | graphrec_core/dgsr/graph.py:231-262 | splitting by the user and item offsets recovers every sample's nodes, edges, counts, last sources, root and target |
| Collate.NoEdgeJoinsSamples | graphrec_core/dgsr/graph.py:232 | both ends of every edge of a batch lie in the same sample |
| Collate.BatchRanked | graphrec_core/dgsr/graph.py:242-255 | a batch meets what the schedule needs whenever its samples do |
| Collate.BatchStates | graphrec_core/dgsr/graph.py:231-262 | a recurrence over a batch gives every node the state it gets when its sample runs alone |
| Collate.SampledFits | graphrec_core/dgsr/graph.py:208-211 | every sample the sampler returns can be batched and scheduled |
| Collate.VirtualFits | graphrec_core/dgsr/serving.py:203-208 | so can every virtual sample of a non-empty history |
| CoreFilter.CountsAreSizes | graphrec_core/dgsr/data.py:119 | the counters count the members of the current collection |
| CoreFilter.PassKeepsCores | graphrec_core/dgsr/data.py:120-121 | a pass never removes a record of a sub-collection that meets the thresholds by itself |
| CoreFilter.PassFixed | graphrec_core/dgsr/data.py:122-123 | the loop stops exactly when every record meets its thresholds |
| CoreFilter.CoreMeans | graphrec_core/dgsr/data.py:115-125 | in a core every record's user occurs in at least `min_user` and every record's item in at least `min_item` of its records |
| CoreFilter.SelectPair | graphrec_core/dgsr/data.py:120-121 | what is kept stands in the original order |
| CoreFilter.FilterCore | graphrec_core/dgsr/data.py:115-129 | the loop ends with the greatest such sub-collection in input order, or reports that only the empty one exists |
| CoreFilter.CoreUnique | graphrec_core/dgsr/data.py:115-125 | there is only one such answer, and filtering it again changes nothing |
| Splits.InteractionData.constructor | graphrec_core/dgsr/data.py:35-51 | the index lists each user's events in order |
| Splits.InteractionData.MakeSplits | graphrec_core/dgsr/data.py:143-173 | roles and the three example lists are those specified; too few distinct times are refused with everything reset |
| Splits.FileUser | graphrec_core/dgsr/data.py:165-171 | one user's examples go to the list of their target's role |
| Splits.ExamplesAre | graphrec_core/dgsr/data.py:165-173 | each list holds exactly the examples of its role, in target order |
| SplitContents.ExampleMeans | graphrec_core/dgsr/data.py:159-171 | the examples of a role are exactly the pairs of a user's neighbouring events whose later one has that role, the target its item; leave-two-out needs four events |
| SplitContents.LeaveTwoOutRole | graphrec_core/dgsr/data.py:159-164 | with four events or more the newest is a test target and the one before it a validation target; all others train |
| SplitContents.GlobalTimeRole | graphrec_core/dgsr/data.py:146-155 | an event's role is decided by how many distinct times precede its own, against the two cuts; three distinct times are needed |
| SplitContents.CutsAre | graphrec_core/dgsr/data.py:150-152 | the cuts are the fractions of the distinct times, rounded down, moved only to leave every interval one |
| SplitContents.AllowedMeans | graphrec_core/dgsr/data.py:197-208 | which roles each split's graph shows; an unknown split is refused exactly under `split_safe` |
| Splits.LeaveTwoOutCounts | graphrec_core/dgsr/data.py:159-171 | a user with L >= 4 events has L - 3 training, one validation and one test example; a shorter one none |
| Splits.IntervalsNonEmpty | graphrec_core/dgsr/data.py:146-155 | each global-time interval contains an event |
| Splits.CutsInside | graphrec_core/dgsr/data.py:150-152 | the two cuts leave all three intervals at least one distinct time |
| Splits.EarlierRole | graphrec_core/dgsr/data.py:146-164 | the event before a target never has a later role, and under leave-two-out a strictly earlier one before a held-out target |
| Splits.CutoffVisible | graphrec_core/dgsr/data.py:197-208 | an example's cutoff event is visible in the graph it is sampled from |
| Splits.PrefixOnly | graphrec_core/dgsr/data.py:197-208 | up to the cutoff the user's newest visible event is the cutoff itself, and the target is not visible there |
| Splits.NothingAfterCutoff | graphrec_core/dgsr/data.py:197-208 | under `split_safe` and leave-two-out no event of a held-out example's user after the cutoff is visible at all |
| Splits.HeldOutTargets | graphrec_core/dgsr/data.py:200-207 | under `split_safe` no validation or test target is in the training graph and no test target in the validation graph |
| Splits.HiddenExactlyWhenSafe | graphrec_core/dgsr/data.py:197-200 | the training graph hides all held-out targets if and only if the policy is `split_safe` or nothing is held out |
| TopK.FastTopK | graphrec_core/serving/pipeline.py:301-311 | for any partition the library may return: the first k finite scores by (score descending, index ascending) |
| TopK.CandidatesFinite | graphrec_core/serving/pipeline.py:307-308 | every candidate in front of the partition is finite, so the threshold is |
| TopK.PoolIsFront | graphrec_core/serving/pipeline.py:309-310 | the finite scores at or above a threshold, sorted, are the front of all finite scores, sorted |
| TopK.BestSpec | graphrec_core/serving/pipeline.py:302 | the selection is finite, in order, and nothing left out is better |
| TopK.BestMeans | graphrec_core/serving/pipeline.py:301-311 | min(k, finite) indices of finite scores by descending score, then ascending index, no better one left out |
| TopK.FullMeans | graphrec_core/dgsr/serving.py:229-236 | as many of all scores: plus infinity first, then by descending score, then ascending index |
| TopK.AgreeExactly | graphrec_core/dgsr/serving.py:229-236 | the two selections agree if and only if no score is positive infinity or nothing is asked for |
| TopK.InfinityDiffers | graphrec_core/serving/pipeline.py:302 | one infinite and one finite score: the full sort returns the first, the partition the second |
| TopK.FiniteFirst | graphrec_core/dgsr/serving.py:234-235 | without a positive infinity the full sort starts with the finite scores |
| Rerank.EligibleSpec | graphrec_core/recommendation_rules.py:59 | exactly the candidates with metadata, each once |
| Rerank.EligibleOrder | graphrec_core/recommendation_rules.py:59 | in order of first occurrence |
| Rerank.TieGroups | graphrec_core/recommendation_rules.py:63-69 | the loop gives each candidate the start of its tie group |
| Rerank.Weight | graphrec_core/recommendation_rules.py:70 | the configured weight where it is within [0, 0.3], clamped otherwise, and zero exactly when freshness is off or not positive |
| Rerank.TieGroupIs | graphrec_core/recommendation_rules.py:54-57 | two candidates share a relevance exactly when every neighbouring pair between them is tied |
| Rerank.GroupStartMeans | graphrec_core/recommendation_rules.py:63-69 | a tie group starts where the run of equal upstream scores starts; two unscored neighbours tie |
| Rerank.OrderMeans | graphrec_core/recommendation_rules.py:70-81 | the new order is by descending (1 - w) * (1 - start / n) + w * freshness, equal scores in the old order |
| Rerank.FreshnessBreaksTies | graphrec_core/recommendation_rules.py:54-57 | inside a tie group freshness alone decides, and equal freshness keeps the order |
| Rerank.Overtakes | graphrec_core/recommendation_rules.py:6-10 | a candidate passes another only if their tie groups start less than n*w/(1-w) apart |
| Rerank.DisplacementBound | graphrec_core/recommendation_rules.py:59-81 | without upstream ties no candidate moves n*w/(1-w) or more positions |
| Rerank.DisplacementAtCap | graphrec_core/recommendation_rules.py:47-81 | whatever weight is configured, none moves more than 3n/7 positions |
| Rerank.ZeroWeightKeepsOrder | graphrec_core/recommendation_rules.py:70-81 | weight zero keeps the order exactly, tied scores included |
| Rerank.ReorderedSpec | graphrec_core/recommendation_rules.py:81 | the re-ranked list has the same distinct candidates |
| Rerank.Diversify | graphrec_core/recommendation_rules.py:84-96 | the loop with its early exit keeps an item exactly when fewer than the cap of its category came before it, then adds the deferred items, cut to `top_n` |
| Rerank.DiverseMeans | graphrec_core/recommendation_rules.py:84-96 | items with fewer than the cap of their category before them come first, then the others, each in the old order, and no item is taken before one that precedes it so |
| Rerank.DiverseSize | graphrec_core/recommendation_rules.py:84-96 | the result is duplicate-free with exactly min(`top_n`, eligible) items |
| Rerank.KeptCount | graphrec_core/recommendation_rules.py:84-95 | the capped pass keeps the uncategorised items and min(cap, size) of every category |
| Rerank.ExceedsExactlyWhenShort | graphrec_core/recommendation_rules.py:12-14 | some category exceeds the cap if and only if the capped pass came up short |
| Rerank.RerankItems | graphrec_core/recommendation_rules.py:50-96 | the whole function: candidates, tie groups, clamped weight, order, then the cut, or diversity at the configured cap, at least 1 |
| Mmr.KeptStep | graphrec_core/serving/ranking.py:144-145 | the incremental similarities stay equal to those computed from scratch |
| Mmr.BestIsGreedy | graphrec_core/serving/ranking.py:140-143 | the argmax over the masked scores is the earliest maximiser among the candidates left |
| Mmr.MaxSimMeans | graphrec_core/serving/ranking.py:129-145 | the similarity of a candidate is the largest of 0 and its cosines to the picks that have a vector too |
| Mmr.GreedyMeans | graphrec_core/serving/ranking.py:139-143 | each pick has the largest (1 - d) * relevance - d * similarity among the candidates left, and comes first among those |
| Mmr.GreedyLoop | graphrec_core/serving/ranking.py:139-146 | the loop makes a greedy pick at every step |
| Mmr.GreedyUnique | graphrec_core/serving/ranking.py:114-119 | the greedy definition leaves one answer |
| Mmr.GreedyDistinct | graphrec_core/serving/ranking.py:136-143 | no candidate is picked twice |
| Mmr.MmrOrder | graphrec_core/serving/ranking.py:107-146 | min(limit, n) distinct items: the relevance prefix at diversity 0 or below, for at most one candidate or without vectors, otherwise the greedy picks at the diversity, or 1 if it is larger |
| Mmr.ShortcutIsGreedy | graphrec_core/serving/ranking.py:117-126 | on a relevance-ordered pool the prefix is what the greedy rule picks at diversity 0, and without vectors at any diversity |
| Admission.WindowSafety | graphrec_core/usage/admission.py:46-66 | every half-open interval of one window length holds at most `limit` admissions |
| Admission.CountMeans | graphrec_core/usage/admission.py:46-66 | the counted interval is half-open |
| Admission.LiveMeans | graphrec_core/usage/admission.py:53-54 | live are the admissions less than one window old |
| Admission.OldestFrees | graphrec_core/usage/admission.py:62-64 | the moment the oldest live admission is a window old is the first at which fewer are live |
| Admission.CapMeans | graphrec_core/usage/admission.py:149-165 | the subject cap is reached with 50,000 subjects whose windows have not expired |
| Admission.PrunedIsLive | graphrec_core/usage/admission.py:53-54 | after pruning, what is kept is exactly what is live |
| Admission.ExpiryForgetsNothing | graphrec_core/usage/admission.py:58 | neither key expiry nor the pruning of stale subjects drops a live admission |
| Admission.WaitSuffices | graphrec_core/usage/admission.py:62-64 | after the reported wait fewer than `limit` admissions are live |
| Admission.RateScript | graphrec_core/usage/admission.py:46-66 | the script admits exactly below the limit and reports the remaining calls and the exact time until the oldest live admission ages out |
| Admission.RedisWindows.constructor | graphrec_core/usage/admission.py:231-250 | a new store has admitted nothing |
| Admission.RedisWindows.Rate | graphrec_core/usage/admission.py:46-66 | over any run: refused exactly with `limit` live admissions, and the log grows by exactly the admitted calls |
| Admission.WindowStep | graphrec_core/usage/admission.py:158-169 | one subject's window; a refusal waits less than a second longer than the oldest live admission, or one window when the table is full |
| Admission.LocalFallback.constructor | graphrec_core/usage/admission.py:142-147 | a new fallback has admitted nothing |
| Admission.LocalFallback.Window | graphrec_core/usage/admission.py:152-169 | admits if and only if fewer than `limit` admissions are live and the subject cap is not reached; raises if and only if the limit is not positive, which no caller passes (`graphrec_core/settings.py` demands at least one) |
| Admission.FullTableRefuses | graphrec_core/usage/admission.py:153-165 | a sound table of 50,000 subjects admitted once each, which refuses one of them below its limit |
| Admission.FillTable | graphrec_core/usage/admission.py:152-169 | 50,000 calls from an empty table admit as many subjects once; the next call refuses the first of them below its limit |
| Admission.UnexpiredOk | graphrec_core/usage/admission.py:155-157 | dropping stale subjects keeps every live admission |
| Admission.RateStep | graphrec_core/usage/admission.py:179-186 | one tenant's deque; the reported wait is in whole seconds, less than one longer than the oldest live admission |
| Admission.TenantRates.constructor | graphrec_core/usage/admission.py:142-147 | a new fallback has admitted nothing |
| Admission.TenantRates.Rate | graphrec_core/usage/admission.py:176-186 | refused exactly with `limit` live admissions, with a sufficient wait |
| Admission.StoreWindowSafety | graphrec_core/usage/admission.py:46-66 | in every reachable store each key stays within its limit in every window |
| Admission.ReclaimKeepsLive | graphrec_core/usage/admission.py:75 | neither the key's expiry nor reclaiming drops a live lease |
| Admission.Slots.constructor | graphrec_core/usage/admission.py:231-235 | no lease is held at first |
| Admission.Slots.Acquire | graphrec_core/usage/admission.py:68-82 | refused exactly when `limit` unexpired leases are held, so never more are |
| Admission.Slots.Release | graphrec_core/usage/admission.py:315-324 | a released lease frees its slot |
| Sessions.AuthenticationService.constructor | graphrec_core/auth/service.py:114-117 | nobody is signed in at first |
| Sessions.AuthenticationService.SignIn | graphrec_core/auth/service.py:640-739 | a login adds one session and one access token of the current epoch |
| Sessions.AuthenticationService.BeginRefresh | graphrec_core/auth/service.py:119-139 | the lookup: a rotated token revokes the family, an unusable one changes nothing |
| Sessions.AuthenticationService.FinishRefresh | graphrec_core/auth/service.py:140-158 | the conditional update: rotates the session if nobody else did, otherwise revokes the family |
| Sessions.IssueKeepsInv | graphrec_core/auth/service.py:652-701 | inserting a sign-in, or the only child of a revoked session of the same user and expiry, keeps all links |
| Sessions.ConsumeKeepsInv | graphrec_core/auth/service.py:140-158 | consuming an unrevoked session keeps all links and lets such a child follow |
| Sessions.AuthenticationService.IssueSession | graphrec_core/auth/service.py:652-701 | a session with the given parent and expiry, and its access token; all links are kept |
| Sessions.AuthenticationService.RevokeFamilyOf | graphrec_core/auth/service.py:164-172 | the epoch moves on and every session of the user is revoked |
| Sessions.AuthenticationService.Logout | graphrec_core/auth/service.py:189-213 | logout revokes like reuse does |
| Sessions.SignInGrants | graphrec_core/auth/service.py:652-701 | a sign-in adds one unrevoked session without parent and one access token, of the user's current epoch and accepted |
| Sessions.RotationGrants | graphrec_core/auth/service.py:140-158 | a rotation revokes the consumed session and no other, and adds its child with the same expiry and one accepted token |
| Sessions.FamilyIsRevoked | graphrec_core/auth/service.py:164-172 | logout, a rotated token and a lost race revoke all sessions of the user, advance its epoch by one and change nothing of any other user |
| Sessions.LookupMeans | graphrec_core/auth/service.py:119-139 | any other lookup changes no session and no epoch |
| Sessions.AcceptedUntilRevoked | graphrec_core/auth/principal.py:132-143 | over every run, an accepted token stays accepted if and only if its user's family is not revoked |
| Sessions.FreshTokenWorks | graphrec_core/auth/principal.py:132-143 | the token of a sign-in after any run is accepted until then |
| Sessions.StepKeepsInv | graphrec_core/auth/service.py:119-183 | every step keeps the links between sessions and the token epochs |
| Sessions.RunKeepsInv | graphrec_core/auth/service.py:119-213 | so does every run, whatever the interleaving |
| Sessions.OneChild | graphrec_core/auth/service.py:140-158 | a session has at most one child and is revoked once it has one |
| Sessions.NextInChain | graphrec_core/auth/service.py:656-701 | chains do not branch |
| Sessions.OneLivePerChain | graphrec_core/auth/service.py:140-158 | each chain has at most one unrevoked session |
| Sessions.ChainExpiry | graphrec_core/auth/service.py:654-656 | every session of a chain has the expiry and the user of its sign-in |
| Sessions.ReuseSignsOut | graphrec_core/auth/service.py:120-122 | presenting a rotated token leaves the user no unrevoked session and makes every access token stale |
| Sessions.RaceSignsOut | graphrec_core/auth/service.py:145-151 | so does losing the race between two refreshes of one token |
| Sessions.LookupAccepts | graphrec_core/auth/service.py:128-139 | a refresh goes on if and only if its session is known, unrevoked, unexpired and its identity in order |
| Sessions.LookupRevokes | graphrec_core/auth/service.py:132-135 | a lookup signs the user out if and only if the token was used before |
| Sessions.StaleForever | graphrec_core/auth/principal.py:132-143 | a stale access token is refused in every continuation |
| Sessions.ReuseRefusedForever | graphrec_core/auth/principal.py:132-143 | every access token issued before a reuse stays refused |
| TrainingQueue.Queue.constructor | migrations/versions/0017_training_worker.py:11-16 | the queue starts empty |
| TrainingQueue.Queue.CreateTrainingJob | graphrec_core/models_reg/service.py:308-337 | a job is queued exactly when it is admitted and the tenant has no open job |
| TrainingQueue.Queue.CancelTraining | graphrec_core/models_reg/service.py:685-696 | a queued job is cancelled, a running one is asked to stop, an ended one is refused |
| TrainingQueue.Queue.ClaimTrainingJob | migrations/versions/0017_training_worker.py:20-33 | stale jobs are requeued or failed, then the oldest claimable job is claimed |
| TrainingQueue.Queue.Progress | graphrec_core/dgsr/worker.py:94-100 | records stage and progress, or reports the cancellation |
| TrainingQueue.Queue.RecordSuccess | graphrec_core/dgsr/worker.py:233-265 | succeeds unless cancellation was requested |
| TrainingQueue.Queue.FinishFailedJob | graphrec_core/dgsr/worker.py:333-374 | cancelled, handed back, retried or failed, by cause and attempts |
| TrainingQueue.SubmitRecords | graphrec_core/models_reg/service.py:308-337 | an admitted submission of a tenant whose jobs have all ended appends a queued, unclaimed job; any other changes nothing |
| TrainingQueue.CancelRecords | graphrec_core/models_reg/service.py:685-696 | what cancelling records for a queued, a running and an ended job |
| TrainingQueue.ClaimRecords | migrations/versions/0017_training_worker.py:20-33 | jobs silent for more than 300 seconds are requeued, or failed after two claims; then the oldest queued job of an active tenant runs, alive now and claimed once more |
| TrainingQueue.PulseRecords | graphrec_core/dgsr/worker.py:94-100 | stage, heartbeat and the larger progress are recorded |
| TrainingQueue.SuccessRecords | graphrec_core/dgsr/worker.py:233-265 | the job is succeeded, completed and at 100, the worker free and no other row changed |
| TrainingQueue.FailureRecords | graphrec_core/dgsr/worker.py:333-374 | a shutdown gives the claim back, a first transient failure is retried, a requested cancellation and all else are final |
| TrainingQueue.StepKeepsInv | graphrec_core/dgsr/worker.py:333-374 | every step keeps: queued jobs have at most one attempt and running ones one or two, claims are attempts plus hand-backs, a succeeded job has no cancel request, a tenant has one open job |
| TrainingQueue.RunKeepsInv | migrations/versions/0017_training_worker.py:20-33 | so does every run |
| TrainingQueue.RunMovesForward | graphrec_core/dgsr/worker.py:94-100 | over every run ended rows never change, cancel requests stay recorded and progress never goes back |
| TrainingQueue.CancelledNeverSucceeds | graphrec_core/dgsr/worker.py:233-238 | a job with a recorded cancel request never succeeds |
| TrainingQueue.CancelTakesEffect | graphrec_core/models_reg/service.py:689-693 | a cancel request ends a queued job at once and stops a running one from reporting progress or succeeding |
| TrainingQueue.RunOutcomes | graphrec_core/dgsr/worker.py:333-374 | a deterministic failure ends a job, a transient one exactly on its second claim that was not handed back, and a shutdown gives the claim back |
| TrainingQueue.ClaimBudget | graphrec_core/dgsr/worker.py:67-70 | a job is claimed at most twice, not counting claims handed back at shutdown |
| TrainingQueue.ClaimsInOrder | migrations/versions/0017_training_worker.py:29-31 | no claim overtakes an older claimable job |
| TrainingQueue.AbandonedIsRecovered | migrations/versions/0017_training_worker.py:21-25 | a job abandoned by a dead worker is claimable again, or failed when its attempts are used up |
| ModelLifecycle.Registry.constructor | graphrec_core/models_reg/service.py:64-67 | no version and no deployment at first |
| ModelLifecycle.Registry.RegisterModelVersion | graphrec_core/models_reg/service.py:98-112 | a registered version is eligible |
| ModelLifecycle.Registry.ActivateModelVersion | graphrec_core/models_reg/service.py:140-196 | each answer exactly when its condition holds and no earlier one does; degraded deployment on failed validation, otherwise retire, promote and redeploy |
| ModelLifecycle.Registry.ArchiveModelVersion | graphrec_core/models_reg/service.py:262-292 | archives exactly unless the version is missing, active or the protected rollback target |
| ModelLifecycle.StepKeepsInv | graphrec_core/models_reg/service.py:140-212 | every step keeps at most one active version, named by the deployment |
| ModelLifecycle.RunKeepsInv | graphrec_core/models_reg/service.py:140-212 | so does every run, in any stamp order |
| ModelLifecycle.ArchivedIsFinal | graphrec_core/models_reg/service.py:262-292 | an archived version never changes again |
| ModelLifecycle.SuccessfulActivation | graphrec_core/models_reg/service.py:175-194 | promotes one version from the status the operation requires, retires the one that was active, touches no other and redeploys |
| ModelLifecycle.FailedActivations | graphrec_core/models_reg/service.py:163-173 | deleting the failed activations from any run changes no version, no rollback target and nothing that is served |
| ModelLifecycle.FailedActivationRecords | graphrec_core/models_reg/service.py:163-173 | in every state the deployment records the wanted version, is degraded and keeps the active one |
| ModelLifecycle.ArchiveMeans | graphrec_core/models_reg/service.py:262-292 | refused exactly for an unknown version, the active one and, while one is active, the retired one that was activated last, then created last; otherwise one version is archived and nothing else changes |
| ModelLifecycle.RollbackTargetIsKept | graphrec_core/models_reg/service.py:281-288 | with increasing stamps the previously active version stays retired and archive refuses it, after every run |
| ModelLifecycle.RefusedExactlyWhenNewest | graphrec_core/models_reg/service.py:281-288 | archive refuses a retired version if and only if some version is active and no retired one sorts before it |
| ModelLifecycle.TargetIsFirst | graphrec_core/models_reg/service.py:281-288 | the rollback target is the first retired version in the rollback order, ties in table order |
| ModelLifecycle.ProtectionLasts | graphrec_core/models_reg/service.py:262-292 | a protected version stays protected in every run without a successful activation |
| ModelLifecycle.SupersededIsKeptIff | graphrec_core/models_reg/service.py:281-288 | after a successful activation archive refuses the superseded version until the next one if and only if it comes first among the retired in the rollback order, under its own stamp |
| ModelLifecycle.OutOfOrderStampsLoseIt | graphrec_core/models_reg/service.py:141-144 | a run whose stamps are out of lock order leaves the previous version unprotected |

## Left out

- Reach.Expand: stands for the expansion loops of both `sample` and `_sample_virtual`, which differ only in the excluded root.
- Collate.SplitRecovers: the parallel tensors of a direction are one sequence of records, so that a mismatch of their lengths cannot occur.
- VirtualRoot.SampleVirtual: array expressions are functions on sequences; in-place updates of the arrays are not modelled.
- Splits.InteractionData.MakeSplits: the fractions are real numbers, so rounding of the floating-point products is not modelled, nor is the report.
- Splits.InteractionData.constructor: the index by item, the order columns and the report are not modelled.
- Rerank.RerankItems: `top_n` is a natural number and scores are never NaN; rounding of the scores and the half-life formula behind freshness are not modelled.
- Mmr.MmrOrder: `limit` is a natural number, and float rounding of similarities is not modelled.
- Admission.LocalFallback.Window: the limit and window of a key are fixed; a policy change between calls is not modelled, nor are operator resets.
- Admission.Slots.Release: the fallback's local leases and a release while Redis is down are not modelled.
- Sessions.AuthenticationService.SignIn: credential checks and restricted sessions are not modelled.
- Sessions.AuthenticationService.IssueSession: reads the epoch in the step that inserts the session; a login that overlaps a revocation may carry the older, already refused epoch.
- TrainingQueue.Queue.RecordSuccess: a commit whose outcome the worker cannot learn is not modelled.
- TrainingQueue.Queue.CreateTrainingJob: capacity, snapshot and cooldown checks are one input; imports and placeholders, which end in the transaction that creates them, are absent.
- ModelLifecycle.Registry.RegisterModelVersion: duplicate tags, capacity and the refusal in production are not modelled.
- ModelLifecycle.SupersededIsKeptIff: versions with the same stamp and creation time are ordered by the table, while the database may return either first.
- ModelLifecycle.Registry.ActivateModelVersion: readiness is an input; deployment capacity and audit rows are absent.
- Neural arithmetic (attention, softmax, losses, optimiser, precision): floating-point calculus.
- `InteractionData._orders`, `excluded_items`, `percentile_ranks`, `combine_scores`, `relevance_order`, `neighbor_anchors`, `source_neighbors`: would only add easy members.
- CSV parsing, duplicate policy, artifact files, checksums and vector stores: foreign calls.
- Password hashing, token encoding, row-level security: library or database behaviour.
- Redis connectivity, the circuit breaker and threads: timing of outside services.
- The monthly quota and its refund: they may act on different stores, so conservation does not hold.
- HTTP routes, schemas, settings, audit rows and the web client: plumbing.
