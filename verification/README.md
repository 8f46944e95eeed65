# Verified models of Cruxible core components

This project models the parts of Cruxible in which a single branch does not tell the whole story, and
proves what holds over every input, every run or every interleaving. Check all of it with
`dafny verify dfyconfig.toml` (Dafny 4.11).

| component | modules |
|---|---|
| shared vocabulary | `Sequences`, `Graphs`, `Decimals` |
| supply-chain blast radius: BOM explosion | `Bom`, `Exploration`, `WorkQueue`, `Recipes`, `Requirements`, `BalanceEquation`, `DirectParts` |
| supply-chain blast radius: exposure paths and verdicts | `ExposurePaths`, `UpwardSearch`, `ExposureRows`, `PathReversal`, `PairSums`, `BomDuality`, `BufferCoverage`, `SupplierCascade`, `ProductExposure`, `ExposureMeaning` |
| agent-local working set | `WorkingSet`, `WorkingSetBatches`, `WorkingSetFile`, `WorkingSetRaces`, `WorkingSetLosses` |
| workflow story order | `WorkflowOrder` |
| compact config compiler | `CompactConfig`, `TraversalMeaning` |
| KEV version order | `Versions`, `VersionMeaning` |
| timestamps, attestation log and summaries | `Temporal`, `AttestationLog`, `AttestationStore` |
| provider row flow | `RowFlow` |

How the source's forms appear here: loops over queues, dictionaries and lists are methods with loop
invariants, each proved equal to a specification function or predicate; the working-set file and the
attestation store are classes whose methods state their whole new state; pure helpers are functions.
Laws are lemmas about the specifications, so they hold of what the methods compute. Dictionaries are
maps, so the order of their keys is not modelled.

What the rows, records, steps and items of the models mean is stated once more in the payload's own terms: fields,
labels, texts and the edges of a BOM or graph, without the helper functions the loops are written with. These
statements are the lemmas named `...Exactly`, `...Meaning`, `...ByFields` and the like in the table below.

Some laws hold only under a condition. Each of these conditions is proved exact, for all inputs, and most come
with a concrete input beyond them:

- The two BOM walks. The walk up keeps climbing while an edge matches the component's variant, the walk down
  while it matches the product's, so they can part both ways: with nested variants (`v` under `v-1`) a required
  component has no exposure path (`BomDuality.NestedVariantsDisagree`), and a wildcard component climbs edges of
  variants the product does not take (`BomDuality.ForeignVariantDisagrees`). For one component edge and one
  product edge whose variants match, both give the same weight if and only if every simple path between them
  passes both filters or neither (`BomDuality.PairAgreesExactly`, positive quantities); the component edge's
  variant decides which side the difference is on, so for a component whose edges are all specific or all
  wildcard the totals agree if and only if all its paths do (`BomDuality.DualityExactly`). Paths of variants that
  do not lie between the two do not matter.
- A capture refines the simple fold for exactly the batches that pass a test on the batch alone
  (`WorkingSetBatches.HarmlessBatch`): for each identity, over the records that win the batch's own dedupe, all
  of the last one's revision carry its digest, and wherever the capture time grows the props known so far come
  up again. Batches of distinct identities and batches of one stamp pass. The only caller,
  `capture_read_payload`, stamps a whole batch alike, so it never builds one that fails
  (`WorkingSetFile.CaptureRefinesDedupe`).
- The buffer state says how stock compares to open demand if and only if the horizon is positive, or there is no
  net stock, or there is no demand and the stock covers it (`BufferCoverage.ClassifyMeaningExactly`).
- A larger incident never softens an exposure verdict if and only if buffer states are among the four the kit
  ranks: an unranked state ranks like `unknown` but is judged `contradict`.
- An inferred traversal can end on exactly the types computed by `TraversalMeaning.PossibleTypes`, and is certain
  to land on its landing type if and only if no other type is among them. A single accepted hop can lead
  somewhere unless it is a marked self-reference on another type: those are not checked against the anchor
  (`compact.py` lines 560-567).
- `all_adjacent` is complete if and only if no relationship is named after the generated key of a
  self-referential one.
- The downward queue empties if and only if no cycle of followed edges can be reached.

The working-set module's documentation (lines 75-84) allows a rewrite to discard lines. Which lines one write
discards is given by `WorkingSetRaces.SurvivorsExactly`, and which interleavings lose a captured identity for good
by `WorkingSetLosses.CaptureLostExactly`.

## Model

| member | source | states |
|---|---|---|
| Bom.GroupBy | kits/supply-chain-blast-radius/providers/supply_chain_blast_radius.py:988-1000 | the edge dictionaries hold, under every key, exactly the kept edges with that key in payload order |
| Bom.MatchesBySegments | kits/supply-chain-blast-radius/providers/supply_chain_blast_radius.py:1148-1151 | an edge label other than all, common and * matches a label exactly when its segments, cut at every dash, start the other one's segments |
| Bom.MatchesAllExactly | kits/supply-chain-blast-radius/providers/supply_chain_blast_radius.py:1149-1150 | the labels that match everything are exactly all, common and * |
| Bom.SegmentsJoined | kits/supply-chain-blast-radius/providers/supply_chain_blast_radius.py:1151 | the segments hold no dash and joined by dashes are the label |
| Bom.LabelsMatch | kits/supply-chain-blast-radius/providers/supply_chain_blast_radius.py:1144-1151 | the same on the fields as they come, where an absent or empty label is all |
| Requirements.CountParts | kits/supply-chain-blast-radius/providers/supply_chain_blast_radius.py:1014-1017 | the component row gains the multiplier times the direct quantities of the variant-matching parts, and lists exactly the components it mentions |
| Requirements.PushChildren | kits/supply-chain-blast-radius/providers/supply_chain_blast_radius.py:1018-1021 | the queue gains one scaled entry for each variant-matching child, in order |
| Requirements.WalkDown | kits/supply-chain-blast-radius/providers/supply_chain_blast_radius.py:1010-1021 | the queue loop ends from any root that reaches no cycle and adds to the rows the root quantity times the flow into each assembly and component |
| Requirements.ProductRequirements | kits/supply-chain-blast-radius/providers/supply_chain_blast_radius.py:980-1023 | both tables hold the path-sum requirement of every product and item, and list an item exactly when a followed path reaches it |
| DirectParts.LinksByLabels | kits/supply-chain-blast-radius/providers/supply_chain_blast_radius.py:996-1020 | a walk goes from an assembly to a child exactly along an edge to a known child whose label suits the product edge's |
| DirectParts.ListedByLabels | kits/supply-chain-blast-radius/providers/supply_chain_blast_radius.py:1013-1017 | a product's row lists a component exactly when such a walk comes to an edge of a known component whose label suits |
| DirectParts.DirectPartCounted | kits/supply-chain-blast-radius/providers/supply_chain_blast_radius.py:1014-1017 | a part at a product edge's own root contributes the two quantities' product, absent and zero quantities being one, exactly when its label suits, and nothing otherwise |
| BalanceEquation.RequirementIsPathSum | kits/supply-chain-blast-radius/providers/supply_chain_blast_radius.py:1005-1021 | each requirement is the sum, over all variant-matching downward paths each listed once, of the product of quantities |
| BalanceEquation.Balance | kits/supply-chain-blast-radius/providers/supply_chain_blast_radius.py:1009-1021 | for a product with one variant the assembly map solves the balance equation: root quantity plus every parent's requirement times the edge quantity |
| BalanceEquation.ComponentsFollowAssemblies | kits/supply-chain-blast-radius/providers/supply_chain_blast_radius.py:1014-1017 | the component map is the assembly map times the direct quantities |
| BalanceEquation.EmptiesIffAcyclic | kits/supply-chain-blast-radius/providers/supply_chain_blast_radius.py:1010-1021 | the unguarded queue loop ends if and only if no cycle of followed edges can be reached from its root |
| Recipes.DownPathsExact | kits/supply-chain-blast-radius/providers/supply_chain_blast_radius.py:1018-1021 | on an acyclic assembly the enumerated downward paths are exactly the paths of followed edges, without repetition |
| Recipes.FlowUnfold | kits/supply-chain-blast-radius/providers/supply_chain_blast_radius.py:1011-1021 | the bounded path sum satisfies the unbounded recursion equation on acyclic assemblies |
| UpwardSearch.AssemblyProductPaths | kits/supply-chain-blast-radius/providers/supply_chain_blast_radius.py:1186-1211 | the breadth-first queue ends on every BOM and returns the level-by-level list of choices, in that order |
| ExposureRows.RowsExactly | kits/supply-chain-blast-radius/providers/supply_chain_blast_radius.py:1186-1211 | the rows stand one to one for the chains of climbable edges that revisit no assembly and end at an edge into the product: first assembly, neighbours, product, and depth one less than the number of assemblies |
| ExposureRows.RowIffChain | kits/supply-chain-blast-radius/providers/supply_chain_blast_radius.py:1191-1211 | a row is returned exactly when such a chain stands behind it |
| ExposureRows.ParentsInOrder | kits/supply-chain-blast-radius/providers/supply_chain_blast_radius.py:1201 | parents are visited in the order of their ids, parallel edges in payload order |
| UpwardSearch.RecordProducts | kits/supply-chain-blast-radius/providers/supply_chain_blast_radius.py:1196-1200 | one row for each variant-matching product edge at the assembly |
| UpwardSearch.PushParents | kits/supply-chain-blast-radius/providers/supply_chain_blast_radius.py:1201-1210 | one queue entry for each climbable parent edge that does not revisit the path |
| ExposurePaths.UpChoicesExact | kits/supply-chain-blast-radius/providers/supply_chain_blast_radius.py:1186-1211 | the choices are exactly the simple climbing paths with a product edge at the top, each once per choice of parallel edges, with depths never decreasing, cyclic BOMs included |
| UpwardSearch.UpExact | kits/supply-chain-blast-radius/providers/supply_chain_blast_radius.py:1201-1206 | a parent edge is climbed exactly when the path is a wildcard or the edge's variant matches the path's |
| UpwardSearch.ExitsExact | kits/supply-chain-blast-radius/providers/supply_chain_blast_radius.py:1196-1199 | a product edge is taken exactly when the path variant matches the product's |
| PairSums.RequirementIsPairSum | kits/supply-chain-blast-radius/providers/supply_chain_blast_radius.py:1005-1021 | a requirement splits into one term for each pair of a component edge and a product edge: the two quantities times the flow between them |
| BomDuality.Duality | kits/supply-chain-blast-radius/providers/supply_chain_blast_radius.py:980-1023 | where all paths agree the downward requirement of a component equals the quantity-weighted sum over the upward paths from its BOM edges |
| BomDuality.PairAgreesExactly | kits/supply-chain-blast-radius/providers/supply_chain_blast_radius.py:1202-1206 | for one component edge and one matching product edge: a specific component never reports more than the walk down takes, a wildcard one never less, and the two are equal if and only if every simple path between them passes both filters or neither |
| BomDuality.DualityExactly | kits/supply-chain-blast-radius/providers/supply_chain_blast_radius.py:980-1023 | a component of specific edges is never over-reported upward, one of wildcard edges never under-reported, and for either the duality holds if and only if all paths agree |
| BomDuality.RequirementCountsPaths | kits/supply-chain-blast-radius/providers/supply_chain_blast_radius.py:594-618 | with unit quantities and agreeing paths the requirement is the number of rows the upward enumeration returns |
| BomDuality.RequiredIffExposed | kits/supply-chain-blast-radius/providers/supply_chain_blast_radius.py:594-618 | with positive quantities and agreeing paths a component is required if and only if an exposure path exists |
| BomDuality.ExposedIffPositive | kits/supply-chain-blast-radius/providers/supply_chain_blast_radius.py:594-618 | with positive quantities an exposure path exists exactly when the sum over upward paths is positive, whatever the variants |
| BomDuality.OneSidedExposure | kits/supply-chain-blast-radius/providers/supply_chain_blast_radius.py:594-618 | without agreeing paths: exposed specific components are required, and required wildcard components are exposed |
| BomDuality.WildcardsAgree | kits/supply-chain-blast-radius/providers/supply_chain_blast_radius.py:1148-1151 | wildcard assembly labels alone make all paths agree, whatever the variants of components and products |
| BomDuality.NestedVariantsDisagree | kits/supply-chain-blast-radius/providers/supply_chain_blast_radius.py:1202-1206 | a three-edge BOM with nested variants on which the downward walk requires a component and the upward walk finds no path |
| BomDuality.ForeignVariantDisagrees | kits/supply-chain-blast-radius/providers/supply_chain_blast_radius.py:1202-1206 | a three-edge BOM on which a wildcard component is exposed through an edge of another variant although the product does not require it |
| BufferCoverage.ClassifyMeaning | kits/supply-chain-blast-radius/providers/supply_chain_blast_radius.py:1051-1068 | with linked positions, no rate override and a positive horizon: no_buffer iff net <= 0, sufficient iff net > 0 covers open demand times requirement, partial otherwise |
| BufferCoverage.HorizonIndependent | kits/supply-chain-blast-radius/providers/supply_chain_blast_radius.py:1047-1068 | the state is the same for every two positive horizons |
| BufferCoverage.MoreStockNeverWorse | kits/supply-chain-blast-radius/providers/supply_chain_blast_radius.py:1059-1068 | more net stock never ranks worse, for every rate and horizon |
| BufferCoverage.RecordedRate | kits/supply-chain-blast-radius/providers/supply_chain_blast_radius.py:1051-1068 | a recorded rate replaces the estimate: with stock and a positive rate, sufficient or partial by rate times horizon; without linked positions unknown |
| BufferCoverage.ClassifyMeaningExactly | kits/supply-chain-blast-radius/providers/supply_chain_blast_radius.py:1046-1068 | for every horizon, negative ones included, the meaning above holds if and only if the horizon is positive, or net stock is not, or there is no demand and the stock covers it |
| BufferCoverage.ZeroHorizonUnknown | kits/supply-chain-blast-radius/providers/supply_chain_blast_radius.py:1053-1064 | an input beyond that condition: at horizon zero stock that covers the demand is reported unknown |
| SupplierCascade.AssessComponentCascade | kits/supply-chain-blast-radius/providers/supply_chain_blast_radius.py:482-522 | an item for exactly the components with an affected supplier, carrying the judged state and verdict |
| SupplierCascade.ItemMeaning | kits/supply-chain-blast-radius/providers/supply_chain_blast_radius.py:482-522 | contradict iff the lifecycle is recorded and not active, else unsure iff a qualified or conditional, switched-on supply outside the incident is left; in scope iff none is left but two usable ones exist |
| SupplierCascade.AlternateStateMeaning | kits/supply-chain-blast-radius/providers/supply_chain_blast_radius.py:1164-1175 | unsure iff a viable source outside the incident exists; no_alternate leaves at most one viable edge, alternate_in_scope at least two |
| SupplierCascade.VerdictMonotone | kits/supply-chain-blast-radius/providers/supply_chain_blast_radius.py:1164-1183 | enlarging the affected suppliers never moves support to unsure |
| SupplierCascade.CascadeMonotone | kits/supply-chain-blast-radius/providers/supply_chain_blast_radius.py:494-521 | more impacts keep every component item and keep its verdict at least as severe |
| ProductExposure.AssessProductExposure | kits/supply-chain-blast-radius/providers/supply_chain_blast_radius.py:569-679 | an item for exactly the incident-product pairs with a recorded path, summarizing all recorded rows of the pair |
| ProductExposure.WorstMeaning | kits/supply-chain-blast-radius/providers/supply_chain_blast_radius.py:647-654 | depth bucket and buffer state are attained by some path and ranked at least as bad as every path's |
| ExposureMeaning.RowsAreEvidence | kits/supply-chain-blast-radius/providers/supply_chain_blast_radius.py:594-645 | the recorded rows of an incident and product are exactly the chains from uses of impacted components and from impacted assemblies, with basis, depth and looked-up buffer |
| ExposureMeaning.ItemsByEvidence | kits/supply-chain-blast-radius/providers/supply_chain_blast_radius.py:644-679 | an item exists exactly where there is evidence; its bucket, buffer, basis and verdict are told from the evidence: deepest, scarcest, support for no or partial buffer, unsure for unknown |
| ExposureMeaning.PathCountExactly | kits/supply-chain-blast-radius/providers/supply_chain_blast_radius.py:594-645 | the path count is the number of chains, summed over impacts and uses |
| ProductExposure.ExposureMonotone | kits/supply-chain-blast-radius/providers/supply_chain_blast_radius.py:594-661 | more impacted edges never remove an exposed product nor lower its path count, depth bucket, buffer rank or, over ranked states, verdict |
| ProductExposure.VerdictMonotoneIffRanked | kits/supply-chain-blast-radius/providers/supply_chain_blast_radius.py:651-661 | a further buffer state keeps verdicts monotone if and only if it is one of the four ranked ones |
| WorkingSetFile.DedupeRecords | src/cruxible_core/working_set.py:784-799 | the dictionary loop computes the fold over records, and reports a change exactly when two records share an identity |
| WorkingSetFile.FoldBatch | src/cruxible_core/working_set.py:837-851 | the folding loop yields the fold, the records of new identities, and whether anything was superseded |
| WorkingSetFile.RecordsFile.ReadDetailed | src/cruxible_core/working_set.py:748-776 | the records of all readable lines in order, and the number of unreadable ones |
| WorkingSet.ReadExactly | src/cruxible_core/working_set.py:748-776 | the records read are those of the lines that hold one, each once, in line order |
| WorkingSet.InvalidExactly | src/cruxible_core/working_set.py:748-776 | the number reported is that of the lines that are neither skipped nor readable |
| WorkingSetFile.RecordsFile.WriteRecords | src/cruxible_core/working_set.py:802-821 | the file becomes a header and the given records, which read back exactly |
| WorkingSetFile.RecordsFile.AppendRecords | src/cruxible_core/working_set.py:824-872 | the file becomes what planning, deciding and performing one capture specify |
| WorkingSet.IdentifyExactly | src/cruxible_core/working_set.py:620-643 | two records share an identity exactly when they are the same entity, carry the same nonempty claim id, or carry none and agree in relationship, ends and edge key |
| WorkingSet.WinsExactly | src/cruxible_core/working_set.py:646-654 | the greater revision wins, any revision wins against none, and equal ones go by capture time, a missing one being first |
| WorkingSet.LinesExactly | src/cruxible_core/working_set.py:853-872 | the new lines of the file: all rewritten if a known record is outdated or the file is too large or holds an identity twice, else the records about new subjects appended, under a header if there was no file, or nothing |
| WorkingSet.SubjectsKept | src/cruxible_core/working_set.py:824-872 | every subject of the file or the batch is read back exactly once, and no other |
| WorkingSet.ParallelEdgesKept | src/cruxible_core/working_set.py:635-643 | two edges without claim ids that differ only in their edge key are both read back |
| WorkingSet.AppendReads | src/cruxible_core/working_set.py:824-872 | whichever of the rewrite, append and no-op paths runs, the file reads back as the known records with the deduplicated batch folded in |
| WorkingSetBatches.FoldDedupedExactly | src/cruxible_core/working_set.py:784-799 | folding in the dedupe of a batch equals folding in the batch, into every deduplicated list, if and only if the batch is harmless |
| WorkingSetBatches.AppendRefinesExactly | src/cruxible_core/working_set.py:824-872 | after a nonempty batch the file reads back as the dedupe of old records followed by batch, for every file and whichever path runs, if and only if the batch is harmless |
| WorkingSetBatches.AppendRefinesDedupe | src/cruxible_core/working_set.py:824-872 | and then with one record per identity |
| WorkingSetBatches.DistinctIsHarmless | src/cruxible_core/working_set.py:784-799 | a batch that names no identity twice is harmless, whatever its stamps |
| WorkingSetBatches.OneCoordinateIsHarmless | src/cruxible_core/working_set.py:657-683 | a batch of one stamp is harmless, whatever its identities |
| WorkingSetFile.CaptureRefinesDedupe | src/cruxible_core/working_set.py:1011-1050 | every nonempty batch stamped by one capture refines the simple fold |
| WorkingSetFile.StampReadings | src/cruxible_core/working_set.py:1011-1049 | every record of a capture carries the same effective revision (payload, else explicit, else fallback), digest and time |
| WorkingSetBatches.MixedBatchDiffers | src/cruxible_core/working_set.py:657-683 | a concrete harmful batch, two capture times of one entity: a reading the fold would discard survives |
| WorkingSetFile.SingleWriterNewest | src/cruxible_core/working_set.py:646-654 | over any single-writer run with any batches, each identity is stored once with the greatest (revision, as_of) ever captured |
| WorkingSetFile.FoldNewest | src/cruxible_core/working_set.py:837-851 | folding keeps for every identity the greatest coordinate of both sides |
| WorkingSetFile.TiesGoByTime | src/cruxible_core/working_set.py:646-654 | at equal revisions the text comparison of as_of decides by capture time |
| WorkingSetRaces.RacesStayHonest | src/cruxible_core/working_set.py:657-683 | under every interleaving of reads, looks, writes, clears and damage, each record in the file is a capture but for its props, keeps that capture's props, and has other props only from captures of the same identity at the same concrete revision and digest |
| WorkingSetRaces.StepKeepsHonesty | src/cruxible_core/working_set.py:824-872 | every single step of every process keeps the file and all pending writes honest |
| WorkingSetRaces.MergeHonest | src/cruxible_core/working_set.py:657-683 | merging two honest records of one identity gives an honest record |
| WorkingSetRaces.SoloIsAppend | src/cruxible_core/working_set.py:824-872 | three steps of one process with nobody in between are exactly one capture |
| WorkingSetRaces.SurvivorsExactly | src/cruxible_core/working_set.py:75-84 | exactly which identities a write leaves in the file: a rewrite forgets what arrived since its read, an append keeps everything |
| WorkingSetRaces.RacesCanLose | src/cruxible_core/working_set.py:79-84 | a concrete interleaving that loses a captured record |
| WorkingSetLosses.HistoryOf | src/cruxible_core/working_set.py:824-872 | every list of events, from every file, has a history of states, which ends as the run of these events does |
| WorkingSetLosses.LosesExactly | src/cruxible_core/working_set.py:75-84 | a step of a run loses an identity from the file if and only if it clears the file, damages its only line, or rewrites the file for a process that read it before the identity arrived and does not bring it |
| WorkingSetLosses.GoneExactly | src/cruxible_core/working_set.py:75-84 | over any run an identity once in the file is gone at the end if and only if such a step lost it and nothing brought it back |
| WorkingSetLosses.CaptureLostExactly | src/cruxible_core/working_set.py:824-872 | a capture that ran to its write is gone at the end of a run if and only if such a step came after its process read the file |
| WorkingSetRaces.OneCaptureHeals | src/cruxible_core/working_set.py:857-860 | after any interleaving one undisturbed capture leaves one honest record per identity, with the greatest coordinate of file and batch |
| WorkflowOrder.CountDependencies | src/cruxible_core/canonical_views/workflow_labels.py:23-35 | adjacency and indegrees of the dependencies between known workflows, each counted once |
| WorkflowOrder.Emit | src/cruxible_core/canonical_views/workflow_labels.py:45-52 | decrementing the targets keeps the counts right and the ready list exactly the free workflows in key order |
| WorkflowOrder.EmitAll | src/cruxible_core/canonical_views/workflow_labels.py:37-52 | the main loop ends and emits at every step the eligible workflow with the least (mode rank, name), until none is eligible |
| WorkflowOrder.StoryOrder | src/cruxible_core/canonical_views/workflow_labels.py:22-62 | the result is the greedy run followed by the leftovers, as workflows of the view, and ordered by modes and names as below |
| WorkflowOrder.StoryByModes | src/cruxible_core/canonical_views/workflow_labels.py:37-67 | of two workflows free at the same time, or held back, canonical comes before proposal and governed, these before decision_support, and that before every other mode; within a group the name decides |
| WorkflowOrder.GreedyUnique | src/cruxible_core/canonical_views/workflow_labels.py:41-52 | there is only one greedy run |
| WorkflowOrder.OrderIsPermutation | src/cruxible_core/canonical_views/workflow_labels.py:54-62 | whatever the dependencies, the order is a permutation of the workflows and its fallback part is in key order |
| WorkflowOrder.EmittedExactly | src/cruxible_core/canonical_views/workflow_labels.py:41-52 | the main loop emits exactly the workflows with no ancestor, themselves included, on a cycle, and every dependency into that part points forward |
| WorkflowOrder.TopologicalIffAcyclic | src/cruxible_core/canonical_views/workflow_labels.py:22-62 | the order is topological if and only if the dependencies are acyclic, and then nothing is left over |
| WorkflowOrder.LeastTopologicalOrder | src/cruxible_core/canonical_views/workflow_labels.py:37-67 | it is the lexicographically least topological order under (mode rank, name) |
| WorkflowOrder.KeyTotalOrder | src/cruxible_core/canonical_views/workflow_labels.py:65-67 | the sort key orders workflow names totally, ties included |
| Sequences.TextLessExactly | src/cruxible_core/canonical_views/workflow_labels.py:65-67 | the order on text everywhere: up to some position equal, and there the first one ends or has the smaller code point |
| CompactConfig.ResolvesExactly | src/cruxible_core/config/compact.py:523-588 | a reference resolves exactly when one direction remains: the one that fits the anchor and agrees with the marker, or for a self-reference the marked one |
| CompactConfig.RejectsExactly | src/cruxible_core/config/compact.py:523-588 | which of the four errors is given: an unknown name, a self-reference without a marker, a type at neither end, or a marker against the only direction that fits |
| CompactConfig.InferredIsUnique | src/cruxible_core/config/compact.py:569-588 | between two different types the inferred direction is the only one that fits |
| CompactConfig.ExpandTraversal | src/cruxible_core/config/compact.py:1084-1094 | the hop loop equals expanding each hop from the landing of the one before, failing at the first failing hop |
| CompactConfig.StepRejectsExactly | src/cruxible_core/config/compact.py:1404-1450 | when a step is rejected for lack of a relationship, an unknown direction word, a list without direction, or an ambiguous landing |
| CompactConfig.HopsChain | src/cruxible_core/config/compact.py:1367-1387 | along an inferred traversal every hop that is not a marked self-reference starts at the type the previous one landed on |
| CompactConfig.CanonicalExactly | src/cruxible_core/config/compact.py:1347-1364 | what is cut off a reference are markers only, and none is left |
| TraversalMeaning.WrittenDirection | src/cruxible_core/config/compact.py:1435-1464 | a written direction is outgoing, incoming or both; the step then follows edges of the named relationships from source to target, backwards, or either way, one edge or as many as max_depth says |
| TraversalMeaning.InferredDirection | src/cruxible_core/config/compact.py:560-588 | an inferred hop follows edges forwards from the source type and backwards from the target type, and on a self-reference where its marker points |
| TraversalMeaning.InferenceSound | src/cruxible_core/config/compact.py:1390-1464 | on every conforming graph an inferred traversal from an entry-typed entity reaches only its possible types; with a required last hop, only its landing type |
| TraversalMeaning.PossibleTypesExactly | src/cruxible_core/query/engine.py:1310-1765 | a traversal can end on a type, on some conforming graph, if and only if it is a possible type: a hop lands only from a possible start, an optional hop also keeps what was possible before |
| TraversalMeaning.TraversalLandsExactly | src/cruxible_core/config/compact.py:1367-1464 | an inferred traversal is certain to land on its landing type if and only if no other type is possible |
| TraversalMeaning.StepReachesExactly | src/cruxible_core/query/engine.py:1728-1765 | what the reachability of a step admits is what the step yields under some outcome of its filters, an optional step staying only where it finds nothing |
| TraversalMeaning.HopLandsExactly | src/cruxible_core/query/engine.py:1728-1765 | one hop is certain to land on its landing type if and only if it is required or lands on the anchor type itself |
| TraversalMeaning.HopAliveExactly | src/cruxible_core/config/compact.py:571-574 | a hop can lead anywhere from the anchor type if and only if its direction fits the anchor |
| TraversalMeaning.AcceptedHopDeadExactly | src/cruxible_core/config/compact.py:560-567 | an accepted hop can lead nowhere if and only if it is a self-reference on another type than the anchor's |
| TraversalMeaning.AcceptedDeadHop | src/cruxible_core/config/compact.py:560-567 | a concrete accepted hop that leads nowhere |
| CompactConfig.AllAdjacentIncludes | src/cruxible_core/config/compact.py:700-733 | the entry loop equals adding each relationship's entries in declaration order |
| CompactConfig.AdjacentUnion | src/cruxible_core/config/compact.py:706-709 | the entries for a merged relationship set are the union of the entries for its parts |
| CompactConfig.EntriesSpelled | src/cruxible_core/config/compact.py:716-732 | without a clash the entries read: a relationship out of or into the anchor under its name, a self-reference as _out and as _in |
| CompactConfig.CollidesExactly | src/cruxible_core/config/compact.py:721-727 | keys collide exactly when a relationship touching the anchor is named after a generated self-reference key |
| CompactConfig.CompleteIffNoCollision | src/cruxible_core/config/compact.py:716-732 | every relationship is followed by exactly one entry in each direction it can leave the anchor, and by none otherwise, if and only if no keys collide |
| CompactConfig.IncidencesFollowedOnce | src/cruxible_core/config/compact.py:700-733 | on every conforming graph each incidence of an edge with an anchor-typed entity is followed by exactly one entry, any other by none |
| CompactConfig.CollisionLosesEdges | src/cruxible_core/config/compact.py:721-732 | a concrete schema whose adjacency is incomplete |
| Versions.TokenizeVersion | kits/kev-triage/providers/versioning.py:118-129 | the parts loop yields the number and word tokens of the text |
| VersionMeaning.TokensExactly | kits/kev-triage/providers/versioning.py:118-129 | the tokens are, in order, what the maximal runs of letters and of digits denote: numbers by value, words in lower case, nothing left out |
| VersionMeaning.GivenExactly | kits/kev-triage/providers/versioning.py:132-140 | a field counts as given exactly when it holds something besides white space |
| Versions.ShowRoundTrip | kits/kev-triage/providers/versioning.py:118-129 | every nonempty list of numbers and lower-case words is the tokens of its printed text |
| Versions.CompareVersions | kits/kev-triage/providers/versioning.py:95-115 | the index loop computes the token-list comparison, and nothing when a side has no tokens |
| VersionMeaning.EarlierExactly | kits/kev-triage/providers/versioning.py:95-115 | a version is smaller exactly when at the first difference its number is smaller, its word earlier, it has a number against a word, or it ends |
| Versions.NumberBelowWord | kits/kev-triage/providers/versioning.py:113 | a printed number sorts below every lower-case word |
| Versions.CompareAntisymmetric | kits/kev-triage/providers/versioning.py:95-115 | the comparison is antisymmetric and zero exactly on equal token lists |
| Versions.CompareTransitive | kits/kev-triage/providers/versioning.py:95-115 | the comparison is transitive, strictly if one step is strict |
| Versions.ComparisonIsTotalOrder | kits/kev-triage/providers/versioning.py:95-115 | comparable exactly when both have tokens, and then a total order on the token lists |
| Versions.VersionInRange | kits/kev-triage/providers/versioning.py:66-92 | what a range says: exact version first, else true when all given bounds hold, false or nothing by the first bound that does not |
| Versions.RangeSaysOne | kits/kev-triage/providers/versioning.py:66-92 | that specification has one answer |
| VersionMeaning.RangeMeaning | kits/kev-triage/providers/versioning.py:66-92 | in range exactly when some bound is given and: not earlier than an including start, later than an excluding one, not later than an including end, earlier than an excluding one |
| VersionMeaning.ExactMeaning | kits/kev-triage/providers/versioning.py:66-69 | an exact version is met exactly by the same tokens |
| Versions.RangeConvex | kits/kev-triage/providers/versioning.py:72-92 | between two versions in range every version is in range |
| Versions.AssessVersionMembership | kits/kev-triage/providers/versioning.py:9-47 | support iff some range holds the version, else contradict if some range was comparable, else decided by the fixed version |
| VersionMeaning.VerdictMeaning | kits/kev-triage/providers/versioning.py:17-47 | support iff in some range, or no range decides and it is earlier than the fixed version; unsure iff nothing is comparable |
| Versions.VerdictIgnoresOrder | kits/kev-triage/providers/versioning.py:17-27 | the verdict is unchanged by every permutation of the ranges |
| Temporal.TextOrderIsTimeOrder | src/cruxible_core/temporal.py:33-54 | for any two datetimes, of any offsets and with or without fraction, the formatted strings compare as the instants |
| Temporal.IsoFormatSpells | src/cruxible_core/temporal.py:50-54 | every field stands at its place in the text, six fraction digits only if there are microseconds, and the offset +00:00 at the end |
| Temporal.OffsetTakenOff | src/cruxible_core/temporal.py:33-37 | an offset of whole hours is taken off the clock |
| Temporal.OffsetAcrossMidnight | src/cruxible_core/temporal.py:33-37 | two concrete datetimes whose UTC clock lies in another month and another year |
| Temporal.FractionOrder | src/cruxible_core/temporal.py:50-54 | a dropped zero fraction still sorts first, although the strings differ in length |
| Temporal.FieldOrderIsTimeOrder | src/cruxible_core/temporal.py:33-54 | calendar fields compare as points in time, leap years included |
| Temporal.UtcUnique | src/cruxible_core/temporal.py:33-37 | the UTC clock of a datetime is determined by it |
| Temporal.ZuluWouldBreakOrder | src/cruxible_core/temporal.py:50-54 | with "Z" in place of "+00:00" the order would break |
| AttestationStore.Store.SaveAttestation | src/cruxible_core/attestation/store.py:105-141 | the row is appended unless its id or its idempotency scope is taken; the log stays consistent |
| AttestationStore.AttestByFields | src/cruxible_core/attestation/store.py:105-141 | exactly one row that carries everything handed in is appended, unless a stored row has the id or the same idempotency key of the same actor on the same claim |
| AttestationStore.Store.SaveDisposition | src/cruxible_core/attestation/store.py:242-263 | the row is appended unless its id is taken or its attestation is missing |
| AttestationStore.DisposeByFields | src/cruxible_core/attestation/store.py:242-263 | exactly one row that carries everything handed in is appended if the attestation exists and the id is free |
| AttestationStore.Store.GetLatestDispositions | src/cruxible_core/attestation/store.py:282-299 | for exactly the answered attestations asked for, the disposition with the greatest (recorded_at, disposition_id) |
| AttestationStore.Store.SummariesForClaims | src/cruxible_core/attestation/store.py:301-390 | a summary for exactly the requested claims with attestations; counters, latest times, actors and the open flag agree with the whole log |
| AttestationStore.SummarizesByFields | src/cruxible_core/attestation/store.py:358-390 | counter by counter: support_count is the number of attestations on the claim and current digest with stance support whose greatest disposition is absent or not invalidated, and so on for all eight; also latest times, actors and the open flag |
| AttestationStore.CountRow | src/cruxible_core/attestation/store.py:351-376 | one pass of the loop body keeps the accumulator in step with the rows seen |
| AttestationStore.Store.ListOpenContradictions | src/cruxible_core/attestation/store.py:392-403 | exactly the contradictions without any disposition, each as often as it is stored, newest observation first |
| AttestationLog.ApplyKeepsConsistent | src/cruxible_core/attestation/store.py:24-72 | every accepted insert keeps keys unique and references valid |
| AttestationLog.HistoryConsistent | src/cruxible_core/attestation/store.py:24-72 | over every history of offered inserts the log keeps unique keys and valid references |
| AttestationLog.LatestIsGreatest | src/cruxible_core/attestation/store.py:291-297 | the window query picks the greatest disposition, and one exists exactly when the attestation was answered |
| AttestationLog.LatestIsLastInTime | src/cruxible_core/attestation/store.py:291-297 | that disposition is the last one in time, not only as text |
| AttestationLog.EachCountedOnce | src/cruxible_core/attestation/store.py:358-366 | the eight counters of a claim add up to its attestations, for every log and digest |
| AttestationLog.AttestRaisesOne | src/cruxible_core/attestation/store.py:358-367 | appending an attestation raises exactly one counter of one claim by one |
| AttestationLog.DisposeMovesOne | src/cruxible_core/attestation/store.py:359-366 | appending a disposition takes its attestation from one counter to one counter and changes no other |
| AttestationLog.AnsweredNeverReopens | src/cruxible_core/attestation/store.py:392-403 | a contradiction once answered is never open again, whatever is appended later |
| AttestationLog.HistoryGrows | src/cruxible_core/attestation/store.py:81-82 | the log is append-only over every history |
| AttestationStore.OpenFlagMatchesList | src/cruxible_core/attestation/store.py:371-376 | open_contradiction is set exactly when the open list holds a record with that claim and digest |
| AttestationStore.SummaryCountsAll | src/cruxible_core/attestation/store.py:378-390 | the eight counters of a returned summary add up to the claim's attestations |
| AttestationStore.LatestObservedInTime | src/cruxible_core/attestation/store.py:453-456 | the latest observation times of a summary are latest in time |
| RowFlow.CollectStepAliases | src/cruxible_core/canonical_views/builders.py:526-544 | every reference of the expression once, in order of first occurrence |
| RowFlow.GatherUpstream | src/cruxible_core/canonical_views/builders.py:453-457 | a transform's calls are exactly those some reference brings, each once |
| RowFlow.Deliver | src/cruxible_core/canonical_views/builders.py:460-465 | a make step's shape goes to every call once for each reference that brings it |
| RowFlow.AnalyseRows | src/cruxible_core/canonical_views/builders.py:428-465 | the pass leaves every provider call with exactly the shapes delivered to it, in step order |
| RowFlow.CarriesIffReached | src/cruxible_core/canonical_views/builders.py:452-459 | with backward references a step carries a call if and only if a chain of row transforms leads to it from the call |
| RowFlow.ReadsExactly | src/cruxible_core/canonical_views/builders.py:432-457 | a step reads another one exactly when its expression, at any depth, refers to the other's alias, or to its id if it has no alias |
| RowFlow.DeliveredPerName | src/cruxible_core/canonical_views/builders.py:460-465 | the shape is handed over as often as there are names in the expression that such chains answer to |
| RowFlow.DeliveredIffChain | src/cruxible_core/canonical_views/builders.py:460-465 | a call is handed a make step's shape if and only if such a chain leads to that step |
| RowFlow.ShapesAreReached | src/cruxible_core/canonical_views/builders.py:428-465 | a call's final shapes are those of the make steps such chains lead to, and no others |

## Left out

- Floating point and `round`: quantities, rates and durations are reals.
- Row coercion, ids, rationale and summary texts of the kit providers, the assembly cascade (the same shape as the component cascade), and how the buffer lookup is built from the payload.
- The order of result rows that the source sorts at the end of `assess_incident_component_cascade` and `assess_incident_product_exposure`: the models return maps keyed by the sort key.
- Requirements.ProductRequirements: takes acyclicity of the followed edges below each root as a precondition, which the source does not check; `BalanceEquation.EmptiesIffAcyclic` shows the loop does not end without it.
- JSON, file permissions, symbolic links, temporary file names and byte-level interleaving in the working set: a file is a list of lines, an append and a rename are atomic, and a torn write appears as a damaged line.
- BomDuality.DualityExactly: the if-and-only-if is about components whose BOM edges are all specific or all wildcard; for a component with both kinds differences of opposite sign can cancel, and `BomDuality.PairAgreesExactly` is exact edge by edge.
- WorkingSetRaces.RacesStayHonest: a capture's steps are read, look and write; a file removed between the existence test and the size test is an abandoned capture. `ws refresh` (`src/cruxible_core/cli/commands/working_set.py` line 752) is a further writer of the file without a lock; its rewrite of records it fetched anew is not a step of the model.
- Entity and edge normalization, the payload walker and `validate_record`: captured records are typed, and an invalid line is an unreadable one.
- How workflow summaries and dependencies are built; names are unique because the view builder goes through a dictionary.
- CompactConfig.AllAdjacentIncludes: returns a map, so the declaration order of the entries is not stated.
- Compact config: YAML, templates, guards, quality checks, select and bound expansion, `traverse_all` steps and pass-through keys of a step.
- TraversalMeaning.InferenceSound: reachability ignores filters, predicates, path limits and deduplication of the engine, all of which only remove results; explicit directions, relationship lists and external relationships are expanded but not claimed sound, as the source does not check them.
- Versions.TokenizeVersion: digits, whitespace and letter case are ASCII only, and field values are already text; rationale strings are not built.
- Temporal.TextOrderIsTimeOrder: the UTC clock of an instant is characterized, not computed; conversions past years 1 and 9999 and parsing are not modelled.
- Attestation store: SQL text, connections, schema migration, stored actor and evidence JSON, paging, `find_idempotent_attestation` and transactions; a violated constraint is a refused insert.
- Row flow: regular expressions (an expression is its references in order), labels of input sources, the overlay filter on providers, and merging the calls of several workflows; calls are told apart by their unique step ids, where the source compares call views by value.
- Rendering, CLI, fetchers and publishing code.
