# Compliance wizard engine: verified model

A regulation-ingestion pipeline reads legal documents, extracts rules from them, links regulations
into a graph and indexes them by HS code; a query engine then answers which regulations apply to a
product. This project models the deterministic middle of that system in Dafny and proves what it
promises. External calls (language models, EUR-Lex, document parsers, the clock, the database
engine) are parameters, arbitrary oracles, or left out.

Check it with `dafny verify dfyconfig.toml`.

## What is modelled

| files | part of the system |
|---|---|
| Paths, RelationTable, RelationWalk, RelationshipResolver | the typed relationship graph: guarded writes with automatic twins, the two recursive path queries, resolution of one regulation, runs |
| Conditions, MappingAgent, WizardMatcher | raw clauses compiled to conditions, then evaluated with some attributes missing |
| Rounding, HsMapper, HsCoverage, WizardQuery, Sorting | the HS code index, its reverse query, what a product code finds, and the ranked answer |
| Segments, Decimal, Selection, Chunking, Merging | packing a document into requests, choosing what a prompt shows, merging the answers |
| AgentGraph | the agentic planner with an arbitrary critic and turn cap |
| WorkerProtocol | the job queue under any number of interleaving workers |
| ValidationAgent, Persistence, Segmenter | review flags, replace-on-reingest, splitting a document at its headings |
| Options, Lists, Review | shared: optional values and results, concatenation, review statuses |

Tables with a unique constraint are maps. Objects and tables that the source updates in place are
classes: the methods of `RelationStore`, `HsIndex` and `Store` are proved equal to functions on
values, on which lemmas about runs are stated; those of `Worker` are proved to be steps and runs of
the queue protocol, with the other workers as an arbitrary lawful world in between. A transaction that raises leaves the
tables as they were. Confidences and bounds are reals. A product attribute is represented by the
three things the matcher reads of it: its truth value, its text, and its number if it has one.
String folding, white space, line breaks, heading detection and identifier normalisation are
function parameters, so every result holds for any choice of them. Operator and value-type words
come from a table parameter; `MappingAgent.StandardTables` is the one the source uses.

## Where the code differs from what it says

Each of these is stated with a witness and, where a caller could check it, an exact condition.

- The cycle guard looks only at `amends` and `supersedes`; writing an inverse type inserts an
  unchecked edge of the guarded type (`RelationTable.UnguardedInverseMakesCycle`,
  `RelationTable.StepAcyclicExactly`, `RelationTable.RunAcyclicExactly`), and one call is enough
  (`RelationshipResolver.OneCallMakesCycle`, `RelationshipResolver.HistoryAcyclicExactly`). The EUR-Lex enrichment
  (agentic/nodes.py:17,19) does produce inverse types.
- Two families of clauses saying "not in" (or "none of", "excludes") lose the "not": one over two or
  more numbers compiles to the interval itself, one over a feature compiles to having the feature
  (`WizardMatcher.ReversedRange`, `WizardMatcher.ReversedFeature`,
  `WizardMatcher.MeaningPreservedExactly`).
- The packer assumes 80 characters per prompt block, but a title alone may have 120, so a chunk
  within the budget can lose segments (`Chunking.LongTitleLosesChunk`, `Chunking.OmitsNothingExactly`).
- The planner's human route is unreachable, so asking for a human means accepting
  (`AgentGraph.HumanNeverChosen`, `AgentGraph.HumanMeansAccept`), and a turn cap of three with a
  rejected first extraction ends without writing (`AgentGraph.PersistsExactly`,
  `AgentGraph.AlwaysPersistsExactly`).
- A fuzzy HS row can be auto-approved when its key was first written as an exact match
  (`HsMapper.FuzzyAutoApproved`, `HsMapper.FuzzyEscapesExactly`).

## Model

| member | source | states |
|---|---|---|
| RelationTable.FirstWriterWins | engine/relationship_resolver.py:117-130 | a write that goes through adds exactly its edge and the twin, and an edge already there keeps its payload |
| RelationTable.RunKeepsTwins | engine/relationship_resolver.py:111-130 | over every run of writes each edge has its inverse with the same reference, confidence and source, and the table's check constraints hold |
| RelationTable.TwinArcs | db/enums.py:83-90 | in a twin-closed table the edges of the inverse type are the type's own edges reversed |
| RelationTable.TwinsWrittenOut | db/enums.py:83-90 | in a table that keeps its twins: amends with amended_by, supersedes with superseded_by, references and related with themselves; no self edge and every confidence within [0, 1] |
| RelationTable.StepAcyclicExactly | engine/relationship_resolver.py:111-120 | a write keeps the four chain graphs acyclic exactly when it is not an unguarded inverse write along an existing path |
| RelationTable.RunAcyclicExactly | engine/relationship_resolver.py:111-120 | a run stays acyclic throughout exactly when none of its steps is such a write |
| RelationTable.GuardedRunAcyclic | engine/relationship_resolver.py:111-120 | from the empty table, runs without inverse types keep amends, supersedes and their transposes acyclic |
| RelationTable.UnguardedInverseMakesCycle | engine/relationship_resolver.py:113-120 | "0 amends 1" then "0 amended_by 1" lets 0 reach itself by amends |
| RelationTable.AbsorbsMonotone | engine/relationship_resolver.py:111-130 | a write that changes nothing changes nothing in any larger table: skipped stays skipped, made stays made |
| Paths.AddArc | engine/relationship_resolver.py:112-115 | one new arc closes a cycle in an acyclic graph exactly when its head already reaches its tail |
| Paths.RemoveLoops | engine/relationship_resolver.py:142-145 | a path between different nodes has a duplicate-free version with the same ends, no longer |
| RelationWalk.FrontierExact | engine/relationship_resolver.py:137-146 | round k of the recursive query holds exactly the duplicate-free walks of k + 1 edges, once per type of the last edge |
| RelationWalk.RoundBound | engine/relationship_resolver.py:142-145 | no round outlives the number of nodes, so the queries terminate |
| RelationWalk.PathExists | engine/relationship_resolver.py:133-150 | the query answers true exactly when any path, repeats allowed, leads there; from a node to itself exactly when it has a self edge |
| RelationWalk.GetAmendmentChain | engine/relationship_resolver.py:154-181 | returns exactly the distinct (node, type, depth) rows of duplicate-free walks, in order of depth |
| RelationWalk.DirectRows | engine/relationship_resolver.py:154-181 | the rows of depth one are the regulation's own amends, amended_by, supersedes and superseded_by edges |
| RelationWalk.ChainIsComponent | engine/relationship_resolver.py:155-160 | on an inverse-closed graph the chain of x, with x, is what edges of the four types join to x in either direction |
| RelationWalk.ChainsAgree | engine/relationship_resolver.py:155-160 | membership is symmetric and all members list the same component |
| RelationWalk.LeastDepthIsDistance | engine/relationship_resolver.py:165-176 | a node's depth is least among its rows exactly when it is the length of a shortest path over edges of the four types |
| RelationshipResolver.ResolveIdempotent | engine/relationship_resolver.py:65-130 | repeating a resolution changes neither regulations nor edges, whatever the edges were |
| RelationshipResolver.ResolveRecords | engine/relationship_resolver.py:76-93 | after a successful resolution every item is a self reference, or has its edge, or its edge would close a loop |
| RelationshipResolver.ItemsGrow | engine/relationship_resolver.py:76-93 | a successful resolution keeps every regulation, edge and payload |
| RelationshipResolver.ItemsInventNothing | engine/relationship_resolver.py:76-93 | every edge a resolution adds is some item's own edge or its twin, with that item's payload; every regulation it adds is named by an item |
| RelationshipResolver.MentionsRecorded | engine/relationship_resolver.py:76-83 | after a successful call every citation of another regulation is recorded as a reference, both ways |
| RelationshipResolver.RelationsRecorded | engine/relationship_resolver.py:85-93 | and every API relation under its own type, unless it is amends or supersedes and the reverse path exists |
| RelationshipResolver.NewEdgesExplained | engine/relationship_resolver.py:76-93 | a new edge is a reference carrying a citation's text at confidence 0.5, or a relation's edge or its inverse carrying "api" and the relation's confidence; nothing else |
| RelationshipResolver.FirstMentionWins | engine/relationship_resolver.py:76-93 | a reference not there before carries the first citation of its target, whatever later citations and relations say |
| RelationshipResolver.UnitConfidencesSuffice | engine/relationship_resolver.py:65-93 | a call whose relations have confidences within [0, 1] goes through |
| RelationshipResolver.BadConfidenceRejected | engine/relationship_resolver.py:85-93 | a relation outside [0, 1] that would be written is rejected and the call leaves no trace |
| RelationshipResolver.HistoryKeepsTwins | engine/relationship_resolver.py:65-130 | over all runs of ingestion and resolution: twins with equal payload, endpoints that exist, unique source ids |
| RelationshipResolver.HistoryAcyclicExactly | engine/relationship_resolver.py:65-130 | a history ends with all four chain graphs acyclic exactly when no call in it, when it was made, wrote an unguarded inverse along an existing path |
| RelationshipResolver.HistoryAcyclic | engine/relationship_resolver.py:85-93 | so runs whose API relations have no inverse type keep all four chain graphs acyclic |
| RelationshipResolver.OneCallMakesCycle | engine/relationship_resolver.py:85-93 | one call saying that a regulation amends a new one and is amended by it makes it amend itself in a circle |
| RelationshipResolver.HistoryChainIsComponent | engine/relationship_resolver.py:154-181 | in every reachable graph an amendment chain is a connected component |
| RelationshipResolver.RelationStore.GetOrCreateStub | engine/relationship_resolver.py:96-108 | finds the regulation with that source id or adds one |
| RelationshipResolver.RelationStore.InsertEdge | engine/relationship_resolver.py:123-130 | inserts unless present; rejects what the check constraints reject |
| RelationshipResolver.RelationStore.WriteEdge | engine/relationship_resolver.py:111-120 | the in-place write equals the guarded two-edge write on values |
| RelationshipResolver.RelationStore.ResolveRelationships | engine/relationship_resolver.py:65-93 | the in-place resolution equals the value-level one, rolled back as a whole if any write is rejected |
| RelationshipResolver.RelationStore.RelationshipNote | engine/wizard_matcher.py:164-175 | the note is present exactly when some regulation supersedes this one, and names one that does |
| MappingAgent.StructureKeeps | agents/mapping_agent.py:206-272 | structuring raises only on an empty sentence, structures exactly the structurable clauses, keeps sentence, reference, confidence, unit and name, makes an exclusion exactly of a kind containing "excl", and yields no empty parameter name |
| MappingAgent.FormFollowsType | agents/mapping_agent.py:214-272 | the vocabulary's type, else the hint's, else the value's own look decides alone between list, truth value and range, whatever else the value contains |
| MappingAgent.HintedListStaysList | agents/mapping_agent.py:217-249 | with the standard words, a clause hinted "enum" keeps its list although its items contain numbers |
| MappingAgent.StandardSymbols | agents/mapping_agent.py:23 | the eight canonical operators stand for themselves |
| MappingAgent.StandardBounds | agents/mapping_agent.py:27-36 | "more than", "at least", "less than" and "at most" stand for their comparisons |
| MappingAgent.StandardLists | agents/mapping_agent.py:27-36 | "between", "one of" and "equal to" stand for theirs |
| MappingAgent.StandardNotIn | agents/mapping_agent.py:27-36 | "none of", "excludes" and "not one of" stand for "not in" |
| MappingAgent.StandardTypes | agents/mapping_agent.py:40-46 | the plainest hints name their type |
| MappingAgent.StandardAnswers | agents/mapping_agent.py:291-298 | the words for yes and for no, and no others |
| WizardMatcher.SpanIsInterval | agents/mapping_agent.py:257-258 | lying between two listed numbers is lying between their minimum and maximum |
| WizardMatcher.CompileThenEvaluate | engine/wizard_matcher.py:97-137 | for a supplied comparable value, evaluating the compiled clause gives what the raw clause and its operator say of it, and the opposite for the two reversed families |
| WizardMatcher.MeaningPreservedExactly | agents/mapping_agent.py:206-272 | a clause whose operator can be said of its value keeps its meaning for every comparable value exactly when it is not a "not in" over two or more numbers or over a feature |
| WizardMatcher.ReversedRange | agents/mapping_agent.py:257-258 | with the standard words, "none of 50, 1000" accepts 100 and rejects 10 |
| WizardMatcher.ReversedFeature | agents/mapping_agent.py:231-235 | with the standard words, a feature clause "excludes present" says the product lacks the feature, and is met exactly by products that have it |
| WizardMatcher.CompiledIsEvaluable | engine/wizard_matcher.py:99-136 | a compiled condition evaluates to UNSTRUCTURED exactly when it is unstructurable or names no parameter; never through the boundless exit |
| WizardMatcher.CompiledIsMissing | engine/wizard_matcher.py:101-116 | a compiled condition is MISSING exactly when its attribute is absent, or is no number where numbers are compared |
| WizardMatcher.ImplicitBounds | engine/wizard_matcher.py:118-136 | without a comparison operator, or with both bounds, a range is closed and a bound it lacks does not bind |
| WizardMatcher.StatusMeaning | engine/wizard_matcher.py:52-70 | which conditions give each of the four statuses, both directions |
| WizardMatcher.MissingMeans | engine/wizard_matcher.py:59 | the attributes listed as missing are those that a condition names and misses |
| WizardMatcher.MoreKnowledge | engine/wizard_matcher.py:52-70 | more attributes never revise EXCLUDED, UNCERTAIN can only become EXCLUDED, and APPLIES stays when no condition has an empty parameter name |
| WizardMatcher.AppliesStableExactly | engine/wizard_matcher.py:52-70 | APPLIES is stable under every extension exactly when the empty name is already answered or no condition with an empty name can be settled against the regulation |
| WizardMatcher.OutcomeIsFixed | engine/wizard_matcher.py:97-137 | a TRUE, FALSE or UNSTRUCTURED outcome is the same under every extension of the attributes |
| WizardMatcher.EmptyNameRevises | engine/wizard_matcher.py:59-70 | an instance of the other case: with an empty parameter name, which no stored condition has, APPLIES becomes EXCLUDED |
| WizardMatcher.SupplyingMissing | engine/wizard_matcher.py:59-68 | numbers for all listed missing attributes rule out POSSIBLY_APPLIES |
| WizardMatcher.OrderIrrelevant | engine/wizard_matcher.py:52-70 | status and missing attributes do not depend on the order or repetition of conditions |
| WizardMatcher.DriversExplain | engine/wizard_matcher.py:61-70 | a condition drives the verdict exactly when it excludes, cannot be read, or is a met inclusion, as the status has it |
| WizardMatcher.ExclusionsFirst | engine/wizard_matcher.py:63-64 | exclusions that fired are listed before inclusions that failed |
| WizardMatcher.DriversAreOwn | engine/wizard_matcher.py:61-70 | drivers are the regulation's own conditions, and an applying one is met, or an exclusion that did not fire, or nameless |
| WizardMatcher.BrokenClauseExcludes | engine/wizard_matcher.py:52-70 | a clause the product breaks, from its raw form, excludes the regulation whatever else is known |
| Rounding.Round3Monotone | engine/hs_mapper.py:130 | rounding to three decimals keeps order |
| Rounding.Round3Idempotent | engine/hs_mapper.py:130 | rounding twice is rounding once |
| Rounding.Round3Near | engine/wizard_matcher.py:81 | the result is within half a thousandth |
| Rounding.TiesToEven | engine/hs_mapper.py:130 | halfway between two thousandths the even one is taken |
| HsMapper.UpsertsClosed | engine/hs_mapper.py:85-99 | after a list of upserts a key has the values of its last writer and the review status it had, or that of its first writer |
| HsMapper.LiteralIdempotent | engine/hs_mapper.py:29-46 | mapping one list of codes twice is mapping it once |
| HsMapper.OneLiteralCode | engine/hs_mapper.py:33-46 | what one code leaves behind: exact at 1.0, its known parent at 0.7, or itself at 0.3, only the first approved |
| HsMapper.FuzzyEscapesExactly | engine/hs_mapper.py:29-46 | a fuzzy row is not pending exactly when its key was already reviewed or was first written as exact |
| HsMapper.FuzzyAutoApproved | engine/hs_mapper.py:37-44 | a known six-digit code followed by an unknown extension ends fuzzy and auto-approved |
| HsMapper.AddsOnly | engine/hs_mapper.py:49-82 | inference alters no row and adds only pending inferred rows with at least six digits |
| HsMapper.InferenceClosed | engine/hs_mapper.py:49-82 | a key has a row after inference exactly when it had one or was guessed with six digits or more, and the first guess gives the confidence |
| HsMapper.MappersKeepReviews | engine/hs_mapper.py:29-99 | over any sequence of the two mappers rows never disappear or change review status |
| HsMapper.ApprovedAreKnown | engine/hs_mapper.py:29-99 | over any sequence of the two mappers an auto-approved or exact code is in the nomenclature; if auto-approved but fuzzy it is a six-digit parent; inferred rows stay pending |
| HsMapper.HsIndex.MapRegulationHsCodes | engine/hs_mapper.py:29-46 | the in-place mapping equals the list of upserts |
| HsMapper.HsIndex.MapInferredHsCodes | engine/hs_mapper.py:49-82 | returns exactly the growth of the table; a rejected row undoes the call |
| HsMapper.MatchesExactly | engine/hs_mapper.py:138-148 | codes match exactly when equal or sharing six leading digits, symmetrically, at a score no higher than stored |
| HsMapper.ScoreMeans | engine/hs_mapper.py:138-148 | equal codes score what is stored, a code within the other one 85 percent of it, codes that part after six digits 70 percent; no stored value counts as zero |
| HsMapper.RoundedMaximum | engine/hs_mapper.py:126-130 | comparing raw scores with a rounded best still ends at the rounded maximum |
| HsMapper.FindRegulationsByHs | engine/hs_mapper.py:102-135 | one candidate per regulation with a matching row, at the rounded maximum of its scores, from a row that attains it |
| HsMapper.ConfidenceIgnoresOrder | engine/hs_mapper.py:121-135 | the reported confidence does not depend on row order |
| HsCoverage.FallbackKeepsRelated | engine/hs_mapper.py:37-46 | storing a code under its six-digit parent changes no answer to which product codes it is related to |
| HsCoverage.NeverMisses | engine/hs_mapper.py:102-148 | after any sequence of the two mappers a product code finds a regulation exactly when some accepted mapping gave it an equal code or one sharing six digits |
| WizardQuery.TemperedBound | engine/wizard_matcher.py:76-81 | a result's confidence is in [0, 1] and never above its HS confidence |
| WizardQuery.TemperedUniform | engine/wizard_matcher.py:76-81 | conditions that all have confidence q scale the match confidence by q, and conditions without a confidence do not count |
| WizardQuery.MeanAddsUp | engine/wizard_matcher.py:77-80 | each known confidence enters the mean once and unknown ones not at all, wherever they stand |
| WizardQuery.AnswerReports | engine/wizard_matcher.py:52-94 | an answer states title, summary, jurisdiction, verdict, missing attributes, match and references, and the match confidence times the mean of the known condition confidences |
| Sorting.SortStable | engine/wizard_matcher.py:48 | answers that rank alike keep their order |
| WizardQuery.Query | engine/wizard_matcher.py:31-94 | exactly one answer for each known regulation with a matching row, reporting what its conditions say of the product's attributes, noted exactly when superseded; applying ones first, then possible, uncertain and excluded ones, surer ones first |
| Chunking.ChunkSegments | agentic/specialists.py:28-44 | chunks concatenate to the input, each fits or is a singleton, and no such packing has fewer; the empty document gives one empty chunk |
| Chunking.TightIsFewest | agentic/specialists.py:35-42 | full chunks are as few as possible, even against a packing that starts earlier |
| Chunking.WeightAddsUp | agentic/specialists.py:36 | the packer counts 80 characters and the text for each segment |
| Chunking.SelectBlocks | agents/extract_agent.py:138-154 | the selection loop shows exactly the picked blocks in document order and counts the omitted |
| Chunking.SelectionPartitions | agents/extract_agent.py:138-154 | shown and omitted partition the segments, the blocks shown stay within budget and in order, and nothing omitted fits what is left |
| Chunking.OutrankedNeverDisplace | agents/extract_agent.py:124-140 | annexes survive any other text, articles anything but those two, chapters and sections the rest, and within a kind earlier segments survive later ones |
| Chunking.AnnexBeforePreamble | agents/extract_agent.py:124-140 | with room for its own block only, "Annex I" is shown although an untitled preamble comes with it |
| Chunking.BlockRefersBack | agents/extract_agent.py:142-146 | the number a block opens with is its segment's index, so the index can be read back from the prompt |
| Chunking.BlockText | agents/extract_agent.py:142-146 | a block gives its segment's index, pages, title or "(untitled)", and text |
| Chunking.OmitsNothingExactly | agents/extract_agent.py:138-149 | a prompt omits nothing exactly when all its blocks, headers included, fit together |
| Chunking.ChunkShownWhole | agentic/specialists.py:35-42 | a chunk within the budget is shown whole if headers stay within the assumed 80 |
| Chunking.LongTitleLosesChunk | agents/extract_agent.py:142-146 | a title over 80 characters lets a fitting chunk be shown not at all |
| Merging.MergeGroups | agentic/specialists.py:47-91 | merging two merges equals merging everything, on all fields |
| Merging.BestIsFirstMaximum | agentic/specialists.py:53-59 | a scalar is kept exactly when one is offered, and it is the first most confident one |
| Merging.FirstTextIsFirst | agentic/specialists.py:52 | the summary kept is the first one that is not blank |
| Merging.NothingLost | agentic/specialists.py:60-90 | no nonblank array value or mention, and no condition or route, is lost |
| Merging.NothingInvented | agentic/specialists.py:51-91 | the summary, every scalar, array value, mention, condition and route of the merge comes from some chunk |
| Merging.KeysAppearOnce | agentic/specialists.py:60-90 | no array value appears twice whatever its case, no mention twice, and no route twice by category and modules |
| Merging.UniqueIsFirsts | agentic/specialists.py:60-69 | of each key the first item is kept, in order |
| Merging.CollectUnique | agentic/specialists.py:60-69 | the seen-set loop computes the first occurrences of keys |
| Merging.MergeExtractions | agentic/specialists.py:47-91 | the loops compute the merge |
| AgentGraph.RunKeepsInvariant | agentic/graph.py:30-94 | every reachable state has consistent outputs, exact turn and visit counts, and respects what the cap allows |
| AgentGraph.RunBounds | agentic/graph.py:30-94 | at most min(7, cap + 2) planner turns, 16 visits, two extractions and one write; no missing output; what is written was validated from the latest extraction |
| AgentGraph.RunEnds | agentic/graph.py:128-130 | every run is over after 16 visits, within the recursion limit |
| AgentGraph.PersistsExactly | agentic/graph.py:55-59 | a finished run has written once exactly when the cap is at least two and it is not cap three with a critic whose first answer is to extract again |
| AgentGraph.AlwaysPersistsExactly | agentic/graph.py:55-59 | every critic's run writes its document exactly when the cap is at least two and not three |
| AgentGraph.FirstVerdict | agentic/graph.py:30-61 | with a cap of two or more the first review is the sixth visit and its verdict is kept |
| AgentGraph.CapThreeLosesDocument | agentic/graph.py:55-59 | with cap three a critic that rejects the first extraction leaves the document unwritten |
| AgentGraph.HumanNeverChosen | agentic/graph.py:40-41 | the human route is never taken |
| AgentGraph.HumanMeansAccept | agentic/graph.py:34-47 | a run in which the critic asks for a human goes exactly as if it had accepted |
| AgentGraph.WrittenExactly | agentic/graph.py:30-61 | a written document was reviewed; its official metadata was fetched exactly when it has a CELEX id, except at cap two and, when the critic's first answer is to extract again, cap four |
| WorkerProtocol.StepKeepsInvariant | worker.py:37-103 | every step of any worker keeps ownership exclusive and status, attempts, errors and ownership in agreement |
| WorkerProtocol.StatusMovesForward | worker.py:37-103 | jobs are never lost and a status only moves queued, processing, then done or failed |
| WorkerProtocol.ClaimedAtMostOnce | worker.py:37-56 | no job is claimed twice, and its attempts count its claims |
| WorkerProtocol.QueueConsistent | worker.py:37-103 | in every reachable state: one holder per job, processing means owned or stranded and never both, one error row exactly when failed, one attempt exactly when out of the queue |
| WorkerProtocol.ClaimPossible | worker.py:39-52 | an idle worker can claim whenever some queued job is unlocked |
| WorkerProtocol.OthersLeave | worker.py:37-56 | whatever other workers do, a worker keeps what it holds and the job it holds is left alone |
| WorkerProtocol.Worker.ClaimOne | worker.py:37-56 | with others acting before the lock and before the commit: claims the oldest queued job nobody has locked, or finds none |
| WorkerProtocol.Worker.RecordOutcome | worker.py:59-82 | writes the outcome of the job this worker owns and, on failure, one error row; a lost write leaves the job processing and stranded |
| WorkerProtocol.Worker.Process | worker.py:85-103 | the job is still this worker's when its pipeline comes back, and ends done, failed, or processing if the write was lost |
| WorkerProtocol.Worker.RunBatch | worker.py:106-115 | however others interleave, a batch is a run of the protocol in which this worker claims as many jobs as it counts, stops early only when none is to be had, and every outcome it wrote stands; alone it takes the oldest waiting jobs |
| ValidationAgent.FormatChecks | agents/validation_agent.py:71-83 | exactly the format flags, in order |
| ValidationAgent.ConsistencyChecks | agents/validation_agent.py:86-115 | raises exactly the flags for a third-party assessment without a body, a CE marking without a harmonized standard, a foreign marking, and a conformity path without a production type |
| ValidationAgent.ConditionChecks | agents/validation_agent.py:118-127 | exactly the condition flags, in order |
| ValidationAgent.ConfidenceChecks | agents/validation_agent.py:129-139 | exactly the confidence flags, in order |
| ValidationAgent.Validate | agents/validation_agent.py:34-55 | a flag is raised exactly when the record warrants it, reason by reason; the record is pending exactly when some field is suspect, some condition needs review, or a companion field is missing |
| ValidationAgent.PendingExactly | agents/validation_agent.py:34-139 | there is a flag exactly when some field is suspect, some condition needs review, or a companion field is missing |
| ValidationAgent.SuspectMeans | agents/validation_agent.py:71-139 | a field is suspect exactly when below the threshold, an HS code that is not 6, 8 or 10 digits, an unresolved body, or a CE, UKCA or EAC mark outside EU, UK or EAEU |
| ValidationAgent.ReviewMeans | agents/validation_agent.py:118-139 | a condition needs review exactly when unstructured, below the threshold, or about an unknown parameter |
| ValidationAgent.CompanionsMean | agents/validation_agent.py:86-115 | the three cross-field faults, in terms of the fields present and absent |
| ValidationAgent.FieldFlaggedExactly | agents/validation_agent.py:71-139 | a present field is flagged exactly when some field of its name is itself suspect |
| ValidationAgent.ConditionFlaggedExactly | agents/validation_agent.py:118-139 | a condition is flagged exactly when it is unstructured, below the threshold, or about an unknown parameter |
| ValidationAgent.TaxonomyIsControlled | agents/mapping_agent.py:49-68 | the taxonomy's field names cannot be mistaken for condition targets |
| Persistence.TargetRoundTrip | pipeline.py:35 | the index written into a flag's target is read back |
| Persistence.FieldRowsAgree | pipeline.py:105-155 | a field row is pending exactly when a flag names it |
| Persistence.ConditionRowsAgree | pipeline.py:106-176 | a condition row is pending exactly when a flag names its index; auto-approved exactly when structured, confident, and about a known parameter or none |
| Persistence.PersistReplaces | pipeline.py:133-176 | re-ingest leaves precisely the latest rows and touches no other regulation |
| Persistence.PersistIdempotent | pipeline.py:103-178 | ingesting the same document again changes nothing |
| Persistence.LatestIngestStands | pipeline.py:103-178 | after any run of ingestions and citations a source id is known exactly when a document had it or a citation named it; with a document its rows are those of the last one and each refreshed column holds the last nonempty value ever offered; with citations alone it is a bare stub |
| Persistence.IdStands | pipeline.py:108-120 | a known source id keeps its regulation: ingesting a cited one takes its stub over |
| Persistence.Store.PersistDocument | pipeline.py:103-178 | the in-place persistence equals the value-level one |
| Segmenter.SegmentText | agents/segment_text.py:24-47 | the line loop computes the grouping at headings |
| Segmenter.GroupConcat | agents/segment_text.py:35-44 | grouping loses and reorders nothing |
| Segmenter.SegmentationRoundTrip | agents/segment_text.py:24-47 | segment texts join back to the cleaned lines, and segmenting them again gives the same segments |
| Segmenter.SegmentShape | agents/segment_text.py:35-47 | indices are 0..n-1, only the first may be untitled, a titled segment starts at a heading and holds no other |
| Segmenter.NothingPrintedIsLost | agents/segment_text.py:24-47 | from raw text to segments no printed character is lost, added or moved |
| Segmenter.SegmentBlocks | agents/read_agent.py:92-136 | the block loop computes the grouping at headings with page ranges |
| Segmenter.BlockSegmentShape | agents/read_agent.py:92-136 | a segment's title, pages and printed text are those of its blocks, and only its first block is a heading |
| Segmenter.NothingPrintedIsLostInBlocks | agents/read_agent.py:92-136 | over all segments no printed character of the blocks is lost, added or moved |
| Segmenter.FirstLineMeans | agents/read_agent.py:107 | the heading test reads a block up to its first break, at most 120 characters |
| Segmenter.PageRangesOrdered | agents/read_agent.py:92-136 | for blocks in page order, page ranges are well formed and ordered across segments |

## Left out

- Concurrent edge writes: each write, its path check included, is one atomic step; nothing is claimed about interleavings inside it.
- Reviewer endpoints: they overwrite statuses and single edges by design, so run-level results exclude them.
- Language model calls, EUR-Lex access, PDF and Word parsing, audit logs: the extractor and critic are arbitrary, documents start as text, lines or blocks.
- Identifier normalisation, number extraction, list splitting and case folding: parameters or already done in the input.
- Floating-point rounding error, NaN and infinities: numbers are reals and `Round3` rounds exact values, ties to even.
- Range clauses of two or more numbers with a comparison or "contains": they have no single plain reading, so only structurability is stated for them.
- The sorted display of missing attributes and of matched conditions in a query result: presentation only.
- Word or feature clauses whose operator cannot be said of a word ("contains", comparisons, unlisted words): they have no plain reading, so only structurability is stated for them.
- The critic's feedback text, the segments in the graph state and the extraction's contents: AgentGraph tracks only which outputs exist and which extraction they come from.
- Bounding boxes of block segments: carried along unchanged.
- Field mapping other than applicability clauses, and the edge list built by enrichment: table lookups.
- Unicode digits: `HsMapper.Digits` and `ValidationAgent.ValidHs` know the ten ASCII digits.
- HsMapper.ConfidenceIgnoresOrder: the matched code, type and status reported with the confidence may depend on row order when several rows tie, so only the confidence is claimed.
- WizardMatcher.MoreKnowledge: for APPLIES it assumes that no condition has an empty parameter name; compiled conditions have none and `AppliesStableExactly` gives the exact condition.
- Worker crashes outside a transaction are modelled as a step that strands the job; recovery of stranded jobs is not part of the source.
