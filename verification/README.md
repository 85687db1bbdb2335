# topic-pov core, modelled in Dafny

topic-pov is a collapsed Gibbs sampler. It labels each revision of a wiki
corpus with a (topic, point of view) pair. Revisions are linked to the
revision they revert (their parent), and the sampler scores each label
by three things:
- how the revision's user labels their other revisions;
- how often the topic occurs on the revision's page;
- whether the revision's parent and child agree or disagree with it
  (reverts within a topic, across POVs, across topics).

The sampler keeps these counts as sufficient statistics in memory-mapped
regions and updates them through a queue of index updates.

This project models that core as pure functions over immutable data and
proves that the bookkeeping keeps the statistics equal to a recount of
the labels. The model follows one sampling thread.

Modules, each in its own file:

- `Records`: the records of the mapped regions. These are revisions (page, user, parent, child, `disagrees`), assignments with the -1/-1 "unlabelled" sentinel, the region headers with the Beta/Dirichlet priors, and `Result`/`Option`.
- `Arith`: small facts about row-major positions and remainders.
- `Layout`: the byte layout of the regions (src/parse_mmaps.c, src/sample.c). It covers the triangular (pov, antagonist) index, the offsets of each statistic, the region sizes and `full_path`. The lemmas show that the typed statistic handles the other modules use are distinct aligned words of the topic region.
- `Updates`: the statistics a revision feeds (`update_locations`), index updates (`create_index_update`), the three appliers and `pop_queue`.
- `Recount`: the recount of all statistics from the labels, `fill_index_patch`, and the exchange lemma. The lemma says that relabelling one revision changes the recount by exactly the statistics it and its child touch.
- `Sampling`: `sample_random` and `sample_maximize` on the flat T x P array.
- `Probability`: `reference_probability` and `revision_probability`, including the patch that takes the revision being resampled out of the counts.
- `Engine`: one thread's state, `push_queue`, catching up and `reset_thread`, and the commit of a label change. It also defines the consistency invariant: every statistic equals its recount once the queue is applied.
- `Resample`: `resample_revision` and the proof that its sampling array is the collapsed conditional.
- `Relabel`: `resample_assign`, `null_assignment`, `resample_initialize` and `resample_destroy`.
- `Pages`: how `resample_pages_modn` splits pages among threads, walking forwards and backwards.
- `Sweep`: the sweep wrappers, `resample_internal`, and the `initialize` and `check_indexes` programs end to end.
- `Mutate`: the direct mutators `change_indexes`, `change_revision_assignment` and `initialize_user_topics` (src/parse_mmaps.c).
- `Ingest`: the `store_revisions` program. It covers the statistics pass, parent/child linking, and the per-page and per-user revision lists.
- `Reports`: `count_pov_reverts`, the tally and arg-max of `edits_on_max_pov`, `average_pov_antagonism` and `pov_controversy`.
- `Clusters`: `get_clusters` of bin/topic_pov_to_clusters.py.

How the model represents the source:

- **Numbers and errors.**
  - Doubles become `real` and integers are unbounded. The one int32 conversion that matters is written out (`Layout.WrapInt32`).
  - A C `assert` that can fire becomes a `Failure` of the enclosing `Result`.
  - Out-of-range reads in the sampler become `Failure(OutOfRange)`.
  - A push onto a full update queue becomes `Failure(QueueOverflow)`. `push_queue` checks no bound, so in the C this is a write past the end of the queue buffer.
- **Random draws** are parameters: one uniform draw in [0, 1) per revision, or one label per revision for the uniform initializer.
- **Debug build.** The model follows the code with its asserts enabled.
  - `assert(denom -= 1.0 >= 0.0)` in src/probability.c parses as `denom -= (1.0 >= 0.0)`. The model therefore lowers the denominator by one and fails only when it reaches zero.
  - `correction = 1` in the general-reference case is modelled as written. `Probability.GeneralHitsExclusive` shows it never differs from `+= 1` there.
- **`count_pov_reverts` nests both POV counts under "this revision reverts" (src/comparisons.c:163-188).**
  - `num_pov_reverted` therefore counts only revisions that themselves revert. The comment in src/comparisons.h describes it as counting every edit in the set.
  - The model follows the code.
- **The two direct mutators disagree with the sampler in one place.**
  - For a revision with an unlabelled parent, `update_locations` puts the reference in the scratch slot.
  - `change_indexes` compares against the parent's topic -1 and moves a general-reference counter instead.
  - The model keeps both (`Mutate.UnlabelledParentDiverges`).

## Model

| member | source | states |
|---|---|---|
| Layout.AntPov | src/parse_mmaps.c:348-357 | The cell of an ordered pair of distinct POVs lies in [0, P(P-1)) |
| Layout.AntPair | src/parse_mmaps.c:348-357 | Every cell of the antagonism array belongs to an ordered pair of distinct POVs in range whose get_ant_pov cell it is |
| Layout.AntPovRoundTrip | src/parse_mmaps.c:348-357 | Decoding the cell of (pov, ant) gives back (pov, ant): the triangular index is a bijection onto the antagonism array |
| Layout.AntPovInjective | src/parse_mmaps.c:348-357 | Distinct ordered pairs of distinct POVs never share an antagonism cell |
| Layout.WrapInt32 | src/sample.c:315-316 | The int32 conversion lands in the signed 32-bit range and leaves in-range values alone |
| Layout.TopicBaseBounds | src/parse_mmaps.c:310-332 | Topic t's summary and antagonism array lie, word-aligned, between the header and the first page vector |
| Layout.LocOffsetInSummary | src/parse_mmaps.c:310-332 | Every valid statistic is an aligned word inside the summary part of the topic region; only the scratch slot is in the header |
| Layout.LocOffsetInjective | src/parse_mmaps.c:310-357 | Distinct valid statistics never share a word, so a map over statistic handles is a faithful view of the region |
| Layout.PageVectorsFillRegion | src/parse_mmaps.c:438-442 | The page vectors start right after the last topic and tile the rest of topic_summary_mmap_size exactly |
| Layout.PageCountOffsetPlacement | src/parse_mmaps.c:199-206 | Each (topic, page) count lies in the page-vector part of the topic region |
| Layout.PageCountOffsetInjective | src/parse_mmaps.c:310-332 | Counts of distinct (topic, page) pairs never share a word |
| Layout.PrivateCopyStopsAtPages | src/sample.c:312-319 | While the antagonism size fits in int32, a thread's private copy covers the header, summaries and antagonism arrays and stops where the shared page vectors begin |
| Layout.PrivateCopyTruncated | src/sample.c:312-341 | With one topic of 11586 POVs the int32 antagonism size wraps and topic_summary_size is negative while the region it measures is not, so the private copy's malloc cannot succeed |
| Layout.WideCopyStopsAtPages | src/sample.c:312-319 | With the antagonism size held in 64 bits, the private copy ends exactly at the page vectors for every T and P |
| Layout.AssignmentSlots | src/parse_mmaps.c:434-436 | Each revision's assignment lies inside the assignment region, and distinct revisions have distinct slots |
| Layout.UserCellPlacement | src/parse_mmaps.c:444-446 | Each (user, topic, pov) entry lies inside the user region, past its header |
| Layout.UserCellInjective | src/parse_mmaps.c:302-308 | Distinct (user, topic, pov) entries never share a word |
| Layout.FullPath | src/parse_mmaps.c:28-36 | The joined path is the directory, exactly one '/', then the file name |
| Layout.FullPathTrailingSlash | src/parse_mmaps.c:28-36 | A trailing '/' on the directory does not change the joined path |
| Updates.RefLoc | src/sample.c:97-125 | A reference is counted in the POV-antagonism cell, the topic-reference counter or the general-reference counter, following the three cases of reference_probability, by its disagreement flag |
| Updates.UpdateLocations | src/sample.c:79-126 | An unlabelled revision feeds only the scratch slot; a labelled one feeds its topic total and the reference statistic of its parent link, which goes to scratch when the parent is unlabelled and not of the same topic |
| Updates.CreateIndexUpdate | src/sample.c:128-150 | An update subtracts what the revision and its child feed under the old label and adds what they feed under the new one |
| Updates.ApplyIndexUpdateEffect | src/sample.c:152-186 | An update moves each statistic by its additions less its subtractions, and aborts exactly when a subtraction would go below zero |
| Updates.SubAllCounts | src/sample.c:168-178 | Subtracting a list succeeds exactly when no statistic holds fewer than its occurrences, and then lowers each by its occurrences |
| Updates.AddAllCounts | src/sample.c:180-186 | Adding a list raises each statistic by its number of occurrences |
| Updates.ApplyAllAppend | src/sample.c:385-393 | Applying two stretches of the queue one after the other is applying their concatenation |
| Updates.ApplyAllNet | src/sample.c:385-393 | Draining a queue moves every statistic by exactly the queue's net effect |
| Updates.PopQueue | src/sample.c:385-393 | pop_queue applies the queued updates from the read position up to the cursor and advances the read position, or reports the first failing update |
| Updates.PopQueueInSteps | src/sample.c:385-393 | Draining the queue in two steps reaches the same statistics as draining it in one |
| Recount.FillIndexPatch | src/probability.c:203-235 | The patch records the revision's user, page, label and flag, its parent's label, and its child's label and flag, with -1 for a missing parent or child |
| Recount.ContributionFrame | src/sample.c:79-126 | Relabelling r changes only what r and its child feed |
| Recount.RecountExchange | src/sample.c:128-150 | Relabelling r changes the recount by exactly its touched statistics: the old ones leave, the new ones arrive |
| Recount.TouchedWithinRecount | src/sample.c:168-178 | Every non-scratch statistic a relabelling subtracts is present in the recount, so the subtraction cannot go negative |
| Recount.PatchUpdateIsExchange | src/sample.c:128-150 | create_index_update on a fresh patch subtracts exactly r's touched statistics under the current labels and adds those under the new label |
| Recount.ChildlessIsExchange | src/sample.c:706-707 | Forcing the patch's child half to -1 is harmless exactly when the child's statistic does not move |
| Recount.NothingCountedWhenUnassigned | src/check_indexes.c:31-53 | With every revision unlabelled, nothing but the scratch slot is counted |
| Sampling.SampleRandom | src/sample.c:445-462 | The chosen cell is the first whose running sum exceeds the threshold, and -1 exactly when no running sum does |
| Sampling.FoundCellIsPositive | src/sample.c:445-462 | With non-negative weights and a threshold below the total, sample_random finds a cell, and that cell has positive weight |
| Sampling.RandomDrawFindsPositiveCell | src/sample.c:521-532 | A uniform draw in [0, 1) scaling a positive total never leaves the chosen topic and pov at -1 |
| Sampling.FirstCellIsUnique | src/sample.c:445-462 | Only one cell is the first whose running sum exceeds the threshold |
| Sampling.SampleRandomGrid | src/sample.c:445-462 | The nested topic/pov loops return the topic and POV of the flat cell sample_random picks, or -1, -1 when it picks none |
| Sampling.MaxUpToSpec | src/sample.c:464-479 | sample_maximize picks -1 exactly when no weight is positive; otherwise it picks a positive cell no other cell exceeds, the first on ties |
| Sampling.SampleMaximizeSpec | src/sample.c:464-479 | On the whole array sample_maximize picks -1 exactly when no weight is positive; otherwise a positive cell no other cell exceeds, the first on ties |
| Sampling.SampleMaximizeGrid | src/sample.c:464-479 | The nested loops return the topic and POV of the flat cell sample_maximize picks, or -1, -1 when it picks none |
| Probability.CaseOf | src/probability.c:24-132 | The three cases of reference_probability agree with the statistic the sampler counts a reference in: POV antagonism, topic reference, general reference |
| Probability.PatchedDenominator | src/probability.c:33-53 | Each patch condition that holds lowers the denominator by one, and the patch fails exactly when it reaches zero |
| Probability.ReferenceProbability | src/probability.c:11-136 | With an unlabelled endpoint the factor is 1; any probability returned is positive, as the source's closing assert demands |
| Probability.GeneralHitsExclusive | src/probability.c:104-122 | In the general-reference case at most one patch condition holds, so `correction = 1` agrees with `correction += 1` |
| Probability.UnpatchedReference | src/probability.c:11-136 | Without a patch the probability is the plain smoothed ratio of the counters read |
| Probability.ParentLinkHitIff | src/probability.c:33-43 | The first patch condition holds exactly when r's own reference statistic is one of the two counters being scored; the correction applies exactly when it is the scored outcome's |
| Probability.ChildLinkHitIff | src/probability.c:44-53 | The second patch condition holds exactly when r's child's reference statistic is one of the two counters being scored; the correction applies exactly when it is the scored outcome's |
| Probability.PatchHitsAreTouched | src/probability.c:33-122 | The patch conditions count exactly r's touched statistics among the scored counters, and the correction counts those that share the outcome |
| Probability.PatchedReference | src/probability.c:11-136 | Scoring with r's patch against counters that agree with the recount is scoring against the recount with r taken out |
| Probability.RevisionProbability | src/probability.c:138-201 | A returned score is positive, and is returned only when the parent-link factor, the child-link factor (when asked for) and the page factor are all defined |
| Probability.PageFactorPatched | src/probability.c:183-199 | The patched page factor for a candidate topic is the smoothed page share with r itself unlabelled |
| Probability.UserFactorPatched | src/probability.c:165-180 | The patched user factor is the user's smoothed count for the candidate with r itself unlabelled |
| Probability.LinkFactorPatched | src/probability.c:149-160 | Each link factor with r's patch is the recount's smoothed ratio with r taken out, or 1 when an endpoint is unlabelled |
| Probability.RevisionProbabilityPatched | src/probability.c:138-201 | Scoring a candidate with r's patch against an index that agrees with the recount is scoring it against the recount without r |
| Engine.CatchUp | src/sample.c:385-393 | Catching up succeeds exactly when applying the queue from the read position to the cursor does, and then holds the applied statistics with the read position at the cursor |
| Engine.PushQueue | src/sample.c:376-380 | A push stores the update at the cursor and advances it, and fails when the queue's count_revisions slots are used up |
| Engine.Reset | src/sample.c:395-403 | Resetting succeeds exactly when applying the rest of the queue does; it empties the queue, rewinds the read position and keeps labels, pages and users |
| Engine.CatchUpConsistent | src/sample.c:385-393 | Catching up keeps the consistency invariant and leaves the thread drained with the same caught-up statistics |
| Engine.ResetConsistent | src/sample.c:262-265 | Resetting keeps the invariant under any applier, because the queue it leaves is empty |
| Engine.PagesMoved | src/sample.c:561-567 | Relabelling r moves one revision of r's page out of the old topic's page vector and into the new one's |
| Engine.UsersMoved | src/sample.c:553-558 | Relabelling r moves one count of r's user from the old label to the new |
| Engine.PushedCaughtUp | src/sample.c:376-393 | After a push onto a drained thread, catching up applies exactly the pushed update |
| Engine.FullPatchShape | src/sample.c:128-166 | Under apply_index_update, an update built from a fresh patch subtracts exactly r's touched statistics under the current labels and adds those under the new label |
| Engine.Commit | src/sample.c:534-568 | A label change builds the update from the patch, writes the label, queues the update and moves the user and page counts; it fails on a full queue or a user count that would go negative |
| Engine.ExchangeQueued | src/sample.c:534-568 | Queueing an exchange on a drained thread leaves, once caught up, statistics that agree with the recount under the new labels |
| Engine.CommitConsistent | src/sample.c:534-568 | A label change on a drained, consistent thread with room in the queue succeeds and keeps the thread consistent under the new labels |
| Resample.WeightsAreConditionals | src/sample.c:507-519 | On a consistent thread the sampling array is the collapsed conditional: each cell is the user's smoothed count of the label times the link and page terms, all with r taken out |
| Resample.ConditionalsPositive | src/sample.c:520 | With a positive alpha, every label has a positive conditional on a consistent thread |
| Resample.ChooseFindsPositive | src/sample.c:521-532 | A draw in [0, 1), or maximisation over positive weights, finds a cell with positive weight |
| Resample.ResampleRevision | src/sample.c:481-569 | On success r holds an in-range label, every other label is unchanged, the thread is caught up, and at most one update was queued |
| Resample.ResampleRevisionConsistent | src/sample.c:481-569 | On a consistent thread with room in the queue, resampling a labelled revision fires no assert, keeps the thread consistent and gives r the label chosen from the collapsed conditionals |
| Resample.KeepOrCommit | src/sample.c:534-568 | Keeping r's label leaves a drained consistent thread unchanged; changing it commits consistently |
| Relabel.ResampleAssign | src/sample.c:615-671 | On success r carries the reference label and at most one update was queued; a failed catch-up fails the call |
| Relabel.ResampleAssignConsistent | src/sample.c:615-671 | Copying an in-range reference label onto a labelled revision of a consistent thread with room in the queue fires no assert and keeps the thread consistent |
| Relabel.NullAssignment | src/sample.c:673-678 | null_assignment sets r's label to -1/-1 and touches no statistic and no queue entry |
| Relabel.NulledConsistent | src/sample.c:673-678 | The state that create_indexes leaves and resample_null completes is consistent: all labels -1/-1, every statistic zero but scratch, every page vector zero, every user entry alpha |
| Relabel.ResampleInitialize | src/sample.c:680-751 | As written: on success every label is either unchanged or the revision's draw, and the queue only grows |
| Relabel.InitializeOnce | src/sample.c:680-751 | The corrected callback leaves an already labelled revision alone and otherwise is resample_initialize |
| Relabel.IntroduceConsistent | src/sample.c:700-741 | Initializing an unlabelled revision whose parent is labelled or absent keeps a consistent thread consistent under the add-only applier |
| Relabel.InitializeConsistent | src/sample.c:680-751 | On an unlabelled revision with parent-closed labels and a queue slot per unlabelled revision, resample_initialize fires no assert and keeps the thread consistent; labels only change to their draws, and r gets its draw unless its parent is still unlabelled |
| Relabel.ResampleDestroy | src/sample.c:753-802 | resample_destroy succeeds only on an in-range label; it then unlabels r and queues exactly one update |
| Relabel.RetireConsistent | src/sample.c:770-801 | Taking out a labelled revision whose child is unlabelled or absent keeps a drained consistent thread consistent, with r unlabelled |
| Relabel.DestroyConsistent | src/sample.c:753-802 | resample_destroy keeps a consistent thread consistent under the subtract-only applier when r's child is already unlabelled |
| Relabel.UnlabelledIsZero | src/check_indexes.c:31-53 | On a consistent drained thread with every label -1/-1, every statistic but scratch is zero, every page vector entry is zero and every user entry is alpha |
| Pages.ForwardPagesMembers | src/sample.c:819-841 | Thread s of m visits exactly the pages below n that are congruent to s modulo m |
| Pages.BackwardStartBounds | src/sample.c:828-833 | The backward walk starts on a page congruent to s within m below n |
| Pages.BackwardIsReverse | src/sample.c:819-841 | The backward walk visits exactly the forward walk's pages in reverse order |
| Pages.ThreadsPartitionPages | src/sample.c:819-841 | Every page below n is on the walk of thread page mod m and on no other thread's walk |
| Pages.ThreadOrderReversed | src/sample.c:804-817 | A backward sweep visits exactly the revisions a forward sweep of the same thread visits, in reverse order |
| Pages.SingleThreadOrder | src/sample.c:804-841 | With one thread a forward sweep visits every page's list in page order |
| Pages.DistinctBound | src/sample.c:332-333 | A sequence of distinct revision ids below n has at most n entries, so one queue slot per revision suffices for a sweep |
| Sweep.Wire | src/sample.c:188-234 | Resample, reverse, maximize and restore sweeps use apply_index_update; resample_uniform (with resample_initialize as written, or with the corrected initializer) and resample_null add only; zero subtracts only and walks backwards |
| Sweep.SweepThread | src/sample.c:236-267 | A successful sweep leaves the queue empty, the read position rewound and one label per revision |
| Sweep.SweepThreadRun | src/sample.c:236-267 | A sweep is the callback run over the thread walk followed by reset_thread with the installed applier |
| Sweep.ForgetRun | src/sample.c:673-678 | A null sweep succeeds exactly when every id is a revision, sets the visited labels to -1/-1 and touches no statistic |
| Sweep.ReviseRunConsistent | src/sample.c:188-234 | A resample sweep's run on a consistent, fully labelled thread with a queue slot per visit fires no assert and keeps the thread consistent and fully labelled |
| Sweep.RestoreRunConsistent | src/sample.c:213-220 | A restore sweep's run gives every visited revision its reference label and keeps the thread consistent |
| Sweep.UniformRunConsistent | src/sample.c:193-197 | A uniform sweep, with the corrected initializer, over an order visiting parents first labels every visited revision with its draw and keeps the thread consistent |
| Sweep.ZeroRunConsistent | src/sample.c:203-207 | A zero sweep over distinct labelled revisions, children first, unlabels them and keeps the thread consistent |
| Sweep.ZeroOrder | src/sample.c:203-207 | With one thread, a backward walk over a well-formed page index visits every revision once, each child before its parent |
| Sweep.ReversedParentsFirst | src/sample.c:203-207 | Walking a parents-first order of every revision backwards visits every child before its parent |
| Sweep.ResampleSweepConsistent | src/sample.c:236-267 | A resample, reverse or maximize sweep on a consistent, fully labelled thread fires no assert and leaves it consistent, fully labelled and drained |
| Sweep.NullSweepClears | src/initialize.c:38-46 | resample_null over every revision, on freshly created indexes, unlabels every revision and leaves the thread consistent |
| Sweep.InitializeRunsAgree | src/sample.c:680-751 | When every child has a larger id than its parent, resample_initialize as written never recurses, so a run over distinct unlabelled revisions is exactly the corrected initializer's run and leaves unvisited labels alone |
| Sweep.UniformSweepLabels | src/sample.c:193-197 | resample_uniform as written, from no labels over a corpus whose children have larger ids, gives every revision its draw and leaves the thread ready for resampling |
| Sweep.UniformOnceSweepLabels | src/sample.c:193-197 | resample_uniform with the corrected initializer does the same over every well-formed page index |
| Sweep.ZeroSweepClears | src/check_indexes.c:31-53 | resample_zero from a consistent, fully labelled, drained thread fires no assert and returns every statistic to its empty value |
| Sweep.InitializeIndexes | src/initialize.c:42-46 | The initialize program as written (null sweep, then resample_uniform), over a corpus whose children have larger ids, labels every revision with its draw and leaves the sampler consistent and drained |
| Sweep.InitializeOnceIndexes | src/initialize.c:42-46 | With the corrected initializer the initialize program does the same over every well-formed page index |
| Sweep.CheckIndexes | src/check_indexes.c:31-53 | The check_indexes program (resample, then zero) fires no assert and ends with every label -1/-1, every statistic but scratch zero, every page entry zero and every user entry alpha |
| Sweep.InitializeTwice | src/sample.c:743-750 | As written, with a parent listed before a child of smaller id, the child is initialized through the recursion and then again on its own visit, so a queue sized for one push per revision overflows |
| Sweep.InitializeTwiceCounts | src/sample.c:743-750 | With room in the queue the same run succeeds but counts the child's page twice |
| Mutate.ChangeIndexes | src/parse_mmaps.c:359-411 | A successful change_indexes leaves the labels alone, and it succeeds only when x's parent has a smaller id |
| Mutate.ChangeIndexesAllowed | src/parse_mmaps.c:359-411 | change_indexes succeeds exactly when x is labelled in range, its parent comes first, and no checked entry goes negative |
| Mutate.ChangeIndexesMoves | src/parse_mmaps.c:359-411 | A successful change_indexes moves x's contribution by d and leaves every other entry unchanged |
| Mutate.ChangeIndexesUndo | src/parse_mmaps.c:359-411 | change_indexes with -d after change_indexes with d restores every entry |
| Mutate.UndoSucceeds | src/parse_mmaps.c:359-411 | The undo never fails when the touched entries were non-negative to begin with |
| Mutate.ContributionHits | src/parse_mmaps.c:378-410 | With x and its parent labelled, change_indexes moves exactly the statistics update_locations feeds for x |
| Mutate.UnlabelledParentDiverges | src/parse_mmaps.c:378-410 | With an unlabelled parent, update_locations uses the scratch slot while change_indexes moves a general-reference counter |
| Mutate.ChangeRevisionAssignment | src/parse_mmaps.c:413-432 | A successful change_revision_assignment changes r's label to a and no other label |
| Mutate.RelabelSteps | src/parse_mmaps.c:413-432 | The indexes between the four change_indexes calls of a successful relabelling |
| Mutate.ChangeAssignmentMoves | src/parse_mmaps.c:413-432 | A successful relabelling moves exactly what r and its child feed, from the old labels to the new, and r's page and user counts |
| Mutate.TouchedHits | src/parse_mmaps.c:413-432 | Once every revision is labelled in range, the statistics the sampler's exchange touches for r are exactly those change_revision_assignment moves through r and its child |
| Mutate.CountersExchange | src/parse_mmaps.c:413-432 | Taking out what r and its child move under the old labels and putting back those under the new turns one recount into the other |
| Mutate.ChangeAssignmentSucceeds | src/parse_mmaps.c:413-432 | On an index agreeing with its labels, relabelling to an in-range label succeeds when r's parent has a smaller id and its child a larger one |
| Mutate.ChangeAssignmentAgrees | src/parse_mmaps.c:413-432 | Relabelling keeps the index in agreement with the labels: every statistic, page count and user entry matches the recount afterwards |
| Mutate.RelabelBackSucceeds | src/parse_mmaps.c:413-432 | A relabelling can always be followed by relabelling back |
| Mutate.ChangeAssignmentUndo | src/parse_mmaps.c:413-432 | Relabelling to a and back restores every entry |
| Mutate.ChildBeforeParentFails | src/parse_mmaps.c:413-432 | When r's child has the smaller id, relabelling r fails at the first change_indexes call, on its parent check |
| Mutate.InitializeUserTopics | src/parse_mmaps.c:286-300 | Thread s of m resets to alpha every entry of the users on its stride and leaves every other user alone |
| Mutate.ResetUser | src/parse_mmaps.c:292-298 | Every (topic, pov) entry of user u becomes alpha, and nothing else changes |
| Mutate.ResetTopic | src/parse_mmaps.c:295-297 | Every pov entry of user u's topic t becomes alpha, and nothing else changes |
| Mutate.AllThreadsReset | src/parse_mmaps.c:286-300 | Running all m threads resets every in-range entry of every user to alpha |
| Mutate.ResetUsersAgree | src/parse_mmaps.c:286-300 | Once every entry is alpha, the user distributions agree with the labelling where nothing is labelled yet |
| Ingest.GetFileStats | src/store_revisions.c:26-52 | The record count and the largest page, user and revision ids of the input |
| Ingest.LinkAllSucceeds | src/store_revisions.c:87-109 | The first pass succeeds exactly when every record's revision and parent ids are inside the region |
| Ingest.LinkAllSymmetric | src/store_revisions.c:92-107 | With distinct ids, after the first pass a revision's child names it as parent, and a kept parent link names it as child |
| Ingest.LinkAllStores | src/store_revisions.c:92-107 | With distinct ids, every record ends up stored at its own id |
| Ingest.LinkAllPages | src/store_revisions.c:92-107 | With unread revisions starting on a page u, every link the first pass keeps joins two revisions of one page unless its child is on page u |
| Ingest.LinkAllSamePage | src/store_revisions.c:92-107 | With unread revisions starting on page -1, every link the first pass keeps joins two revisions of the same page |
| Ingest.LinkRevisions | src/store_revisions.c:87-109 | The first pass over in-range records, from the zeroed region, gives one slot per id; with distinct ids every record is stored at its id, links are symmetric, and a kept link joins revisions of one page unless its child is on page 0 |
| Ingest.LinkRevisionsSamePage | src/store_revisions.c:87-109 | The corrected first pass, with unread revisions on page -1, has the same slots, stored records and symmetric links, and every kept link joins revisions of one page |
| Ingest.CrossPageLink | src/store_revisions.c:92-106 | As written, a page-0 record naming a parent whose record comes later on page 5 keeps the link across pages |
| Ingest.CrossPageLinkDropped | src/store_revisions.c:92-106 | On the same records, starting unread revisions on page -1 drops the link |
| Ingest.CountLists | src/store_revisions.c:111-112 | Each list header's count becomes its key's number of records |
| Ingest.PlaceLists | src/store_revisions.c:116-141 | Each key's count is its number of records; a key with records gets a block inside the list area, apart from every other key's block, holding its records' ids in input order; a key without records keeps offset 0 |
| Ingest.BuildLists | src/store_revisions.c:111-141 | Both passes over one kind of list leave one header per key and every list holding its records' ids in input order, in disjoint blocks |
| Ingest.Ingest | src/store_revisions.c:145-169 | The statistics are exact; the run fails exactly when a record has a negative page, user or id or a parent beyond the largest id; otherwise the revision region has one slot per id up to the largest, and with distinct ids every record is stored, links are symmetric and join revisions of one page unless the child is on page 0, and each page and user list holds its revisions in input order |
| Reports.CountPovReverts | src/comparisons.c:154-190 | The number of reverts in the list, and among them those that revert, or are reverted by, a revision of a different POV of the same topic |
| Reports.TalliesBounded | src/comparisons.c:154-190 | Neither POV count exceeds the number of reverts, which does not exceed the length of the list |
| Reports.TallyLabels | src/comparisons.c:76-85 | Each label's slot counts the listed revisions with that label |
| Reports.FirstMax | src/comparisons.c:86-102 | The slot picked is -1 exactly when no count is positive; otherwise it holds a count no other slot exceeds, the first such in row-major order |
| Reports.EditsOnMaxPov | src/comparisons.c:67-103 | The most edited (topic, POV) of the list and its number of edits: no label has more |
| Reports.AntagonismRange | src/comparisons.c:24-34 | On a non-negative cell the antagonism is a fraction in [0, 1]: 0 exactly when no revert is counted and 1 exactly when reverts are counted and non-reverts are not |
| Reports.ControversySumBounds | src/comparisons.c:36-52 | The accumulated antagonism lies between 0 and two per other POV, and is 0 exactly when no cell of either direction holds a revert |
| Reports.ControversyRange | src/comparisons.c:36-52 | With at least two POVs and non-negative cells, pov_controversy is a fraction in [0, 1], and 0 exactly when no other POV reverts or is reverted by this one |
| Clusters.Positions | bin/topic_pov_to_clusters.py:8-10 | The input positions carrying a key: exactly those positions, in increasing order |
| Clusters.GroupMembers | bin/topic_pov_to_clusters.py:8-10 | The nested dictionary holds a list exactly for the input's (topic, POV) pairs, and each list is that pair's revisions in input order |
| Clusters.MembersNonEmpty | bin/topic_pov_to_clusters.py:8-10 | A pair occurs in the input exactly when its cluster is non-empty, and every revision lies in its own pair's cluster |
| Clusters.GatherAll | bin/topic_pov_to_clusters.py:6-13 | Clusters of distinct pairs covering the input hold every revision exactly as often as the input does |
| Clusters.YieldTopic | bin/topic_pov_to_clusters.py:12-13 | One list per POV of topic t, each that POV's list in the dictionary |
| Clusters.YieldAll | bin/topic_pov_to_clusters.py:11-13 | Every key of the dictionary is yielded once, with its list, one topic's keys together |
| Clusters.GetClusters | bin/topic_pov_to_clusters.py:6-13 | One list per (topic, POV) of the input: the revisions carrying that key, in input order, never empty, keys of a topic together; together the lists are a permutation of the input's revisions |

## Left out

- Threads, locks and the private topic copies of threads other than 0. The model is one thread on the live topic region. Interleavings with other threads' queue entries are not modelled beyond the queue the thread drains.
- Memory mapping and file I/O: `open_mmaps`, `create_mmap`, `read_file`/`write_file` and the open modes. The regions are Dafny maps and sequences, zero where the files are created zeroed.
- The log-likelihood, `lngamma` and `transition_probability`: floating-point logarithms.
- The GSL random number generator. Draws are parameters.
- The driver programs' argument handling and printing (`main` of sample, initialize, check_indexes, dump programs).
- Integer widths, except the int32 antagonism size in `topic_summary_size`. Every other count is assumed to fit its C type.
- Parsing the input line with `fscanf`, and parsing with `int()` in the clusters script, including its `ValueError`. The model takes already parsed records.
- The entropy that `edits_on_max_pov` returns: it is floating-point logarithms.
- `user_antagonism`, `all_pov_controversy` and `init_pov_workspace`/`free_pov_workspace`: report helpers around the modelled reports.
- Python dictionary order. The clusters script yields topics and POVs in dictionary order. The model picks any order, so its contract holds for every order.
- The other scripts under bin/ (synthetic data, comparing clusterings). They are outside the core.
- Ids missing from the input (gaps). Their records stay zero-initialised, as created, and the engine theorems assume a corpus whose ids are 0..n-1.
- Sweep.UniformSweepLabels: proved only when every child has a larger id than its parent. Otherwise resample_initialize as written can initialize a child twice and overflow the queue (`Sweep.InitializeTwice`); `Sweep.UniformOnceSweepLabels` proves the corrected sweep for every well-formed page index.
- Sweep.InitializeIndexes: proved only when every child has a larger id than its parent, for the same reason; `Sweep.InitializeOnceIndexes` covers every well-formed page index with the corrected initializer.
- Ingest.Ingest: does not promise that every kept link stays within one page, because the source starts unread revisions on page 0 and a page-0 record can link to a parent read later on another page (`Ingest.CrossPageLink`); `Ingest.LinkRevisionsSamePage` proves the corrected pass.
- Probability.PageFactor: a zero denominator is a failure. In the C a zero denominator with a positive numerator gives +inf, which passes `assert(ret > 0.0)`; infinities are not modelled.
- Mutate.ChangeAssignmentAgrees: proved only when r's parent has a smaller id and its child a larger one. `change_indexes` asserts that ordering, and `Mutate.ChildBeforeParentFails` shows it can fail otherwise.

## Findings

| source | as written | input that shows it | evidently intended | confidence | as-written member | corrected member |
|---|---|---|---|---|---|---|
| src/sample.c:743-750 | resample_initialize recurses into the child of the revision it initializes; the sweep later visits that child again, and it is initialized a second time | a page whose list holds revision 1 (parent) before revision 0 (its child), both unlabelled | each revision is initialized once | medium, not executed | Sweep.InitializeTwice | Relabel.InitializeOnce |
| src/sample.c:315-318 | the antagonism array size is stored in an int32_t | one topic of 11586 POVs: 16 * 11586 * 11585 exceeds 2^31, wraps, and topic_summary_size comes out negative, so the malloc for a second thread's copy fails and the memcpy faults | the size is held in an int64 like the other sizes | low, not executed | Layout.PrivateCopyTruncated | Layout.WideCopyStopsAtPages |
| src/store_revisions.c:92-106 | a parent whose record has not been read yet looks like a revision on page 0, since the region is created zeroed | a page-0 record naming as parent a revision whose record comes later, on page 5 | only parents on the same page are linked | medium, not executed | Ingest.CrossPageLink | Ingest.LinkRevisionsSamePage |
