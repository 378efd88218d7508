# Verification of the tinytop history

A Dafny model of the parts of tinytop whose rules are easy to get wrong: how samples become minutes, five minutes and
hours and are pruned without being lost; how expired hours move to an archive database and on to monthly files; how a
sample's processes are ranked and shown; how the running collector follows the stored settings; and a few smaller rules of
the daemon and the dashboard. `dafny verify dfyconfig.toml` checks the whole project.

## What is modelled

**The retention ladder** (`Summary`, `TimeGrid`, `TierFold`, `FoldLaws`, `Ladder*`, `HistoryStore`). The store is a raw table,
three bucket tables, two optional watermarks and two flags. `LadderModel` gives every operation as a function on that
state; `HistoryStore.Store` performs the same operations in place and is proved equal to the functions. The
specification keeps a log of the samples stored, as a map from times to summaries (count, first and newest time,
sum, least and greatest value of each metric, root extremes). A tier is *exact* over a tile if its bucket stands for the
logged samples of that tile. The invariant says where each tier is exact: above its horizon and below its watermark, and
for minutes also beyond it. Steps of a run are inserts and maintenance ticks; in a tick any single step may fail, also
between the upsert and the watermark of a promotion.

**The archive** (`ArchiveModel`, `ArchiveMoves`, `ArchiveMarks`). Two tables that commit separately, with a crash and a concurrent writer
anywhere between the commits.

**Cold export** (`Decimal`, `Csv`, `CsvGrammar`, `ColdFile`, `ColdCheck`, `Months`, `ColdMonths`, `ColdExport`, `ColdRuns`,
`ColdPass`, `ColdFinal`, `ColdGaps`, `ColdExporter`). Files, manifest and watermark change by single durable writes, and a pass
may stop after any of them.

**Ranking** (`Sequences`, `ProcessRank`, `ProcessLists`, `RankingLaws`, `RankingFigures`). The ranking on indices and slots, and the dashboard's
split.

**Smaller rules**: the collector's two locks as steps of concurrent tasks (`CollectorProtocol`), chunked reading of `/proc`
status files (`SwapReader`, `SwapFigures`), paging and thinning of history (`HistoryPaging`), keys of metric families
(`MetricFamilies`), retention under disk pressure (`RetentionGrowth`), header escaping (`PercentEscape`, `OtlpHeaders`), disk
pressure markers (`DiskPressure`).

Where a law speaks of a rule through the function that models it, a second module or lemma says what that function means in the
figures of the source: `LadderTimely`, `LadderFigures`, `ArchiveMarks`, `CsvGrammar`, `ColdCheck`, `ColdPass`,
`RankingFigures`, `SwapFigures`, `OtlpHeaders`.

Averages and metric values are reals. 64-bit integers saturate where the source saturates them. Clocks, failures, the
order of concurrent steps, the printing of floats, lower-casing, white-space trimming and UTF-8 validity are parameters.

## Where the code falls short of its promises

Each of these is in the model as the code has it, with the exact condition proved in `LadderLimits`, `LadderTick`,
`LadderRecord`, `LadderCounts`, `LadderRetry`, `FoldLaws`, `ArchiveMarks`, `ColdFinal` or `ColdGaps`, and most with a run from
the empty store in `LadderExamples` or `ColdGaps`. A step of a run is *clean* if it is none of the first five. `LadderRecord.RunConservesExactly`
shows that, inside the range of times spoken of, these and a time stored again are all the ways in which a completed step makes
an unexpired bucket differ from the last values stored.

- `insert_snapshot` (agent/crates/tinytop-store/src/lib.rs:2040-2081) counts the raw rows of a minute after its own insert, so
  `raw_is_partial` (agent/crates/tinytop-store/src/ladder.rs:169-171) misses a minute of which exactly one raw row has been
  pruned: the rebuild then drops that sample instead of merging the new one (`NewRowConservesExactly`,
  `LateSampleReplacesTheOnlyOne`).
- A replay that changes a value in a minute with pruned rows overwrites the raw row and leaves the minute and everything above
  it with the old value (agent/crates/tinytop-store/src/lib.rs:2058-2066; `ChangedMetricExactly`, `PartialMinuteKeepsOldValue`).
- A replay that changes a value reaches a folded ancestor only while that ancestor is within the keep days of its source;
  afterwards `refold_one` returns early (agent/crates/tinytop-store/src/maintenance.rs:473-478) and the ancestor keeps the old
  value (`CorrectionConservesExactly`, `HourCorrectionExactly`, `CorrectionInsertExactly`, `ChangedValueStaysOld`).
- With L3 off and the write of that flag failing (agent/crates/tinytop-store/src/maintenance.rs:118-135), such a replay looks for
  the hour in the empty L3 and never reaches it (`HourFromMinutesExactly`, `UnknownFlagKeepsOldValue`).
- When reading the L3 watermark for the L4 pass fails, or the very first L3 bucket was written but its watermark was not, the
  pass runs without its gate (agent/crates/tinytop-store/src/maintenance.rs:166-176). It then folds an hour of which L3 holds
  only a part, and moves its watermark past it, exactly if such an hour is over, has L3 rows and is reached within the budget
  (`TickKeeps`, `UngatedHourUndercounts`, `HalfWrittenHourUndercounts`).
- An insert that fails between its statements and is tried again finds its own raw row and takes itself for a replay: a row that
  was to be merged is never counted, and any other reaches only the ancestors that are re-folded from their sources
  (`RetryExactly`).
- A late row whose ancestor has already left the main table starts that ancestor again from one sample
  (`LateRowStartsAgain`).
- A time stored again after its raw row was pruned counts as a new row; the source says so itself
  (agent/crates/tinytop-store/src/lib.rs:2062-2066). Counts are numbers of distinct samples exactly if that does not happen
  (`DistinctCountExactly`, `AddedAgainCountsTwice`).
- The average of the root file system is weighted by whole buckets, so it drifts when a bucket mixes samples with and without
  a root value (`MixedRootAverageDrifts`).
- Nothing checks the L4 watermark before a month is exported (agent/crates/tinytop-store/src/archive.rs:497-528): an hour still
  waiting for promotion, fifty a tick, arrives in the exported month later and leaves its file stale (`FoldedMonthIsFinal`,
  `WaitingHourArrives`, `FileIsRightExactly`).
- The archive watermark is set when as many rows were deleted as were copied, not when none is left: an hour that the writer adds
  inside the interval between the copy and the delete stays in the main database behind the watermark
  (agent/crates/tinytop-store/src/archive.rs:1299-1312), exactly if more rows stood in the interval than the batch had selected
  (`ArchiveMarks.DeleteStep`, `LateHourBehindMark`).
- A late sample for a month already exported leaves that month's file stale, and for a month at or below the watermark without
  any archive row it makes a gap (`NoGapsExactly`, `LateMonthIsLeftOut`).

## Model

| member | source | states |
|---|---|---|
| TimeGrid.BucketStartSound | agent/crates/tinytop-store/src/ladder.rs:173-178 | the bucket start is the aligned time at or before the timestamp, exactly when the saturating product does not saturate |
| TimeGrid.BucketAround | agent/crates/tinytop-store/src/ladder.rs:173-178 | within the clock range the bucket is the aligned interval around the timestamp and its end does not saturate |
| TimeGrid.BucketUnique | agent/crates/tinytop-store/src/ladder.rs:173-178 | no other aligned interval holds the timestamp |
| TimeGrid.BucketsNest | agent/crates/tinytop-store/src/ladder.rs:173-178 | the coarse bucket of a finer bucket start is the coarse bucket of the sample, and holds the whole finer bucket |
| TierFold.FoldKeepsSamples | agent/crates/tinytop-store/src/ladder.rs:77-148 | a fold of positive buckets exists and stands for exactly the samples behind its parts: count, first and newest time, sums, least and greatest values, root extremes |
| TierFold.RawToBucketKeepsSample | agent/crates/tinytop-store/src/ladder.rs:150-167 | a raw row as a bucket stands for exactly that sample |
| TierFold.SummaryDetermines | agent/crates/tinytop-store/src/ladder.rs:48-65 | two buckets of equal summaries have equal counts, times, averages and extremes |
| FoldLaws.HierarchicalFold | agent/crates/tinytop-store/src/ladder.rs:77-148 | folding the folds of any partition into nonempty parts equals folding everything once, the root average apart |
| FoldLaws.HierarchicalFoldWithRoot | agent/crates/tinytop-store/src/ladder.rs:99-124 | with parts whose buckets all have or all lack a root value, the two folds are equal in every field |
| FoldLaws.MixedRootAverageDrifts | agent/crates/tinytop-store/src/ladder.rs:99-117 | three buckets for which the root average of the two-step fold differs from the one-step fold |
| LadderTables.RebuildKeepsSamples | agent/crates/tinytop-store/src/lib.rs:3814-3927 | the SQL rebuild of a minute stands for exactly the raw rows of the minute |
| LadderTables.RebuildIsFold | agent/crates/tinytop-store/src/lib.rs:3814-3927 | the SQL rebuild of a minute and the fold of its raw rows are the same bucket, root average included |
| LadderTables.FoldRange | agent/crates/tinytop-store/src/maintenance.rs:375-381 | folding a range of a tier gives a bucket exactly when a sample is recorded there, and that bucket stands for all of them |
| LadderPromotion.PassIsExact | agent/crates/tinytop-store/src/maintenance.rs:350-398 | a promotion pass ends, writes at most fifty targets in increasing order, each the fold of exactly the source buckets in its range, touches no other row, passes over no source bucket whose target holds a sample, and leaves the watermark at the end of the last target |
| LadderPromotion.PromoteFromKeeps | agent/crates/tinytop-store/src/maintenance.rs:350-398 | a pass cut by a failure between upsert and watermark, or before either, keeps the target exact below its watermark, never moves the watermark back and never passes its gate |
| LadderTick.PromoteL3Keeps | agent/crates/tinytop-store/src/maintenance.rs:143-158 | the L3 part of a tick keeps the invariant of the run, wherever it is cut |
| LadderTick.PromoteL4Keeps | agent/crates/tinytop-store/src/maintenance.rs:160-194 | the L4 part of a tick keeps the invariant if and only if it does not fold an hour that ends after an L3 watermark it does not know; otherwise the L4 watermark ends up past it |
| LadderTick.PruneTiersKeeps | agent/crates/tinytop-store/src/maintenance.rs:196-341 | deleting under the cutoffs keeps every unexpired bucket exact and leaves a minute with pruned raw rows provably partial |
| LadderTick.TickKeeps | agent/crates/tinytop-store/src/maintenance.rs:97-348 | a whole tick, with any of its steps failing, the writes of the enabled flags included, keeps the invariant if and only if its L4 pass does not run past the L3 watermark: a test on the L3 rows, the clock, the budget and the failures |
| LadderTick.UngatedPass | agent/crates/tinytop-store/src/maintenance.rs:166-194 | a pass that does not know its gate does what the gated pass may do, unless an hour ending after the gate has L3 rows, is over, and is reached within budget and before a failure; then its watermark passes the gate |
| LadderTick.KnownGateHolds | agent/crates/tinytop-store/src/maintenance.rs:166-176 | no tick runs past the L3 watermark that reads it and has one to read, or has no five minutes stored or half-stored |
| LadderTick.NothingPrunedUnfolded | agent/crates/tinytop-store/src/maintenance.rs:137-140 | in every state, with any failure, a row a tick deletes had been folded into its enabled coarser tier by a watermark stored before the tick began; no watermark, no deletion |
| LadderTick.DeletedIsStillCounted | agent/crates/tinytop-store/src/maintenance.rs:137-140 | when a tick deletes a row, the unexpired coarser bucket around it stands for all samples recorded there, that row included |
| LadderProgress.TickDeletesExactly | agent/crates/tinytop-store/src/maintenance.rs:196-341 | a tick deletes a stored row exactly when it is past its own keep days and, for a bucket, its tier is enabled and the next enabled coarser tier had folded it before the tick; hours never while their days are unlimited, and raw rows by their own days |
| LadderProgress.PassIsTimely | agent/crates/tinytop-store/src/maintenance.rs:372-380 | every target a pass writes ended at least its grace before now, and not after the watermark it waits for; `LadderTimely.TickIsTimely` has the grace of a tick in milliseconds |
| LadderProgress.PassStopsOnlyAtAWall | agent/crates/tinytop-store/src/maintenance.rs:364-398 | a pass with budget left has served every source bucket up to the end of the source or to a target not yet due |
| LadderTimely.DueIsRipe | agent/crates/tinytop-store/src/ladder.rs:180-189 | a bucket is due in a pass exactly when it ended at least 3,000 ms, or the saturating double of the poll interval if that is more, before now; for L4 also by the L3 watermark where that is read |
| LadderTimely.TickIsTimely | agent/crates/tinytop-store/src/maintenance.rs:97-348 | whatever a tick adds or changes in L3 or L4 had ended at least that long before, in an enabled tier |
| LadderTimely.RipeFiveMinutesAreWritten | agent/crates/tinytop-store/src/maintenance.rs:350-398 | and nothing waits longer: in a tick whose L3 pass does not fail and is within its fifty promotions, every minute from the watermark on whose five minutes ended that long ago has them written, unless the same tick deletes them as expired |
| LadderTimely.RipeHoursAreWritten | agent/crates/tinytop-store/src/maintenance.rs:350-398 | the same for the hours of L4, folded from L3 or L2, that the L3 watermark has reached |
| LadderTimely.TickWritesFew | agent/crates/tinytop-store/src/maintenance.rs:350-398 | a tick promotes at most fifty buckets into each of L3 and L4, and adds or changes no more rows than that |
| LadderInsert.KeptCase | agent/crates/tinytop-store/src/lib.rs:2062-2066 | a replay into a partial minute leaves the minute alone |
| LadderInsert.MergedCase | agent/crates/tinytop-store/src/lib.rs:2067-2077 | a new row of a partial minute is merged into the bucket |
| LadderInsert.RebuiltCase | agent/crates/tinytop-store/src/lib.rs:2078-2081 | otherwise the bucket becomes the aggregate of all raw rows of the minute |
| LadderInsert.UpdatedKeeps | agent/crates/tinytop-store/src/lib.rs:2040-2081 | whichever of the three ways the insert takes, the minute then stands for every sample recorded in it, a replayed value included, as long as a partial minute that keeps its row had that total already |
| LadderInsert.LeavesRangeExactly | agent/crates/tinytop-store/src/lib.rs:2058-2066 | replacing what is recorded at a time leaves the total of a range exactly when only the root figure differs and stays within the extremes of the others |
| LadderInsert.RefoldOutcome | agent/crates/tinytop-store/src/maintenance.rs:459-492 | a re-fold writes the total of the source when the source is whole, else the target joined with a new row, else nothing; no other row changes |
| LadderInsert.RefoldExact | agent/crates/tinytop-store/src/maintenance.rs:459-492 | after the re-fold the target tile stands for every sample now recorded in it |
| LadderRuns.RefoldL3Keeps | agent/crates/tinytop-store/src/maintenance.rs:420-434 | the L3 re-fold of a late write restores exactness of L3 below its watermark |
| LadderRuns.RefoldL4Keeps | agent/crates/tinytop-store/src/maintenance.rs:436-456 | the L4 re-fold, from L3 or L2, restores exactness of L4 below its watermark |
| LadderRuns.InsertKeeps | agent/crates/tinytop-store/src/lib.rs:1543-2092 | storing a sample that hides no pruned row, and whose correction is taken into its minute and reaches every unexpired ancestor that has folded it, keeps the invariant with that sample recorded |
| LadderConservation.RunKeeps | agent/crates/tinytop-store/src/maintenance.rs:97-492 | every run from the empty store whose steps are clean ends in the invariant |
| LadderConservation.Conservation | agent/crates/tinytop-store/src/maintenance.rs:350-492 | at the end of every run of clean steps a settled L3 or L4 tile has a bucket exactly when a sample was recorded in its range, and the bucket reports their count, times, averages and extremes |
| LadderConservation.MinuteConservation | agent/crates/tinytop-store/src/lib.rs:2040-2081 | the same for every minute that has not expired |
| LadderRecord.RecordIsLastStored | agent/crates/tinytop-store/src/lib.rs:1675-1735 | at every moment of a run the record of a range is the last value stored at each of its times, a function of the steps alone, if and only if no step adds a row there at a time stored before |
| LadderRecord.StoredConservation | agent/crates/tinytop-store/src/maintenance.rs:350-492 | after a run of clean steps that adds no time of its range again, a settled bucket is there exactly when a sample was stored in its range, and reports the last values stored there |
| LadderRecord.StoredMinuteConservation | agent/crates/tinytop-store/src/lib.rs:2040-2081 | the same for a minute that has not expired |
| LadderFigures.BucketInFigures | agent/crates/tinytop-store/src/maintenance.rs:350-492 | after such a run a settled five-minute or hourly bucket is there exactly when samples were stored in its range; it counts their distinct times, has the earliest and latest, the least and greatest value of each metric and of the root figure among the last samples of those times, and an average that times the count is the sum of their values |
| LadderFigures.MinuteInFigures | agent/crates/tinytop-store/src/lib.rs:2040-2081 | the same for a minute that has not expired |
| LadderRecord.RunConservesExactly | agent/crates/tinytop-store/src/maintenance.rs:97-492 | at every moment of a run the store stands for the last values stored if and only if every step is clean and none adds a time again |
| LadderRecord.RecordCounts | agent/crates/tinytop-store/src/lib.rs:2040-2081 | a row whose time has no raw row adds one recorded sample in its range; a replay adds none, and takes some away exactly when several were recorded at its time |
| LadderRecord.RecordedAreNewRows | agent/crates/tinytop-store/src/lib.rs:2058-2081 | in every run a range holds as many recorded samples as rows were added in it if and only if no replay replaced several samples of one time |
| LadderPlain.PlainInsert | agent/crates/tinytop-store/src/lib.rs:1543-2092 | storing a sample without its values does to keys, counts, times and watermarks what storing the sample does |
| LadderPlain.PlainMaintain | agent/crates/tinytop-store/src/maintenance.rs:97-348 | so does a tick, whatever fails in it: control flow never depends on a measured value |
| LadderCounts.PlainRunKeeps | agent/crates/tinytop-store/src/maintenance.rs:97-492 | along every run that loses no row, whatever values change, the ladder without values satisfies the whole invariant for the rows added |
| LadderCounts.CountConservation | agent/crates/tinytop-store/src/maintenance.rs:350-492 | whatever values were stored or replaced, a settled bucket is there exactly when a row was added in its range, counts the rows added there, and has the earliest and latest of their times |
| LadderCounts.MinuteCountConservation | agent/crates/tinytop-store/src/lib.rs:2040-2081 | the same for every minute that has not expired |
| LadderCounts.DistinctCountExactly | agent/crates/tinytop-store/src/lib.rs:2062-2066 | the count of a settled bucket is the number of distinct samples ever stored in its range if and only if no time there was added again after its raw row was pruned |
| LadderCounts.RowsAndTimes | agent/crates/tinytop-store/src/lib.rs:2058-2066 | the rows added in a range are never fewer than the distinct times stored there, and as many exactly when none was added again |
| LadderCounts.MarksStayNested | agent/crates/tinytop-store/src/maintenance.rs:378-380 | with both tiers on, the L4 watermark is at most the L3 watermark at the end of every run that loses no row |
| LadderLimits.NewRowConservesExactly | agent/crates/tinytop-store/src/ladder.rs:169-171 | storing a new row keeps the invariant if and only if the minute has expired or does not hide exactly one pruned raw row |
| LadderLimits.CorrectionConservesExactly | agent/crates/tinytop-store/src/maintenance.rs:473-478 | a replay that changes a value reaches its folded five-minute bucket if and only if that bucket is still within the keep days of the minutes |
| LadderLimits.HourCorrectionExactly | agent/crates/tinytop-store/src/maintenance.rs:436-478 | with both tiers on, it reaches its folded hour if and only if its minute is complete, the hour is within the keep days of the five minutes and its five minutes are within those of the minutes |
| LadderLimits.HourFromMinutesExactly | agent/crates/tinytop-store/src/maintenance.rs:408-478 | with L3 off, it reaches its folded hour if and only if its minute is complete, the store knows that L3 is off, and the hour is within the keep days of the minutes |
| LadderLimits.CorrectionInsertExactly | agent/crates/tinytop-store/src/maintenance.rs:400-478 | storing a changed replay keeps the whole invariant if and only if it is taken into its minute and reaches every unexpired ancestor that has folded it, or makes no difference there |
| LadderLimits.ChangedMetricExactly | agent/crates/tinytop-store/src/lib.rs:2058-2066 | where a metric changes, it does so if and only if the minute has expired or is not partial and every unexpired folded ancestor is read from its source |
| LadderLimits.StepKeepsExactly | agent/crates/tinytop-store/src/maintenance.rs:97-492 | an insert or a tick keeps the invariant if and only if it is clean |
| LadderLimits.RunKeepsExactly | agent/crates/tinytop-store/src/maintenance.rs:97-492 | every moment of a run from the empty store satisfies the invariant if and only if every step is clean |
| LadderLimits.LateRowStartsAgain | agent/crates/tinytop-store/src/maintenance.rs:479-488 | a late row whose bucket has left the table and whose source is past its keep days restarts the bucket from one, and that is right if and only if nothing had been recorded in its range |
| LadderExamples.LateSampleReplacesTheOnlyOne | agent/crates/tinytop-store/src/lib.rs:2047-2081 | a run: store, a tick that prunes the raw row, store in the same minute; two samples, and minute and five minutes count one |
| LadderExamples.ChangedValueStaysOld | agent/crates/tinytop-store/src/maintenance.rs:473-478 | a run: store, tick, and a changed replay eight days later; the minute has the new value and the five minutes the old one |
| LadderExamples.PartialMinuteKeepsOldValue | agent/crates/tinytop-store/src/lib.rs:2058-2066 | a run: two samples of a minute, a tick that prunes the row of one, and a changed replay of the other; the raw row has the new value, minute and five minutes the old mean |
| LadderExamples.UnknownFlagKeepsOldValue | agent/crates/tinytop-store/src/maintenance.rs:408-446 | a run with L3 off whose flag write fails: a changed replay never reaches the hour, since the re-fold looks for it in L3 |
| LadderExamples.UngatedHourUndercounts | agent/crates/tinytop-store/src/maintenance.rs:166-176 | a run: the L3 pass fails and the read of its watermark fails; the hour counts one of its two samples and L4 overtakes L3 |
| LadderExamples.HalfWrittenHourUndercounts | agent/crates/tinytop-store/src/maintenance.rs:383-391 | a run: the first L3 row is written but its watermark is not; the same tick folds the hour from that row and counts one of two samples |
| LadderExamples.AddedAgainCountsTwice | agent/crates/tinytop-store/src/lib.rs:2062-2066 | a run: two samples, a tick that prunes their rows, and the first once more; the five minutes count three |
| LadderRetry.RetryExactly | agent/crates/tinytop-store/src/lib.rs:2058-2091 | an insert of a new row that fails after its raw row, before its re-folds or before that of the hour, and is tried again, conserves if and only if the row was not merged and the re-folds read it from below, or what it missed has expired |
| HistoryStore.Store.UpsertTierBucket | agent/crates/tinytop-store/src/lib.rs:2179-2244 | replaces the row at the bucket start and nothing else |
| HistoryStore.Store.Promote | agent/crates/tinytop-store/src/maintenance.rs:350-398 | the loop leaves the store as the promotion pass says and returns the number promoted |
| HistoryStore.Store.PruneTiers | agent/crates/tinytop-store/src/maintenance.rs:196-341 | the deletions of a tick leave the store as specified, each tier under its own cutoff |
| HistoryStore.Store.Maintain | agent/crates/tinytop-store/src/maintenance.rs:97-348 | a tick leaves the store as specified, for every combination of failing steps; what that does to each tier is in `LadderTick`, `LadderProgress` and `LadderTimely` |
| HistoryStore.Store.RefoldOne | agent/crates/tinytop-store/src/maintenance.rs:459-492 | upserts the ancestor as specified |
| HistoryStore.Store.RefoldAncestors | agent/crates/tinytop-store/src/maintenance.rs:400-457 | re-folds L3 and then L4 as specified, moving no watermark |
| HistoryStore.Store.InsertSample | agent/crates/tinytop-store/src/lib.rs:1543-2092 | stores the raw row, updates the minute and the ancestors as specified, and tells what it did to the minute |
| HistoryStore.InsertThenMaintain | agent/crates/tinytop-store/src/maintenance.rs:97-492 | after an insert and a tick on the object, with any step of the tick failing, the values satisfy the invariant exactly when the tick does not run past the L3 watermark |
| ArchiveMoves.MovesAreInvisible | agent/crates/tinytop-store/src/archive.rs:1158-1317 | for every interleaving of copies, checks, deletes, crashes and a concurrent writer, the history the two databases show changes by the writer alone |
| ArchiveMoves.DeletedOnlyWhenArchived | agent/crates/tinytop-store/src/archive.rs:1268-1317 | a main row leaves only in a delete, and only while the archive holds an equal row |
| ArchiveMarks.MarkMovesExactly | agent/crates/tinytop-store/src/archive.rs:1299-1312 | in every run with crashes and a concurrent writer, a step moves the watermark if and only if it is the delete of a verified batch and as many rows leave the main database in it as the copy of that batch selected; the mark is then the end of the last hour selected |
| ArchiveMarks.CopyStep | agent/crates/tinytop-store/src/archive.rs:1158-1230 | a copy selects the oldest ended hours within its limit and puts their main rows, as they are, into the archive; everything else stays |
| ArchiveMarks.VerifyStep | agent/crates/tinytop-store/src/archive.rs:1234-1261 | the check between the commits passes exactly when as many main rows of the interval have an archived row as the batch selected |
| ArchiveMarks.DeleteStep | agent/crates/tinytop-store/src/archive.rs:1268-1317 | a delete takes exactly the main rows of the interval that equal their archived rows, moves the watermark exactly if they are as many as were selected, and then leaves a row in the interval exactly if more stood there before |
| ArchiveMarks.LateHourBehindMark | agent/crates/tinytop-store/src/archive.rs:1299-1312 | a run: an hour the writer adds inside the interval between copy and delete stays in the main database behind the watermark |
| ArchiveMoves.RowMatchIsEquality | agent/crates/tinytop-store/src/archive.rs:78-98 | the column-by-column match of the delete is equality of rows |
| ArchiveMoves.EqualsWouldStrandRows | agent/crates/tinytop-store/src/archive.rs:78-98 | with `=` instead of `IS` a row without root values would not match its own copy |
| ArchiveMoves.IntervalIsSelection | agent/crates/tinytop-store/src/archive.rs:1158-1200 | the interval from least to greatest start of a batch holds exactly the selected rows |
| ArchiveMoves.MoveIsExact | agent/crates/tinytop-store/src/archive.rs:321-338 | undisturbed, one call moves exactly the oldest rows the batch allows, reports their number and sets the moved watermark to the end of the newest |
| ArchiveMarks.MoveTakesOldest | agent/crates/tinytop-store/src/archive.rs:321-338 | undisturbed, a row leaves exactly when its hour ended by the cutoff and fewer older ended rows stand before it than the batch, at most a thousand, allows; it is then in the archive as it was |
| ArchiveMoves.MovedHadExpired | agent/crates/tinytop-store/src/archive.rs:1172-1180 | every row moved had ended by the cutoff |
| ArchiveMoves.Mover.CopyAttachedBatch | agent/crates/tinytop-store/src/archive.rs:1158-1266 | copies and commits the oldest expired rows into the archive, then compares the committed count |
| ArchiveMoves.Mover.DeleteAttachedBatch | agent/crates/tinytop-store/src/archive.rs:1268-1317 | deletes exactly the rows of the batch that their copies match, and sets the watermark only when that was the whole batch; `ArchiveMarks.DeleteStep` has it in figures |
| ArchiveMoves.Mover.MoveExpiredL4 | agent/crates/tinytop-store/src/archive.rs:321-338 | one call on the object moves as specified |
| ArchiveMoves.Mover.ExpireTick | agent/crates/tinytop-store/src/maintenance.rs:314-331 | the archive loop of a tick moves exactly the oldest ten thousand expired rows, or all of them, and leaves the watermark at the end of the last one moved |
| Decimal.ParseOfPrint | agent/crates/tinytop-store/src/archive.rs:847-856 | parsing a printed integer gives it back exactly when it is within the bounds of the type |
| Decimal.ParsesExactly | agent/crates/tinytop-store/src/archive.rs:1003-1018 | a text parses to a number exactly when the number is within the bounds and the text spells it: an optional plus or a minus, any number of zeros, its digits |
| Csv.WriteCsvRecord | agent/crates/tinytop-store/src/archive.rs:871-884 | the writer produces the record: fields quoted where needed, commas between, CRLF at the end |
| Csv.ParseRfc4180 | agent/crates/tinytop-store/src/archive.rs:931-1001 | the loop with one character of look-ahead is the recursive parser, errors included |
| Csv.ParseOfPrint | agent/crates/tinytop-store/src/archive.rs:871-1001 | parsing the printed records gives exactly those records, whatever characters they hold, if and only if no record is empty |
| CsvGrammar.AcceptsExactly | agent/crates/tinytop-store/src/archive.rs:931-1001 | the parser returns records exactly for their writings: each field as it is, if it has no comma, quote, CR or LF, or between quotes with its quotes doubled; commas between fields, CR LF after every record; perhaps two dangling quotes at the end |
| CsvGrammar.RefusalIsTrue | agent/crates/tinytop-store/src/archive.rs:931-1001 | every error names what stands after the longest text that could be read, and the number of the record it stands in |
| CsvGrammar.QuotedExactly | agent/crates/tinytop-store/src/archive.rs:682-693 | a field is printed as it is exactly when it has no comma, quote, CR or LF, and else between quotes |
| Csv.AcceptsDanglingQuotes | agent/crates/tinytop-store/src/archive.rs:992-1001 | the parser accepts a dangling empty quoted field that no sequence of records prints as |
| ColdFile.ColdTextParses | agent/crates/tinytop-store/src/archive.rs:815-869 | the file of a month parses to its header and one record a row |
| ColdFile.ColdTextIsLossless | agent/crates/tinytop-store/src/archive.rs:815-869 | the export loses nothing: if floats print apart, two months with the same file text have the same rows |
| ColdFile.VerifyAcceptsExactly | agent/crates/tinytop-store/src/archive.rs:695-751 | the check accepts the file of a month if and only if the month is nonempty and the expected count and ends are its own |
| ColdCheck.VerifyExactly | agent/crates/tinytop-store/src/archive.rs:695-751 | for every text: it passes the check if and only if it parses, its first record joined by commas is the column list, every other record has as many fields as the first, their number is the expected count and not zero, and the first fields of the first and the last of them spell the expected ends |
| ColdCheck.AnswerIsTrue | agent/crates/tinytop-store/src/archive.rs:695-751 | for every text: each refusal is true of the parsed records, and names the first rule broken, the first record of another width or the count or ends found |
| Months.NameOrder | agent/crates/tinytop-store/src/archive.rs:475-477 | string order on `YYYY-MM` is calendar order for the years 0000 to 9999 |
| Months.BoundsOfName | agent/crates/tinytop-store/src/archive.rs:779-803 | a month name parses to the start of that month and of the next; only December 9999 has no end |
| Months.MonthLength | agent/crates/tinytop-store/src/archive.rs:796-803 | a month lasts the days the calendar gives it, so with the epoch at zero every month start is determined |
| ColdMonths.SecondsKeepMonth | agent/crates/tinytop-store/src/archive.rs:767-768 | rounding the clock down to seconds, also before 1970, stays in the month |
| ColdMonths.AgeLimitOrder | agent/crates/tinytop-store/src/archive.rs:767-777 | comparing a month name with the age limit compares months, also when the limit lies before year 0 |
| ColdMonths.EligibleIsFinished | agent/crates/tinytop-store/src/archive.rs:464-495 | the three string and bound filters accept a month exactly when it is old enough in calendar months, past the retention by a day, and after the watermark |
| ColdMonths.ExportableExactly | agent/crates/tinytop-store/src/archive.rs:464-495 | the candidates are strictly ascending and are exactly the present, finished months after the watermark |
| ColdMonths.FinishedIsDownwardClosed | agent/crates/tinytop-store/src/archive.rs:476-489 | a month before a finished month is finished |
| ColdMonths.FinishedIsPastCutoff | agent/crates/tinytop-store/src/archive.rs:479-489 | every hour of a finished month has ended before the L4 cutoff, and no present or later time falls into it |
| ColdRuns.ReadyIsPrefix | agent/crates/tinytop-store/src/archive.rs:497-528 | the ready months are the longest prefix of the candidates without an hourly row in the main database |
| ColdPass.PassTakes | agent/crates/tinytop-store/src/archive.rs:464-528 | a pass takes exactly the months among the twelve oldest that are archived, finished and after the watermark, up to the first of these with an hourly row left in the main database |
| ColdPass.PassExactly | agent/crates/tinytop-store/src/archive.rs:530-680 | a pass that nothing stops gives exactly these months their file with all archived rows and their manifest row with the time and their number, leaves files and manifest rows of all other months, and puts the watermark at the last month taken |
| ColdPass.RowsInOrder | agent/crates/tinytop-store/src/archive.rs:815-845 | the rows of a month are all archived rows that start in it, in the order of their starts |
| ColdRuns.ExportedMonthIsFinal | agent/crates/tinytop-store/src/archive.rs:497-600 | a pass exports only finished months, all of whose hours had ended before the cutoff of the hourly tier, with no row left in the main database at that moment |
| ColdFinal.FoldedMonthIsFinal | agent/crates/tinytop-store/src/maintenance.rs:160-194 | once the L4 watermark has passed a month, no tick, whatever fails in it, adds an hour to the month or changes one |
| ColdFinal.WaitingHourArrives | agent/crates/tinytop-store/src/maintenance.rs:350-398 | an hour at or past the watermark that may be folded is written by the next faultless promotion, whether its month has been exported or not |
| ColdFinal.FileIsRightExactly | agent/crates/tinytop-store/src/archive.rs:570-679 | the file of an exported month is right exactly as long as the archive has the rows it had then |
| ColdExport.MonthKeeps | agent/crates/tinytop-store/src/archive.rs:580-676 | one month cut after any of its writes leaves no gap |
| ColdExport.QueueKeeps | agent/crates/tinytop-store/src/archive.rs:578-676 | a pass over the ready months cut after any write leaves no gap, and a watermark that has not gone back |
| ColdRuns.PassKeeps | agent/crates/tinytop-store/src/archive.rs:530-680 | a whole pass, candidates chosen from the archive, leaves no gap wherever it stops |
| ColdRuns.NoGapsEver | agent/crates/tinytop-store/src/archive.rs:570-679 | in every run of passes stopped anywhere and archive changes that open no month behind the watermark, every archive month at or below the watermark has a manifest row and every manifest row a file; while the archive behind the watermark stays as it is, the file holds exactly its rows |
| ColdGaps.NoGapsExactly | agent/crates/tinytop-store/src/archive.rs:570-679 | while the archive only grows, no moment of a run has a gap if and only if no archive change puts rows in a month at or below the watermark that had none |
| ColdGaps.LateMonthIsLeftOut | agent/crates/tinytop-store/src/archive.rs:660-679 | a run: a pass exports the only month, then a late row of any earlier month arrives; that month lies below the watermark without a manifest row |
| ColdRuns.MarkNeverGoesBack | agent/crates/tinytop-store/src/archive.rs:670-673 | the export watermark never decreases between two moments of a run |
| ColdExporter.MonthsReadyToExport | agent/crates/tinytop-store/src/archive.rs:497-528 | the loop returns the ready months, or nothing for an unusable name |
| ColdExporter.Exporter.WriteMonth | agent/crates/tinytop-store/src/archive.rs:607-674 | file, manifest row and watermark are written in this order; a stop leaves the writes before it |
| ColdExporter.Exporter.WriteMonths | agent/crates/tinytop-store/src/archive.rs:580-676 | the loop makes the writes of the ready months in order up to the stop, skipping months without rows; the check of each file passes |
| ColdExporter.Exporter.ExportColdMonths | agent/crates/tinytop-store/src/archive.rs:530-680 | a pass on the object makes exactly the specified writes up to the stop, reports whether it got through, and then lists the months it exported |
| ProcessRank.BeforeIsOrder | agent/crates/tinytop-collectors/src/process_rank.rs:93-116 | both comparisons are strict weak orders, total on different process ids; `RankingFigures.BeforeMeans` says which |
| ProcessRank.UndefinedCpuIsLast | agent/crates/tinytop-collectors/src/process_rank.rs:93-116 | by CPU, an undefined figure comes after every finite or positive infinite one |
| ProcessRank.UndefinedCpuRanksLast | agent/crates/tinytop-collectors/src/process_rank.rs:93-116 | in the CPU list of any candidates, a process with an undefined figure never stands before one with a finite figure |
| ProcessRank.SortIsOrdered | agent/crates/tinytop-collectors/src/process_rank.rs:57-63 | the stable sort of the indices is ordered by comparator and position |
| ProcessRank.PlaceIsAhead | agent/crates/tinytop-collectors/src/process_rank.rs:57-63 | the place of a candidate in the sorted list is the number of candidates before it |
| ProcessRank.RankIsAhead | agent/crates/tinytop-collectors/src/process_rank.rs:74-83 | a candidate is in a list exactly when fewer than the list length precede it, and its rank is their number |
| ProcessRank.WriteRanks | agent/crates/tinytop-collectors/src/process_rank.rs:74-83 | writing the ranks of one list into the slots changes exactly the ranks of that list |
| ProcessRank.TakeSlots | agent/crates/tinytop-collectors/src/process_rank.rs:85-91 | taking the slots in order emits each candidate once |
| ProcessRank.RankInSlots | agent/crates/tinytop-collectors/src/process_rank.rs:51-91 | the slot algorithm returns the specified ranking; `RankingFigures.RankingInFigures` says what that is |
| RankingLaws.RankIsExact | agent/crates/tinytop-collectors/src/process_rank.rs:51-91 | every row carries for each list the number of candidates before it, or no rank; ranks the candidates came with are gone |
| RankingLaws.KeptExactly | agent/crates/tinytop-collectors/src/process_rank.rs:85-91 | a candidate is emitted, once, exactly if it is among the first of either list |
| RankingLaws.NoBetterLeftOut | agent/crates/tinytop-collectors/src/process_rank.rs:57-63 | no process left out of a list ranks before a member |
| RankingFigures.BeforeMeans | agent/crates/tinytop-collectors/src/process_rank.rs:93-116 | one process stands before another in the list by memory if it uses more bytes resident and swapped together, at the same number more CPU, and with the same CPU if its id is smaller; in the list by CPU with the first two exchanged; no swap figure is none, the sum saturates, an undefined CPU figure is the least |
| RankingFigures.RankingInFigures | agent/crates/tinytop-collectors/src/process_rank.rs:51-91 | the rows are those of the candidates that so few others stand before, in either list, that the list holds them, each once, with all their own fields and the numbers of those others as their ranks |
| RankingFigures.RowsInFigures | agent/crates/tinytop-collectors/src/process_rank.rs:100-116 | of two rows the one with the smaller rank by memory, or with such a rank where the other has none, uses at least as many bytes, at the same number at least as much CPU, and with both the same has no greater id; by CPU likewise |
| RankingFigures.LeftOutInFigures | agent/crates/tinytop-collectors/src/process_rank.rs:51-91 | a row with a rank belongs before every candidate that is left out, by the same figures |
| RankingLaws.RankingLength | agent/crates/tinytop-collectors/src/process_rank.rs:31-33 | the number of rows lies between min(N, n) and min(2N, n) |
| RankingLaws.RankingShape | agent/crates/tinytop-collectors/src/process_rank.rs:36-40 | the first min(N, n) rows are the CPU list in order; the others are in the memory list alone, by rising memory rank, strictly so while a list has at most 2^32 rows |
| RankingLaws.PidsBoundLists | agent/crates/tinytop-collectors/src/process_rank.rs:118-122 | distinct 32-bit process ids leave no list long enough to saturate its ranks |
| RankingLaws.RankingForgetsOrder | agent/crates/tinytop-collectors/src/process_rank.rs:42-48 | with distinct process ids the result is the same for every order of the candidates |
| ProcessLists.RankedByIs | agent/assets/dashboard/ladder-rules.js:205-211 | ranking rows by a list keeps exactly the rows it ranks, with their multiplicities, by rank |
| ProcessLists.RankedByExactly | agent/assets/dashboard/ladder-rules.js:205-211 | they stand in the order of their ranks, and those of one rank in the order they came |
| ProcessLists.SplitExactly | agent/assets/dashboard/ladder-rules.js:213-235 | of any sample: without any rank the rows are shown as they came and there is no list by memory; else the list by CPU is the rows with a CPU rank in rank order, and there is a list by memory exactly if some row has a memory rank, of those in rank order |
| ProcessLists.RankIsPlace | agent/crates/tinytop-collectors/src/process_rank.rs:118-122 | in the list of a ranking the rank of a row is its place, while it fits |
| ProcessLists.SplitUndoesRanking | agent/assets/dashboard/ladder-rules.js:205-235 | for every order in which the rows of a nonempty ranking arrive, the dashboard shows exactly its CPU list and its memory list, each in rank order |
| CollectorProtocol.StepKeeps | agent/crates/tinytop-agent/src/writer.rs:799-819 | every step of every task keeps the lock invariant, and the stored version last applied never decreases |
| CollectorProtocol.AppliedIsLive | agent/crates/tinytop-agent/src/writer.rs:799-819 | in every run, whenever the configuration lock is free after the first apply, the collector runs the recorded configuration, that of a stored row no older than before |
| CollectorProtocol.Converges | agent/crates/tinytop-agent/src/writer.rs:472-515 | once all started saves, imports and ticks have finished without error, the collector runs the newest stored settings: its process count, interval, thermal switch and extra chips are those of the newest row, a count out of range being 1, an interval of none 1 and one out of range 60 |
| CollectorProtocol.OneReaderIsEnough | agent/crates/tinytop-agent/src/writer.rs:761-778 | whatever other tasks failed, one finished task that read the newest row is enough for the same |
| CollectorProtocol.SkipsExactly | agent/crates/tinytop-agent/src/writer.rs:803-812 | a task finishes without the collector exactly if the configuration of the row it read is the one applied, field by field |
| CollectorProtocol.NoDeadlock | agent/crates/tinytop-agent/src/writer.rs:799-818 | while a task is unfinished some task can take its next step |
| CollectorProtocol.TasksCanFinish | agent/crates/tinytop-agent/src/writer.rs:761-819 | from every reachable state the tasks under way can all run to their end |
| SwapReader.ValueOfJoined | agent/crates/tinytop-collectors/src/linux.rs:1347-1351 | the swap line of two texts joined by a line end is that of the first, else of the second |
| SwapReader.WholeLinesDecide | agent/crates/tinytop-collectors/src/linux.rs:1325-1332 | a value found in the whole lines read so far is the value of the whole file, whatever follows |
| SwapReader.FigureOfFirstLine | agent/crates/tinytop-collectors/src/linux.rs:1342-1360 | the figure of a text whose first swap line is well formed, anywhere in the text, is its kibibytes times 1024, exactly when that fits 64 bits |
| SwapFigures.ValueExactly | agent/crates/tinytop-collectors/src/linux.rs:1347-1351 | a text has a swap value exactly if some line starts with `VmSwap:`, and it is what follows on the first such line |
| SwapFigures.FigureExactly | agent/crates/tinytop-collectors/src/linux.rs:1342-1360 | a text has a figure exactly if what follows there is two words, a number without sign or with a plus and `kB`, and the number of kibibytes times 1024 fits 64 bits; the figure is that product |
| SwapReader.LastLineEnd | agent/crates/tinytop-collectors/src/linux.rs:1328 | finds the last line end, if there is one |
| SwapReader.Scanner.ReadProcessSwap | agent/crates/tinytop-collectors/src/linux.rs:1307-1340 | the result is that of the whole file, however the reads cut it, except that it is unknown exactly if a read fails before the value was in the whole lines read |
| SwapReader.Scanner.ScanProcessSwap | agent/crates/tinytop-collectors/src/linux.rs:1272-1293 | a pass with one buffer gives every process the figure of its own file and counts the unknown ones |
| SwapFigures.PassFigures | agent/crates/tinytop-collectors/src/linux.rs:1272-1293 | in a pass a process has a figure exactly if one was known, and it is the last known |
| SwapFigures.PassUnknown | agent/crates/tinytop-collectors/src/linux.rs:1272-1293 | the count of unknown figures is the number of processes without one |
| HistoryPaging.NormalizeHistorySamples | agent/assets/dashboard/ladder-rules.js:67-87 | the loop over received samples returns the normalized series |
| HistoryPaging.NormalizedIsTimeline | agent/assets/dashboard/ladder-rules.js:67-87 | the normalized series has one sample a time, strictly rising, for exactly the times of the usable samples |
| HistoryPaging.LastOfTimeIsShown | agent/assets/dashboard/ladder-rules.js:67-87 | the last usable sample of a time is the one shown, with its own snapshot and source; a missing time is that of the snapshot, and then the present |
| HistoryPaging.ServerLimit | src/history-store.ts:44-47 | a page of the server is the newest rows of its window, at least one and at most ten thousand |
| HistoryPaging.OlderThanPage | agent/assets/dashboard/app.js:4287 | asking until just before the oldest of a page leaves exactly the older rows of the window |
| HistoryPaging.FetchPage | agent/assets/dashboard/app.js:4279-4287 | a page is the newest of the rows left, and the loop goes on only while older rows may be left |
| HistoryPaging.FetchPages | agent/assets/dashboard/app.js:4278-4288 | the pages, normalized, are exactly the newest samples of the window that eight pages of at most ten thousand, or those answered, can hold |
| HistoryPaging.CapacityIs | agent/assets/dashboard/app.js:68-69 | that number is the page count times the page size |
| HistoryPaging.DownsampleHistorySamples | agent/assets/dashboard/app.js:1272-1288 | on a timeline the loop keeps exactly the samples at the rounded even places, skipping none |
| HistoryPaging.ThinnedKeeps | agent/assets/dashboard/app.js:1272-1288 | a longer series is thinned to exactly the maximum, strictly rising, with the first and the last, each the sample nearest to its even place, of two as near the later |
| HistoryPaging.ShortThinned | agent/assets/dashboard/app.js:1273-1274 | a series that fits stays whole, and for a maximum of one or less only the last sample is kept |
| HistoryPaging.FetchHistoryWindow | agent/assets/dashboard/app.js:4250-4290 | what is shown of a raw window is the series of its newest samples, thinned to 1,200 |
| MetricFamilies.BaseIsSafe | agent/assets/dashboard/ladder-rules.js:523-527 | a folded name is never empty, has only letters, digits and inner dashes |
| MetricFamilies.BaseKeyIsRuns | agent/assets/dashboard/ladder-rules.js:523-527 | the folded name is the maximal runs of letters a to z and digits in the lower-cased name, joined by single dashes, and `other` exactly if there are none |
| MetricFamilies.FreshKey | agent/assets/dashboard/ladder-rules.js:528-530 | the suffix loop ends with the first of base, base-2, base-3, ... that is not used |
| MetricFamilies.MetricFamilyKeys | agent/assets/dashboard/ladder-rules.js:520-534 | as many keys as families, pairwise distinct, each the first free one after the families before it |
| MetricFamilies.KeysAreDetermined | agent/assets/dashboard/ladder-rules.js:520-534 | that rule admits exactly one list of keys |
| MetricFamilies.KeysAreSafe | agent/assets/dashboard/ladder-rules.js:513-519 | every key may stand in a DOM id |
| RetentionGrowth.GrowthIsOrder | agent/assets/dashboard/ladder-rules.js:882-904 | the comparison of horizons is the order in which disabled is below every horizon and zero days of L4 is forever |
| RetentionGrowth.NoGrowthIsPreorder | agent/crates/tinytop-store/src/retention_ladder.rs:334-354 | not growing is reflexive and transitive |
| RetentionGrowth.AcceptedIsOrdered | agent/crates/tinytop-store/src/retention_ladder.rs:251-275 | an accepted ladder has L2 <= L3 <= L4 among enabled finite horizons, and one refused for its horizons has not |
| RetentionGrowth.AcceptsExactly | agent/crates/tinytop-store/src/retention_ladder.rs:212-292 | a candidate is accepted if and only if its numbers are in their ranges, at least 256 MiB are to stay free, its horizons are in order, a cold archive is queryable, the archive directory is usable, and under pressure it keeps nothing longer than the stored ladder |
| RetentionGrowth.PressureRefusesExactly | agent/crates/tinytop-store/src/retention_ladder.rs:282-291 | pressure refuses a candidate only if it would have been accepted without it and keeps more than the stored ladder |
| RetentionGrowth.RefusalIsTrue | agent/crates/tinytop-store/src/retention_ladder.rs:212-292 | a refusal names the first rule the candidate breaks, in the order of the checks |
| RetentionGrowth.StepExactly | agent/crates/tinytop-store/src/retention_ladder.rs:212-292 | a save stores exactly the acceptable candidates and changes nothing else |
| RetentionGrowth.NoCreepUnderPressure | agent/assets/dashboard/ladder-rules.js:951-957 | through every chain of saves while pressure lasts, the stored ladder does not grow from the one stored when it began |
| RetentionGrowth.RunStaysOrdered | agent/crates/tinytop-store/src/retention_ladder.rs:212-292 | the horizons of the stored ladder stay in order through every run of saves and pressure changes |
| RetentionGrowth.LegacyAliasesSettle | agent/crates/tinytop-store/src/retention_ladder.rs:300-314 | old settings always give ordered horizons, never shorten L3 or L4, and applying them twice changes nothing more |
| RetentionGrowth.LegacyIsLeast | agent/crates/tinytop-store/src/retention_ladder.rs:300-314 | old settings keep raw rows for the fewest days, at least three, that cover their hours, minutes for their days, at least seven, and lengthen L3 and L4 by no more than the order of the horizons asks |
| PercentEscape.PercentDecodeLoop | agent/crates/tinytop-agent/src/otel.rs:265-281 | the loop decodes as specified, refusing a percent sign without two digits |
| PercentEscape.DecodesExactly | agent/crates/tinytop-agent/src/otel.rs:265-292 | decoding gives a byte string exactly for its encodings: bytes as themselves, or percent and two digits of either case |
| PercentEscape.EscapeSurvives | agent/crates/tinytop-agent/src/otel.rs:295-300 | one decoding undoes the escape, for every text |
| PercentEscape.EscapeIsNeeded | agent/crates/tinytop-agent/src/otel.rs:292-300 | without the escape a second decoding keeps a value if and only if it has no percent sign |
| PercentEscape.HeadersSurvive | agent/crates/tinytop-agent/src/otel.rs:295-300 | every parsed header comes out of the builder as it was parsed |
| PercentEscape.OperatorValuesArrive | agent/crates/tinytop-agent/src/otel.rs:235-300 | whatever percent-encodings of the values of any number of headers stand in the variable, the exporter sends the values, the last one of each key |
| OtlpHeaders.HexPairExactly | agent/crates/tinytop-agent/src/otel.rs:283-290 | two characters stand for a byte exactly if both are hexadecimal digits of either case, the first for sixteen times its value |
| OtlpHeaders.EntryExactly | agent/crates/tinytop-agent/src/otel.rs:235-263 | an entry gives a header exactly if it has a nonblank key before its first `=` and, after it, a value without percent signs or the encoding of a text; else the error tells a missing key from a bad percent sign, with the number of the entry |
| OtlpHeaders.VariableExactly | agent/crates/tinytop-agent/src/otel.rs:235-263 | a header variable, cut at its commas, gives the headers its pieces stand for, the last one of each key, or the error of the first piece that stands for none; a missing or blank one gives none |
| DiskPressure.DiskCheck.ApplyMeasurement | agent/crates/tinytop-store/src/disk.rs:99-198 | the stored state and the markers are those that the effective measurements of the run leave: pressure exactly while fewer bytes are free than the minimum, since the first such measurement, and a marker exactly when that changes; a failed measurement or transaction changes nothing |
| DiskPressure.MarkersTellTheTruth | agent/crates/tinytop-store/src/disk.rs:124-180 | markers alternate from a breach, breaches exceed recoveries by one exactly while pressure is active, and the start of the pressure is the time of the last marker |
| DiskPressure.StoredStateAgrees | agent/crates/tinytop-store/src/disk.rs:124-180 | the persisted state and the recorded markers agree at every moment |
| DiskPressure.SinceStays | agent/crates/tinytop-store/src/disk.rs:131-143 | the start of the pressure does not move while measurements stay low |

## Left out

- LadderConservation.Conservation: says nothing of the root average (see `FoldLaws.MixedRootAverageDrifts`), and its runs take only clean steps, each of which can be checked before it is taken; `LadderLimits.RunKeepsExactly` shows that the invariant behind it needs just these, and `LadderRecord.StoredConservation` has it in terms of the steps alone.
- LadderConservation.MinuteConservation: for the same runs.
- LadderConservation.RunKeeps: for runs of clean steps; `LadderLimits.RunKeepsExactly` has the converse.
- LadderCounts.CountConservation: its runs hide no pruned row, do not run past the L3 watermark and stay off the outermost hours of the 64-bit range; values and corrections are not restricted.
- LadderCounts.MinuteCountConservation: for the same runs.
- LadderCounts.DistinctCountExactly: for the same runs.
- LadderCounts.MarksStayNested: for the same runs; `LadderExamples.UngatedHourUndercounts` shows the watermarks out of order without them.
- LadderRuns.InsertKeeps: only for the clean inserts that `LadderLimits.NewRowConservesExactly` and `LadderLimits.CorrectionInsertExactly` single out; times in the outermost hour at either end of the 64-bit range, where bucket bounds saturate, are excluded.
- LadderRetry.RetryExactly: the second try comes at the same clock reading, with nothing in between; a re-fold that fails halfway is one that has not begun.
- HistoryStore.Store.InsertSample: runs to its end; what an error between its statements does is said on the values, in `LadderRetry`.
- HistoryStore.Store.Maintain: counts in the report, detail, GPU, sensor, process and command tables, and errors returned to the caller are not modelled; only which steps fail.
- ArchiveMoves.Mover.ExpireTick: without a concurrent writer; with one, `ArchiveMoves.MovesAreInvisible` is the claim.
- ColdRuns.NoGapsEver: for runs that add no row to a month at or below the watermark that had none; `ColdGaps.NoGapsExactly` shows that this is needed.
- ColdRuns.ExportedMonthIsFinal: of the moment of the export; `ColdFinal.FoldedMonthIsFinal` has the condition under which no later tick changes the month.
- ColdExporter.Exporter.ExportColdMonths: checksum, sidecar, byte counts, compression and the temporary file are not modelled; the text of a file appears in one write. Archive rows outside the years 0000 to 9999 belong to no month.
- ColdFile.ColdTextParses: how a float is printed is a parameter; only integers are parsed back.
- ProcessRank.BeforeIsOrder: negative zero is the same figure as zero.
- ProcessLists.SplitUndoesRanking: lists of at most 2^32 rows; `RankingLaws.PidsBoundLists` shows that distinct process ids allow no longer ones.
- CollectorProtocol.Converges: maintenance and marker writes between a save and its configure call are one step that may fail.
- HistoryPaging.FetchPages: the stored rows do not change between two pages, and a fetch overtaken by a newer one is not modelled.
- HistoryPaging.DownsampleHistorySamples: the step between places is a real, not a float.
- LadderTimely.RipeFiveMinutesAreWritten: in a state of the invariant, for a tick whose L3 pass does not fail.
- LadderTimely.RipeHoursAreWritten: likewise, for a tick whose L4 pass does not fail.
- LadderFigures.BucketInFigures: for runs of clean steps that add no time of the range again, as `LadderRecord.StoredConservation`; nothing of the root average.
- LadderFigures.MinuteInFigures: for the same runs.
- CsvGrammar.RefusalIsTrue: one direction; `CsvGrammar.AcceptsExactly` has both for acceptance.
- HistoryPaging.NormalizeHistorySamples: a missing capture time falls back to the snapshot's own time or the present, both given as parameters.
- MetricFamilies.MetricFamilyKeys: lower-casing is a parameter; families that are not strings are not modelled.
- RetentionGrowth.AcceptedIsOrdered: whether an archive directory is absolute is a parameter.
- PercentEscape.HeadersSurvive: the builder's decoder is taken to be the one modelled here.
- PercentEscape.OperatorValuesArrive: likewise; the entries come without white space around keys and values, which the parser would trim.
- PercentEscape.EscapeSurvives: strings are byte strings with UTF-8 validity and white-space trimming as parameters; the builder's own decoder is not part of this model and is taken to decode as this one does.
- DiskPressure.DiskCheck.ApplyMeasurement: paths, database size and the text of markers are not modelled.
- SQLite, transactions as an engine, files, gzip and SHA-256: tables are maps with atomic statements, files are strings.
- Rounding of floating-point numbers.
- Changing the enabled tiers or horizons during a run, and clocks that step back.
- HTTP routes, command lines, drawing, collectors of operating-system figures and the OpenTelemetry export loop.
- The Bun server, collector and wizard, except the history query the paging relies on.
