# A verified model of SQLite internals

This project models five components of the SQLite sources in
`other/testCode/sqlite3_split`, and proves what they promise. Each file there holds the same text
several times; the first copy is the one modelled.

* **Stat4 accumulator** (`analyze.c`, with STAT4 enabled). One pass over a sorted index keeps
  running prefix counts, a candidate sample for each column and a bounded array of samples. Counts
  of groups that are still open are stored as zero and filled in later. The specification is
  the list of rows pushed so far with counts defined by set cardinality (`IndexRows.dfy`). The
  sample invariant, what a closing column does, and what a push does are in `Stat4Invariant.dfy`,
  `Stat4Collection.dfy`, `Stat4Closing.dfy` and `Stat4Push.dfy`; which row of a group is chosen and
  which groups keep a sample is said in terms of group sizes in `Stat4Choice.dfy` and
  `Stat4Selection.dfy`; the accumulator itself is the class
  in `Stat4Accum.dfy`, and `Analyze.dfy` puts the whole pass together. `StatText.dfy` and `LogEst.dfy`
  hold the texts in the statistics tables and what the loader makes of them.
* **Bitvec** (`bitvec.c`). A set of integers as a flat bitmap, an open-addressed hash or a radix
  tree of smaller vectors (`Bitvec.dfy`, with `LinearProbe.dfy` and `Bits.dfy` below it), and the
  built-in self test as an interpreter of set and clear programs (`BitvecTest.dfy`), with what its
  programs mean (`BitvecPrograms.dfy`).
* **Online backup** (`backup.c`). Pages are copied in steps while the source keeps changing. Both
  databases are byte images (`PageGeometry.dfy`, `ByteImage.dfy`); the copy and the callbacks are
  in `Backup.dfy`, steps, completion and whole runs in `BackupStep.dfy`.
* **B-tree mutexes** (`btmutex.c`). Any number of connections lock shared b-trees; every try, unlock
  and blocking lock is a step of a state machine (`BtreeMutex.dfy`).
* **Database fixer** (`attach.c`). Mutually recursive walkers overwrite parse-tree nodes so that
  every reference is pinned to one schema (`DbFixer.dfy` says which nodes are visited and what a
  sequence of visits does, `FixReach.dfy` which nodes can be reached, `FixWalk.dfy` holds the walkers).

`Common.dfy` and `Arith.dfy` hold what several of these share.

Choices that bear on every part:

* Whether memory suffices and whether pager and file operations may fail are parameters (`enough`,
  `faulty`). Where they may fail, which of them do is nondeterministic, within what the callers rely
  on. Whether a try for a mutex fails is a parameter too.
* `sqlite3BtreeEnterAll` is documented to enter mutexes in ascending address order. The code enters
  databases in the order of the connection's list, and so does the model; freedom from deadlock is
  proved for that order.
* Page sizes are powers of two of at least 512 that divide the offset of the lock bytes, which is a
  parameter. Header bytes 28 to 31 hold the database size (section 1.3.7 of the SQLite Database
  File Format), and the lock-byte page is described in section 1.4 there.
* Failures of page reads, page writes and the commit during a backup are fatal codes; only opening
  the transactions can be refused with a code that allows another try. The code asserts this when a
  page is copied again, and it matters because a pass over a page that fails still advances to the
  next one.
* A page may be written far behind the end of the source. Then a backup that has copied beyond the
  end can miss the bytes in between; `OnlineBackup.FollowedWriteKeepsCopied` and
  `OnlineBackup.GapLosesStep` say exactly when. In the runs of `BackupSteps.Run` the source grows page
  by page, as b-tree allocation does.
* In the Stat4 model a column value is an integer that stands for its rank in the collation order.

## Model

| member | source | states |
|---|---|---|
| `Analyze.AnalyzeIndex` | other/testCode/sqlite3_split/analyze.c:1043-1252 | ANALYZE of one index, for every sorted list of rows and every sample limit: the stat1 text is the row count followed by the rounded-up average group sizes; each stat4 entry prints the exact whole-index counts of its row; entries are in strictly increasing index order; every evenly spaced row has an entry; the other entries stand for pairwise different groups; no group without an entry is larger than any of those, and one without an entry has a row that could stand for it and is not preferred to any of them; and the row of each such entry lies in a largest subgroup of its group and was chosen for that or a deeper group |
| `Analyze.Scan` | other/testCode/sqlite3_split/analyze.c:1043-1073 | pushing each row with the left-most column in which it differs from the row before leaves the accumulator describing the whole list |
| `Analyze.ScanRow` | other/testCode/sqlite3_split/analyze.c:1043-1073 | one more row is pushed with the left-most column in which it differs from the row before |
| `Analyze.ReadEntries` | other/testCode/sqlite3_split/analyze.c:1212-1252 | the loop over ROWID, NEQ, NLT and NDLT requests returns one entry for each sample, in array order, with exact counts |
| `Analyze.ReadRemaining` | other/testCode/sqlite3_split/analyze.c:1227-1251 | the entries from the first sample on, until the rowid request finds no more |
| `Analyze.ReadEntry` | other/testCode/sqlite3_split/analyze.c:1231-1233 | one entry describes the row of the current sample and moves on by one sample |
| `Analyze.CollectedSamples` | other/testCode/sqlite3_split/analyze.c:649-663 | what the final sample array says of the index: order, evenly spaced rows, different groups, none of them exceeded by a group that has no sample |
| `Analyze.ApartMeansDistinct` | other/testCode/sqlite3_split/analyze.c:571-584 | of two samples that are not evenly spaced, the one that stands for the wider group is not in the group of the other |
| `Analyze.FlushedSamples` | other/testCode/sqlite3_split/analyze.c:649-663 | all of this follows from the state after the final flush |
| `Analyze.SelectedSamples` | other/testCode/sqlite3_split/analyze.c:649-663 | from the chosen rows and the preferred entries of the final array to the index: rows chosen by the sizes of their groups, and no group without an entry preferred to one that has one |
| `Analyze.EntryReadsBack` | other/testCode/sqlite3_split/analyze.c:1442-1458 | the three lists of an entry, decoded by the loader, are the exact counts, for every index whose row count fits the row-count type |
| `Analyze.Stat1ReadsBack` | other/testCode/sqlite3_split/analyze.c:1442-1458 | so are the row count and the averages of a stat1 entry |
| `Stat4.Stat4Accum.constructor` | other/testCode/sqlite3_split/analyze.c:395-476 | a new accumulator is in the empty scanning state, with the spacing fixed from the expected row count |
| `Stat4.Stat4Accum.StatPush` | other/testCode/sqlite3_split/analyze.c:709-777 | a push of the next larger row keeps the scanning invariant for the list extended by that row: running counts exact, samples ordered, filled exactly where closed, evenly spaced rows kept, minimum correct; the candidate of each column is the chosen row of its open group, each entry has a chosen row, and no closed group without an entry is preferred to one that has one |
| `Stat4.Stat4Accum.PushRow` | other/testCode/sqlite3_split/analyze.c:709-777 | the same for a row given as a whole |
| `Stat4.Stat4Accum.Arrive` | other/testCode/sqlite3_split/analyze.c:725-753 | the pushed row becomes the current one, whether or not it is the first |
| `Stat4.Stat4Accum.ArriveFirst` | other/testCode/sqlite3_split/analyze.c:725-727 | the first row has count 1 in every column |
| `Stat4.Stat4Accum.ArriveNext` | other/testCode/sqlite3_split/analyze.c:728-753 | groups from the changed column on are closed before the counts move on, and candidates left of it are kept |
| `Stat4.Stat4Accum.MakeCurrent` | other/testCode/sqlite3_split/analyze.c:732-753 | after advancing, the current counts are the exact counts of the new row in the extended list |
| `Stat4.Stat4Accum.DrawNumber` | other/testCode/sqlite3_split/analyze.c:753-753 | the generator holds the number of the new row, for every row of the scan |
| `Stat4.Stat4Accum.AdvanceCounts` | other/testCode/sqlite3_split/analyze.c:732-743 | counts left of the changed column grow by one; the others restart and add what the old group held |
| `Stat4.Stat4Accum.ConsiderRow` | other/testCode/sqlite3_split/analyze.c:756-775 | taking the periodic sample and updating the candidates restores the between-pushes invariant |
| `Stat4.Stat4Accum.TakePeriodic` | other/testCode/sqlite3_split/analyze.c:758-766 | every evenly spaced row enters the array, and no other row does here |
| `Stat4.Stat4Accum.TakeSample` | other/testCode/sqlite3_split/analyze.c:761-766 | inserting the periodic sample keeps the collection invariant |
| `Stat4.Stat4Accum.InsertPeriodic` | other/testCode/sqlite3_split/analyze.c:761-766 | the periodic sample goes behind what is left of the array, and nothing else changes |
| `Stat4.Stat4Accum.IsSpaced` | other/testCode/sqlite3_split/analyze.c:759-761 | the quotient test tells the evenly spaced rows from all others |
| `Stat4.Stat4Accum.UpdateBest` | other/testCode/sqlite3_split/analyze.c:768-774 | after the update each column but the last has as its candidate the chosen row of its open group: the last row of the largest subgroup, ties decided by the later columns, then by the numbers drawn, then by order |
| `Stat4.Stat4Accum.UpdateBestOf` | other/testCode/sqlite3_split/analyze.c:769-774 | one column: the new row becomes the candidate exactly if that makes the candidate the chosen row of the open group; other columns are untouched |
| `Stat4.Stat4Accum.SamplePushPrevious` | other/testCode/sqlite3_split/analyze.c:643-664 | closing the groups from the changed column on leaves exact counts in those columns and keeps the collection invariant |
| `Stat4.Stat4Accum.OfferClosed` | other/testCode/sqlite3_split/analyze.c:649-655 | candidates are offered from the last but one column back to the changed one, and the invariant is re-established for each column in turn |
| `Stat4.Stat4Accum.OfferBest` | other/testCode/sqlite3_split/analyze.c:649-655 | one offered candidate closes its column |
| `Stat4.Stat4Accum.InsertIfPreferred` | other/testCode/sqlite3_split/analyze.c:652-654 | a candidate rejected by a full array leaves every closed group served; an accepted one is inserted |
| `Stat4.Stat4Accum.InsertBest` | other/testCode/sqlite3_split/analyze.c:652-654 | inserting a candidate closes its column whichever way the insertion ends |
| `Stat4.Stat4Accum.FillClosed` | other/testCode/sqlite3_split/analyze.c:657-663 | zero counts from the changed column on, and only those, receive the current counts |
| `Stat4.Stat4Accum.SampleInsert` | other/testCode/sqlite3_split/analyze.c:553-634 | the three ends of an insertion: a periodic sample of the same prefix stops it, the preferred entry of the same prefix is upgraded in place, or the minimum is evicted if the array is full and the sample is appended with its leading counts zeroed; the minimum is correct at the exit |
| `Stat4.Stat4Accum.FindSharing` | other/testCode/sqlite3_split/analyze.c:561-579 | the backward search returns a periodic entry of the open group, the best non-periodic one, or shows there is none |
| `Stat4.Stat4Accum.UpgradeEntry` | other/testCode/sqlite3_split/analyze.c:580-584 | exactly one entry changes: its column and the count of that column; the minimum is recomputed |
| `Stat4.Stat4Accum.AppendSample` | other/testCode/sqlite3_split/analyze.c:588-633 | the array becomes the old one, without its minimum if it was full, followed by the zeroed sample |
| `Stat4.Stat4Accum.AppendCopy` | other/testCode/sqlite3_split/analyze.c:588-618 | a row behind all others goes to the end of what is left, and the minimum is correct again |
| `Stat4.Stat4Accum.MakeRoom` | other/testCode/sqlite3_split/analyze.c:588-601 | a full array loses exactly its minimum; any other array loses nothing |
| `Stat4.Stat4Accum.FindNewMin` | other/testCode/sqlite3_split/analyze.c:623-633 | the minimum is a non-periodic entry, and no other non-periodic entry is worse |
| `Stat4.InsertAllowed` | other/testCode/sqlite3_split/analyze.c:560-609 | every fact asserted by sampleInsert holds whenever a candidate is offered: entries of the open group stand for deeper columns and lose to the candidate, a non-periodic entry always exists to be evicted, and the appended row comes last |
| `Stat4.SomeIsEvictable` | other/testCode/sqlite3_split/analyze.c:623-633 | the periodic samples never fill the array, so the search for a new minimum always finds one |
| `Stat4.Stat4Accum.BetweenPushes` | other/testCode/sqlite3_split/analyze.c:657-663 | in every state between pushes a count is zero exactly when its group is the open one, and otherwise is the final count |
| `Stat4.Stat4Accum.RunningTotals` | other/testCode/sqlite3_split/analyze.c:725-745 | after every push anLt plus anEq is nRow in every column |
| `Stat4.Stat4Accum.FinalFlush` | other/testCode/sqlite3_split/analyze.c:873-877 | closing every group at the end makes all counts of all samples exact |
| `Stat4.Stat4Accum.StatGetRowid` | other/testCode/sqlite3_split/analyze.c:873-887 | the first request flushes, later ones change nothing; the rowid is that of the row the sample describes |
| `Stat4.Stat4Accum.CurrentRowid` | other/testCode/sqlite3_split/analyze.c:878-886 | a rowid is returned exactly while samples are left |
| `Stat4.Stat4Accum.StatGetCounts` | other/testCode/sqlite3_split/analyze.c:887-918 | the printed list is the list of exact counts of the sample row; only the last kind moves to the next sample |
| `Stat4.Stat4Accum.Estimate` | other/testCode/sqlite3_split/analyze.c:862-863 | the estimate is the row count divided by the number of distinct prefixes, rounded up |
| `Stat4.Stat4Accum.StatGetStat1` | other/testCode/sqlite3_split/analyze.c:829-871 | the text is the row count and one rounded-up average for each key column |
| `Stat4.Stat4Accum.PrintStat1` | other/testCode/sqlite3_split/analyze.c:829-871 | the loop prints the row count and one average after the other |
| `Samples.SampleIsBetterPost` | other/testCode/sqlite3_split/analyze.c:502-516 | the loop decides by the first column right of the sample column in which the counts differ, whichever it is, and by the hash if there is none |
| `Samples.SampleIsBetter` | other/testCode/sqlite3_split/analyze.c:526-547 | the method decides by the size of the group, then by the shorter prefix, then by the first later column in which the counts differ, then by the hash |
| `Samples.FirstDifferenceDecides` | other/testCode/sqlite3_split/analyze.c:510-515 | the first difference decides the trailing comparison, and the hash if there is none |
| `Samples.BetterIsStrictWeakOrder` | other/testCode/sqlite3_split/analyze.c:502-547 | the preference is irreflexive and transitive, and so is its negation transitive |
| `Samples.BetterDepends` | other/testCode/sqlite3_split/analyze.c:502-547 | ranking reads only the column, the counts from that column on and the hash, so filling in earlier columns changes no comparison |
| `Stat4Invariant.ZeroMeansOpen` | other/testCode/sqlite3_split/analyze.c:571-571 | while columns are closed one by one, a zero count in the column being closed means exactly that the group is open |
| `Stat4Invariant.OpenSampleIsDeeper` | other/testCode/sqlite3_split/analyze.c:573-573 | an entry of the open group stands for a longer prefix |
| `Stat4Invariant.ShallowerIsBetter` | other/testCode/sqlite3_split/analyze.c:574-574 | a sample that stands for a group is preferred to every sample that stands for a longer prefix inside it |
| `Stat4Invariant.InsertedOk` | other/testCode/sqlite3_split/analyze.c:612-618 | a candidate zeroed left of its column satisfies the sample invariant of the next column |
| `Stat4Invariant.UpgradedOk` | other/testCode/sqlite3_split/analyze.c:580-584 | an upgraded entry satisfies the sample invariant of the next column |
| `Stat4Closing.CandidateBeatsOpen` | other/testCode/sqlite3_split/analyze.c:573-574 | the two asserted facts about an entry that shares the prefix of the candidate |
| `Stat4Closing.UpgradeIsValid` | other/testCode/sqlite3_split/analyze.c:575-584 | the entry chosen for an upgrade has final counts in all deeper columns |
| `Stat4Closing.UpgradeKeeps` | other/testCode/sqlite3_split/analyze.c:580-584 | an in-place upgrade closes the column |
| `Stat4Closing.UpgradedStandsApart` | other/testCode/sqlite3_split/analyze.c:571-584 | an upgraded entry stands for a group that no other entry stands for, because the preferred entry of the open group was chosen |
| `Stat4Closing.UpgradeKeepsApart` | other/testCode/sqlite3_split/analyze.c:580-584 | after an upgrade the entries still stand for different groups |
| `Stat4Closing.PeriodicPresentKeeps` | other/testCode/sqlite3_split/analyze.c:571-572 | leaving the array alone because a periodic entry shares the prefix closes the column |
| `Stat4Closing.InsertKeeps` | other/testCode/sqlite3_split/analyze.c:588-618 | evicting the minimum and appending the candidate closes the column |
| `Stat4Closing.InsertKeepsOk` | other/testCode/sqlite3_split/analyze.c:588-618 | evicting and appending keeps every entry in order and correctly filled |
| `Stat4Closing.InsertedStandsApart` | other/testCode/sqlite3_split/analyze.c:561-579 | a candidate that is inserted stands for a group that no entry stands for, because no entry of its group was open |
| `Stat4Closing.InsertKeepsApart` | other/testCode/sqlite3_split/analyze.c:588-618 | after an insertion the entries still stand for different groups |
| `Stat4Closing.RejectKeeps` | other/testCode/sqlite3_split/analyze.c:652-654 | rejecting the candidate closes the column: the array is full of samples for groups at least as large |
| `Stat4Closing.CandidateComesLast` | other/testCode/sqlite3_split/analyze.c:604-609 | an entry outside the open group precedes the candidate, so appending keeps the order |
| `Stat4Closing.InsertedIsNotPeriodic` | other/testCode/sqlite3_split/analyze.c:569-572 | no row is inserted twice: a periodic row is already in the array |
| `Stat4Push.FillKeeps` | other/testCode/sqlite3_split/analyze.c:657-663 | filling keeps order, minimum, ranks and representation and makes the closed columns final |
| `Stat4Push.PushKeeps` | other/testCode/sqlite3_split/analyze.c:728-745 | extending the list by a row keeps everything said of the samples |
| `Stat4Push.BestSurvives` | other/testCode/sqlite3_split/analyze.c:768-774 | a candidate that is not beaten by the new row is the last row of its subgroup, so its deeper counts are final |
| `Stat4Push.NewRowIsBetter` | other/testCode/sqlite3_split/analyze.c:768-774 | a row that continues the subgroup of the candidate always beats it |
| `Stat4Choice.BetterIsChosen` | other/testCode/sqlite3_split/analyze.c:768-774 | a row that beats the candidate is the chosen row of the longer list |
| `Stat4Choice.UnbeatenIsChosen` | other/testCode/sqlite3_split/analyze.c:768-774 | a candidate that is not beaten stays the chosen row |
| `Stat4Choice.NewGroupChosen` | other/testCode/sqlite3_split/analyze.c:771-771 | the first row of a group is its chosen row |
| `Stat4Choice.ChosenIsLargest` | other/testCode/sqlite3_split/analyze.c:768-774 | no subgroup is larger than that of the chosen row |
| `Stat4Choice.ChosenUnique` | other/testCode/sqlite3_split/analyze.c:768-774 | a group has only one chosen row |
| `Stat4Choice.SomeIsChosen` | other/testCode/sqlite3_split/analyze.c:768-774 | every group has a chosen row |
| `Stat4Choice.OutranksIsBetter` | other/testCode/sqlite3_split/analyze.c:502-516 | samples with complete counts compare as the group sizes of their rows do |
| `Stat4Choice.ChosenAfterPush` | other/testCode/sqlite3_split/analyze.c:728-745 | the choice for a group that has ended stands |
| `Stat4Choice.AllChosenAfterPush` | other/testCode/sqlite3_split/analyze.c:728-745 | so do the choices behind all entries |
| `Stat4Choice.UpgradeInLargest` | other/testCode/sqlite3_split/analyze.c:571-584 | the entry that is upgraded lies in a largest subgroup of the group it comes to stand for |
| `Stat4Choice.UpgradeKeepsChosen` | other/testCode/sqlite3_split/analyze.c:580-584 | after an upgrade every entry has a chosen row |
| `Stat4Choice.InsertedIsChosen` | other/testCode/sqlite3_split/analyze.c:588-618 | an inserted candidate is the chosen row of its group |
| `Stat4Selection.OfferSelects` | other/testCode/sqlite3_split/analyze.c:649-655 | whatever offering a candidate does to the array, every closed group has an entry, or a row that could stand for it and is not preferred to any entry |
| `Stat4Selection.RejectedIsPassed` | other/testCode/sqlite3_split/analyze.c:652-654 | a candidate that a full array rejects is not preferred to any entry |
| `Stat4Selection.UpgradeKeepsPreferred` | other/testCode/sqlite3_split/analyze.c:580-584 | an upgrade only raises an entry, so nothing becomes preferred to it |
| `Stat4Selection.EvictKeepsKept` | other/testCode/sqlite3_split/analyze.c:589-601 | a group that loses its entry by an eviction has a row that is not preferred to any entry that is left |
| `Stat4Selection.StandInFor` | other/testCode/sqlite3_split/analyze.c:589-601 | for every group that an entry represents there is a row that could stand for it and is not preferred to the entry |
| `Stat4Selection.InsertKeepsPreferred` | other/testCode/sqlite3_split/analyze.c:588-618 | evicting the minimum for a preferred sample leaves the preferred entries |
| `Stat4Selection.FillSelects` | other/testCode/sqlite3_split/analyze.c:657-663 | filling in counts changes no preference |
| `Stat4Selection.PushSelects` | other/testCode/sqlite3_split/analyze.c:728-745 | the next row changes no preference among closed groups |
| `Stat4Selection.PeriodicSelects` | other/testCode/sqlite3_split/analyze.c:761-766 | a periodic sample may take the place of the minimum |
| `Stat4Selection.PreferredIsBetter` | other/testCode/sqlite3_split/analyze.c:526-547 | samples with complete counts are preferred as the group sizes of their rows say |
| `Stat4Push.AdvancedOk` | other/testCode/sqlite3_split/analyze.c:732-743 | the running counts, advanced, are the set-theoretic counts of the new row |
| `Stat4Push.PeriodicTaken` | other/testCode/sqlite3_split/analyze.c:761-766 | a periodic sample may evict the minimum without leaving a larger group unserved |
| `Stat4Push.SpacingTest` | other/testCode/sqlite3_split/analyze.c:761-761 | comparing the two quotients of the row number finds exactly the evenly spaced rows |
| `Stat4Push.PeriodicFits` | other/testCode/sqlite3_split/analyze.c:761-766 | a new periodic sample never makes more than a third of the array periodic |
| `Stat4Collection.PeriodicSamplesBounded` | other/testCode/sqlite3_split/analyze.c:450-450 | at most mxSample/3 entries are periodic in every reachable array |
| `Stat4Collection.SpacingLeavesRoom` | other/testCode/sqlite3_split/analyze.c:450-450 | the spacing leaves at most mxSample/3 multiples among the expected rows |
| `Stat4Collection.SpacingIsLeast` | other/testCode/sqlite3_split/analyze.c:450-450 | it is the least spacing that does |
| `Stat4Collection.EvictKeepsServed` | other/testCode/sqlite3_split/analyze.c:589-601 | a group that loses its sample by an eviction is no larger than any group still sampled |
| `IndexRows.NewRowContinues` | other/testCode/sqlite3_split/analyze.c:734-736 | left of the changed column the exact counts grow by the new row only |
| `IndexRows.NewRowStarts` | other/testCode/sqlite3_split/analyze.c:737-743 | from the changed column on the new row has a group of its own above all earlier prefixes |
| `IndexRows.OldRowCounts` | other/testCode/sqlite3_split/analyze.c:657-663 | earlier rows keep their lower counts, and groups the new row does not join are final |
| `IndexRows.LastRowTotals` | other/testCode/sqlite3_split/analyze.c:725-745 | for the last row, rows below its prefix and rows sharing it are all rows |
| `IndexRows.DistinctUpToLast` | other/testCode/sqlite3_split/analyze.c:862-862 | the number of distinct prefixes is one more than the distinct prefixes below the last row |
| `IndexRows.EstimatesDescend` | other/testCode/sqlite3_split/analyze.c:861-867 | the stat1 estimates never increase from one key column to the next |
| `StatText.PrintCounts` | other/testCode/sqlite3_split/analyze.c:908-916 | printing each count with a space and cutting the last space gives the separated list |
| `StatText.DecodeIntArray` | other/testCode/sqlite3_split/analyze.c:1442-1458 | the loop reads the first nOut integers of a list modulo the width of the row-count type, and with each its logarithmic estimate |
| `StatText.PrintedDecodes` | other/testCode/sqlite3_split/analyze.c:1442-1458 | decoding a printed list returns its first nOut numbers, for all numbers that fit the row-count type |
| `LogEstimate.ComputeLogEst` | other/testCode/sqlite3_split/util.c:1353-1364 | shifting by four and by one until the table applies gives the same as halving one step at a time |
| `LogEstimate.LogEstDoubles` | other/testCode/sqlite3_split/util.c:1349-1364 | twice the count has an estimate ten higher |
| `LogEstimate.LogEstMonotone` | other/testCode/sqlite3_split/util.c:1349-1364 | a larger count never has a smaller estimate |
| `LogEstimate.LogEstNearLog` | other/testCode/sqlite3_split/util.c:1349-1364 | the estimate lies between ten times the logarithm to the base two rounded down and ten more |
| `LogEstimate.SmallIsNearest` | other/testCode/sqlite3_split/util.c:1353-1364 | below 16 the estimate is ten times the logarithm rounded to the nearest integer |
| `LogEstimate.EstimateIsClose` | other/testCode/sqlite3_split/util.c:1349-1364 | for every count the estimate is at most one half too high and at most two too low |
| `BitvecModel.Bitvec.constructor` | other/testCode/sqlite3_split/bitvec.c:115-123 | a new vector is valid and empty |
| `BitvecModel.BitvecCreate` | other/testCode/sqlite3_split/bitvec.c:115-123 | creation gives a valid empty vector of the requested size, or fails for lack of memory |
| `BitvecModel.Bitvec.TestNotNull` | other/testCode/sqlite3_split/bitvec.c:130-152 | the result is membership, for every index including zero and those beyond the size, in all three representations |
| `BitvecModel.BitvecTest` | other/testCode/sqlite3_split/bitvec.c:153-155 | a null vector holds nothing |
| `BitvecModel.Bitvec.Descend` | other/testCode/sqlite3_split/bitvec.c:134-141 | a split node passes the question on to one sub-vector, which answers it for the remainder, or has no sub-vector and does not hold the index |
| `BitvecModel.Bitvec.HeldBelow` | other/testCode/sqlite3_split/bitvec.c:134-141 | the bin of an index exists, and the index is held exactly when its remainder is held there |
| `BitvecModel.Bitvec.TestLeaf` | other/testCode/sqlite3_split/bitvec.c:142-151 | a bitmap or hash node answers with membership |
| `BitvecModel.Bitvec.Set` | other/testCode/sqlite3_split/bitvec.c:169-232 | with enough memory it succeeds; success adds exactly the index; after a failure the vector is valid and holds nothing but old members and the index, and it is unchanged unless a hash node on the way to the index was split; a split happens only where the node was half full and colliding, or full, and then always if the call succeeds; the nested re-insertion terminates |
| `BitvecModel.Bitvec.SetSub` | other/testCode/sqlite3_split/bitvec.c:175-183 | the same for a split node: what the sub-vector does with the remainder is what happens to the index, and only a sub-vector that had to split can lose anything |
| `BitvecModel.Bitvec.EnsureSub` | other/testCode/sqlite3_split/bitvec.c:178-181 | allocating a sub-vector changes no set and no condition for splitting, whether it succeeds or not |
| `BitvecModel.Bitvec.AddSub` | other/testCode/sqlite3_split/bitvec.c:178-181 | the bin has a new empty sub-vector or, if memory runs out, still none |
| `BitvecModel.Bitvec.SetIn` | other/testCode/sqlite3_split/bitvec.c:175-183 | success and failure of the sub-vector, and its splits, are those of the node |
| `BitvecModel.Bitvec.SetChild` | other/testCode/sqlite3_split/bitvec.c:175-183 | the set of the node follows the set of the sub-vector, and other sub-vectors are untouched |
| `BitvecModel.Bitvec.SetInBitmap` | other/testCode/sqlite3_split/bitvec.c:184-187 | a bitmap node gains exactly the index |
| `BitvecModel.Bitvec.PlaceInHash` | other/testCode/sqlite3_split/bitvec.c:228-231 | a hash node with room gains exactly the index, and its probing order stays intact |
| `BitvecModel.Bitvec.SetHash` | other/testCode/sqlite3_split/bitvec.c:188-231 | a hash node takes the index in place, or splits exactly when it is half full and the home slot is taken, or when it is full |
| `BitvecModel.Bitvec.Split` | other/testCode/sqlite3_split/bitvec.c:209-227 | a split preserves the set plus the new index; one that cannot start changes nothing; a failed re-insertion loses indexes but adds none |
| `BitvecModel.Bitvec.Divide` | other/testCode/sqlite3_split/bitvec.c:216-220 | a hash node becomes a split node with the right divisor that holds nothing |
| `BitvecModel.Bitvec.Reinsert` | other/testCode/sqlite3_split/bitvec.c:221-223 | the old hash values are all re-inserted unless memory runs out |
| `BitvecModel.BitvecSet` | other/testCode/sqlite3_split/bitvec.c:169-171 | setting in a null vector succeeds and does nothing; otherwise it succeeds with enough memory, and a failure leaves the set unchanged unless the state before the call forced a split |
| `BitvecModel.Bitvec.Clear` | other/testCode/sqlite3_split/bitvec.c:240-272 | the set loses exactly the index, without allocating, in all three representations, also for an index beyond the size that its arrays can still hold |
| `BitvecModel.BitvecClear` | other/testCode/sqlite3_split/bitvec.c:240-241 | clearing in a null vector does nothing, and otherwise removes exactly the index |
| `BitvecModel.Bitvec.ClearInBitmap` | other/testCode/sqlite3_split/bitvec.c:252-253 | a bitmap node loses exactly the index |
| `BitvecModel.SizesFor` | other/testCode/sqlite3_split/bitvec.c:41-70 | 512 bytes give 3968 bits, 124 hash slots and 62 sub-vectors with pointers of eight bytes, and 4000, 125 and 125 with pointers of four; the rest is proved for all sizes |
| `BitvecModel.DivisorIsQuotient` | other/testCode/sqlite3_split/bitvec.c:219-219 | the divisor is the size over the number of sub-vectors, rounded up, and that many sub-vectors cover the size |
| `BitvecModel.BinInRange` | other/testCode/sqlite3_split/bitvec.c:219-219 | every index of a split node falls into one of the NPTR bins, and its remainder fits the sub-vector |
| `BitvecModel.BinInner` | other/testCode/sqlite3_split/bitvec.c:175-177 | bin and remainder determine the index |
| `LinearProbe.Probe` | other/testCode/sqlite3_split/bitvec.c:145-150 | walking from the home slot ends at the value, or at an empty slot with the value absent |
| `LinearProbe.FindFree` | other/testCode/sqlite3_split/bitvec.c:262-267 | walking from the home slot ends at the first empty one |
| `LinearProbe.PlaceKeeps` | other/testCode/sqlite3_split/bitvec.c:228-231 | filling the first empty slot on the way keeps the probing invariant, adds the value and counts it |
| `LinearProbe.AbsentIfNotMet` | other/testCode/sqlite3_split/bitvec.c:145-150 | a value not met before an empty slot is nowhere in the table |
| `LinearProbe.Rebuild` | other/testCode/sqlite3_split/bitvec.c:255-271 | re-inserting all values but one gives a well-placed table of exactly the remaining values, with the right count |
| `Bits.SetBitAt` | other/testCode/sqlite3_split/bitvec.c:185-185 | or-ing one bit into the bitmap sets that bit and no other |
| `Bits.ClearBitAt` | other/testCode/sqlite3_split/bitvec.c:253-253 | and-ing one bit out of the bitmap clears that bit and no other |
| `Bits.MaskTells` | other/testCode/sqlite3_split/bitvec.c:142-143 | masking the element with a shifted one finds the bit of that place |
| `BitvecBuiltinTest.SetLinear` | other/testCode/sqlite3_split/bitvec.c:303-303 | the linear array gains exactly the bit |
| `BitvecBuiltinTest.ClearLinear` | other/testCode/sqlite3_split/bitvec.c:304-304 | the linear array loses exactly the bit |
| `BitvecBuiltinTest.BuiltinTest` | other/testCode/sqlite3_split/bitvec.c:337-410 | for every program, with its random operands: the result is -1 only for lack of memory, 0 if the operations applied leave the same bits in the vector and in the linear array, and otherwise the first bit in which they differ; a program without the fault-injecting opcode never reports a difference |
| `BitvecBuiltinTest.Apply` | other/testCode/sqlite3_split/bitvec.c:377-386 | one operation: both sets become what the trace of operations, one longer, says; opcode 5 passes the vector by |
| `BitvecBuiltinTest.Fetch` | other/testCode/sqlite3_split/bitvec.c:357-376 | operand, repeat count and instruction counter move as one step of the instruction machine, and the bit is the one its operand names |
| `BitvecBuiltinTest.FetchNext` | other/testCode/sqlite3_split/bitvec.c:357-376 | the trace of the run grows by the fetched operation; an instruction is left or its repeat count goes down |
| `BitvecBuiltinTest.RunProgram` | other/testCode/sqlite3_split/bitvec.c:355-387 | the loop reaches the halt opcode having applied one execution of the program to both, or runs out of memory |
| `BitvecBuiltinTest.NoFaultNoDifference` | other/testCode/sqlite3_split/bitvec.c:357-386 | without opcode 5 every execution leaves the same bits in both, whatever the modified operands become |
| `BitvecPrograms.ExecutionHasMeaning` | other/testCode/sqlite3_split/bitvec.c:315-323 | every execution of a program of opcodes 1, 2 and 5 applies exactly the operations its instructions stand for, in order, although the interpreter overwrites their operands |
| `BitvecPrograms.RunHasMeaning` | other/testCode/sqlite3_split/bitvec.c:356-376 | the same from any instruction on |
| `BitvecPrograms.InstructionTouches` | other/testCode/sqlite3_split/bitvec.c:319-323 | an instruction with operands N, S and X whose bits lie within the size touches bits S, S+X, S+2X and so on, N of them |
| `BitvecPrograms.LastDecides` | other/testCode/sqlite3_split/bitvec.c:378-386 | the last operation on a bit decides whether the linear array holds it |
| `BitvecPrograms.VectorIsUndisturbed` | other/testCode/sqlite3_split/bitvec.c:325-329 | the vector holds what the operations other than opcode 5 leave |
| `BitvecPrograms.FaultIsReported` | other/testCode/sqlite3_split/bitvec.c:325-336 | a fault injected from bit S on is reported as S, unless memory runs out |
| `BitvecBuiltinTest.Compare` | other/testCode/sqlite3_split/bitvec.c:394-402 | the final comparison returns 0 exactly when both agree on every index, and otherwise the first on which they do not |
| `BackupSteps.Run` | other/testCode/sqlite3_split/backup.c:356-596 | for every sequence of steps, page writes, truncations, external changes and restarts: the source is what these make of it, pages below iNext stay copied, a destination that is rolled back gets its original content, and after DONE some step of the sequence left in the destination the source as the events before that step had made it, with a new schema version; with equal page sizes and no faults the backup never fails |
| `BackupSteps.Happen` | other/testCode/sqlite3_split/backup.c:356-735 | one event of such a run: the source becomes what the event makes of it; only a step ends a backup with DONE, and then the destination is complete; a backup that has ended stays as it is; a step while the source is being written is busy and copies nothing; a step that returns OK has copied the number of pages asked for |
| `BackupSteps.SourceChanges` | other/testCode/sqlite3_split/backup.c:689-735 | every change of the source has its effect on the source and keeps the backup in step, registered or not |
| `BackupSteps.WriteEvent` | other/testCode/sqlite3_split/backup.c:689-716 | a page written inside the source or right behind it becomes part of the source, and no registered backup misses anything |
| `BackupSteps.BackupStep` | other/testCode/sqlite3_split/backup.c:356-596 | a step keeps the invariant; DONE means that the destination agrees with the source at every offset outside the source lock page and the header fields rewritten at commit, or, for an empty source, that it is a new database, and that its schema version is another one than before; a step while the source is being written returns BUSY and copies nothing; a destination that cannot take the pages makes the step fail and stays as it is; if nothing goes wrong the result is determined by the state; a finished or failed backup is left alone |
| `BackupSteps.StepPages` | other/testCode/sqlite3_split/backup.c:371-440 | the same for a backup that has not ended, with everything below iNext copied, attached if anything was, or a fatal code |
| `BackupSteps.OpenTransactions` | other/testCode/sqlite3_split/backup.c:371-412 | a source that is being written by a user of the connection is busy and nothing is opened; a destination with a write-ahead log and another page size is refused; success means the destination is locked, with its content and schema version at that time kept |
| `BackupSteps.CopyPages` | other/testCode/sqlite3_split/backup.c:419-431 | each pass copies one page or skips the lock page; the copied part grows with iNext; an in-memory destination with another page size takes no page; without faults the loop runs to its end |
| `BackupSteps.CopyNextPage` | other/testCode/sqlite3_split/backup.c:420-430 | one pass: iNext advances, and on success the copied part with it; it fails only if something goes wrong or the destination cannot take the page |
| `BackupSteps.CopyAndComplete` | other/testCode/sqlite3_split/backup.c:419-571 | the remaining-page counters describe the source, and running out of pages leads to completion |
| `BackupSteps.CompleteCopy` | other/testCode/sqlite3_split/backup.c:447-571 | completing a copy gives the whole source, a new database if the source is empty, or a fatal code |
| `BackupSteps.CommitNew` | other/testCode/sqlite3_split/btree.c:3009-3046 | a backup of an empty source leaves a database of one page with the header and empty root page of a new one, or a fatal code |
| `BackupSteps.CommitCopy` | other/testCode/sqlite3_split/backup.c:463-571 | for any pair of page sizes: the new schema version, commit, direct write of the tail and truncation leave the whole source |
| `BackupSteps.Rehead` | other/testCode/sqlite3_split/backup.c:452-461 | the schema version becomes the one after that of the original destination, and the format versions those of a write-ahead log if it uses one; no other content changes |
| `BackupSteps.WriteRest` | other/testCode/sqlite3_split/backup.c:463-562 | tail and truncation complete the copy and leave the header alone |
| `BackupSteps.WriteLockPageTail` | other/testCode/sqlite3_split/backup.c:535-550 | the source pages inside the larger destination lock page are written directly, and nothing else changes |
| `BackupSteps.WriteTail` | other/testCode/sqlite3_split/backup.c:537-550 | the direct-write loop copies exactly its range |
| `BackupSteps.DestTruncateCovers` | other/testCode/sqlite3_split/backup.c:479-512 | the truncation size is positive and covers the source, or is the page before the destination lock page with the source ending inside that page |
| `BackupSteps.AttachBackupObject` | other/testCode/sqlite3_split/backup.c:344-351 | the backup becomes the head of the list of the source |
| `BackupSteps.BackupFinish` | other/testCode/sqlite3_split/backup.c:601-647 | the backup leaves the list, others stay; the result is OK for DONE and the code otherwise; without DONE the destination is back to its original content |
| `BackupSteps.Detach` | other/testCode/sqlite3_split/backup.c:619-625 | unlinking removes one backup and keeps the others registered |
| `BackupSteps.BtreeCopyFile` | other/testCode/sqlite3_split/backup.c:746-798 | a whole-file copy gives the whole source with a new schema version, or an error and an unchanged target; without faults it succeeds for equal page sizes and for destinations that are neither in memory nor use a write-ahead log |
| `BackupSteps.CopiedSkippingLock` | other/testCode/sqlite3_split/backup.c:421-421 | skipping the lock page loses nothing that has to be copied |
| `OnlineBackup.Backup.constructor` | other/testCode/sqlite3_split/backup.c:190-197 | a new backup starts at page 1, detached, with nothing locked |
| `OnlineBackup.Backup.BackupOnePage` | other/testCode/sqlite3_split/backup.c:235-321 | on success exactly the bytes of the page are written, except on the destination lock page; for page 1 the size field is the page count unless the copy is an update; an in-memory destination with another page size is read-only; nothing else fails without a fault |
| `OnlineBackup.Backup.CopyChunks` | other/testCode/sqlite3_split/backup.c:293-318 | one pass for each destination page that a source page spans writes all of it |
| `OnlineBackup.Backup.CopyOneChunk` | other/testCode/sqlite3_split/backup.c:293-318 | one pass extends the written part of the page by one chunk |
| `OnlineBackup.Backup.CopyChunk` | other/testCode/sqlite3_split/backup.c:294-317 | a chunk on the destination lock page is skipped, any other is written in place |
| `OnlineBackup.Backup.Locate` | other/testCode/sqlite3_split/backup.c:295-302 | page number and offset in the page address the byte meant, and the lock page is recognised |
| `OnlineBackup.Backup.Update` | other/testCode/sqlite3_split/backup.c:697-711 | a reported page below iNext is written again or the backup fails, which it does not without a fault; others are left alone |
| `OnlineBackup.FollowedWriteKeepsCopied` | other/testCode/sqlite3_split/backup.c:697-711 | writing a reported page again keeps everything below iNext copied, unless the write brings an unreported byte below iNext into being |
| `OnlineBackup.GapLosesStep` | other/testCode/sqlite3_split/backup.c:697-711 | whenever a write does that, there are contents for which the backup falls out of step |
| `OnlineBackup.NoGapWithinReach` | other/testCode/sqlite3_split/backup.c:697-711 | a page inside the database, right behind it, or behind the lock page that ends it, never does |
| `OnlineBackup.SourcePager.WritePage` | other/testCode/sqlite3_split/backup.c:714-716 | the source holds the written page, however far behind its end, and every registered backup that misses nothing in front of it stays in step |
| `OnlineBackup.SourcePager.BackupUpdate` | other/testCode/sqlite3_split/backup.c:689-713 | the walk over the list updates every backup exactly once, and each that misses nothing stays in step |
| `OnlineBackup.SourcePager.BackupRestart` | other/testCode/sqlite3_split/backup.c:729-735 | after a restart every backup is at page 1, and so is trivially in step with any content |
| `OnlineBackup.SourcePager.ExternalChange` | other/testCode/sqlite3_split/backup.c:729-735 | a change by another connection, followed by a restart, keeps every backup in step |
| `OnlineBackup.SourcePager.TruncateTo` | other/testCode/sqlite3_split/backup.c:414-419 | an unreported truncation keeps every backup in step |
| `PageGeometry.SmallerDivides` | other/testCode/sqlite3_split/backup.c:293-302 | of two page sizes that are powers of two the smaller divides the larger |
| `PageGeometry.LockPageNumber` | other/testCode/sqlite3_split/backup.c:421-421 | page number and byte offset agree about which page holds the lock bytes |
| `PageGeometry.SmallPageFits` | other/testCode/sqlite3_split/backup.c:293-311 | a smaller page never straddles two larger ones |
| `ByteImage.CopiedNextPage` | other/testCode/sqlite3_split/backup.c:419-431 | writing the next page extends the copied part by that page |
| `ByteImage.CopiedAfterUpdate` | other/testCode/sqlite3_split/backup.c:697-711 | writing a changed page again keeps the copied part |
| `ByteImage.FullyCopiedSameSize` | other/testCode/sqlite3_split/backup.c:551-562 | unless the source ends with its lock page, the destination has the same size |
| `ByteImage.SchemaVersionChanges` | other/testCode/sqlite3_split/backup.c:442-455 | the schema version of a finished backup differs from that of the original destination |
| `ByteImage.Reheaded` | other/testCode/sqlite3_split/backup.c:452-461 | the rewritten header reads back as the new schema version and the format versions meant |
| `ByteImage.NewHeaderReadsBack` | other/testCode/sqlite3_split/btree.c:2876-2893 | the header of a new database is read back as the page size, reserved bytes and settings it was made from |
| `BtreeMutex.EveryRunIsOk` | other/testCode/sqlite3_split/btmutex.c:73-220 | the locking invariant holds at every moment of every run of any number of connections, in any interleaving |
| `BtreeMutex.MovesKeep` | other/testCode/sqlite3_split/btmutex.c:73-220 | every micro-step of every call keeps the invariant |
| `BtreeMutex.LockStepKeeps` | other/testCode/sqlite3_split/btmutex.c:107-139 | try, release of later locks, blocking lock and ascending relock each keep it |
| `BtreeMutex.TaskStepKeeps` | other/testCode/sqlite3_split/btmutex.c:203-220 | each round of the enter-all and leave-all loops keeps it |
| `BtreeMutex.CallKeeps` | other/testCode/sqlite3_split/btmutex.c:73-154 | starting any permitted call keeps it |
| `BtreeMutex.LockAssertions` | other/testCode/sqlite3_split/btmutex.c:29-52 | the assertions about locked, mutex ownership and BtShared.db hold at every lock and unlock |
| `BtreeMutex.WaitsAboveHeld` | other/testCode/sqlite3_split/btmutex.c:107-139 | a blocked thread holds only mutexes with smaller addresses than the one it waits for |
| `BtreeMutex.NoCircularWait` | other/testCode/sqlite3_split/btmutex.c:107-139 | no group of threads waits in a circle, although databases are entered in list order |
| `BtreeMutex.UnblockedCanMove` | other/testCode/sqlite3_split/btmutex.c:107-139 | a thread inside a call that is not blocked has a next step |
| `BtreeMutex.SomeThreadCanMove` | other/testCode/sqlite3_split/btmutex.c:107-139 | if any thread is blocked, some mutex holder is not and can go on, by a step or by releasing what it holds |
| `BtreeMutex.NoRunDeadlocks` | other/testCode/sqlite3_split/btmutex.c:107-211 | at no moment of any run is there a deadlock: whenever a thread waits, a mutex holder that does not wait can go on |
| `BtreeMutex.LeaveAllIsCounted` | other/testCode/sqlite3_split/btmutex.c:145-154 | every leave inside leave-all finds a positive count |
| `BtreeMutex.BetweenCalls` | other/testCode/sqlite3_split/btmutex.c:88-95 | between calls locked is equivalent to wantToLock being positive and to holding the mutex, BtShared.db names the holder, and no two connections hold the same mutex |
| `BtreeMutex.NestedEnterLeave` | other/testCode/sqlite3_split/btmutex.c:73-154 | enter and leave inside a held lock cancel out |
| `BtreeMutex.PairRestores` | other/testCode/sqlite3_split/btmutex.c:73-220 | between the moment a connection begins an enter or enter-all and the moment its matching leave or leave-all has returned, with any steps of other connections and any contention in between, all its counts, lock flags and mutexes are restored |
| `BtreeMutex.BalancedCallsRestore` | other/testCode/sqlite3_split/btmutex.c:73-220 | the same for any nesting of calls that take back what they took |
| `BtreeMutex.CountsAreNet` | other/testCode/sqlite3_split/btmutex.c:73-220 | between any two moments of a run the count of a b-tree changes by exactly what the calls of its own connection add, calls in progress counted as if they had returned |
| `BtreeMutex.MoveChangesExpected` | other/testCode/sqlite3_split/btmutex.c:107-220 | a single step of any connection changes that count only by beginning a call |
| `BtreeMutex.EnterAllHolds` | other/testCode/sqlite3_split/btmutex.c:203-251 | once enter-all has returned, and until calls take more away than they add, all mutexes are held and leave-all may be called |
| `BtreeMutex.CallsEnd` | other/testCode/sqlite3_split/btmutex.c:107-220 | a call ends after a bounded number of steps of its own thread, however often it has to wait in between |
| `BtreeMutex.LongestCall` | other/testCode/sqlite3_split/btmutex.c:73-220 | the bound for each kind of call |
| `BtreeMutex.NoStepsLeft` | other/testCode/sqlite3_split/btmutex.c:107-220 | a thread that has used up its steps is outside all calls |
| `BtreeMutex.UncontendedEnter` | other/testCode/sqlite3_split/btmutex.c:107-118 | an enter that finds the mutex free takes it and lets go of nothing |
| `FixWalk.FixTwice` | other/testCode/sqlite3_split/attach.c:491-523 | the fixer succeeds exactly when no source that can be reached names another database and no variable can be reached outside schema loading; then every source that can be reached is pinned, no variable that can be reached is left, and a second run changes and reports nothing |
| `FixWalk.FixTriggerTwice` | other/testCode/sqlite3_split/attach.c:567-584 | the same for the steps of a trigger |
| `FixWalk.WalkTells` | other/testCode/sqlite3_split/attach.c:461-584 | the same for any list of visits |
| `FixWalk.FixView` | other/testCode/sqlite3_split/attach.c:491-523 | one run over a SELECT in these terms, and what cannot be reached is left alone |
| `FixWalk.FixTrigger` | other/testCode/sqlite3_split/attach.c:567-584 | one run over the steps of a trigger in these terms |
| `FixReach.VisitedIffReached` | other/testCode/sqlite3_split/attach.c:461-584 | the walkers visit exactly the nodes that can be reached by following the links of every kind of node, field by field |
| `FixWalk.Fixer.FixInit` | other/testCode/sqlite3_split/attach.c:428-445 | the fixer for database 1 looks at variables only |
| `FixWalk.Fixer.FixExpr` | other/testCode/sqlite3_split/attach.c:524-549 | the walk over the left spine performs the visits of the expression in order, up to the first objection |
| `FixWalk.Fixer.FixExprNode` | other/testCode/sqlite3_split/attach.c:528-545 | one node: the operator, then subquery or arguments, then the right operand |
| `FixWalk.Fixer.FixOperands` | other/testCode/sqlite3_split/attach.c:538-545 | the operands of a node in order |
| `FixWalk.Fixer.FixExprList` | other/testCode/sqlite3_split/attach.c:550-563 | the expressions of a list in order |
| `FixWalk.Fixer.FixSrcList` | other/testCode/sqlite3_split/attach.c:461-489 | the sources of a list in order |
| `FixWalk.Fixer.FixSource` | other/testCode/sqlite3_split/attach.c:472-486 | one source: the item, its subquery, its ON clause |
| `FixWalk.Fixer.FixSelect` | other/testCode/sqlite3_split/attach.c:491-523 | the SELECTs of a compound, last to first |
| `FixWalk.Fixer.FixQuery` | other/testCode/sqlite3_split/attach.c:496-519 | all eight clauses of one SELECT in order |
| `FixWalk.Fixer.FixTriggerStep` | other/testCode/sqlite3_split/attach.c:567-584 | the steps of a trigger in order |
| `FixWalk.Fixer.VisitExprNode` | other/testCode/sqlite3_split/attach.c:529-536 | a variable becomes NULL during schema loading and is an error otherwise |
| `FixWalk.Fixer.VisitSourceItem` | other/testCode/sqlite3_split/attach.c:472-482 | a source that names another database is an error; any other loses its name and gets the schema |
| `DbFixer.SucceedsIff` | other/testCode/sqlite3_split/attach.c:461-563 | a run of visits succeeds exactly when none of them objects to the tree as it was, even if nodes are shared |
| `DbFixer.AllPinned` | other/testCode/sqlite3_split/attach.c:471-482 | after success nothing that was visited is left to fix |
| `DbFixer.SecondRun` | other/testCode/sqlite3_split/attach.c:461-563 | a second run succeeds and changes nothing |
| `DbFixer.OnlyVisitedChange` | other/testCode/sqlite3_split/attach.c:461-563 | nodes not visited keep their content, and visited ones change only as allowed, also after a failure |
| `DbFixer.RunAppend` | other/testCode/sqlite3_split/attach.c:461-563 | visiting one list of nodes after another stops at the first objection of either |

## Left out

- Only the first copy of each `sqlite3_split` file is modelled; the others repeat its text.
- `analyze.c`: VDBE code generation, opening and clearing the statistics tables, and loading statistics through SQL. The program that drives the accumulator is modelled as a loop over rows.
- `analyze.c`: computing the left-most changed column from collations and NULLs. It is a precondition of a push, and `Analyze.Scan` computes it on column ranks. The shortcut for single-column UNIQUE indexes is not modelled.
- `analyze.c`: the STAT3-only and STAT-free configurations, and memory management of rowid blobs and of the accumulator's arrays.
- `analyze.c`: overflow of row counts. Counts are unbounded; only decoding is done modulo the width of the type.
- `analyze.c`: the index flags that may follow the integers of a stat1 text.
- Stat4.Stat4Accum.SampleInsert: needs what the code asserts about a candidate as preconditions; `Stat4.InsertAllowed` shows that they always hold.
- Stat4.Stat4Accum.StatPush: models the rows of one index and not more rows than were announced to the constructor, which is what the caller provides.
- `bitvec.c`: the union is three fields of which one is in use. Destroying a vector is not modelled.
- BitvecModel.Bitvec.Set: the loop that descends to a sub-vector is a recursion, and so it is in BitvecModel.Bitvec.Clear; the loop of BitvecModel.Bitvec.TestNotNull is a loop.
- BitvecModel.Bitvec.Clear: needs the index to stay inside the arrays of the node, which the code assumes as well; it may exceed the size.
- BitvecBuiltinTest.BuiltinTest: operands are unbounded integers; the code adds them as 32-bit ones.
- `backup.c`: pager cache, journal, WAL and operating system files; they are one byte image for each database and a saved copy of the destination. The loop that journals pages before a direct write has no effect on the images.
- `backup.c`: the codec, error reporting through connections, transaction ends on the source, page-size negotiation at initialisation and while a backup runs, and connection mutexes.
- BackupSteps.CommitNew: the change counter, the size field and the fields of the version that last wrote the file are arbitrary afterwards, as they are for any other copy.
- BackupSteps.CopyPages: page numbers are unbounded; the counter of remaining pages is reduced to 32 bits.
- BackupSteps.BtreeCopyFile: needs at most 2147483647 source pages, the largest step that can be asked for.
- BackupSteps.Run: an event that does not fit the source, such as a page written behind a gap, has no effect in a run.
- `btmutex.c`: the model is a state machine over values instead of updates in place, because its steps interleave. Each connection is used by one thread, which holds the connection mutex. Cursor mutexes, schema mutex checks and the array of mutexes are not modelled.
- `attach.c`: ATTACH and DETACH themselves, and the texts of error messages, of which only the number is kept.
- `alter.c`, `auth.c`, `btree.c`, `pager.c`, `util.c` and the other files and directories of the repository, apart from the lines cited above: mostly dispatch and code generation, and otherwise components of their own.
