# LokDarpan, verified

A Dafny model of the algorithms LokDarpan's guarantees rest on, with proofs of those guarantees.
Each one is promised in prose by the repository; here it is proved of a model that takes the same
branches, uses the same constants and refuses in the same places.

| part | modules | what is proved of it |
|---|---|---|
| Refresh of the reviewed ledger | `Figures`, `RefreshPlan` ... `RefreshRun`, `RefreshReadings`, `RefreshWritten`, `RefreshLedger` | the refresh's own check of its work, planning every report again and refusing to commit if anything differs, passes exactly when the source reads the second time as it did the first; a decided figure is never deleted, and exactly when it keeps its own decision; a second refresh writes nothing |
| Loading extracted facts | `FactsLoad`, `FactsLoadHolds`, `FactsLoadRows`, `FactsLoader` | decisions are respected, every row and every count is accounted for, and exactly when undecided leftovers go and when a second load is idle, whatever order its rows come back in |
| The client's cache | `CacheModel`, `CacheHolds`, `ResourceCaches` | a bounded, single-flight, least-recently-read cache whose watermark never falls, in every interleaving of reads, answers and failures |
| Snapshot reads of the ledger | `LedgerReads` | every query started before `read` settles sees the state the watermark describes; one query at a time, in order, none stalled, the ending statement included; exactly when a version is a correct cache key |
| Import directions | `ImportPaths`, `ImportDirections`, `ImportChecker` | the check is exact: every report is a real import under a shortest chain, and no reachable import that breaks a rule is missed or repeated |
| From a figure back to its page | `PageText`, `TextItems`, `Sentences`, `FigureRegions` | offsets survive joining, cleaning, collapsing and splitting, so a figure with any ink in it has a box, around the items it was printed by |
| Exact money | `Blanks`, `Decimals`, `PublishedAmounts`, `RupeeMoney`, `RupeeDisplay` | conversion to the paisa or refusal, print and read-back, Indian grouping as the one text of its shape, figures never rounded up, and two subtractions that agree |
| What a rate is per | `Denominators` | a bounded grammar, and for every text at all exactly which unit of it is read |
| Bilingual pairing | `FigureLink` | a matching, every value counted once, and no dependence on the order of the facts |
| Places and bodies | `Places`, `PlaceMatches`, `Mentions`, `PlaceMentions`, `PublicBodies` | matches are apart and each place is proposed once a page; a confirmed taluka is mentioned as the one taluka of its name; both mention loaders converge within their scope |
| Treasury rows | `TreasuryRows` | read by column name, whatever order the columns stand in |

Objects whose methods change them are classes (`TargetLedger`, `FactTable`, `ResourceCache`,
`MentionTable`, `BodyRegister`); their methods are proved equal to functions of the old state, and
the theorems are about those functions. Loops of the program are loops here, under invariants.
Protocols are step systems, and their theorems are about every run. Tables are sequences of rows
with an identity counter; a database is what its statements do to them, foreign keys included.
`Wrappers` and `Positions` hold what several parts share.

## Where the code and its own comments differ

- `promote-refresh.ts` says a decision is never deleted, and that one that differs is copied. The first
  is so of a decided figure the source no longer has. A matched one takes the source's columns, with the review trigger disabled, so a
  verified figure can become unverified and nothing keeps what it was: `VerifiedFigureIsUndone` gives
  the case and `DecisionSurvivesExactly` says when a decision stays. Its check that nothing is left to
  do reads the source again, outside any transaction: `CommitsWhenReadAgain` says, of the two readings
  and the target before the run, when it passes.
- `facts-load.ts` says it retires rows the parser stopped producing. Two held rows of one identity
  shadow each other, and the earlier is never looked at: `ShadowedLeftoverStays` gives the case and
  `LeftoversGoUnlessShadowed` says exactly when every leftover goes. Its query orders no rows, so which of
  two rows shadows the other can change from one load to the next: `SecondLoadIsIdleExactly` says when a
  second load has nothing to do in any order, and `SameOrderIsIdleExactly` when it has in the same one,
  where only a leftover uncovered by the first is left to retire. The reason of a verdict is rewritten only with the
  state or the unit: `VerdictLands` says exactly when a verdict arrives whole, and `StaleReasonStays`
  gives a table in which it does not.
- `ledger.ts` calls the watermark a correct cache key because every load advances it. Version ids are
  drawn when a load opens its version and loads may commit in another order, so
  `VersionIsAKeyExactlyInOrder` says when it is one and `OutOfOrderLoadIsUnseen` gives two loads for
  which it is not. COMMIT does not go through the queue, so the snapshot covers queries started before
  `read` settles and no others (`LateQueryEscapes`).
- `amount.ts` drops commas after trimming, so a comma next to the white space around a figure keeps
  that white space in and the figure is refused: `CommasMatterOnlyBesideSpace`, with the case in
  `ACommaBesideASpaceMatters`.
- `validation.ts` says a denominator is worded as the page words it, and stops at a comma, a semicolon or
  a bracket. The mark that stands directly after a word is consumed with the word (validation.ts:222), so
  the test for one (validation.ts:258) sees only a mark after a space or after another mark:
  `GapsPlayNoPart`. "month, day charges" is read as "month day" (`MonthRunsIntoDay`, `CommaIsRunAcross`);
  `MarkEndsTheUnitExactly` says when a unit with such a mark does end there.
- `validation.ts` says a unit without "per" runs to two words. It runs to four (`MeasureNounsRunOn`).
  Its last guard, against a digit in a unit, can never fire (`DigitGuardNeverFires`).
- `bodies-load.ts` and `places-load.ts` say a second run writes nothing. It changes no body and no
  mention, but each run opens a dataset version, which is a row and moves the watermark.

## Model

| member | source | states |
|---|---|---|
| Figures.KeysAreDistinct | services/ingestion/src/cag/promote-refresh.ts:133-143 | identity plus ordinal is a key: no two figures of one report share one |
| Figures.KeyIsHeld | services/ingestion/src/cag/promote-refresh.ts:133-148 | looking a figure's key up finds that figure and no other |
| Figures.FetchOrderIsIrrelevant | services/ingestion/src/cag/promote-refresh.ts:286-302 | keys do not depend on the order the database returns rows in, since they are sorted by id first |
| Figures.OrderIsUnique | services/ingestion/src/cag/promote-refresh.ts:286-302 | rows in id order are determined by which rows they are |
| Figures.KeysOf | services/ingestion/src/cag/promote-refresh.ts:133-143 | the counting loop gives every figure the key the specification gives it |
| RefreshPlan.SettledMeansAgrees | services/ingestion/src/cag/promote-refresh.ts:229-256 | a plan is empty if and only if the two sides agree, stated without the planner: columns, links and history equal, nothing undecided left over |
| RefreshPlan.PlanAccountsForEveryFigure | services/ingestion/src/cag/promote-refresh.ts:164-246 | source figures split into skipped, matched and inserted, unmatched target figures into retired and stranded, with nothing counted twice |
| RefreshPlanner.PlanRefresh | services/ingestion/src/cag/promote-refresh.ts:229-246 | the planner's maps and loops compute the plan the theorems are about |
| RefreshPlanner.Matched | services/ingestion/src/cag/promote-refresh.ts:164-189 | one pass finds exactly the inserts, the differing columns and the differing links |
| RefreshPlanner.UnmatchedFigures | services/ingestion/src/cag/promote-refresh.ts:191-201 | undecided figures the source lacks are retired, decided ones only counted |
| RefreshPlanner.MissingHistory | services/ingestion/src/cag/promote-refresh.ts:203-222 | exactly the source decisions the target does not hold under the same key |
| RefreshApply.GoneIsRetired | services/ingestion/src/cag/promote-refresh.ts:191-201 | a row is deleted exactly when it is undecided and its key is past the source's group |
| RefreshApply.KeepCount | services/ingestion/src/cag/promote-refresh.ts:304-363 | retiring never disturbs an ordinal the source uses |
| RefreshPlaces.InsertCount | services/ingestion/src/cag/promote-refresh.ts:304-363 | how each group of equal figures grows as the inserts go in one at a time |
| RefreshPlaces.EveryKeyIsFound | services/ingestion/src/cag/promote-refresh.ts:304-363 | once the figures are in, every source key is found in the target, matched or newly inserted |
| RefreshRows.MatchedKeepsKey | services/ingestion/src/cag/promote-refresh.ts:304-363 | a matched figure keeps its identity-plus-ordinal key through retirement and insertion |
| RefreshRows.MatchedRowCarries | services/ingestion/src/cag/promote-refresh.ts:60-78 | a matched row ends reading as its source figure reads, decision included |
| RefreshRows.StrandedRow | services/ingestion/src/cag/promote-refresh.ts:191-201 | a remaining row the source does not know is a decided one |
| RefreshLinks.PlaceLinked | services/ingestion/src/cag/promote-refresh.ts:340-363 | after any number of link writes each row holds its own figure's link and no other's |
| RefreshLinks.SettledLinkStands | services/ingestion/src/cag/promote-refresh.ts:304-363 | a link already right is not disturbed by the deletions around it, which set links to deleted rows to null |
| RefreshHolds.ApplyWrites | services/ingestion/src/cag/promote-refresh.ts:304-363 | no key lookup of the write can fail, for any source and any stored target |
| RefreshHolds.RefreshConverges | services/ingestion/src/cag/promote-refresh.ts:458-469 | the plan made again after the write is empty, for groups of equal figures of any size on either side |
| RefreshDecisions.DecidedFiguresStay | services/ingestion/src/cag/promote-refresh.ts:164-201 | every decided target figure is still there after the write with its history: unmatched, with its own columns; matched, with its source figure's |
| RefreshDecisions.DecisionSurvivesExactly | services/ingestion/src/cag/promote-refresh.ts:173-183 | status, reviewer, time, correction and note stay if and only if the source has no figure under the key, or one with the same decision |
| RefreshDecisions.VerifiedFigureIsUndone | services/ingestion/src/cag/promote-refresh.ts:173-183 | a verified figure matched to an unverified one ends unverified, with no history of what it was |
| RefreshHolds.CopyAgrees | services/ingestion/src/cag/promote-refresh.ts:229-256 | a report with nothing read from a scan needs nothing from a copy of itself, however the copy is numbered |
| RefreshStorable.PlanIgnoresForeign | services/ingestion/src/cag/promote-refresh.ts:416-423 | writing other reports changes nothing a report's earlier plan relied on |
| RefreshRun.PlanStep | services/ingestion/src/cag/promote-refresh.ts:451-453 | writing one report's plan succeeds, settles that report and leaves the others agreeing |
| RefreshRun.WritingHolds | services/ingestion/src/cag/promote-refresh.ts:451-453 | writing every plan never fails; each report then agrees with the source it was planned from and its decisions are what that source makes of them; untouched reports lose only links to deleted rows |
| RefreshRun.RefreshCommitsExactly | services/ingestion/src/cag/promote-refresh.ts:408-481 | with something to do, a refresh goes through if and only if each source, read again, agrees with the report written; refused or dry, it changes nothing |
| RefreshReadings.WrittenHistories | services/ingestion/src/cag/promote-refresh.ts:203-222 | under a key of the source the written report holds the decisions it held and the source's, and no other |
| RefreshWritten.OldRowBecomes | services/ingestion/src/cag/promote-refresh.ts:164-201 | every row the target had is deleted if and only if it is unverified and the source has no figure under its key; decided and unmatched it keeps everything but a link to a deleted row; matched it keeps id, identity and reading and takes the source's columns |
| RefreshWritten.NewRowIsCopied | services/ingestion/src/cag/promote-refresh.ts:304-330 | every row with a new id copies a figure of the source read from the text layer whose key the target lacked, with no reading of its own |
| RefreshWritten.TextFactsAre | services/ingestion/src/cag/promote-refresh.ts:229-246 | the figures that take part are exactly those not read from a scan, in order |
| RefreshWritten.HistoryIsHandedOver | services/ingestion/src/cag/promote-refresh.ts:203-222 | the history of a written report, row by row: the target's rows whose figures are not retired, in order, then one row for each row of the source's under a text figure whose decision the target lacked there, with that decision and the time it was superseded; the plan lists as many |
| RefreshReadings.AgreesAgainExactly | services/ingestion/src/cag/promote-refresh.ts:229-256 | a report written from one reading agrees with another if and only if the other has the same figures, columns and links under the same keys, lacks none but decided ones, and supersedes no decision that neither the first reading nor the target had |
| RefreshReadings.CommitsWhenReadAgain | services/ingestion/src/cag/promote-refresh.ts:408-481 | so a refresh with something to do goes through if and only if every source reads again as it did: a condition on the two readings and the target before the run |
| RefreshRun.RefusalNamesTheFirst | services/ingestion/src/cag/promote-refresh.ts:458-469 | a refusal is never a failed lookup, and names the first report its source no longer agrees with |
| RefreshRun.ChangedSourceIsRefused | services/ingestion/src/cag/promote-refresh.ts:458-469 | a source figure decided or changed between the two readings makes the refresh refuse |
| RefreshRun.RefreshNeverRefuses | services/ingestion/src/cag/promote-refresh.ts:408-481 | while the source stands still the refusal never happens, every refreshed report agrees, and every decided figure stays with the decision the source makes it |
| RefreshRun.RefreshKeepsDecisionExactly | services/ingestion/src/cag/promote-refresh.ts:408-481 | over a whole run, which decisions of the target survive |
| RefreshRun.RefreshStaysConsistent | services/ingestion/src/cag/promote-refresh.ts:408-481 | whatever it answers, the target it leaves can be refreshed again: ids apart between reports and below the sequence |
| RefreshRun.RefreshIsIdempotent | services/ingestion/src/cag/promote-refresh.ts:408-481 | a second refresh finds nothing to do |
| RefreshLedger.TargetLedger.Apply | services/ingestion/src/cag/promote-refresh.ts:304-363 | the statements, run one by one in the program's order, have the effect the theorems are about |
| RefreshLedger.TargetLedger.Recheck | services/ingestion/src/cag/promote-refresh.ts:458-469 | the second planning reports the first report that still differs, if any |
| RefreshLedger.TargetLedger.Refresh | services/ingestion/src/cag/promote-refresh.ts:408-481 | the whole run, planning all before writing any and checking against a second reading of the source, answers and leaves what the specification says, next id included, and can be called again |
| FactsLoad.DedupeKeepsTheDenominator | services/ingestion/src/cag/facts-load.ts:310-327 | one candidate per identity is kept: the first with a denominator, or the first of all if none has one |
| FactsLoadHolds.DedupedOffers | services/ingestion/src/cag/facts-load.ts:319-329 | deduplication loses no identity and invents none |
| FactsLoadHolds.DecisionsAreRespected | services/ingestion/src/cag/facts-load.ts:108-187 | no decided row is deleted and no decision changes, whatever the parser produces |
| FactsLoadHolds.RowsAreAccountedFor | services/ingestion/src/cag/facts-load.ts:302-365 | rows after are rows before plus inserted minus retired |
| FactsLoader.LoadedIds | services/ingestion/src/cag/facts-load.ts:264-365 | a load keeps row ids distinct and below the next |
| FactsLoadHolds.LeftoversGoUnlessShadowed | services/ingestion/src/cag/facts-load.ts:350-355 | every undecided row no longer produced is removed if and only if none is shadowed by a later row of its identity |
| FactsLoadHolds.ShadowedLeftoverStays | services/ingestion/src/cag/facts-load.ts:226-259 | the case in which one stays |
| FactsLoadHolds.VerdictLands | services/ingestion/src/cag/facts-load.ts:108-187 | after a load every held row produced again is there with the state, unit and reading confidence of its candidate, and with its reason if and only if the state or unit differed, or the reason already agreed |
| FactsLoadRows.OfferedGetsARow | services/ingestion/src/cag/facts-load.ts:268-300 | an identity offered that no row states gets one row, with a new id, unverified and reviewed by nobody, and otherwise as its candidate and the parser say |
| FactsLoadRows.EveryNewRowIsOffered | services/ingestion/src/cag/facts-load.ts:268-348 | and every row with a new id is such a row |
| FactsLoadRows.RowBecomes | services/ingestion/src/cag/facts-load.ts:108-187 | of the rows of an identity the last one, produced again, keeps its review and becomes what its candidate makes of it column by column; unproduced it goes if undecided; no other row is touched |
| FactsLoadRows.CountsAreOf | services/ingestion/src/cag/facts-load.ts:330-365 | each count reported is the number of the identities or rows it is about |
| FactsLoadHolds.StaleReasonStays | services/ingestion/src/cag/facts-load.ts:108-187 | a loaded table whose row keeps a reason the parser no longer gives |
| FactsLoadHolds.LoadedIsDistinct | services/ingestion/src/cag/facts-load.ts:302-365 | a load keeps identities distinct |
| FactsLoadHolds.ProducedHasRow | services/ingestion/src/cag/facts-load.ts:335-348 | every identity produced has a row afterwards |
| FactsLoadHolds.SecondLoadIsIdleExactly | services/ingestion/src/cag/facts-load.ts:207-365 | for any table, the same candidates loaded again change no row, in whatever order the rows come back, if and only if each row the first load found shadowed needed nothing |
| FactsLoadHolds.SameOrderIsIdleExactly | services/ingestion/src/cag/facts-load.ts:302-365 | where the rows come back in the order they were left, a second load inserts, refreshes and locates nothing, and changes no row if and only if the first uncovered no undecided leftover under one it retired |
| FactsLoadHolds.LoadConverges | services/ingestion/src/cag/facts-load.ts:302-365 | so over distinct identities a second load is idle, in any order of its rows |
| FactsLoadHolds.LoadAgrees | services/ingestion/src/cag/facts-load.ts:302-365 | over distinct identities: one row for each produced, no undecided unproduced row, every decided row kept with its decision |
| FactsLoader.FactTable.Reconcile | services/ingestion/src/cag/facts-load.ts:108-187 | the column-by-column updates bring one row, and no other, to its reconciled form, and report what they did |
| FactsLoader.FactTable.HeldByIdentity | services/ingestion/src/cag/facts-load.ts:190-261 | the map built from the table holds, for each identity, its last row |
| FactsLoader.FactTable.Dedupe | services/ingestion/src/cag/facts-load.ts:319-327 | the map built from the candidates is the deduplication the theorems are about, in order |
| FactsLoader.FactTable.LoadFactCandidates | services/ingestion/src/cag/facts-load.ts:302-365 | the loader leaves exactly the loaded table, reports exactly its counts, and leaves a table it can be called on again |
| CacheHolds.EveryRunIsSound | apps/web/src/lib/resource-cache.ts:52-155 | in every interleaving: one entry a URL, never over the capacity it was made with, in order of last read, the watermark the largest version resolved, entries below it settled after its last rise, at most two fetches a miss |
| CacheHolds.RisesAscend | apps/web/src/lib/resource-cache.ts:138-147 | subscribers hear strictly rising watermarks, ending at the current one |
| CacheHolds.MaxIsLargest | apps/web/src/lib/resource-cache.ts:62-65 | the watermark is a version some read resolved to, and none is larger |
| CacheHolds.RiseDropsTheOlder | apps/web/src/lib/resource-cache.ts:138-147 | a rise leaves no settled entry below the new watermark |
| CacheHolds.ReplyIsJudged | apps/web/src/lib/resource-cache.ts:108-136 | a first answer is taken unless some resolved answer is newer, and is then asked for once more; the second answer is taken whatever it says; a refusal fails the request; nothing else changes |
| CacheHolds.AnswerSettles | apps/web/src/lib/resource-cache.ts:81-86 | the answer taken, payload and all, is what its request resolves to |
| CacheHolds.FailureRemovesOnlyItself | apps/web/src/lib/resource-cache.ts:87-92 | a failed read is rejected and gives up its own entry, never one a later read of the URL made |
| CacheHolds.HitStartsNothing | apps/web/src/lib/resource-cache.ts:72-79 | reading a held URL starts no request and drops nothing |
| CacheHolds.MissEvictsTheLeastRecent | apps/web/src/lib/resource-cache.ts:81-98 | a miss evicts only entries read before all that stay, and never the one just added |
| ResourceCaches.ResourceCache.Read | apps/web/src/lib/resource-cache.ts:72-98 | a read shares the held request or starts one, as the step system's read does |
| ResourceCaches.ResourceCache.Peek | apps/web/src/lib/resource-cache.ts:67-70 | a settled answer if the URL holds one, and no request |
| ResourceCaches.ResourceCache.Judge | apps/web/src/lib/resource-cache.ts:108-136 | the reply's effect is the step system's; asks again exactly for a first answer older than the watermark |
| ResourceCaches.ResourceCache.OnResolved | apps/web/src/lib/resource-cache.ts:81-86 | a resolution settles its entry and raises the watermark, as the step system's does |
| ResourceCaches.ResourceCache.OnFailed | apps/web/src/lib/resource-cache.ts:87-92 | a failure is the step system's: compared by entry, not by URL |
| ResourceCaches.OneEntryPerUrl | apps/web/src/lib/resource-cache.ts:72-80 | no two held entries are for one URL |
| LedgerReads.WatermarkIsNewest | packages/database/src/ledger.ts:47-60 | the version stated is the highest committed, with the time that one was opened, and 0 with no time only for an empty ledger |
| LedgerReads.VersionIsAKeyExactlyInOrder | packages/database/src/ledger.ts:15-22 | different states state different versions if and only if loads commit in the order they opened theirs |
| LedgerReads.OutOfOrderLoadIsUnseen | packages/database/src/ledger.ts:15-22 | two loads committing out of order change the ledger without changing its version |
| LedgerReads.StepIsSound | packages/database/src/ledger.ts:72-88 | one step of any kind keeps the order, the snapshot and the refusal after a failure |
| LedgerReads.EveryRunIsSound | packages/database/src/ledger.ts:62-114 | what every step of a read keeps while loads commit, queries are issued and any of them fail |
| LedgerReads.ReadsAreConsistent | packages/database/src/ledger.ts:90-114 | every query started before `read` settles gives the described snapshot if it gives rows; at most one runs; they settle in order |
| LedgerReads.EachGetsItsOwn | packages/database/src/ledger.ts:62-88 | a query started before `read` settles gives the snapshot's rows unless it or an earlier one fails; its own failure is its own, and every later one is then refused |
| LedgerReads.LateQueryEscapes | packages/database/src/ledger.ts:103-113 | one started later can give another state than the response is labelled with |
| LedgerReads.LateQueryExists | packages/database/src/ledger.ts:72-114 | a query issued in time and still waiting when `read` settles becomes such a one |
| LedgerReads.NothingStalls | packages/database/src/ledger.ts:62-113 | while a query is unsettled, in any phase, some query can start or settle or the ending statement can end, bringing the read nearer to done |
| LedgerReads.EveryQueryCanSettle | packages/database/src/ledger.ts:62-113 | whichever queries fail, and whatever phase the read is in, every one issued gets an outcome |
| LedgerReads.AnsweredExactly | packages/database/src/ledger.ts:90-114 | a read that is over was answered if and only if its caller's `read` resolved and the first statement then sent to end the transaction went through |
| LedgerReads.FailedStartIsFinal | packages/database/src/ledger.ts:96-113 | a read may fail at any point before its caller is handed anything, and then hands out nothing, runs no query and is never answered |
| ImportPaths.Normalise | packages/architecture/src/import-directions.ts:208-216 | the push-and-pop loop gives the specified path |
| ImportPaths.NormalisedIsNormal | packages/architecture/src/import-directions.ts:208-216 | a normalised path holds only names, and normalising again changes nothing |
| ImportPaths.SplitUndoesJoin | packages/architecture/src/import-directions.ts:208-216 | splitting a joined path gives its parts back |
| ImportPaths.RelativeImportClimbs | packages/architecture/src/import-directions.ts:179-216 | a relative specifier is read from its file's own directory: each `..` climbs one, none above the root, and names descend; the file is the module path itself, with an extension, its index, or the `.ts` of a `.js` |
| ImportPaths.OtherImportsLead | packages/architecture/src/import-directions.ts:179-198 | the alias leads under the web application's sources; a package leads to no file |
| ImportDirections.NewIsShortest | packages/architecture/src/import-directions.ts:262-283 | a file first met is met by a shortest chain |
| ImportDirections.AllReached | packages/architecture/src/import-directions.ts:262-283 | when the queue is empty every reachable file has been visited |
| ImportDirections.ReportHolds | packages/architecture/src/import-directions.ts:265-276 | one violation for each judged edge occurrence of each visited file, under that file's chain |
| ImportChecker.CheckFile | packages/architecture/src/import-directions.ts:253-285 | the search ends, visits each reachable file once under a shortest chain, and reports exactly its breaking edges |
| ImportChecker.ReportIsExact | packages/architecture/src/import-directions.ts:253-298 | each violation is a real import under a real shortest chain that breaks the rule, and each reachable one is reported: a forbidden specifier anywhere, a name not allowed only in the start file, with the reason saying which |
| ImportChecker.EachBreakOnce | packages/architecture/src/import-directions.ts:253-285 | the report holds one violation for each breaking import of each file visited, in order, and no other |
| ImportDirections.JudgeIsRight | packages/architecture/src/import-directions.ts:287-298 | an import that is not skipped has a reason if and only if its specifier is forbidden or, of the start file, it takes a name not allowed; the reason lists exactly the names not allowed, in order |
| ImportChecker.Check | packages/architecture/src/import-directions.ts:227-251 | the violations are the reports of every rule over every file in its scope, each pair once, one after another: nothing unjustified, missed or repeated |
| PageText.PageTextOf | services/ingestion/src/cag/extract.ts:115-148 | the join, and each item's range in it |
| PageText.JoinSpellsItems | services/ingestion/src/cag/extract.ts:115-148 | each range spells its item, and ranges run on in order from start to end, a line feed after each item that ends a line and nothing else between |
| PageText.JoinedIsItems | services/ingestion/src/cag/extract.ts:115-148 | every character joined is a line break or some item's |
| PageText.MovedNext | services/ingestion/src/cag/extract.ts:186-200 | a surviving character sits at its moved offset; any other moves nothing on |
| PageText.RangeSpellsSurvivors | services/ingestion/src/cag/extract.ts:173-181 | any raw range is, in the stored text, exactly its surviving characters |
| PageText.CleanIsSurvivors | services/ingestion/src/cag/extract.ts:186-198 | the stored text is the storable characters with ink on both sides, or ink themselves |
| PageText.CharacterClasses | services/ingestion/src/cag/extract.ts:76-76 | the control characters dropped are those below the space but tab, line feed and carriage return; white space is ECMAScript's |
| TextItems.Span | services/ingestion/src/cag/extract.ts:206-216 | the first and last surviving characters found by the inner loop are the item's moved range |
| TextItems.CleanWithItems | services/ingestion/src/cag/extract.ts:182-220 | the text and the item ranges move together, for any ranges, in bounds or not |
| TextItems.MovedItemSpellsSurvivors | services/ingestion/src/cag/extract.ts:204-219 | an item is dropped exactly when none of its characters survive, and otherwise spells those that do |
| TextItems.MovedStayInOrder | services/ingestion/src/cag/extract.ts:182-220 | cleaning keeps ranges in bounds, ordered and disjoint |
| TextItems.PageItemsAreOrdered | services/ingestion/src/cag/extract.ts:115-220 | so they are for every page as read |
| TextItems.PageItemsSpellTheirText | services/ingestion/src/cag/extract.ts:115-220 | a stored item has its printed box and spells what survives of its printed text |
| TextItems.EveryCharacterHasItsItem | services/ingestion/src/cag/extract.ts:115-220 | every stored character but a line break lies in the item it was printed by |
| TextItems.BoxIsSmallest | services/ingestion/src/cag/extract.ts:150-171 | a box exists if and only if some item begins before the range ends and ends after it begins; it covers all such items and lies within any box that does |
| Sentences.CollapseWhitespace | services/ingestion/src/cag/facts.ts:433-448 | the collapsing loop, with the page position of each character it keeps |
| Sentences.CollapsedIsSingleSpaced | services/ingestion/src/cag/facts.ts:433-448 | the collapsed text holds no two spaces together |
| Sentences.BreakIsExactly | services/ingestion/src/cag/facts.ts:407-407 | a sentence breaks at a full stop if and only if what stands before it ends in no abbreviation (M/s, No or Rs as a word, or a capital) and white space and then a capital, a rupee sign or an opening bracket follow |
| Sentences.SentenceRanges | services/ingestion/src/cag/facts.ts:451-468 | the pieces the breaks leave, separators dropped whole |
| Sentences.PiecesHoldNoBreak | services/ingestion/src/cag/facts.ts:407-407 | no piece runs across a break |
| Sentences.PiecesKeepTheRest | services/ingestion/src/cag/facts.ts:451-468 | every other inked character is in a piece |
| Sentences.LocatedSentencesOf | services/ingestion/src/cag/facts.ts:470-483 | the sentences, trimmed, the empty ones left out |
| FigureRegions.SentenceReadsItsPage | services/ingestion/src/cag/facts.ts:409-414 | positions strictly rise, each character is the page's own or a space for white space, only white space is passed over, and ends are inked |
| FigureRegions.SentencesAreApart | services/ingestion/src/cag/facts.ts:470-483 | sentences come in page order and share nothing |
| FigureRegions.NoTextIsLost | services/ingestion/src/cag/facts.ts:451-483 | an inked character in no sentence is a break's full stop |
| FigureRegions.NoSentenceHoldsABreak | services/ingestion/src/cag/facts.ts:407-483 | no sentence runs across a break |
| FigureRegions.FigureTracesBack | services/ingestion/src/cag/facts.ts:777-788 | a match with any ink has a box; each inked character of it was printed by an item the range touches, and the box covers that item |
| Decimals.ParseUndoesWritten | services/ingestion/src/beams/amount.ts:14-14 | the amount grammar is exactly what its printer writes |
| PublishedAmounts.AmountIsExact | services/ingestion/src/beams/amount.ts:64-91 | paise times ten to the fraction's length equal the signed digits times ten to the shift, or the figure is refused, exactly when it has more decimals than the shift |
| PublishedAmounts.MalformedExactly | services/ingestion/src/beams/amount.ts:64-73 | malformed is exactly neither an absence nor a written decimal |
| PublishedAmounts.AbsentExactly | services/ingestion/src/beams/amount.ts:16-66 | a text gives no figure, rather than zero or a refusal, if and only if it is blank, one to three dashes, null, or NA or N/A in any case |
| PublishedAmounts.CroresAreTenThousandThousands | services/ingestion/src/beams/amount.ts:93-101 | one text read in crores is ten thousand times it read in thousands |
| PublishedAmounts.CommasMatterOnlyBesideSpace | services/ingestion/src/beams/amount.ts:64-66 | dropping the commas leaves a reading as it was if and only if none of them shields white space from the trim, or what is left is neither an absence nor a decimal |
| PublishedAmounts.ACommaBesideASpaceMatters | services/ingestion/src/beams/amount.ts:64-73 | such a text |
| PublishedAmounts.ProseIgnoresCommasAndSpaces | services/ingestion/src/cag/facts.ts:500-534 | in prose, where all white space goes first, neither commas nor spaces matter |
| PublishedAmounts.ProseIsExact | services/ingestion/src/cag/facts.ts:500-534 | a figure in prose is exactly what its characters but commas and white space spell at the stated scale, or no value |
| RupeeMoney.ReadersAgree | packages/money/src/index.ts:28-39 | the value type reads p paise from a text exactly when the amount parser does at two places and there is no comma |
| RupeeMoney.PrintedReadsBack | packages/money/src/index.ts:88-94 | paise printed as rupees are read back as the same paise by both readers |
| RupeeMoney.MinusIsMoneys | packages/database/src/department-finance.repository.ts:74-84 | the repository's own subtraction is parse, subtract and print through the value type, negatives included |
| RupeeMoney.MinusAddsBack | packages/database/src/department-finance.repository.ts:74-84 | a difference is a contract amount, and adding back gives the first |
| RupeeDisplay.GroupingIsIndian | packages/money/src/index.ts:96-105 | grouping loses no digit and puts a comma after the third, fifth, seventh digit from the right, and so on |
| RupeeDisplay.GroupedByPlace | packages/money/src/index.ts:96-105 | the shape by position: counted from the right, a comma at 3, 6, 9 and nowhere else, none in front |
| RupeeDisplay.GroupedExactly | packages/money/src/index.ts:100-105 | a text is the grouping of some digits if and only if it spells them in that shape |
| RupeeDisplay.ScaledIsTheFloor | packages/money/src/index.ts:134-139 | the figure read back is the floor of a hundred times the rupees over the unit |
| RupeeDisplay.FormatNeverOverstates | packages/money/src/index.ts:110-139 | from a lakh on, in any style but the full one, the magnitude shown in lakh or crore is at most the amount's, short by less than its last place, under the amount's sign; lakh never shows a hundred |
| RupeeDisplay.FormatInFull | packages/money/src/index.ts:110-132 | in full, or below a lakh in any style, the text is the sign, the rupee sign and the whole rupees, grouped, with no zero in front |
| Denominators.DenominatorAfter | services/ingestion/src/cag/validation.ts:296-322 | the token loop ends and gives the specified reading |
| Denominators.UnitIsBounded | services/ingestion/src/cag/validation.ts:203-339 | a unit read is at most four words of the grammar, standing one after another at the head of the text, and the text goes on |
| Denominators.KeptIsAUnit | services/ingestion/src/cag/validation.ts:325-328 | with a trailing "per" gone a capture is a unit: it neither begins nor ends with "per" |
| Denominators.DigitGuardNeverFires | services/ingestion/src/cag/validation.ts:336-339 | a refusal is never the digit guard's |
| Denominators.WordIsTheTexts | services/ingestion/src/cag/validation.ts:220-237 | a word is a run of the text's own letters and stops, its gap passed over |
| Denominators.WordedIs | services/ingestion/src/cag/validation.ts:224-232 | a run loses its final stop if and only if it has no other |
| Denominators.PlainIs | services/ingestion/src/cag/validation.ts:233-236 | a word is looked up in lower case without the stops at its end |
| Denominators.EndsHereExactly | services/ingestion/src/cag/validation.ts:330-334 | a unit that nothing follows but white space, or white space and the mark of a cut, is not read |
| Denominators.ReadsTheUnitStated | services/ingestion/src/cag/validation.ts:203-339 | any text is read as a unit if and only if its first words are those of a unit of the grammar, and the unit ends after them |
| Denominators.UnitIsReadExactly | services/ingestion/src/cag/validation.ts:221-339 | wherever the words of a unit stand at the head of a text, abbreviated, spaced or punctuated in any way, they are read as it if and only if the unit ends there: at the limit, a mark the scan sees, no word, a word that does not belong, or a "per" with nothing to follow it |
| Denominators.PrintedUnitIsRead | services/ingestion/src/cag/validation.ts:221-339 | the same of words printed one after another, each of letters and stops and followed by white space or one mark |
| Denominators.GapsPlayNoPart | services/ingestion/src/cag/validation.ts:222-258 | a mark directly after a word is passed over: words printed with other marks or spaces between them, the last included, are read alike |
| Denominators.MarkEndsTheUnitExactly | services/ingestion/src/cag/validation.ts:249-285 | before a word other than "per" a unit ends, whatever mark stands after it, if and only if that word ends units, is no measure noun, or opens something else |
| Denominators.CommaIsRunAcross | services/ingestion/src/cag/validation.ts:222-258 | a first word, a comma, a measure noun and another word are read as the first two words |
| Denominators.MonthRunsIntoDay | services/ingestion/src/cag/validation.ts:222-258 | a text so read: "month, day charges" |
| Denominators.StopWordEndsTheUnit | services/ingestion/src/cag/validation.ts:110-157 | so a unit the sentence resumes after, at a stop word, is read as the unit |
| Denominators.MeasureNounsRunOn | services/ingestion/src/cag/validation.ts:208-209 | without "per" four words are read |
| FigureLink.PairFigures | services/ingestion/src/cag/figure-link.ts:72-108 | both loops: one pair for each value alone in both halves, the other groups counted for what they are |
| FigureLink.PairedExactlyWhenAlone | services/ingestion/src/cag/figure-link.ts:66-108 | two facts are paired if and only if they state one value in one document, the first on a Devanagari page and the second on a Latin one, and no other fact states it there on a page of either half |
| FigureLink.PairingIsAMatching | services/ingestion/src/cag/figure-link.ts:72-108 | no fact is in two pairs |
| FigureLink.EveryValueIsCounted | services/ingestion/src/cag/figure-link.ts:87-107 | pairs, ambiguous and unpaired add up to the distinct values of each document that stand on placed pages, and unpaired are those of one half alone |
| FigureLink.OrderDoesNotMatter | services/ingestion/src/cag/figure-link.ts:72-108 | the same facts in any order give the same pairs and counts |
| Places.ParseUndoesPlaceValue | services/ingestion/src/cag/places.ts:41-57 | a value reads back as its place if and only if the name is trimmed and not empty |
| Places.ParseExactly | services/ingestion/src/cag/places.ts:47-57 | how any value is read: trimmed, it ends in the word of a level, in any case, and what is before is the name; a blank name, or another ending, is no place |
| Places.BareNameDropsDistrict | services/ingestion/src/cag/places.ts:59-66 | a final word District, in any case, is dropped with the white space before it; any other name is only trimmed |
| Places.MatchableExactly | services/ingestion/src/cag/places.ts:70-91 | matched are a district of any bare name, and a taluka of at least four letters whose bare name one taluka has and no district |
| Places.GazetteerOf | services/ingestion/src/cag/places.ts:70-91 | exactly the matchable places, each once, longest name first |
| Places.TalukaResolves | services/ingestion/src/cag/places-load.ts:93-125 | every taluka of the gazetteer resolves to the one unit of that name |
| Places.DistrictResolves | services/ingestion/src/cag/places-load.ts:93-125 | a district resolves to the last unit of its name, unless its name is only the word District |
| Places.ResolveExactly | services/ingestion/src/cag/places-load.ts:93-125 | any value resolves to the last unit of the place it is read as, and to nothing where there is none |
| PlaceMatches.FirstUnclaimed | services/ingestion/src/cag/places.ts:104-114 | the first match overlapping no claim, or proof there is none |
| PlaceMatches.PlacesIn | services/ingestion/src/cag/places.ts:118-155 | on a page each place once, in the gazetteer's order in each sentence, at the first match no name tried earlier there claims; a place passed over had every match so claimed |
| Mentions.MentionTable.Agree | services/ingestion/src/cag/places-load.ts:127-158 | insert and delete make the table agree, and count what changed |
| Mentions.AgreesInScope | services/ingestion/src/cag/places-load.ts:138-158 | in scope exactly the wanted mentions, outside it what was there, and the counts balance |
| PlaceMentions.LoadPlaceMentions | services/ingestion/src/cag/places-load.ts:81-162 | the loader's loop wants each resolved fact once, lists the unresolved, and agrees |
| PlaceMentions.UnresolvedAreListed | services/ingestion/src/cag/places-load.ts:112-125 | the values listed as unresolved are those that resolve to nothing, in order |
| PlaceMentions.ConfirmedTalukaIsMentioned | services/ingestion/src/cag/places-load.ts:93-162 | from the gazetteer through confirmation to the map: the one taluka of that name and no other place |
| PublicBodies.BodyRegister.EnsureBody | services/ingestion/src/cag/bodies-load.ts:118-136 | a body is inserted only if its unit, kind and name are not held, and its id is found afterwards |
| PublicBodies.BodyRegister.LoadPublicBodies | services/ingestion/src/cag/bodies-load.ts:138-240 | the loader leaves the bodies, mentions and counts the theorems are about |
| PublicBodies.LoadKeepsBodies | services/ingestion/src/cag/bodies-load.ts:118-196 | no body is renamed or removed, none held twice, and every new department has its state's government as parent |
| PublicBodies.NewBodiesAreMadeFor | services/ingestion/src/cag/bodies-load.ts:138-196 | every body a load adds is under its version and is the one a confirmed fact names, or the government of a department's state; a department's parent is the government of its state by name and unit |
| PublicBodies.LoadCountsBodies | services/ingestion/src/cag/bodies-load.ts:138-196 | governments and departments counted are the bodies added, by kind |
| PublicBodies.UnplacedAreListed | services/ingestion/src/cag/bodies-load.ts:160-183 | the names listed as unplaced are those of the governments whose place is neither the document's state nor in the hierarchy, in order |
| PublicBodies.LoadAgrees | services/ingestion/src/cag/bodies-load.ts:104-240 | mentions in scope are each confirmed fact and the body of its name, at the document's state where it names that state or a department, else at the hierarchy's unit of that name; other mentions are untouched |
| PublicBodies.SecondLoadChangesNothing | services/ingestion/src/cag/bodies-load.ts:19-22 | a second load makes no body, adds and removes no mention, and lists the same names unplaced |
| TreasuryRows.LastIndex | services/ingestion/src/beams/parse.ts:126-129 | a row is wide enough for every required column exactly when it reaches past the last |
| TreasuryRows.ParseExport | services/ingestion/src/beams/parse.ts:199-226 | the row loop gives the specified rows, or the first refusal |
| TreasuryRows.ExportIsExact | services/ingestion/src/beams/parse.ts:119-226 | an export is refused where a required column is missing, where a row that is read has an amount that is not exact, naming the first, or where no row is read; otherwise it gives one row for each that is wide enough and has all four coordinates, in order |
| TreasuryRows.NormalisedAre | services/ingestion/src/beams/parse.ts:46-47 | a column's name is told by its characters but stops and white space, in order and in lower case |
| TreasuryRows.ColumnsMayMove | services/ingestion/src/beams/parse.ts:104-118 | permuting header and full rows together changes nothing, where names differ once normalised |
| TreasuryRows.AmountsAreTheirCells | services/ingestion/src/beams/parse.ts:96-161 | each amount is its own column's cell, read back to the paisa |
| TreasuryRows.TextsAreTheirCells | services/ingestion/src/beams/parse.ts:48-155 | each coordinate and each name is its own column's cell, its words a space apart, or none where the cell says nothing; the second column of English names speaks only where the first does not |
| TreasuryRows.MissingCellsStateNothing | services/ingestion/src/beams/parse.ts:96-161 | a column the header lacks, or the row stops short of, states no amount and no name |
| TreasuryRows.SilentRowAddsNothing | services/ingestion/src/beams/parse.ts:131-161 | a row too narrow or without a coordinate contributes nothing, wherever it stands |

## Left out

- Databases: SQL, transactions beyond all or nothing, triggers, checks and statement errors. A query is the rows it selects and a write is its effect on the table, ON DELETE SET NULL and ON DELETE CASCADE included. That every value written is read back the same is taken as given.
- String encodings of composite keys ("document|value", "unit:fact", JSON of an identity) are the tuples they encode.
- Floating point: box coordinates are real numbers here, and the sum that gives an item's far corner is exact. Where a load only copies coordinates and confidences they are integers.
- Strings are sequences of characters, or of UTF-16 code units where offsets are counted; Unicode normalisation is left out, and letter case is ASCII case.
- Regular expressions with no arithmetic in them are inputs: the forbidden patterns of an import rule, the opening patterns of a denominator, and where a sentence matches a place name. Sentence breaks, unit words, amounts and digit grouping are modelled in full.
- Reading TypeScript into import edges, and which paths are source or test files, are inputs of the import check; the memo of a file's edges is not modelled.
- The HTTP layer under the cache: a reply is a version and data, a version missing, or a failure. What a subscriber does when told is not modelled.
- LedgerReads models promises and the client as a step system of values rather than as objects: `tail` is the index of the query waited for, and a statement that fails inside the transaction makes the later ones refused. A lost connection is not modelled.
- Which documents are in scope of a mention load is an input. The two places queries differ here: candidates are proposed for a document filed anywhere below a state, and only documents filed at the state itself are loaded.
- The target of a refresh is taken to be written by the refresh alone; the source may change between its two readings, and each reading of a report is one state of it.
- RefreshReadings.CommitsWhenReadAgain: does not cover a figure that appears between the two readings and states what a decided figure of the target states; it may then be found in the report under that decided row. History rows are taken to belong to figures already numbered, as their foreign key requires.
- RefreshRun.RefreshNeverRefuses: source rows are taken in id order, as the source's query returns them, and target rows consistent: ids distinct across reports and below the sequence, every status one the schema allows.
- RupeeMoney.MinusIsMoneys: for decimal strings of the contract, which is what the column type gives; other texts, which one path refuses and the other truncates, are outside it.
- PlaceMatches.PlacesIn: nothing is claimed about the longest name across a page, because a name already seen on the page claims nothing in later sentences.
- PublicBodies.SecondLoadChangesNothing: about bodies and mentions; the dataset version each run opens is counted by `BodyRegister` and is not undone.
- Documents of the export that are not rows (its year, its unit declaration, its markup) are not part of TreasuryRows.
- The remaining extractors (names of contractors, officers and bodies, evidence windows, verdict rules other than the denominator), `promote.ts`, the migrator, the raw store, the licence gate, map labels and the user interface are not modelled.
