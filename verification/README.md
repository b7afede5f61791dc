# Verified model of the bank statement analyser

This project models the core of the service in Dafny and proves what it promises: how an upload
becomes stored files, how the analysis saga turns those into one stored analysis, how a reply of the
model becomes rows, and how the charts are drawn from the rows. Run `dafny verify dfyconfig.toml`.

| file | models |
|---|---|
| `Text.dfy`, `Scrub.dfy` | the string functions the code uses; the error scrubber |
| `Traces.dfy`, `Fragments.dfy`, `Survivors.dfy` | where an occurrence comes from when a text is replaced; when a secret is replaced whole; exactly which secrets survive |
| `Keys.dfy` | lexical path cleaning, key validation, and where the two blob stores put a key |
| `Calendar.dfy`, `Window.dfy` | civil dates with day numbers; which months a request asks for |
| `Groups.dfy`, `Tables.dfy`, `Charts.dfy`, `Series.dfy` | grouping and ordering; the rows; the chart queries; what each item of a page says of the rows |
| `Visualization.dfy` | the handler that anchors the window and assembles the page |
| `Convert.dfy` | the reply and its conversion into rows |
| `Store.dfy`, `StoreLaws.dfy` | statements, transactions with rollback, the copy protocol; the database invariant and footprints |
| `Saga.dfy`, `Pipeline.dfy`, `SagaLaws.dfy`, `Runs.dfy`, `Claims.dfy`, `Interleaving.dfy` | steps, hooks, retries and compensation; the handlers as methods on a store; laws of runs; when a step succeeds and how runs end; what the status may claim when hooks are lost; many sagas at once |
| `Uploads.dfy` | reading a multipart stream into the blob store, recording and queueing it |
| `EndToEnd.dfy` | from the reply, and from any run of the saga, to the charts |

Code that works by changing state is a class or a method with a loop (`Store.Store`,
`Store.RowIterator`, `Pipeline.Pipeline`, `Uploads.UploadHandler`, `Uploads.BlobStore`, the
scrubber's functions, the loops of `convert.go` and `mapSlice`). Each such method is proved to do to the
store what a function on the database says, and the laws are proved about those functions. Everything
the outside world decides (which statement, Put, Delete or read fails, what OCR and the model answer,
fresh uuids, the text of an error, whether a delivery is acknowledged) is a parameter ranging over all
values.

Go strings are modelled with one `char` per byte. Money is an integer number of cents and shares are
exact reals. A month is counted from year 0; `Charts.LabelsSortByMonth` shows that the `YYYY-MM` labels
the queries sort by say the same.

## Where the code and its description part

* A window counts calendar months. `README.md:157` and `internal/http/window.go:45-48` speak of the last
  months "that carry data". `Visualization.DefaultIsCarryingIff` gives the exact condition under which the
  default window selects those months' rows, and `Visualization.DefaultCanMissMonths` where it does not.
* With only `from` given, `internal/http/window.go:68-69` ends the window at the anchor and does not
  derive the other end from `months`, as the comment above it says. `Window.FromOnlySpansIff` says exactly when
  the window spans `months` months all the same; `Window.FromOnlyCanSpanMore` is a request where it spans twelve
  instead of three.
* Each phase of the scrubber can expose a secret its input did not contain, for some secrets. The exact
  condition on the secret is proved for each phase over all inputs. A secret that meets none of the three
  never survives, whatever the others are; `Survivors.SurvivesIff` says exactly which can,
  for every kept secret, and `redacted` is one.
* Replacing longest first leaves no fragment of a secret that contains another, but it can of one that another
  overlaps: `Fragments.SecretIsReplacedWhole` and `Fragments.OverlapLeavesFragment`.
* Validating a key twice is not the same as validating it once: `./C:x` becomes `C:x`, which is then
  rejected. `Keys.RevalidationIff` says exactly when.
* "Failed implies that no analysis is stored" is false when an analyze step committed but its
  acknowledgement was lost on the last attempt. `SagaLaws.FailedLeavesAnalysisIff` is the exact statement, and
  `Claims.FailedCanKeepAnalysis` such a run, for every retry budget.
* A lost write of a terminal hook can leave an upload `completed` with nothing stored. `Claims.StaleIff` is
  the exact condition over whole runs, and `Claims.StaleIsReached` shows both endings from a fresh run.

## Model

| member | source | states |
|---|---|---|
| Scrub.NewScrubber | internal/pipeline/scrub.go:33-46 | every configured value of at least 8 bytes besides outer space is kept as often as it is configured, and nothing else; longest first |
| Scrub.Clean | internal/pipeline/scrub.go:58-64 | the loop replaces every secret in the kept order, then folds white space and cuts, for any list of secrets |
| Scrub.Message | internal/pipeline/scrub.go:51-56 | an error without a text gives the fixed placeholder, any other its cleaned text |
| Scrub.Truncate | internal/pipeline/scrub.go:67-77 | the byte loop finds the last rune start at which the text and the ellipsis still fit |
| Scrub.TruncateKeepsRunes | internal/pipeline/scrub.go:66-77 | valid UTF-8 stays valid, so no rune is ever split, and no later rune start would have fitted |
| Scrub.ReplacingExposesIff | internal/pipeline/scrub.go:58-61 | a text can appear through replacing another secret exactly when it clashes with the marker, over all messages and secrets |
| Scrub.FoldingExposesIff | internal/pipeline/scrub.go:62 | a text can appear through folding white space exactly when it holds a single space that folding can produce |
| Scrub.CuttingExposesIff | internal/pipeline/scrub.go:67-77 | a text can appear through cutting exactly when it ends in dots that the ellipsis can supply |
| Scrub.ReplaceNeverCreates | internal/pipeline/scrub.go:58-61 | replacing one secret removes it and never recreates another one that does not clash with the marker |
| Scrub.NoSecretSurvives | internal/pipeline/scrub.go:22-31 | a configured secret that meets none of the three conditions occurs in no scrubbed message, whatever the other secrets are and in whatever order they are replaced |
| Survivors.OutlivesFoldIff | internal/pipeline/scrub.go:58-62 | exactly which secrets can still occur after every secret is replaced and white space folded, under some configuration and some message: those with single spaces only that clash with the marker or hold a space |
| Survivors.SurvivesIff | internal/pipeline/scrub.go:58-77 | for every kept secret: some configuration and some message let it through the whole of clean if and only if its white space is single spaces, it fits in the limit with the bytes that must surround its outer spaces, and it holds a space, ends in dots that the ellipsis supplies, or clashes with the marker where the rest of the marker fits beside it |
| Survivors.RedactedSurvives | internal/pipeline/scrub.go:58-64 | the configured secret `redacted` is in its own scrubbed message |
| Scrub.PlainSecretsAreScrubbable | internal/pipeline/scrub.go:33-46 | every kept secret without a space or bracket that is not the word `redacted` and does not end in a dot is covered by the theorem |
| Scrub.CleanIsIdempotent | internal/pipeline/pipeline.go:195-212 | scrubbing an error in the step and again in the hook loses nothing |
| Scrub.HarmlessIsKept | internal/pipeline/scrub.go:58-64 | a message of at most 400 bytes that quotes no secret and has no white space to fold is not touched |
| Scrub.FoldJoins | internal/pipeline/scrub.go:62 | folding keeps every word as it is, in order, and puts one space wherever any white space rune stood between two |
| Text.TrimMeaning | internal/pipeline/scrub.go:38 | trimming takes all the white space from both ends and nothing else |
| Text.SpaceIsUnicode | internal/pipeline/scrub.go:62 | reading UTF-8 byte by byte finds exactly the white space that Unicode lists |
| Fragments.SecretIsReplacedWhole | internal/pipeline/scrub.go:33-46 | longest first, when no secret clashes with the marker: when no occurrence of a secret or of one replaced before it reaches across either end of an occurrence of the secret, that occurrence becomes exactly one marker, and what stands on either side is scrubbed as if it stood alone |
| Fragments.OverlapLeavesFragment | internal/pipeline/scrub.go:42-44 | an occurrence that an earlier secret overlaps can leave its end behind the marker |
| Keys.AcceptedIff | internal/storage/storage.go:44-64 | a key is accepted exactly when it is not blank, not rooted, has no drive letter, and never climbs above its start; the result spells the names left |
| Keys.RevalidationIff | internal/storage/storage.go:44-76 | an accepted key's normal form is itself accepted, unchanged, unless normalising uncovered a drive letter or left only white space |
| Keys.RevalidationCanFail | internal/storage/storage.go:44-76 | both exceptions occur: `./` before any such name is accepted and the result is rejected |
| Keys.JoinComposes | internal/storage/local.go:120-130 | joining below a base keeps the base's elements and appends exactly the key's names |
| Keys.SecondCheckIff | internal/storage/local.go:120-130 | the containment check after joining fires exactly for the root `/`; under any other cleaned root it never does |
| Keys.BackendsAgree | internal/storage/s3.go:188-197 | two accepted keys name one object in the bucket exactly when they name one file on disk, and exactly when their names are the same |
| Keys.StorageKeyIsAccepted | internal/http/uploads.go:348-350 | the keys of uploads pass validation unchanged |
| Keys.StorageKeysAreDistinct | internal/http/uploads.go:348-350 | different files never share a key |
| Calendar.CivilRoundTrip | internal/http/window.go:22-41 | dates and day numbers are inverse to each other under the Gregorian leap rules, for every date and every number |
| Calendar.DayNumbersOrderDates | internal/http/window.go:22-41 | day numbers order dates as year, month and day do |
| Calendar.AddMonths | internal/http/window.go:71-75 | moving the first of a month by any number of months lands on the first of exactly that month |
| Calendar.LastDayOfMonth | internal/http/window.go:33-36 | one month on and one day back is the true last day of the month |
| Calendar.MonthTextRoundTrip | internal/http/window.go:38-41 | a month that parses is printed back as the text it came from |
| Calendar.MonthParses | internal/http/window.go:102-116 | the text of every month of a four-digit year is accepted and read as that month |
| Calendar.DayTextRoundTrip | internal/pipeline/convert.go:16-20 | the same for days, in both directions |
| Calendar.DayNumberIsClosed | internal/http/window.go:22-41 | day numbers follow from year, month and day by the leap rules in closed form |
| Window.PeriodIsItsMonths | internal/http/window.go:22-36 | a date lies in the period exactly when its month lies between the window's months, both included |
| Window.MonthsAsked | internal/http/window.go:86-100 | `months` is accepted exactly for the decimal text of a number from 1 to 12, a plus sign and leading zeros allowed, and read as that number; no text means three |
| Window.MonthNamed | internal/http/window.go:102-116 | `from` and `to` are accepted exactly for the text of a month of a four-digit year, and read as that month |
| Window.RejectedIff | internal/http/window.go:49-62 | which parameter a rejection names: the first, in the order months, from, to, that means nothing |
| Window.WindowResolution | internal/http/window.go:49-84 | the only rejection of parameters that mean something is a `from` after a given `to`; otherwise whole months in order, as many as `months` spells unless `from` is given, and given ends are printed back as supplied |
| Window.FromOnlySpansIff | internal/http/window.go:43-76 | with `from` alone, the window spans `months` months exactly when the anchor lies that far after `from`, or when one month is asked for and the anchor is not after it |
| Window.FromOnlyCanSpanMore | internal/http/window.go:43-76 | from 2024-01 with months absent and the anchor in December 2024, the window spans twelve months instead of three |
| Groups.GroupsConserve | internal/db/queries/visualization.sql:15-65 | summing the groups of any GROUP BY by any coarser key gives the sums of the rows by that key |
| Charts.SpendingAgrees | internal/db/queries/visualization.sql:15-52 | spending by month and category adds up by month to monthly spending, by category to the slices, and wholly to total spending; the slices' counts add up to the debits |
| Charts.SplitAgrees | internal/db/queries/visualization.sql:54-65 | essential plus discretionary is monthly spending, and each column adds up to the summary's figure |
| Charts.NetAgrees | internal/http/visualization.go:181-229 | monthly income and nets add up to the summary's, and the month count is the number of monthly rows |
| Charts.WindowSplits | internal/db/queries/visualization.sql:15-92 | cutting a window at any month boundary: every total and both counts add up, and each monthly series, the cells by month and category included, and the daily one is the one part's followed by the other's |
| Charts.BalancePoints | internal/db/queries/visualization.sql:67-79 | one point per date with a balance, strictly ascending, and each is the balance of that date's row with the highest id |
| Charts.SharesAreShares | internal/http/visualization.go:190-197 | each slice's share lies in 0 to 1 and the shares add up to 1, or to 0 when nothing was spent |
| Charts.NothingUncounted | internal/db/queries/visualization.sql:81-92 | income plus spending is the sum of all amounts when every row is a credit or a debit |
| Charts.ResultsAreOrdered | internal/db/queries/visualization.sql:37-52 | slices come largest first and cells month by month, ties by name |
| Charts.LabelsSortByMonth | internal/db/queries/visualization.sql:17-25 | sorting the `YYYY-MM` labels is sorting by month, for all years of four digits |
| Charts.EveryMonthHasDataIff | internal/db/queries/visualization.sql:81-92 | the month count never exceeds the months a window spans, and reaches it exactly when each of them has a row |
| Charts.Mapped | internal/http/visualization.go:270-276 | the appending loop converts every row, in order |
| Visualization.VisualizationHandler.BuildPresent | internal/http/visualization.go:144-212 | no charts exactly when one of the five reads fails; otherwise all five are drawn from the same window's rows |
| Visualization.VisualizationHandler.Get | internal/http/visualization.go:47-142 | a page is served exactly for a completed upload with an analysis, a window that resolves against its last month and no failing read on the way; each other reply has its exact cause; the page is that of the upload's own analysis |
| Visualization.LastMonthMeaning | internal/db/queries/visualization.sql:5-13 | the upper bound is the month of some row and none is later; there is none exactly without rows |
| Visualization.DefaultWindowEnds | internal/http/visualization.go:231-243 | without `from` and `to` the window ends with the last month that has a transaction, without any with the month of the analysis's period end, and without that with the current one |
| Visualization.DefaultWindowHolds | internal/http/visualization.go:231-243 | with only `months` given, an analysis with transactions never gets an empty window, and it leaves out exactly those `months` or more before the last |
| Visualization.DefaultIsCarryingIff | internal/http/window.go:43-76 | the default window selects exactly the rows of the last `months` months that carry data if and only if no row lies before it or each of its months has a row |
| Visualization.DefaultCanMissMonths | internal/http/window.go:43-76 | two rows further apart than the window is long: the earlier month carries data, is among the last that do, and is left out |
| Visualization.FromFirstMonthHoldsAll | internal/http/window.go:61-76 | asking from the first month with a transaction selects every one of them |
| Visualization.PageAgrees | internal/http/visualization.go:120-229 | on one page, points, slices, cells and the split add up to the summary, and the shares to 1 |
| Series.PageSays | internal/http/visualization.go:144-229 | item by item: a point for each month with a row with what came in and went out in it; a slice for each category money was spent on with its amount, count and share, largest first; a cell for each month and category; the split by the essential mark; averages that times the months give the points' sums, a savings rate that times income gives their net, and 0 for every zero denominator |
| Series.SavingsRateAtMostOne | internal/http/visualization.go:214-229 | with no negative amounts the savings rate is at most 1 |
| Convert.ConvertEach | internal/pipeline/convert.go:64-71 | the appending loop stops at the first entry that cannot be converted, and otherwise keeps all in order |
| Convert.BuildAnalysis | internal/pipeline/convert.go:42-74 | a reply that is missing is an error; otherwise the header and the converted entries |
| Convert.NoRowVanishes | internal/pipeline/convert.go:64-74 | a reply is converted row for row in its own order, or rejected naming the first bad index and its cause |
| Convert.StoredAmountMeaning | internal/pipeline/convert.go:133-159 | an amount written as a JSON number is stored as its magnitude, with its sign known |
| Convert.StoredRow | internal/pipeline/convert.go:77-110 | for JSON numbers: exactly which entries are refused; the others get the magnitude, credit exactly for an incoming wording, and the entry's own date, balance, texts without outer space and marks |
| Convert.DirectionMeaning | internal/pipeline/convert.go:112-131 | an incoming wording gives credit and an outgoing one debit, whatever the sign; any other gives debit with a minus sign, and without one an error that tells missing from unknown |
| Convert.WordMeans | internal/pipeline/convert.go:22-39 | each listed word means its side in any mixture of capitals and small letters |
| Convert.CentsIff | internal/pipeline/convert.go:147-159 | exactly which texts are read as how many cents |
| Convert.HeaderMeaning | internal/pipeline/convert.go:42-62 | the header's currency and period come from meta before analysis, a period end that is no date is none, and a section is none exactly when it is blank or null |
| Store.RowIterator.Next | internal/db/copyfrom.go:18-28 | calls of Next present each remaining row once and in order, the first call included |
| Store.Store.CopyFrom | internal/db/copyfrom.go:18-43 | the copy inserts exactly the iterator's rows, in order, under consecutive ids |
| Store.Store.CreateTransactions | internal/db/copyfrom.go:52-54 | the same for a slice of rows, with its count |
| Store.Store.ReplaceAnalysis | internal/db/store.go:128-165 | whichever statement fails, either the whole replacement is in the database or every table is as it was |
| Store.Store.CreateUploadWithFiles | internal/db/store.go:70-105 | whichever insert fails, either the upload and all its files are recorded or nothing is |
| Store.Store.SetUploadStatus | internal/db/queries/uploads.sql:9-15 | an unknown id is an error and changes nothing; otherwise that upload's status and reason change, its file count stays, and so does everything else |
| Store.Store.SetUploadFileOCR | internal/db/queries/upload_files.sql:21-25 | the text and page count of that file, and nothing else |
| Store.Store.DeleteAnalysisByUpload | internal/db/queries/analyses.sql:30-33 | the upload's analysis goes and its transactions cascade |
| StoreLaws.CallsKeepConsistent | db/migrations/00002_analyses.sql:6-40 | any sequence of calls, failing anywhere, leaves each upload with at most one analysis and every transaction referring to a live one |
| StoreLaws.ReplaceKeepsConsistent | internal/db/store.go:38-54 | a failed replacement changes no table; a successful one leaves exactly the new analysis |
| StoreLaws.ReplaceSucceedsIff | internal/db/store.go:128-165 | a replacement succeeds exactly when the upload exists, the analysis id is free or the upload's own, and no statement fails |
| StoreLaws.CreateKeepsConsistent | internal/db/store.go:70-105 | a recorded upload is new, pending, without an analysis, and its file rows are the given ones in order |
| StoreLaws.CreateSucceedsIff | internal/db/store.go:70-105 | an upload is recorded exactly when its id is new, it has files, no two rows old or new share a file id or a position in the upload, and no statement fails |
| StoreLaws.ReplacedRows | internal/db/store.go:145-158 | after a replacement the upload's rows are exactly the entries handed over, in order, with ascending ids |
| StoreLaws.FilesInOrder | internal/db/queries/upload_files.sql:14-19 | listed files come in ascending position, each of the upload's files exactly once |
| StoreLaws.DeleteUndoesReplace | internal/pipeline/steps.go:131-142 | deleting after a replacement leaves what deleting before it would have left, ids aside |
| StoreLaws.ReplaceTwice | internal/db/store.go:120-165 | repeating a replacement leaves what the last one alone leaves, up to ids |
| StoreLaws.ReplaceFootprint | internal/db/store.go:128-165 | a replacement touches nothing of any other upload |
| StoreLaws.DeleteFootprint | internal/db/queries/analyses.sql:30-33 | neither does a deletion |
| StoreLaws.OcrFootprint | internal/db/queries/upload_files.sql:21-25 | nor the storing of a text |
| Saga.DeliveryUsesBudget | internal/config/config.go:151-158 | every delivery uses up part of the measure: this hop's remaining attempts, then the hops still to come |
| Saga.RunsTerminate | internal/config/config.go:151-158 | every run reaches a terminal hook within MaxRetry+1 deliveries for each remaining step and for the compensation |
| Saga.FreshRunTerminates | internal/pipeline/pipeline.go:147-157 | from the start, five such budgets are enough |
| Runs.StepSucceedsIff | internal/pipeline/steps.go:16-155 | exactly when each step's handler succeeds, in terms of the database and of what statements, OCR and the model grant |
| Runs.OcrPassExact | internal/pipeline/steps.go:33-80 | an attempt at ocr finishes, in order of position, exactly the files without a text before the first that cannot be finished, each with the text and page count found for it, and keeps them when it fails there |
| Runs.GoodDelivery | internal/pipeline/pipeline.go:139-158 | an acknowledged success moves the run to the next step with a fresh budget, and from the last step to its end |
| Runs.BadDelivery | internal/pipeline/pipeline.go:139-158 | any other delivery is repeated while the budget lasts, and then the run gives up: into the rollback from the last step, into onFailed from an earlier one |
| Runs.FinishesIff | internal/pipeline/pipeline.go:147-157 | a run finishes if and only if each of its hops has an acknowledged success within its own MaxRetry+1 deliveries |
| Runs.ProsperousRunFinishes | internal/pipeline/steps.go:16-155 | such a run, whatever failed before each success, leaves the upload completed, every file with its text, and exactly the entries of a reply it got, in order |
| Runs.NothingFailsFinishes | internal/pipeline/steps.go:16-155 | when nothing fails, four acknowledged deliveries do that for every retry budget, the zero budget included |
| Runs.RollbackEnds | internal/pipeline/pipeline.go:147-157 | given its budget, a rollback is aborted if one of the deliveries undoes the analysis and is acknowledged, and stuck otherwise |
| Runs.ReasonsQuote | internal/pipeline/pipeline.go:230-276 | while hooks land, a failed run's reason is the name of the step that spent its budget, a colon, and the scrubbed error of the very delivery that spent the last of it; a stuck one's says that the rollback failed and quotes the compensation it stuck at; an unacknowledged delivery is quoted as the placeholder |
| SagaLaws.OcrPassMeaning | internal/pipeline/steps.go:33-80 | one attempt, wherever it stops, only adds texts to files without one, as many as it wrote, each the one OCR returned for that very file; success leaves none missing |
| SagaLaws.OcrResumes | internal/pipeline/steps.go:27-80 | over any sequence of attempts no text is lost or rewritten, the writes number exactly the files newly finished, and after a success analyze misses no text |
| SagaLaws.DeliveryIsSafe | internal/pipeline/steps.go:16-155 | every delivery, with any error, retry or lost acknowledgement, keeps the phase invariant while the hook's write lands |
| SagaLaws.CompletedMeansComplete | internal/pipeline/steps.go:83-155 | over any runs of an upload, completed outside a rollback means that every file has its text and exactly one analysis is stored, with exactly the entries of the last stored reply |
| SagaLaws.OutcomeIsShown | internal/pipeline/steps.go:12-25 | over any runs, the status tells how the last one ended: completed exactly when it finished, failed with a reason exactly when a hook ended it; a re-run past its first step shows no earlier failure |
| Claims.StaleIff | internal/pipeline/pipeline.go:230-276 | without assuming that any hook's write lands, over any runs: the upload claims completed outside a rollback without its texts and analysis exactly when a rollback that had removed the analysis ended from a completed status with its hook's write lost and no status write has landed since; otherwise completed means every text and exactly the last stored reply |
| Claims.StaleIsReached | internal/pipeline/pipeline.go:147-157 | a concrete list of deliveries takes a fresh run there, for every retry budget, once through an aborted and once through a stuck rollback |
| SagaLaws.FailedLeavesAnalysisIff | internal/pipeline/pipeline.go:132-157 | a run that ends in onFailed leaves an analysis exactly when it failed before its last step and one was there at the start or an unacknowledged analyze committed |
| Claims.FailedCanKeepAnalysis | internal/pipeline/pipeline.go:132-157 | for every retry budget, two good hops and then an analyze step that commits on each attempt and is never acknowledged take a fresh run to aborted, with status failed and an analysis stored |
| SagaLaws.FailedRunIsRolledBack | README.md:228-231 | with no acknowledgement lost, a failed run leaves no analysis and no transactions, keeps every text, and is marked failed under the failing step's name |
| SagaLaws.FailureIsRecorded | internal/pipeline/pipeline.go:230-242 | whatever is lost on the way, a run that ends in onFailed keeps every text and stores failed with the first failing step's name and a colon |
| SagaLaws.ReasonIsUncut | internal/pipeline/pipeline.go:233-276 | for any secrets, step and cause, the final cut of a failure's or a rollback's reason changes nothing |
| SagaLaws.StoredReason | internal/pipeline/pipeline.go:233-276 | for any configuration of secrets that scrubbing removes, the empty one included, the stored reason is the step's name and the error scrubbed once, the second scrub and the final cut changing nothing; a configured secret without a space shows in it only if it shows in the name itself |
| SagaLaws.StoredRollbackReason | internal/pipeline/pipeline.go:244-257 | the same for a rollback that could not finish: the error scrubbed once, uncut, and a configured secret without a space shows only in the fixed words before it |
| SagaLaws.HistoryRevealsNothing | internal/pipeline/pipeline.go:195-276 | over any runs, whatever fails, whatever an error quotes and whatever is lost, the stored reason reveals no configured secret that scrubbing can remove and that is not part of the pipeline's own words |
| Interleaving.HandledFrame | internal/pipeline/steps.go:16-155 | a handler leaves everything of every other upload as it was |
| Interleaving.HandledSame | internal/pipeline/steps.go:16-155 | what a handler does to its upload depends on nothing of any other |
| Interleaving.SagasDoNotInterfere | internal/pipeline/steps.go:16-155 | for any interleaving of any number of sagas, each upload's status, files, analysis, rows and run end as if only its own hops had run |
| Pipeline.Pipeline.MarkProcessing | internal/pipeline/steps.go:16-25 | the status becomes processing and the stale reason goes, or nothing changes |
| Pipeline.Pipeline.ExtractOne | internal/pipeline/steps.go:55-80 | a text is stored exactly when extraction gave one that is not blank and the write went through |
| Pipeline.Pipeline.RunOCR | internal/pipeline/steps.go:33-53 | the loop, files that have their text skipped, is the pass whose resumption is proved |
| Pipeline.Pipeline.Analyze | internal/pipeline/steps.go:83-129 | the model is handed every listed file's text under its name, in order and none of them blank, or nothing is stored; a reply that does not convert stores nothing; then the replacement decides |
| Pipeline.Pipeline.DeleteAnalysis | internal/pipeline/steps.go:134-142 | the compensation removes the upload's analysis and its transactions, or changes nothing |
| Pipeline.Pipeline.MarkCompleted | internal/pipeline/steps.go:146-155 | the status becomes completed, or nothing changes |
| Pipeline.Pipeline.RunStep | internal/pipeline/pipeline.go:195-220 | a step's error leaves it scrubbed and its effect is the step's alone |
| Pipeline.Pipeline.MarkFailed | internal/pipeline/pipeline.go:263-276 | the reason is cut to its limit and stored with the failed status when the write lands |
| Pipeline.Pipeline.OnFailed | internal/pipeline/pipeline.go:230-242 | the failing step's name, a colon and the scrubbed cause |
| Pipeline.Pipeline.OnCompensationFailed | internal/pipeline/pipeline.go:244-257 | the same for a failed rollback |
| Pipeline.Pipeline.HandleDelivery | internal/pipeline/pipeline.go:139-158 | handlers and hooks together move the store and the run as the delivery the laws are about; an acknowledged success moves on to the next step, or to the end from the last |
| Uploads.UploadHandler.ReadOneFile | internal/http/uploads.go:166-213 | a part is taken exactly when it is named, a PDF, complete, within the limit and storable; a refused one leaves nothing but what cannot be deleted, and each refusal has its exact cause |
| Uploads.UploadHandler.ReadFiles | internal/http/uploads.go:124-163 | reading succeeds exactly for one to maxFiles file parts that are all taken; rows and blobs match the parts in order, and otherwise it stopped at the first part not taken, whose own problem it returns |
| Uploads.UploadHandler.DeleteBlob | internal/http/uploads.go:233-240 | the blob is gone unless the delete failed |
| Uploads.UploadHandler.Discard | internal/http/uploads.go:227-231 | every row's blob is gone unless its delete failed, and no other is touched |
| Uploads.UploadHandler.MarkUnqueued | internal/http/uploads.go:244-259 | the upload is failed with the fixed reason, when the write lands |
| Uploads.UploadHandler.Create | internal/http/uploads.go:69-119 | a request is recorded exactly when one to maxFiles parts are all taken, its uuids are new to the database and no statement fails, and accepted when it is queued too; one that is not recorded leaves the database as it was and no blob but those whose delete failed, and a rejection names the problem of the first part not taken, or that there are no files or too many; a recorded one has all its rows and blobs and is queued or marked |
| Uploads.DrawsExist | internal/http/uploads.go:188-189 | uuids as a request needs them exist for any number of files, whatever else fails and whatever blobs lie elsewhere |
| Uploads.BlobsMeaning | internal/http/uploads.go:166-213 | each part's bytes lie under its own key, and nothing else does |
| Uploads.NothingStuck | internal/http/uploads.go:225-240 | when deletes succeed, a request that records nothing leaves the blobs exactly as they were |
| Uploads.RecordedUpload | internal/http/uploads.go:121-213 | rows and new blobs match one to one, at positions 0 to n-1, each row under its part's name and content type, or that of a PDF when it states none, and each blob is its part's bytes within the size limit |
| Uploads.RecordedFilesListed | internal/db/queries/upload_files.sql:14-19 | the files of a recorded upload are listed in the order their parts were sent |
| EndToEnd.ClosingBalances | internal/db/queries/visualization.sql:67-79 | after a reply is stored, the balance chart has strictly ascending dates, one for each date in the window with a stated balance, showing what the last such entry states in the reply's own order |
| EndToEnd.NothingMissing | internal/db/queries/visualization.sql:81-92 | for amounts that are JSON numbers, over the reply's entries dated in the window: income is the sum of the magnitudes whose wording says incoming, spending that of those whose wording says outgoing or, saying nothing, are signed negative, essential and recurring spending of those of them marked so, the count is that of all of them, and the shares are shares |
| EndToEnd.NothingFailsIsServed | internal/http/visualization.go:89-115 | when nothing fails, a fresh run ends completed, and the rows any window selects are exactly the reply's entries dated in it, in order |
| EndToEnd.ServedIsLastReply | internal/http/visualization.go:89-115 | a completed upload outside a rollback has its analysis, and the rows any window selects are exactly the entries in it of the last stored reply |

## Left out

- Uploads.UploadHandler.Create: the uuids a request draws are assumed to be distinct and new, which Uploads.DrawsExist shows to be possible; an ambiguous commit is not modelled: a commit that reports an error has not happened.
- Store.Store.ReplaceAnalysis: the same for its commit. Ids drawn from the sequence by a failed copy stay drawn, as in the database.
- Saga.RunsTerminate: counts deliveries; backoff, polling and leases are not modelled, and deliveries for one upload are sequential, as the lease rule in `README.md:242-245` demands.
- Interleaving.SagasDoNotInterfere: sagas of different uploads are assumed to draw different analysis ids, as random uuids are.
- SagaLaws.DeliveryIsSafe: requires that a terminal hook's write lands; Claims.StaleIff covers the runs in which it does not.
- SagaLaws.StoredReason: is stated for a secret without a space, and an error text is any string; how Go formats it is not modelled.
- Charts.ResultsAreOrdered: text is ordered bytewise; other database collations are not modelled.
- Charts.LabelsSortByMonth: years that do not have four digits are not covered.
- Convert.StoredAmountMeaning: decimals with an exponent or more than two places are not modelled (they are rejected here); rounding by numeric(14, 2) and float8 is not.
- Convert.ConvertEach: is the loop of buildAnalysis, with the conversion of one entry as a parameter.
- Scrub.NewScrubber: the order of secrets of equal length is left open, as the sort leaves it.
- Visualization.VisualizationHandler.Get: the forecast column, the formatting of months and dates in the reply, and the id's parsing are not modelled; today's date is a parameter.
- Uploads.UploadHandler.ReadOneFile: the part's file name is taken as already sanitised, and every error that is not the body limit counts as unreadable.
- taskQ's own storage and the concurrent delivery of one hop to two workers.
- The OCR and model clients, prompts, JSON decoding and the checks on the reply's keys: their results are arbitrary parameters.
- The mechanics of Put, Get and Delete on disk and in S3: a blob store is a map, and a failed Put stores nothing.
- Routing, middleware, problem documents, health checks, logging (with state.AnalysisID), configuration, migrations and deployment: single-branch code.
