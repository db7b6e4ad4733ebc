# Verified models of the examination platform

Dafny models of six connected parts of the platform, with proofs of what they keep. Each module follows
one part of the source; code that updates rows, maps or counters is a class or a loop proved against a
specification function, and the promises are lemmas about that function. `dafny verify dfyconfig.toml`
checks everything.

| Part | Modules |
|---|---|
| Expired attempts, results and their workers (`apps/worker/src/main.ts`) | Scoring, ExamStore, Recalculation, Worker, Interleaving, ResultHistory |
| CSV and question import (`question-import.ts`, the analytics export) | Csv, AnalyticsCsv, QuestionImport |
| Sessions (`auth.service.ts`, `api-client.ts`, `auth.ts`) | RateLimiter, Sessions, SessionRaces, ResetRaces, SingleFlight |
| AI workflow bookkeeping (`ai-workflows.service.ts`) | PromptHistory, PromptRaces, ReviewSave, SaveRaces, Similarity |
| Bulk student import (`academic.service.ts`) | BulkImport, ImportRules, StudentImport, AcademicService |
| Score statistics and leaderboard (`analytics.service.ts`) | Statistics |
| Shared | Common, Text, Sorting, Decimal |

**Database.** Tables are maps or sequences. A transaction commits as one step or not at all, and
`updateMany` with a condition is an atomic test-and-set that holds its row until the transaction ends.
Hashes of distinct tokens are distinct, so a token is named by its hash.

**Numbers.** Marks, scores, percentages and vectors are exact reals. `toFixed` is the nearest decimal,
ties away from zero. Numbers parsed from text may be infinite or not a number where the code can see that.

**Concurrency.** Sessions, PromptHistory, ReviewSave and StudentImport run one call at a time. Beside each of
them a module splits its calls into the reads and writes that the database sees, lets them interleave in any
way, shows that a call nothing interrupts is the sequential one, and states what then still holds:
`SessionRaces` for `refresh`, `ResetRaces` for requests of a password reset, `PromptRaces` for updates and
rollbacks, `SaveRaces` for saves, reviews and their counts, `AcademicService` for imports among all edits of
the academic service. `Interleaving` does so for the worker's transactions, whose row locks answer saves wait
for, and `ResultHistory` follows where the figures of a result come from. `SingleFlight` lets requests of one
browser, its refreshes and the server interleave.

## What the proofs say about the code

- Scoring: a question without an answer row is counted unanswered, yet a choice question is then scored
  as answered: it costs the negative marks, or earns the full marks when a multiple choice question has no
  correct key. `UnansweredMarks` says exactly when that moves the score, and `TallyAccounting` carries
  these phantom answers in the accounts.
- Workers: no interleaving submits an attempt twice. Saving an answer waits for the transaction that holds
  its attempt, so a claim stores a receipt and a result that agree (`ClaimStoresAgreement`). The receipt is
  counted once, but the result is replaced by every later calculation, even by one that read earlier: the
  two agree exactly when the number of answered questions at the receipt is the one the last committed
  calculation read (`ReceiptAgreement`). An answer whose save had to wait shows in the next calculation
  (`LateAnswer`). A result is the calculation at its read, and shows what a calculation would give now
  exactly when that gives the same figures (`StaleResult`). A sweep does not filter out claimed rows, so it
  makes progress exactly when no selected attempt carries a stale claim (`SweepMovesAll`), which holds in
  every reachable state.
- CSV: the reader inverts the escaping printer exactly for `Readable` tables, and for mixed line ends
  exactly the lost lines go missing (a CR line followed by a blank LF line merges with it). In the analytics
  export a missing field reads back as two quote characters, and headers are not escaped: a header with a comma,
  a quote or a line end is always misread (`ReadBack`).
- Question import: a valid row is refused when an earlier, itself invalid, row has the same text.
- Rate limiter: a fixed window admits up to 2 * limit - 1 calls in an interval of one window; the bound is
  reached by a run that meets its hypotheses.
- Sessions: `refresh` reads a token before revoking it. Among calls of `refresh` that all finish, a user
  keeps the number of sessions exactly when none reads a token between another's read and revocation of it
  (`SessionsKept`). After a password reset nothing that descends from the user's earlier tokens is ever
  accepted exactly when no refresh of that user stands between its read and its creation
  (`ResetAmongRefreshes`); one that does can create a session that outlives the reset.
  A user has two active reset tokens at some moment exactly when a request revokes between another one's
  two writes (`TwoActiveExactly`).
- Browser: since the last sign-in, and while nobody ends the session, the browser stays logged in exactly
  when no accepted refresh answer is lost and no refresh that it gave up on is served after all
  (`StaysLoggedIn`). Once an accepted answer is lost, every refresh up to the next sign-in shows the same
  token and is refused.
- Prompts: a rollback adds a version but records no snapshot, so the state it leaves cannot be recovered.
  An update writes the history it has read: every version left by an update stays recoverable exactly when
  no update writes after another call has written what it had read (`RecordedAmongUpdates`). A creation
  trims the model and an update does not.
- Review and save: a regeneration neither recounts nor keeps `generatedCount` cumulative, so
  approved + rejected can exceed generated until the next review or save; the condition is exact, whatever
  is reviewed or saved before the new batch arrives. A result can get more than one question in three ways:
  a review does not look at the present status, so a result that has a question, saved or rejected since,
  can be approved and saved again; a save that fails between its two writes leaves an unnamed question and
  creates it again; and a save reads the approved results first, so two saves that overlap both save what
  both have read. Over every interleaving in which all calls end, each result keeps one question exactly
  when none of the three happens (`OneQuestionAmongSaves`); with one call at a time the last cannot
  (`OneQuestionOverRuns`). The three counts of a call are taken one by one, so overlapping reviews can count
  a result twice (`OverlappingCounts`).
- Similarity: the 0.55 threshold applies to the rounded score and is 0.5495 before rounding. Two texts that
  normalise to nothing count as the same question. A question is looked up after it is stored, so it meets
  itself: within the window `recordDuplicateCandidate` records something exactly when a more recently
  updated question has a rounded score of 1, and outside it exactly when anything is eligible
  (`DuplicateOfStored`). A question that was updated last never gets a duplicate.
- Bulk import: semester numbers are looked up in the whole college, so a bare number is ambiguous as soon as
  two courses have that semester, even though the row names the course. A course has a department, but
  nothing compares it with the student's: an import is accepted whatever it is, and agrees with it exactly
  when the row's department is the course's (`DepartmentNotTied`). Nor does anything look at the status of
  the records (`UnreadFields`). The hierarchy is checked before the transaction only, but no operation of
  the academic service moves a course, semester or batch, so no import ever breaks it (`HierarchyKept`). A
  single student can: `createStudent` checks that each of the four records is in the college and not that
  they belong together. Over every run of the service, imports under way among them, the hierarchy holds
  exactly when no single student was enrolled in records that do not belong together (`HierarchyOverRuns`,
  `MisplacedStudent`).
- Statistics: `docs/ANALYTICS.md` defines the percentile as the share of results scoring at most as much.
  The code ranks entries instead: its percentile is never higher, and equal exactly for the top entry and
  for the first entry of each tie of an uncut list. A student's board lists that student's results only, so
  its first entry always shows rank 1 and percentile 100. `docs/LEADERBOARDS.md` names submission time as
  the last tie-breaker where the code uses the creation of the result: the documented order comes out
  exactly when, among results of one score and time, creation order agrees with submission order
  (`RankedAsDocumented`). The reported variance is taken about the rounded average.

## Model

| member | source | states |
|---|---|---|
| Scoring.EvaluateMeaning | apps/worker/src/main.ts:364-423 | for every objective question and answer, marks, correctness and penalty are those of an order-free definition: nothing for a blank answer, full marks for a right one, the negative marks otherwise |
| Scoring.GradedMeaning | apps/worker/src/main.ts:380-409 | the evaluator grades exactly the answers the order-free definition does not call blank |
| Scoring.SingleMeaning | apps/worker/src/main.ts:385-389 | a single-choice answer is right exactly when it selects one key, the least of the correct ones |
| Scoring.MultipleMeaning | apps/worker/src/main.ts:378-393 | sorting and comparing is equality of selected and correct keys as multisets |
| Scoring.AcceptsMeaning | apps/worker/src/main.ts:394-399 | a text is accepted exactly when some accepted answer folds to it |
| Scoring.FoldMeaning | apps/worker/src/main.ts:395-398 | two answer texts fold alike exactly when, but for the white space around them, they have the same letters in either case |
| Scoring.ToleranceMeaning | apps/worker/src/main.ts:400-408 | a number is within the tolerance exactly when it is at most that far away on either side; an infinite tolerance takes every number, one that is no number none |
| Scoring.UnansweredMarks | apps/worker/src/main.ts:245-258 | an unanswered question moves the score exactly when its row is missing and it is a choice question with something at stake |
| Scoring.TallyAccounting | apps/worker/src/main.ts:238-287 | attempted + unanswered is the number of questions; right, wrong and ungraded answers account for the attempted ones and the phantoms; the objective score lies between all penalties and all marks |
| Scoring.TallyMeaning | apps/worker/src/main.ts:243-258 | each counter is the number of questions it stands for, by the order-free definitions: marked right, marked wrong and answered, answered, not answered; the score is the sum of what they earn |
| Scoring.GradedWithinAttempted | apps/worker/src/main.ts:244-258 | with a key for every multiple choice question, correct + incorrect <= attempted |
| Scoring.KeyOrder | apps/worker/src/main.ts:378-399 | the order of selected, correct and accepted keys changes no mark |
| Scoring.SumPermutation | apps/worker/src/main.ts:243-258 | the running counters do not depend on the order of the questions |
| ExamStore.SumMarksAny | apps/worker/src/main.ts:288-295 | the sum of review marks is the same whichever row is taken first |
| Recalculation.ReviewMarks | apps/worker/src/main.ts:288-292 | a review row adds its awarded marks, nothing without them, and rows of other attempts are not read |
| Recalculation.Idempotent | apps/worker/src/main.ts:230-354 | recalculating with unchanged answers and reviews changes no table |
| Recalculation.CalculationFrame | apps/worker/src/main.ts:230-354 | a calculation touches one attempt, no answer, receipt or log; existing reviews keep marks and status and a published result stays published; what it writes is in the next four rows |
| Recalculation.CalculationCloses | apps/worker/src/main.ts:293-351 | the attempt is under review, and its result not ready, exactly when some review row of it is not completed; otherwise evaluated and ready |
| Recalculation.CalculationFigures | apps/worker/src/main.ts:288-345 | stored objective and descriptive parts, counters and figures, on result and attempt alike; a first result belongs to the attempt's college, assessment and student and is unpublished, a later one keeps all else |
| Recalculation.CalculationRows | apps/worker/src/main.ts:254-269 | an evaluation is stored for exactly the questions the worker marks, linked to the answer of the first time; other rows stay |
| Recalculation.CalculationTasks | apps/worker/src/main.ts:270-286 | a review is added for exactly the short-answer and descriptive questions without one: pending, unmarked, out of the assigned marks |
| Recalculation.QuestionOrder | apps/worker/src/main.ts:234-287 | the outcome does not depend on the order in which questions are read |
| Recalculation.SelectionOrder | apps/worker/src/main.ts:378-393 | nor on the order of selected or correct keys |
| Recalculation.Figures | apps/worker/src/main.ts:296-309 | the total is the smaller of maximum and sum; the percentage is within 0.005 of exact and at most 100; pending exactly without passing marks, passed exactly when the total reaches them |
| Recalculation.PercentageMonotone | apps/worker/src/main.ts:300-303 | a better score has no lower percentage |
| Recalculation.MoreMarks | apps/worker/src/main.ts:296-309 | more marks never lower total, percentage or a pass |
| Recalculation.ReceiptAgrees | apps/worker/src/main.ts:187-211 | with answers unchanged inside the transaction, receipt and result agree on answered and unanswered counts |
| Recalculation.AutoSubmitCloses | apps/worker/src/main.ts:166-224 | an uninterrupted submission leaves the attempt claimed and marked, with the times of claim and submission, a receipt, a result, one event and one audit row, and every other attempt and receipt alone |
| Recalculation.SubmissionHappens | apps/worker/src/main.ts:171-182 | a submission writes something exactly when the attempt is in progress, its time is up and nobody has claimed it |
| Recalculation.FirstReceipt | apps/worker/src/main.ts:187-211 | a first receipt has the number made of the last eight characters and the time, and the numbers of answered and unanswered questions |
| Worker.ExamWorker.CalculateResultTx | apps/worker/src/main.ts:230-354 | the row-by-row calculation is the specified one, whose status, figures, evaluations and reviews the Calculation rows above state, and does nothing for an unknown attempt |
| Worker.ExamWorker.AutoSubmitAttempt | apps/worker/src/main.ts:166-224 | the claim and what follows it are the specified submission at times within the call; the receipt number shows the submission time |
| Worker.ExamWorker.SweepExpiredAttempts | apps/worker/src/main.ts:151-164 | a sweep selects the at most 100 earliest-expired in-progress attempts, closes those of them nobody has claimed up to the first submission that fails, all of them when none does, and changes no other attempt |
| Worker.FindDue | apps/worker/src/main.ts:152-160 | the query returns distinct due attempts, as many as fit, none expiring after one left out |
| Worker.SelectionMeaning | apps/worker/src/main.ts:152-160 | a selection holds attempts in progress and past their time, at most 100, and leaves one out only for 100 that expire no later |
| Worker.AnswerCount | apps/worker/src/main.ts:187-189 | the receipt counts exactly the answered questions |
| Worker.MarkQuestions | apps/worker/src/main.ts:243-287 | the marking loop writes the specified evaluations, review rows and counters |
| Worker.CountQuestion | apps/worker/src/main.ts:246-258 | one question's share of the counters |
| Worker.SumReviews | apps/worker/src/main.ts:288-295 | the sum of awarded marks and whether a review is pending, in any row order |
| Worker.SubmissionEffect | apps/worker/src/main.ts:171-182 | submitting a due attempt closes it exactly when unclaimed and changes no other attempt |
| Worker.SweepStep | apps/worker/src/main.ts:151-164 | without stale claims a sweep removes min(n, 100) of n due attempts |
| Worker.SweepMovesAll | apps/worker/src/main.ts:152-163 | a sweep moves all it selects exactly when none of them carries a claim |
| Worker.SweepsClearBacklog | apps/worker/src/main.ts:151-164 | with no new expiries ceil(n / 100) sweeps clear n due attempts |
| Interleaving.EveryReachableState | apps/worker/src/main.ts:166-224 | in every interleaving with aborts: in progress implies unclaimed; a claimed attempt is closed with receipt and result; AUTO_SUBMITTED never shows; one event and its audit row exactly per claim |
| Interleaving.RunPermanent | apps/worker/src/main.ts:199-222 | a receipt, a claim and a logged row never change again |
| Interleaving.UninterruptedCommit | apps/worker/src/main.ts:170-223 | without interference the steps of a transaction are the sequential submission |
| Interleaving.AbortUndoes | apps/worker/src/main.ts:170-223 | an abort after any step leaves the tables as they were and frees the row |
| Interleaving.ClaimsCountOnce | apps/worker/src/main.ts:183-211 | in every reachable state the receipt of a claim under way agrees with its calculation and with the stored answers |
| Interleaving.ClaimStoresAgreement | apps/worker/src/main.ts:183-211 | a claim that stores the first receipt of an attempt stores a result with the same answered count |
| Interleaving.LateAnswer | apps/worker/src/main.ts:230-354 | an answer saved after the claim and a calculation after it change the result to the present count and leave the receipt |
| Interleaving.OthersWrite | apps/worker/src/main.ts:230-286 | what students, markers and enrolments write meanwhile is stored: an answer as soon as no transaction holds its attempt, a review and a new attempt always |
| Interleaving.CommitClaimSafe | apps/worker/src/main.ts:171-222 | committing the claim of an unclaimed attempt keeps the invariant of the tables |
| Interleaving.NextInv | apps/worker/src/main.ts:170-227 | every step of every worker and of the environment keeps the invariant |
| ResultHistory.ReceiptAgreement | apps/worker/src/main.ts:183-224 | over every run, receipt and result of a claimed attempt agree on the answered questions exactly when their number was the same at the receipt (made in the run or before it) and at the reads of the last committed calculation |
| ResultHistory.CommittedAsRead | apps/worker/src/main.ts:230-354 | a stored result is the calculation at the point where the last committed one read |
| ResultHistory.StaleResult | apps/worker/src/main.ts:230-354 | a stored result shows what a calculation would give now exactly when the figures are those at its read; so while no answer or review it read has changed |
| ResultHistory.FixedParts | apps/worker/src/main.ts:230-354 | over every run an attempt keeps its questions and marks, so answers and reviews are all a calculation reads that can change |
| Csv.ParseCsv | apps/web/app/lib/question-import.ts:218-249 | the character loop computes the reader the lemmas speak of |
| Csv.ParseShow | apps/web/app/lib/question-import.ts:218-249 | reading any printed lines, cells quoted or not and line ends mixed, gives their rows less exactly the lost ones |
| Csv.Misread | apps/web/app/lib/question-import.ts:218-249 | a text with a comma, a quote or a line end that is written unescaped before a comma or a line end is never read back as itself |
| Csv.VisibleUniform | apps/web/app/lib/question-import.ts:234-247 | with one kind of line end only an unterminated last line can be lost |
| Csv.RoundTrip | apps/web/app/lib/question-import.ts:199-249 | escape, join and read gives the table back exactly when every row has a cell and an unterminated last row is not one empty cell |
| AnalyticsCsv.FirstSeenMeaning | apps/api/src/modules/analytics/analytics.service.ts:1472-1474 | the headers are the keys of the records, each once, in first-seen order |
| AnalyticsCsv.ReadBack | apps/api/src/modules/analytics/analytics.service.ts:1466-1482 | reading the export with the import's reader gives time stamp, headers and guarded texts, exactly when there is a header, none has a comma, a quote or a line end, and the last row is not one empty cell |
| AnalyticsCsv.Guarded | apps/api/src/modules/analytics/analytics.service.ts:1484-1493 | no data cell starts with =, +, - or @, and other texts are exported unchanged |
| AnalyticsCsv.CellMeaning | apps/api/src/modules/analytics/analytics.service.ts:1466-1493 | the table to be read back holds stamp, headers and under each header the text of the row's field, behind an apostrophe when it begins with =, +, - or @ |
| AnalyticsCsv.MissingField | apps/api/src/modules/analytics/analytics.service.ts:1489-1492 | a field that is absent or null in the record is exported as two quote characters |
| QuestionImport.ParseQuestionImportTable | apps/web/app/lib/question-import.ts:107-180 | the loop over the rows gives, for each non-empty record, the specified preview, and the counts and payloads that follow |
| QuestionImport.PreviewRows | apps/web/app/lib/question-import.ts:128-160 | one preview per non-empty record, in order |
| QuestionImport.RowsAddUp | apps/web/app/lib/question-import.ts:162-178 | valid + invalid = total |
| QuestionImport.SummaryMeaning | apps/web/app/lib/question-import.ts:112-180 | missing columns, duplicate count, payloads and errors of the summary are exactly those of headers and rows |
| QuestionImport.HeaderMeaning | apps/web/app/lib/question-import.ts:251-258 | a header names the column it spells, in whatever letter case and spacing around it |
| QuestionImport.RecordMeaning | apps/web/app/lib/question-import.ts:260-271 | a record has the known columns among the headers, each with the trimmed cell under its last header |
| QuestionImport.EmptyMeaning | apps/web/app/lib/question-import.ts:371-373 | a row is passed over exactly when the cells under the last headers of all known columns are blank |
| QuestionImport.RecordsMeaning | apps/web/app/lib/question-import.ts:128-131 | the records are those of the other rows, each once, in order, with the row numbers of a spreadsheet |
| QuestionImport.QuestionTextMeaning | apps/web/app/lib/question-import.ts:363-365 | two texts count as the same exactly when they have the same words but for letter case; words are the runs between white space |
| QuestionImport.ValidRecord | apps/web/app/lib/question-import.ts:273-325 | a record has no errors exactly when subject, texts, type, options, correct option, difficulty and numbers are all in order |
| QuestionImport.ReportedExactly | apps/web/app/lib/question-import.ts:273-325 | each field is reported exactly when something is wrong with it, in terms that do without trimming, folding and the table of types |
| QuestionImport.AcceptedRows | apps/web/app/lib/question-import.ts:128-160 | a row is accepted exactly when no column is missing and its record is valid and new; its payload then carries the record |
| QuestionImport.PayloadMeaning | apps/web/app/lib/question-import.ts:327-353 | a payload has the record's topic, title, text and numbers, its difficulty in capitals, no blank explanation, its tags, and four options A to D with their texts, exactly the named one correct |
| QuestionImport.TagsMeaning | apps/web/app/lib/question-import.ts:375-380 | the tags are the pieces between commas that are not blank, trimmed and in order |
| QuestionImport.AcceptedTextsDistinct | apps/web/app/lib/question-import.ts:122-147 | accepted texts are pairwise distinct and differ from the existing ones after normalisation |
| QuestionImport.FirstOccurrence | apps/web/app/lib/question-import.ts:133-144 | of the records with a new text the first is not flagged and every later one is |
| RateLimiter.Limiter.constructor | apps/api/src/modules/auth/auth.service.ts:46 | the map starts empty |
| RateLimiter.Limiter.EnforceLocalRateLimit | apps/api/src/modules/auth/auth.service.ts:533-551 | a call is let through exactly when its window's count stays within the limit; the new map |
| RateLimiter.Limiter.PruneLocalRateLimits | apps/api/src/modules/auth/auth.service.ts:553-562 | from 1000 entries on exactly the expired ones go |
| RateLimiter.PrunedMeaning | apps/api/src/modules/auth/auth.service.ts:553-562 | with a thousand entries or more exactly those that expire later remain, with fewer all, unchanged |
| RateLimiter.WindowAdmits | apps/api/src/modules/auth/auth.service.ts:533-551 | of the calls of a key from one that finds no live entry to the end of that window exactly the first `limit` are allowed |
| RateLimiter.OtherKeys | apps/api/src/modules/auth/auth.service.ts:541-548 | a call changes no live entry of another key |
| RateLimiter.PruningIsInvisible | apps/api/src/modules/auth/auth.service.ts:533-562 | over any run with a non-decreasing clock pruning changes no decision |
| RateLimiter.AtMostTwoWindows | apps/api/src/modules/auth/auth.service.ts:533-551 | for one key with fixed limit and window at most 2 * limit - 1 calls are allowed in any interval of one window |
| RateLimiter.BoundIsReached | apps/api/src/modules/auth/auth.service.ts:541-548 | a run with the hypotheses of that bound in which exactly that many calls are allowed |
| Sessions.AuthService.OpenSession | apps/api/src/modules/auth/auth.service.ts:364-396 | a login stores one live token |
| Sessions.AuthService.RefreshSession | apps/api/src/modules/auth/auth.service.ts:160-204 | a refresh answers with a new token exactly when the shown one is live; otherwise nothing changes |
| Sessions.AuthService.EndSession | apps/api/src/modules/auth/auth.service.ts:206-215 | a logout is the specified one: by LogoutEnds and LogoutFrame it revokes the shown token for good and nothing else |
| Sessions.AuthService.RequestPasswordReset | apps/api/src/modules/auth/auth.service.ts:255-288 | an active user's earlier reset tokens are revoked and one is stored; others get none |
| Sessions.AuthService.CompletePasswordReset | apps/api/src/modules/auth/auth.service.ts:313-362 | a reset is accepted exactly for a live reset token and is the specified one: by ResetEffect it stores the new password, is used up and revokes every session, or changes nothing |
| Sessions.SessionLifetime | apps/api/src/modules/auth/auth.service.ts:364-396 | a new session is accepted exactly until its lifetime is over, for an enabled user |
| Sessions.RefreshEffect | apps/api/src/modules/auth/auth.service.ts:160-193 | a refresh changes something exactly for a known, unrevoked, unexpired token of an enabled user; it then adds one token and revokes the shown one in favour of it |
| Sessions.LogoutEnds | apps/api/src/modules/auth/auth.service.ts:206-215 | after a logout the shown token is never accepted again, over any run |
| Sessions.LogoutFrame | apps/api/src/modules/auth/auth.service.ts:206-215 | a logout changes no other token, no user and no reset, and keeps an earlier time of revocation |
| Sessions.ResetLifetime | apps/api/src/modules/auth/auth.service.ts:255-288 | a requested reset token is accepted for half an hour, for an enabled user; the user's earlier ones are revoked, everybody else's stay |
| Sessions.ResetEffect | apps/api/src/modules/auth/auth.service.ts:313-362 | an accepted reset gives the user the new password, uses up its token, revokes that user's unrevoked tokens, and changes nothing of anybody else; a refused one changes nothing |
| Sessions.ResetOnce | apps/api/src/modules/auth/auth.service.ts:335-351 | a reset token is accepted once, over any run |
| Sessions.ChainsAreAcyclic | apps/api/src/modules/auth/auth.service.ts:186-193 | over any run `replacedById` forms disjoint acyclic chains of one user's revoked tokens |
| Sessions.AcceptedOnce | apps/api/src/modules/auth/auth.service.ts:174-193 | an accepted token is never accepted again |
| Sessions.ResetRevokesAll | apps/api/src/modules/auth/auth.service.ts:339-351 | after a reset no earlier token of the user is accepted, then or later |
| Sessions.RefreshKeepsSessions | apps/api/src/modules/auth/auth.service.ts:186-193 | a refresh swaps one live session for another and keeps everybody's number |
| Sessions.ResetTokens | apps/api/src/modules/auth/auth.service.ts:274-288 | with one request at a time a user has at most one active reset token, and a used or revoked one never returns |
| ResetRaces.UninterruptedRequest | apps/api/src/modules/auth/auth.service.ts:274-288 | the two writes of a request that nothing interrupts are the sequential request |
| ResetRaces.OtherSteps | apps/api/src/modules/auth/auth.service.ts:274-288 | between its two writes every other operation takes effect, and a request that gives up writes nothing more |
| ResetRaces.OneActive | apps/api/src/modules/auth/auth.service.ts:274-288 | unless a request revokes between another one's two writes, a user never has two active reset tokens, whatever else happens |
| ResetRaces.TwoActiveExactly | apps/api/src/modules/auth/auth.service.ts:274-288 | when all requests finish and no token is used, two are active at some moment exactly when such an overlap happens |
| SessionRaces.UninterruptedRefresh | apps/api/src/modules/auth/auth.service.ts:160-204 | the read, the creation and the revocation of a refresh that nothing interrupts are the sequential refresh |
| SessionRaces.SessionAccounting | apps/api/src/modules/auth/auth.service.ts:169-193 | over every interleaving of refreshes a user's sessions grow by one for each call between creation and revocation, each call that gave up there and each revocation of a token revoked already |
| SessionRaces.SessionsKept | apps/api/src/modules/auth/auth.service.ts:169-193 | when all calls finish, the number of sessions is kept exactly when none read a token of the user between another's read and revocation of it, and grows otherwise |
| SessionRaces.LiveSessionsKept | apps/api/src/modules/auth/auth.service.ts:169-193 | at a time when none of them has run out, the sessions counted are those a refresh accepts, and their number is kept under the same condition |
| SessionRaces.ResetAmongRefreshes | apps/api/src/modules/auth/auth.service.ts:160-204 | after a reset no token of the user and no session descending from one is ever accepted, whatever follows, exactly when no refresh of the user stands between its read and its creation |
| SessionRaces.ConcurrentRefreshForks | apps/api/src/modules/auth/auth.service.ts:169-193 | a run of two refreshes that both read first leaves two live sessions for one |
| SingleFlight.OneRefreshTwoHits | apps/web/app/lib/api-client.ts:86-129 | in every run at most one refresh is under way and no request hits its path three times |
| SingleFlight.FetchMeaning | apps/web/app/lib/api-client.ts:86-91 | a new call sends its first fetch |
| SingleFlight.RespondMeaning | apps/web/app/lib/api-client.ts:91-129 | after a 401 a call waits for the shared refresh, sent with the present cookie unless one is under way; other answers end it |
| SingleFlight.DeliverMeaning | apps/web/app/lib/api-client.ts:100-129 | an accepted refresh sets the cookie and every waiting call is fetched again, a refused one ends them; the shared promise is cleared |
| SingleFlight.LoseMeaning | apps/web/app/lib/api-client.ts:117-129 | a failed refresh ends every waiting call and keeps the cookie |
| SingleFlight.ServeMeaning | apps/api/src/modules/auth/auth.service.ts:160-204 | a served refresh shows the token it was sent with and is answered with a session exactly when the server accepts it |
| SingleFlight.ServerMeaning | apps/api/src/modules/auth/auth.service.ts:160-204 | a refresh the browser gave up on still takes its effect on the server when it is served, and so does what happens elsewhere |
| SingleFlight.CanFinish | apps/web/app/lib/api-client.ts:86-129 | from every such state each call can end in three steps at most |
| SingleFlight.SignInStarts | apps/web/app/lib/auth.ts:59-88 | a sign-in, at any moment, leaves the browser logged in with a fresh token and nothing under way |
| SingleFlight.NoTokenTwice | apps/web/app/lib/api-client.ts:117-129 | composed with the server: since the last sign-in, while accepted answers arrive and no logout, reset or expiry intervenes, no token is presented twice and none is refused, even if other refreshes get lost |
| SingleFlight.LostAnswerRepeats | apps/web/app/lib/api-client.ts:118-127 | from the moment an accepted answer is lost every refresh served before the next sign-in, whatever else happens, shows the same token and is refused |
| SingleFlight.LateService | apps/web/app/lib/api-client.ts:118-127 | a refresh served after the browser gave up on it is refused, or leaves the browser with a revoked token |
| SingleFlight.StaysLoggedIn | apps/web/app/lib/api-client.ts:117-129 | over every run without logout, reset or expiry since the last sign-in, the browser is logged in with no refusal since exactly when since then no accepted answer was lost and no abandoned refresh served |
| PromptHistory.PromptTemplate.constructor | apps/api/src/modules/ai-workflows/ai-workflows.service.ts:591-622 | a template starts at version 1 without history, with trimmed name and model, texts cut to size, and defaults for what is not given |
| PromptHistory.CreatedMeaning | apps/api/src/modules/ai-workflows/ai-workflows.service.ts:591-622 | each stored field of a creation: trimmed, cut to 4000 characters, as given, or its default |
| PromptHistory.CreatedThenUpdated | apps/api/src/modules/ai-workflows/ai-workflows.service.ts:591-674 | sending a creation's data again as an update leaves the template as it was, but for version and history, exactly when the model has no blanks to trim |
| PromptHistory.PromptTemplate.UpdatePromptTemplate | apps/api/src/modules/ai-workflows/ai-workflows.service.ts:624-674 | an update records the state it replaces under its version, applies the given fields and counts up |
| PromptHistory.PromptTemplate.DeletePromptTemplate | apps/api/src/modules/ai-workflows/ai-workflows.service.ts:676-687 | a deletion deactivates and changes nothing else |
| PromptHistory.UpdateMeaning | apps/api/src/modules/ai-workflows/ai-workflows.service.ts:634-672 | each field after an update is what the patch names for it, trimmed or cut, or the one before |
| PromptHistory.DeleteMeaning | apps/api/src/modules/ai-workflows/ai-workflows.service.ts:676-687 | a deletion leaves the template inactive and every other field as it was |
| PromptHistory.PromptTemplate.RollbackPromptTemplate | apps/api/src/modules/ai-workflows/ai-workflows.service.ts:689-742 | a rollback finds the first snapshot of the version and restores it, or changes nothing |
| PromptHistory.UpdateSetsContent | apps/api/src/modules/ai-workflows/ai-workflows.service.ts:636-660 | an update naming every field brings that content about exactly when its texts fit and no text or model would have to be emptied |
| PromptHistory.UpdateAgain | apps/api/src/modules/ai-workflows/ai-workflows.service.ts:636-660 | repeating an update changes the content no further, and naming nothing keeps it |
| PromptHistory.HistoryIsFaithful | apps/api/src/modules/ai-workflows/ai-workflows.service.ts:624-742 | over any run recorded versions ascend strictly and each snapshot is the content the template last had at that version |
| PromptHistory.FindMeaning | apps/api/src/modules/ai-workflows/ai-workflows.service.ts:689-742 | a lookup succeeds exactly for recorded versions and returns their snapshot |
| PromptHistory.RollbackRestores | apps/api/src/modules/ai-workflows/ai-workflows.service.ts:689-742 | a rollback brings back the snapshot, except a missing model, and exactly when there is none to lose |
| PromptHistory.UpdateThenRollback | apps/api/src/modules/ai-workflows/ai-workflows.service.ts:624-742 | rolling back an update restores the content exactly unless the update named the first model |
| PromptHistory.RecordedExactly | apps/api/src/modules/ai-workflows/ai-workflows.service.ts:624-742 | with one call at a time a version is recoverable exactly when an update left it |
| PromptRaces.UninterruptedCall | apps/api/src/modules/ai-workflows/ai-workflows.service.ts:624-742 | a read and a write that nothing interrupts are the sequential update or rollback |
| PromptRaces.LateRollback | apps/api/src/modules/ai-workflows/ai-workflows.service.ts:689-742 | a rollback that writes late puts the snapshot and, without a model in it, the model it has read; version and history go on from the present |
| PromptRaces.OtherSteps | apps/api/src/modules/ai-workflows/ai-workflows.service.ts:676-687 | a deletion takes effect at once, and a call that gives up writes nothing |
| PromptRaces.RecordedAmongUpdates | apps/api/src/modules/ai-workflows/ai-workflows.service.ts:624-742 | over every interleaving, every version left by an update is recoverable exactly when no update writes after another call wrote what it had read |
| PromptRaces.OverlappingUpdates | apps/api/src/modules/ai-workflows/ai-workflows.service.ts:624-674 | two updates that read one version: the version between them cannot be recovered |
| ReviewSave.ReviewService.RecountJob | apps/api/src/modules/ai-workflows/ai-workflows.service.ts:1838-1855 | the counters become the numbers of approved or saved, of rejected and of all results |
| ReviewSave.ReviewService.ReviewResults | apps/api/src/modules/ai-workflows/ai-workflows.service.ts:1781-1810 | exactly the listed results of the job get the status, whatever theirs was, and their number is returned |
| ReviewSave.ReviewService.RegenerateJob | apps/api/src/modules/ai-workflows/ai-workflows.service.ts:404-423 | a regeneration rejects exactly the pending results and leaves the counters |
| ReviewSave.RecountMeaning | apps/api/src/modules/ai-workflows/ai-workflows.service.ts:1838-1855 | the counters are the sizes of the sets of approved or saved, of rejected and of all results |
| ReviewSave.ReviewMeaning | apps/api/src/modules/ai-workflows/ai-workflows.service.ts:1781-1810 | a review changes the status of the listed results and nothing else of them, no other result and no question |
| ReviewSave.RegenerateMeaning | apps/api/src/modules/ai-workflows/ai-workflows.service.ts:404-423 | a regeneration rejects the pending results and changes nothing else |
| ReviewSave.GenerateMeaning | apps/api/src/modules/ai-workflows/ai-workflows.service.ts:1672-1721 | a generation adds its drafts as pending results without a question, the suggested difficulty approved, and counts only them |
| ReviewSave.EditMeaning | apps/api/src/modules/ai-workflows/ai-workflows.service.ts:464-476 | an edit changes the text and the difficulty it names of one result |
| ReviewSave.ReviewService.SaveApprovedToQuestionBank | apps/api/src/modules/ai-workflows/ai-workflows.service.ts:504-574 | the saving loop is the specified save and returns exactly the questions it adds to the bank |
| ReviewSave.SaveMeaning | apps/api/src/modules/ai-workflows/ai-workflows.service.ts:507-574 | a save turns exactly the approved results into saved ones, each naming a new question with its text, the start of it as title and the approved, else suggested, else medium difficulty, and alters nothing else |
| ReviewSave.InSyncBound | apps/api/src/modules/ai-workflows/ai-workflows.service.ts:1838-1855 | recounted, approved + rejected <= generated, with equality exactly when nothing is pending |
| ReviewSave.SaveKeepsApprovedCount | apps/api/src/modules/ai-workflows/ai-workflows.service.ts:504-574 | saving leaves approvedCount unchanged exactly when it agreed with the rows |
| ReviewSave.SyncStep | apps/api/src/modules/ai-workflows/ai-workflows.service.ts:404-574 | for every operation, the exact condition under which it keeps counters and rows in agreement |
| ReviewSave.CountersOverRuns | apps/api/src/modules/ai-workflows/ai-workflows.service.ts:504-574 | over any run of reviews, edits and saves, one at a time, after one generation, approved + rejected <= generated, even when saves fail midway |
| ReviewSave.RegeneratedBound | apps/api/src/modules/ai-workflows/ai-workflows.service.ts:404-423 | whatever is reviewed or saved between a regeneration and the arrival of its batch, the bound then holds exactly when the batch is at least as large as what was decided before, or as all results if something was recounted in between |
| ReviewSave.CountersSinceRecount | apps/api/src/modules/ai-workflows/ai-workflows.service.ts:404-574 | over any run the counters agree with the rows as long as every operation since the last recount, or since a start in agreement, keeps them in agreement by the condition of SyncStep |
| ReviewSave.BankStep | apps/api/src/modules/ai-workflows/ai-workflows.service.ts:512-562 | each operation adds one question per approved-to-saved move, plus one for a torn save, and alters none |
| ReviewSave.BankAccounting | apps/api/src/modules/ai-workflows/ai-workflows.service.ts:504-574 | over any run of calls one at a time the questions a job creates are its approved-to-saved moves plus its torn saves |
| ReviewSave.SavedResultsAreLinked | apps/api/src/modules/ai-workflows/ai-workflows.service.ts:548-551 | over any run every saved result names a question made from it, and no two share one |
| ReviewSave.SecondSaveCreatesNothing | apps/api/src/modules/ai-workflows/ai-workflows.service.ts:504-574 | after a save nothing reaches the bank until something is approved again |
| ReviewSave.ReapprovedIsSavedAgain | apps/api/src/modules/ai-workflows/ai-workflows.service.ts:1790-1797 | approving any result that has a question, saved or rejected since, and saving puts a second question from it into the bank |
| ReviewSave.TornResultIsSavedAgain | apps/api/src/modules/ai-workflows/ai-workflows.service.ts:517-551 | the result a torn save stopped at is saved again by the next one |
| ReviewSave.FromStep | apps/api/src/modules/ai-workflows/ai-workflows.service.ts:512-562 | a step adds to the questions from one result one for its move from approved to saved and one for a save torn there |
| ReviewSave.ResultAccounting | apps/api/src/modules/ai-workflows/ai-workflows.service.ts:504-574 | over any such run the bank questions from one result are its moves from approved to saved and the saves torn at it |
| ReviewSave.OneQuestionStep | apps/api/src/modules/ai-workflows/ai-workflows.service.ts:504-574 | a step keeps one question per result exactly when it is neither a save of an approved result that has a question nor a save torn between its writes |
| ReviewSave.OneQuestionOverRuns | apps/api/src/modules/ai-workflows/ai-workflows.service.ts:504-574 | so over any run of calls one at a time, exactly when every save of it was of that kind |
| SaveRaces.UninterruptedSave | apps/api/src/modules/ai-workflows/ai-workflows.service.ts:504-574 | the fetch, the creations and updates and the counts of a save that nothing interrupts are the sequential save, complete or torn |
| SaveRaces.UninterruptedReview | apps/api/src/modules/ai-workflows/ai-workflows.service.ts:1781-1810 | and those of a review the sequential review |
| SaveRaces.OtherSteps | apps/api/src/modules/ai-workflows/ai-workflows.service.ts:1781-1810 | a review whose decisions are refused has changed its results and counts nothing; regenerations, generations and edits take effect among the steps of others |
| SaveRaces.ResultAccounting | apps/api/src/modules/ai-workflows/ai-workflows.service.ts:504-562 | over every interleaving the bank questions from one result are its updates, the questions failing saves left unlinked, and those about to be linked |
| SaveRaces.BankAccounting | apps/api/src/modules/ai-workflows/ai-workflows.service.ts:504-562 | and all questions of the bank are those linked, left unlinked or about to be linked; none is lost or altered |
| SaveRaces.OneQuestionAmongSaves | apps/api/src/modules/ai-workflows/ai-workflows.service.ts:504-562 | over every interleaving in which all calls end, each result has the one question it names, or none, exactly when every save, at its fetch, meets no approved result that has a question or that another save has fetched and not yet updated, and does not stop between its writes |
| SaveRaces.OverlappingSaves | apps/api/src/modules/ai-workflows/ai-workflows.service.ts:507-551 | two saves that both fetch an approved result first create two questions from it |
| SaveRaces.OverlappingCounts | apps/api/src/modules/ai-workflows/ai-workflows.service.ts:1838-1855 | a review that counts while another one rejects stores approved + rejected > generated |
| Similarity.NormalForm | apps/api/src/modules/ai-workflows/ai-workflows.service.ts:2407-2414 | normalising gives words of a-z and 0-9 with single blanks, leaves exactly such texts alone and is idempotent |
| Similarity.NormalizeMeaning | apps/api/src/modules/ai-workflows/ai-workflows.service.ts:2407-2414 | two texts normalise alike exactly when they have the same runs of letters and digits outside their tags, but for letter case |
| Similarity.TagsMeaning | apps/api/src/modules/ai-workflows/ai-workflows.service.ts:2410 | a closed tag becomes a blank and every other character stays |
| Similarity.TokensMeaning | apps/api/src/modules/ai-workflows/ai-workflows.service.ts:2258 | the tokens of a text are those runs, in lower case |
| Similarity.Cosine | apps/api/src/modules/ai-workflows/ai-workflows.service.ts:2368-2383 | the accumulating loop computes the quotient of the three sums, 0 when one magnitude is |
| Similarity.CauchySchwarz | apps/api/src/modules/ai-workflows/ai-workflows.service.ts:2371-2380 | the square of dot is at most leftMagnitude times rightMagnitude, and what equality means |
| Similarity.CosineBounds | apps/api/src/modules/ai-workflows/ai-workflows.service.ts:2368-2383 | the cosine is between -1 and 1 for all vectors |
| Similarity.CosineSymmetric | apps/api/src/modules/ai-workflows/ai-workflows.service.ts:2368-2383 | the cosine does not depend on the order of the vectors |
| Similarity.CosineIsOne | apps/api/src/modules/ai-workflows/ai-workflows.service.ts:2381-2382 | the cosine is 1 exactly for positive multiples |
| Similarity.JaccardMeaning | apps/api/src/modules/ai-workflows/ai-workflows.service.ts:2416-2421 | the index is between 0 and 1, symmetric, 1 exactly for equal non-empty sets, 0 exactly for disjoint ones; in between it is the ratio of the next row |
| Similarity.JaccardRatio | apps/api/src/modules/ai-workflows/ai-workflows.service.ts:2416-2421 | for any lists of the tokens of two non-empty sets, the index times the number of tokens in either is the number in both, counted token by token |
| Similarity.EligibleMeaning | apps/api/src/modules/ai-workflows/ai-workflows.service.ts:2271-2293 | a stored question is eligible exactly when it normalises to the same text, its embedding reaches 0.5495, or at least that share of the tokens in either text is in both |
| Similarity.TwoOfThree | apps/api/src/modules/ai-workflows/ai-workflows.service.ts:2293 | two texts of three tokens that share two score 0.5 and are not listed on their tokens alone |
| Similarity.ScoreMeaning | apps/api/src/modules/ai-workflows/ai-workflows.service.ts:2271-2281 | the combined score is between 0 and 1, and exactly when it is 1 |
| Similarity.ReasonNamesScore | apps/api/src/modules/ai-workflows/ai-workflows.service.ts:2280-2291 | the reason names the score reported as the similarity, and an exact match exactly for texts that normalise alike |
| Similarity.RoundedScore | apps/api/src/modules/ai-workflows/ai-workflows.service.ts:2282-2294 | rounding keeps the range, and a rounded score reaches 0.55 exactly from 0.5495 on |
| Similarity.TopTen | apps/api/src/modules/ai-workflows/ai-workflows.service.ts:2256-2297 | the list is the stable descending top ten of the eligible questions among the hundred newest |
| Similarity.FirstIsEarliestBest | apps/api/src/modules/ai-workflows/ai-workflows.service.ts:2294-2301 | the best duplicate is the earliest of the highest scores |
| Similarity.BestInWindow | apps/api/src/modules/ai-workflows/ai-workflows.service.ts:2264-2301 | the best duplicate is the earliest question of the window with the highest rounded score |
| Similarity.DuplicateOfStored | apps/api/src/modules/ai-workflows/ai-workflows.service.ts:2303-2309 | looked up after it is stored, a question in the window gets a duplicate recorded exactly when a more recently updated one has rounded score 1, and one outside exactly when some question is eligible |
| Similarity.SavedQuestionFindsItself | apps/api/src/modules/ai-workflows/ai-workflows.service.ts:2303-2309 | a question looked up as the most recently updated one is its own best duplicate, so none is recorded |
| ImportRules.RowEmpty | apps/api/src/modules/academic/academic.service.ts:904-955 | a row has no errors exactly when it is complete and well-formed |
| ImportRules.RowOkMeaning | apps/api/src/modules/academic/academic.service.ts:904-955 | complete and well-formed means: no text of the nine is blank, the email has the shape of one, the year is from 2000 to 2100, gender, status and date are absent or well-formed |
| ImportRules.EmailMeaning | apps/api/src/modules/academic/academic.service.ts:929-931 | an email is three parts without white space or at sign, with an at sign and a full stop between them |
| ImportRules.DuplicateReported | apps/api/src/modules/academic/academic.service.ts:985-1006 | a row is reported as payload duplicate on a field exactly when an earlier row has the same non-empty value; the report names the first such row |
| ImportRules.ExistingMeaning | apps/api/src/modules/academic/academic.service.ts:1013-1058 | the queried sets contain a row's email, student ID or roll number exactly when a stored student has it |
| ImportRules.ExistingReported | apps/api/src/modules/academic/academic.service.ts:1037-1059 | a row is reported for email, student ID or roll number exactly when a stored student has it |
| ImportRules.ResolveMeaning | apps/api/src/modules/academic/academic.service.ts:1215-1245 | a value resolves exactly to the one record with an equal normalised name; unknown and ambiguous values are told apart; the next rows say which names and what equal means |
| ImportRules.NormMeaning | apps/api/src/modules/academic/academic.service.ts:1247-1252 | two values are equal once normalised exactly when their words agree one by one but for ASCII letter case; words are the runs between white space |
| ImportRules.DepartmentResolves | apps/api/src/modules/academic/academic.service.ts:1112-1120 | a link resolves to a department exactly when it is the only one of the college whose identity, name or code has the value's words |
| ImportRules.CourseResolves | apps/api/src/modules/academic/academic.service.ts:1121-1129 | to a course, by identity, name, short name, code or title |
| ImportRules.SemesterResolves | apps/api/src/modules/academic/academic.service.ts:1130-1143 | to a semester, by identity, name, number, or number after the word Semester |
| ImportRules.BatchResolves | apps/api/src/modules/academic/academic.service.ts:1144-1153 | to a batch, by identity, name, or year and section |
| ImportRules.LinkReported | apps/api/src/modules/academic/academic.service.ts:1235-1244 | a link is reported as not found or ambiguous exactly when it resolves to nothing or to several |
| ImportRules.NumberIsAmbiguous | apps/api/src/modules/academic/academic.service.ts:1130-1143 | a bare semester number is never accepted when two courses of the college have that semester |
| ImportRules.PlacedEmpty | apps/api/src/modules/academic/academic.service.ts:1156-1212 | the place check passes exactly when every semester belongs to its course and every batch to course and semester |
| ImportRules.PlacesReported | apps/api/src/modules/academic/academic.service.ts:1165-1211 | the place check reports exactly the missing and misplaced semesters and batches of the rows without a link error |
| ImportRules.AcceptedExactly | apps/api/src/modules/academic/academic.service.ts:861-902 | a payload passes validation exactly when its rows are valid, its keys distinct and unused, and its links resolve to records that belong together |
| StudentImport.StudentImport.constructor | apps/api/src/modules/academic/academic.service.ts:861-880 | no errors at the start |
| StudentImport.StudentImport.NormalizeBulkStudent | apps/api/src/modules/academic/academic.service.ts:904-983 | the normalised student and the errors pushed for its row |
| StudentImport.StudentImport.AddFieldDuplicates | apps/api/src/modules/academic/academic.service.ts:990-1004 | one pass with its map of first rows pushes exactly the specified errors |
| StudentImport.StudentImport.AddPayloadDuplicateErrors | apps/api/src/modules/academic/academic.service.ts:985-1006 | the three passes |
| StudentImport.StudentImport.AddExistingDuplicateErrors | apps/api/src/modules/academic/academic.service.ts:1008-1060 | the errors for stored emails, student IDs and roll numbers |
| StudentImport.StudentImport.ResolveAcademicImportValue | apps/api/src/modules/academic/academic.service.ts:1215-1245 | assigns the identity of the only record the value names, by the words of the rows NormMeaning to BatchResolves, or pushes the error that tells none from several |
| StudentImport.StudentImport.ResolveAllLinks | apps/api/src/modules/academic/academic.service.ts:1111-1154 | every student's links are resolved in place |
| StudentImport.StudentImport.CheckPlaces | apps/api/src/modules/academic/academic.service.ts:1156-1212 | the hierarchy errors, skipping rows with link errors |
| StudentImport.StudentImport.ValidateBulkStudents | apps/api/src/modules/academic/academic.service.ts:861-902 | students and errors are those of the specified validation |
| StudentImport.StudentImport.InsertStudents | apps/api/src/modules/academic/academic.service.ts:782-829 | the transaction's loop commits all insertions or none |
| StudentImport.StudentImport.BulkCreateStudents | apps/api/src/modules/academic/academic.service.ts:767-841 | validation, whatever other requests do meanwhile, then the transaction |
| StudentImport.InsertMeaning | apps/api/src/modules/academic/academic.service.ts:782-829 | the transaction commits exactly when every student can be added and no two share a key, and adds exactly one user and one profile each |
| StudentImport.InsertKeepsKeys | apps/api/prisma/schema.prisma:596-599 | emails, student IDs, per-college roll numbers and profile users stay unique |
| StudentImport.AllOrNothing | apps/api/src/modules/academic/academic.service.ts:767-841 | a refusal changes nothing, a conflict leaves what others did, a success adds exactly the payload's students, keeps the keys and places each profile |
| StudentImport.ImportedRow | apps/api/src/modules/academic/academic.service.ts:786-823 | for each row the stored user and profile carry its own texts, trimmed and in stored letter case, belong together, and refer to the only records its four links name |
| StudentImport.ImportedLinks | apps/api/src/modules/academic/academic.service.ts:786-823 | the four records of a stored profile are the only ones of the college that the row's links name, word by word |
| StudentImport.HierarchyKept | apps/api/src/modules/academic/academic.service.ts:767-841 | a successful import keeps every stored profile within the hierarchy, whatever else changes meanwhile, as long as no academic record is moved |
| StudentImport.HierarchyExactly | apps/api/src/modules/academic/academic.service.ts:767-841 | after a successful import all profiles are within the hierarchy exactly when they were in the tables the transaction met and every imported row fits there |
| StudentImport.UnreadFields | apps/api/src/modules/academic/academic.service.ts:1062-1212 | tables that differ only in the departments of courses and the statuses of academic records accept the same imports and give the same students |
| StudentImport.DepartmentNotTied | apps/api/prisma/schema.prisma:812 | an acceptable import is committed whatever department the course of a row has; the stored profile agrees with it exactly when the row's department is that one |
| StudentImport.UndisturbedImport | apps/api/src/modules/academic/academic.service.ts:767-841 | undisturbed, an import succeeds exactly when its payload is acceptable, and never conflicts |
| StudentImport.RivalConflicts | apps/api/src/modules/academic/academic.service.ts:782-829 | of two validated imports that share an email only the first to commit goes through |
| AcademicService.EditKeepsLinks | apps/api/src/modules/academic/academic.service.ts:175-480 | no creation, update or deletion of a department, course, semester, batch or student moves or loses an academic record |
| AcademicService.EditKeepsPlaces | apps/api/src/modules/academic/academic.service.ts:652-745 | nor moves a stored student; only a creation adds one |
| AcademicService.DepartmentCreated | apps/api/src/modules/academic/academic.service.ts:175-192 | a department is stored with its name trimmed and its code in capitals, unless the college has that code |
| AcademicService.DepartmentUpdated | apps/api/src/modules/academic/academic.service.ts:198-222 | an update of it stores what it names, under the same condition |
| AcademicService.CourseCreated | apps/api/src/modules/academic/academic.service.ts:249-281 | a course is stored with trimmed names, its short name in capitals and in its code |
| AcademicService.SemestersNumbered | apps/api/src/modules/academic/academic.service.ts:268-275 | with active semesters numbered from 1 and named after their numbers |
| AcademicService.CourseRefused | apps/api/src/modules/academic/academic.service.ts:249-286 | it is refused exactly when its department is not the college's or its code is taken |
| AcademicService.CourseUpdated | apps/api/src/modules/academic/academic.service.ts:293-309 | an update changes name and title, short name and status, and not the code |
| AcademicService.SemesterUpdated | apps/api/src/modules/academic/academic.service.ts:331-343 | an update of a semester changes name and status |
| AcademicService.BatchCreated | apps/api/src/modules/academic/academic.service.ts:433-456 | a batch of a course and a semester of the college is named after year, course and section, unless the college has one for them |
| AcademicService.BatchUpdated | apps/api/src/modules/academic/academic.service.ts:458-470 | an update of it changes section and status, under the same condition |
| AcademicService.StudentCreated | apps/api/src/modules/academic/academic.service.ts:652-706 | a single student is enrolled exactly when the four records are the college's and no key is taken, with texts trimmed and in stored letter case |
| AcademicService.StudentUpdated | apps/api/src/modules/academic/academic.service.ts:708-745 | an update changes the user's name and the profile's section |
| AcademicService.EditStep | apps/api/src/modules/academic/academic.service.ts:652-706 | an edit keeps the hierarchy exactly when it does not enrol a student in records that do not belong together |
| AcademicService.UninterruptedImport | apps/api/src/modules/academic/academic.service.ts:767-841 | validation and commit of an import that nothing interrupts are the sequential import |
| AcademicService.HierarchyOverRuns | apps/api/src/modules/academic/academic.service.ts:652-841 | over every run of edits and of imports between validation and commit, all stored students are within the hierarchy exactly when no edit of the run did that |
| AcademicService.MisplacedStudent | apps/api/src/modules/academic/academic.service.ts:1488-1525 | a student of one course enrolled in the semester of another passes the checks and breaks the hierarchy |
| Statistics.MedianForgetsOrder | apps/api/src/modules/analytics/analytics.service.ts:1208-1214 | the median depends only on the multiset of scores |
| Statistics.MedianMeaning | apps/api/src/modules/analytics/analytics.service.ts:1208-1214 | it lies between lowest and highest with at least half of the scores on each side; the next row says exactly where |
| Statistics.MedianExactly | apps/api/src/modules/analytics/analytics.service.ts:1208-1214 | for an odd number of scores it is the middle one, for an even number half the sum of the two middle ones, by how many scores are lower and no higher; 0 for none |
| Statistics.AverageMeaning | apps/api/src/modules/analytics/analytics.service.ts:1903-1907 | the average is within 0.005 of the mean, 0 without scores |
| Statistics.VarianceError | apps/api/src/modules/analytics/analytics.service.ts:1215-1217 | the variance about the rounded average is the exact one plus the square of the rounding error, within 0.005025 |
| Statistics.PassAndFail | apps/api/src/modules/analytics/analytics.service.ts:1225-1232 | pass and fail percentages add up to 100, or to 100.01 exactly when the share falls halfway between hundredths; what they count is in the next row |
| Statistics.PassMeaning | apps/api/src/modules/analytics/analytics.service.ts:1225-1232 | the pass percentage is within 0.005 of the share of scores of at least 40, the fail percentage of that of scores below 40 |
| Statistics.Ranking | apps/api/src/modules/analytics/analytics.service.ts:474-482 | the board is the first hundred of the ordered selection, and nobody left out is ahead of anybody listed; the next row says so without order and selection |
| Statistics.BoardMeaning | apps/api/src/modules/analytics/analytics.service.ts:468-482 | every entry is published, rank-eligible and visible to the viewer; no entry has a lower score than a later one, a longer or unknown time at an equal score, or a later creation at an equal time; one is left out only for a hundred such entries |
| Statistics.RankedAsDocumented | docs/LEADERBOARDS.md:3-7 | every order the query may return is the documented one exactly when, among results of one score and time, creation order agrees with submission order |
| Statistics.CreationDecides | apps/api/src/modules/analytics/analytics.service.ts:474-482 | the board is one of those orders, and of two tied results lists the one created first |
| Statistics.SubmittedFirstRankedLast | apps/api/src/modules/analytics/analytics.service.ts:474-482 | a board that lists a result submitted first last |
| Statistics.PercentileVersusDocumented | apps/api/src/modules/analytics/analytics.service.ts:473-501 | before rounding the percentile never exceeds the documented share; equal exactly for the top entry and first entries of ties of an uncut list |
| Statistics.ShownPercentile | apps/api/src/modules/analytics/analytics.service.ts:488-501 | rounded, it is still no higher, and equal for the top entry and first entries of ties of an uncut list; ranks ascend from 1, percentiles lie between 0 and 100 |
| Statistics.StudentSeesThemselves | apps/api/src/modules/analytics/analytics.service.ts:468-473 | a student's board lists that student only, headed by rank 1 and percentile 100, which is the documented value exactly when nobody scored more |
| Decimal.FixedError | apps/worker/src/main.ts:300-303 | rounding moves a number by at most half a unit of the last place |
| Decimal.NearestMeaning | apps/worker/src/main.ts:300-303 | the nearest whole number, halfway the one further from zero |
| Decimal.FixedMonotone | apps/worker/src/main.ts:300-303 | rounding keeps order |
| Text.LowerMeaning | apps/worker/src/main.ts:395-398 | lower case is the text that differs in letter case only and has no capital |
| Text.UpperMeaning | apps/api/src/modules/academic/academic.service.ts:961-962 | upper case likewise |
| Text.TrimMeaning | apps/api/src/modules/academic/academic.service.ts:1249 | trimming leaves the one part that begins and ends without white space, with nothing but white space around it |
| Text.RunsMeaning | apps/api/src/modules/academic/academic.service.ts:1250 | runs are fixed by two laws: a text without gaps is one, and a gap separates those before it from those after it |
| Text.NormalisedWords | apps/api/src/modules/academic/academic.service.ts:1247-1252 | trimming, collapsing and folding identify exactly the texts with the same words but for letter case |
| Text.SplitMeaning | apps/web/app/lib/question-import.ts:376-377 | the pieces of a split have no separator, and with it between them they are the text again |
| Text.ShownMeaning | apps/api/src/modules/academic/academic.service.ts:1137-1151 | a number shows the digits of its value |
| Sorting.LexMeaning | apps/worker/src/main.ts:378-379 | texts sort by their first difference, a beginning before what continues it |

## Left out

- Floating point: sums, products, square roots and `toFixed` are exact; rounding of double arithmetic and `toFixed` of numbers from 1e21 on are not modelled.
- Texts sort by character, so texts with supplementary characters may sort unlike JavaScript's order of 16-bit units.
- Letter case is folded for ASCII only; locale-dependent lower case of other alphabets is not modelled.
- AnalyticsCsv.ReadBack: keys that look like array indexes, which JavaScript enumerates first, are not treated apart.
- QuestionImport.ParseQuestionImportTable: cells are strings, and the number syntax of JavaScript is a parameter; reading Excel workbooks is not modelled.
- `apps/web/app/lib/student-import.ts` repeats the same CSV reader around spreadsheet and date handling.
- Worker.ExamWorker.SweepExpiredAttempts: which submission fails is a parameter; a failed one leaves nothing behind, as an abort in Interleaving.
- Isolation below the row locks and atomic commits stated above, and the queue's retry policy, are not modelled.
- Sessions.AuthService.RequestPasswordReset: the two writes happen together, in ResetRaces apart; email, rate limiting and audit are not modelled.
- Access tokens, password hashing and cookies' attributes are not modelled; only refresh tokens and reset tokens are.
- SingleFlight.OneRefreshTwoHits: `restoreSession` in `auth.ts`, which refreshes outside the shared promise, several browser tabs and page loads other than a sign-in are not modelled; an answer to an earlier page is taken to arrive before the new cookie.
- RateLimiter.AtMostTwoWindows: the Redis-backed limiter used before the local one is not modelled.
- Statistics.ShownPercentile: after rounding two different shares may coincide, so equality is stated one way there and both ways before rounding.
- ReviewSave.ReviewService.SaveApprovedToQuestionBank: approved results are taken in creation order, though the query fixes none; options, marks, topics, embeddings and decision rows are not modelled.
- ReviewSave.ReviewService.ReviewResults: rejection reasons and review times are not modelled.
- Document import jobs, paper generation, batches, insights, usage records and AI providers are not modelled.
- StudentImport.StudentImport.BulkCreateStudents: validation reads the tables at one point, where the code queries them twice; phone, address, guardians, gender, date of birth and passwords are carried by flags or left out, and the kind of HTTP error is not modelled.
- AcademicService.EditKeepsLinks: the scope of the user, the existence of the college and of an instructor, and fields no lemma reads, as descriptions, gender or addresses, are not modelled; each edit is one step.
- A bulk update of students is a run of single updates; templates, subjects and faculty are not modelled.
- Statistics.VarianceError: the standard deviation's square root is not modelled.
- Histograms, time statistics, section and question analytics, and the leaderboard snapshot row are not modelled.
- Proctoring, coding assessments, exam operations and the student exam service are not part of this model; answers change by arbitrary saves that wait for the row of their attempt, reviews by arbitrary edits. A coding submission changes no field that counts an answer.
