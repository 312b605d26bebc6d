# Finance Tracker backend core in Dafny

This project models the decision logic of the Finance Tracker backend: everything between a request body arriving and a row being stored or an error reply being sent. It covers:

- the keyword expense classifier (`categorizeExpense`, `suggestCategory`);
- the express-validator chains and `handleValidationErrors`;
- the transaction and goal routes:
  - create, get, partial update and delete;
  - the paginated, type-filtered listing;
  - the grouped statistics summary;
  - the goal list ordered by deadline, and `transformGoal`;
- the SQLite schema migrator (`initDatabase`, `runMigration1`, `runMigration2`);
- the table CHECK constraints as an invariant of every write;
- the error classifier (`AppError`, `errorHandler`, `notFoundHandler`) and `asyncHandler`.

How the model represents the running system:

- Tables are `map<Id, Row>`. SQL statements are functions over those maps:
  - INSERT, UPDATE and DELETE report `changes`;
  - a write that breaks a CHECK or a primary key throws and changes nothing;
  - a SELECT reads the table in a scan order given as a parameter. `Storage.Scan` shows that such an order always exists.
- The wall clock (`now`) and the fresh uuid of a create are parameters.
- Amounts are `real`.
- Dates arrive already parsed as `Instant`s, which are compared lexicographically.

Modules, in dependency order:

- `Common`: options, parsed fields, kinds, instants and the amount bounds.
- `Text`: lower-casing, substring search, `trim`, hex colours.
- `Errors`: `AppError`, `errorHandler`, `notFoundHandler`.
- `Validation`: the four body validators and `validateId`.
- `Categorization` and `CategorizationExamples`: the keyword classifier.
- `Storage`: rows, CHECKs and write primitives.
- `Migrations`: the version ledger.
- `Sorting`: ORDER BY as a stable sort under a total preorder.
- `Pagination`: the listing's page arithmetic.
- `Api`: how validators, handler and error handler compose into a reply.
- `Transactions`, `Summary` and `Goals`: the routes.

`validateTransaction` requires a category of 1 to 50 characters after trimming (`backend/src/middleware/validation.ts` lines 33-36). So the create handler's `!category` branch never fires after validation, and only a category of exactly `"other"` is auto-categorised. `Validation.CreateRequiresCategory` proves that a blank category is refused, and `Transactions.StoredCategory` still models the handler's own `!category` branch.

## Model

| member | source | states |
|---|---|---|
| `Categorization.TableNames` | backend/src/ai-categorization.ts:8-18 | The keyword table has nine categories. None of them is named "other", and each name is 1 to 13 characters long. |
| `Categorization.AnyKeyword` | backend/src/ai-categorization.ts:25-29 | The inner loop finds a keyword exactly when some keyword of the list is a substring of the text. |
| `Categorization.FirstMatch` | backend/src/ai-categorization.ts:24-30 | The outer loop returns the first category that has a matching keyword: that category matches and no earlier one does. It returns nothing exactly when no category matches. |
| `Categorization.Categorize` | backend/src/ai-categorization.ts:20-34 | The result is "other" or a table name. It is "other" exactly when no keyword of any category occurs in the lower-cased description. Otherwise it is the first category, in declaration order, that has a match. |
| `Categorization.CategorizeIgnoresCase` | backend/src/ai-categorization.ts:21 | Classifying a description gives the same result as classifying its lower-cased form. |
| `CategorizationExamples.GasIsTransport` | backend/src/ai-categorization.ts:10-12 | "gas" is a transport keyword and also a utilities keyword. It is classified as transport, because transport is declared first. |
| `Categorization.Score` | backend/src/ai-categorization.ts:42-47 | A category's score is at most its number of keywords. It is zero exactly when none of its keywords occurs. |
| `Categorization.Scored` | backend/src/ai-categorization.ts:48-54 | The entries of `scores` all have a positive score. There are none exactly when every category scores zero. |
| `Categorization.LeaderPicks` | backend/src/ai-categorization.ts:59-61 | The reduce with strict `>` ends on the category with the highest score; every category declared before it scores strictly less, so ties go to the earliest. |
| `Categorization.LeaderIsBest` | backend/src/ai-categorization.ts:54-61 | Whenever some category scores, the reduce's result is the entry of a best category as described above. |
| `Categorization.Choose` | backend/src/ai-categorization.ts:53-65 | Over any table whose names are not "other", the result is ("other", 0) exactly when nothing matches. Otherwise it is a best category, with confidence `min(score / 3, 1)`. |
| `Categorization.Suggest` | backend/src/ai-categorization.ts:36-66 | `suggestCategory` returns ("other", 0) exactly when no keyword occurs in the lower-cased description. Otherwise it returns the category with the most hits (earliest on a tie), with confidence `min(score / 3, 1)`. |
| `Categorization.ChooseConfidenceRange` | backend/src/ai-categorization.ts:63 | The confidence lies in [0, 1], and in [1/3, 1] when the category is not "other". |
| `Categorization.SuggestConfidenceRange` | backend/src/ai-categorization.ts:55-65 | The same bounds hold for `suggestCategory` over the real table. |
| `Categorization.SuggestAgreesOnOther` | backend/src/ai-categorization.ts:41-57 | `suggestCategory` answers "other" exactly when `categorizeExpense` does on the same description. |
| `Text.Contains` | backend/src/ai-categorization.ts:26 | `includes`: true exactly when the keyword occurs at some position of the text. |
| `Text.TrimRemovesSurroundingWhitespace` | backend/src/middleware/validation.ts:33-35 | The sanitizer `trim()` leaves a contiguous part of the input. Only whitespace lies before and after it, and it neither starts nor ends with whitespace. |
| `Errors.HandleError` | backend/src/middleware/errorHandler.ts:16-59 | Classification by fixed precedence: an operational AppError yields its own status and message; otherwise "SQLITE" in the message yields 500 "Database error occurred"; otherwise "Validation" yields 400 with the message; anything else yields 500 "An unexpected error occurred". |
| `Errors.ReplyLeaksNothing` | backend/src/middleware/errorHandler.ts:39-44 | A reply repeats the error's own text only for an operational AppError or a Validation message. A database error's reply never mentions SQLITE. |
| `Errors.NonOperationalFallsThrough` | backend/src/middleware/errorHandler.ts:31-36 | An AppError with `isOperational = false` is classified by its message alone, like a plain Error. |
| `Errors.NotFoundRoute` | backend/src/middleware/errorHandler.ts:71-76 | An unknown route is a 404 whose message is "Route ", then the URL, then " not found". |
| `Api.Reply` | backend/src/middleware/errorHandler.ts:62-68 | `asyncHandler`: a returned value is sent with the route's status, and a thrown error gets exactly the `errorHandler` reply. |
| `Api.OperationalErrorsPassThrough` | backend/src/middleware/errorHandler.ts:31-36 | An `AppError(status, message)` thrown by a handler reaches the client with that status and message. |
| `Api.DeleteById` | backend/src/routes/transactions.ts:140-151 | DELETE /:id succeeds exactly when the id exists and removes exactly that row. Otherwise it throws the route's 404 and nothing changes. The goal route, backend/src/routes/goals.ts:115-126, is the same with its own texts. |
| `Validation.Failures` | backend/src/middleware/validation.ts:11-20 | The 400 details list is empty exactly when every rule passes, and has at most one entry per rule. |
| `Validation.FailuresListFailed` | backend/src/middleware/validation.ts:16-19 | An entry appears in the details exactly when it is the `{field, message}` of a failed rule. |
| `Validation.TransactionRulesMeaning` | backend/src/middleware/validation.ts:26-62 | The create chain passes exactly when: the type is income or expense; 0.01 <= amount <= 999999999; the trimmed category has 1 to 50 characters; a present description has at most 500 and a present source at most 100; the date parses and is at most one year after now. |
| `Validation.ValidateTransaction` | backend/src/middleware/validation.ts:26-62 | Acceptance is exactly the condition above. A rejection lists the failed rules and is never empty. An acceptance hands the handler the trimmed fields. |
| `Validation.TransactionUpdateRulesMeaning` | backend/src/middleware/validation.ts:65-94 | The update chain needs a non-blank id. Each other field is bounded only when present. It has no type rule and no future-date rule. |
| `Validation.ValidateTransactionUpdate` | backend/src/middleware/validation.ts:65-94 | Acceptance is exactly the update condition. The handler gets the trimmed id and exactly the fields present in the body. |
| `Validation.UpdateIgnoresType` | backend/src/middleware/validation.ts:65-94 | Changing the body's `type` never changes the update validator's answer. |
| `Validation.UpdateHasNoDateHorizon` | backend/src/middleware/validation.ts:84-87 | Any parsed date passes the update validator exactly when leaving the date out would. |
| `Validation.CreateRequiresCategory` | backend/src/middleware/validation.ts:33-36 | A create with a missing or blank category is refused, with the category message among the details. |
| `Validation.GoalRulesMeaning` | backend/src/middleware/validation.ts:97-136 | The goal create chain passes exactly when: the trimmed name has 1 to 100 characters; 0.01 <= target <= 999999999; any current amount is between 0 and the target; the deadline parses and is not before now; the trimmed colour is `#` and six hex digits; any notes have at most 1000 characters. |
| `Validation.ValidateGoal` | backend/src/middleware/validation.ts:97-136 | Acceptance is exactly that condition. A rejection lists the failed rules. An acceptance hands over the trimmed fields. |
| `Validation.GoalCrossFieldRules` | backend/src/middleware/validation.ts:105-125 | A goal create with current > target is refused with "Current amount cannot exceed target amount". One with a past deadline is refused with "Deadline cannot be in the past". |
| `Validation.GoalUpdateRulesMeaning` | backend/src/middleware/validation.ts:139-171 | The goal update chain bounds each field only when present. The colour is checked untrimmed. |
| `Validation.ValidateGoalUpdate` | backend/src/middleware/validation.ts:139-171 | Acceptance is exactly the update condition. The handler gets the trimmed id and exactly the present fields. |
| `Validation.GoalUpdateSkipsCrossChecks` | backend/src/middleware/validation.ts:149-160 | The goal update validator compares neither the two amounts nor the deadline with the clock: in-range amounts and any deadline pass exactly when leaving them out would. |
| `Validation.ValidateId` | backend/src/middleware/validation.ts:174-180 | The id parameter is accepted exactly when it is not blank after trimming, and the handler gets the trimmed id. Otherwise the reply lists only "ID is required". |
| `Validation.IsLengthCount` | backend/src/middleware/validation.ts:35 | The length `isLength` measures never exceeds the number of code points. |
| `Validation.IsLengthCountsAllWithoutSelectors` | backend/src/middleware/validation.ts:35 | `isLength` counts every code point exactly when the text has no variation selector U+FE0E or U+FE0F. |
| `Common.YearLater` | backend/src/middleware/validation.ts:48-49 | `setFullYear(getFullYear() + 1)` gives the same position in the year, one year later, and strictly after now. |
| `Storage.Insert` | backend/src/database.ts:58-70 | An INSERT fails exactly when the id exists or the row breaks a CHECK. Otherwise it adds exactly that row and keeps every other row. |
| `Storage.Update` | backend/src/routes/transactions.ts:124-130 | An UPDATE of a missing id changes nothing and reports 0 changes. Otherwise it fails exactly when the new row breaks a CHECK, and if it succeeds only that row changes. |
| `Storage.Delete` | backend/src/routes/transactions.ts:141-146 | A DELETE removes exactly that id and reports 1 change if the id was present, 0 if not. |
| `Storage.WritesKeepRowsOk` | backend/src/database.ts:58-95 | The CHECK constraints are a table invariant: no INSERT, UPDATE or DELETE leaves a row that breaks them. |
| `Storage.Scan` | backend/src/routes/transactions.ts:18 | A full-table read order exists that lists every row exactly once. |
| `Storage.ScanCoversTable` | backend/src/routes/transactions.ts:19 | A full scan has exactly as many entries as the table has rows, as `COUNT(*)` reports. |
| `Migrations.Version` | backend/src/database.ts:37-38 | `MAX(version) \|\| 0`: at least every recorded version, one of them, and 0 for an empty ledger. |
| `Migrations.Record` | backend/src/database.ts:118-119 | Recording a version appends it, unless it is already recorded: then the primary key refuses it and nothing changes. |
| `Migrations.Migration1` | backend/src/database.ts:55-122 | Migration 1 leaves both tables in place. It appends 1 to the ledger unless 1 is already there. |
| `Migrations.Migration2` | backend/src/database.ts:124-136 | Migration 2 succeeds exactly when `goals` exists without `notes` and 2 is unrecorded. On success it adds the column and appends 2. |
| `Migrations.InitRunsPendingMigrations` | backend/src/database.ts:37-46 | From a well-formed state, migration 1 runs iff the version is below 1 and migration 2 iff it is below 2, in that order. Each appends its own version. |
| `Migrations.InitReachesCurrentVersion` | backend/src/database.ts:18-46 | From a well-formed state, init succeeds and reaches version 2 = `CURRENT_DB_VERSION`, with both tables and the notes column. |
| `Migrations.FreshInit` | backend/src/database.ts:28-46 | A fresh database ends with ledger [1, 2], both tables and the notes column. |
| `Migrations.InitIdempotent` | backend/src/database.ts:37-46 | A second init applies nothing and changes nothing. |
| `Migrations.InitKeepsLedgerUnique` | backend/src/database.ts:29-34 | Whatever happens, the ledger never holds a version twice. |
| `Migrations.NotesComeWithVersion2` | backend/src/database.ts:124-136 | When init adds the notes column, it also records version 2 and succeeds. |
| `Migrations.InitPropagatesFailure` | backend/src/database.ts:49-52 | A failing migration is init's result. Migration 2 does not run after a failed migration 1. A migration 2 that fails after migration 1, or on its own, is the result. Init succeeds exactly when every migration it runs succeeds. |
| `Migrations.InterruptedMigration2IsPermanent` | backend/src/database.ts:124-136 | Suppose migration 2 added the column but did not record 2. Then every later init throws "duplicate column name" and changes nothing. |
| `Pagination.OrFallback` | backend/src/routes/transactions.ts:12-13 | `parseInt(x) \|\| d` is the parsed number unless it is NaN or 0, and then it is d. |
| `Pagination.PageNumber` | backend/src/routes/transactions.ts:12 | The page is never 0, and it defaults to 1. |
| `Pagination.LimitAsWritten` | backend/src/routes/transactions.ts:13 | The limit as computed is at most 100, and 50 when absent, zero or not a number. |
| `Pagination.Limit` | backend/src/routes/transactions.ts:13 | The corrected limit is between 1 and 100. It is the request when that is in range, 100 above the range, and 50 when absent or below 1. |
| `Pagination.LimitAgreesUnlessNegative` | backend/src/routes/transactions.ts:13 | Both limits agree for every request that is not negative. |
| `Pagination.Window` | backend/src/routes/transactions.ts:28-30 | LIMIT/OFFSET returns a contiguous slice starting at the clamped offset. It has at most `limit` rows, and it is shorter only at the end of the rows. |
| `Pagination.TotalPages` | backend/src/routes/transactions.ts:46 | `ceil(total / limit)`: 0 pages for no rows. Otherwise the last page starts before `total` and the pages reach it. |
| `Pagination.NegativeLimitIsUnbounded` | backend/src/routes/transactions.ts:13-30 | As written, `?limit=-1` reaches SQLite as a negative LIMIT. Every row comes back, more than 100. |
| `Pagination.PageIsBounded` | backend/src/routes/transactions.ts:13-30 | With the corrected limit, no page holds more than 100 rows. |
| `Pagination.PageIsRun` | backend/src/routes/transactions.ts:14 | Page p is exactly rows (p-1)·n up to p·n of the ordered rows. |
| `Pagination.PagesTile` | backend/src/routes/transactions.ts:14 | Page p+1 starts exactly where page p ends. |
| `Pagination.RowOnItsPage` | backend/src/routes/transactions.ts:46 | Every row of `total` lies on exactly one page between 1 and `totalPages`. |
| `Sorting.Sort` | backend/src/routes/goals.ts:24 | ORDER BY returns a sorted permutation of the rows it reads. |
| `Transactions.StoredCategory` | backend/src/routes/transactions.ts:67-76 | An expense whose category is "other" or empty and whose description is non-empty gets `categorizeExpense(description)`. Otherwise an empty category becomes "other", and any other category is kept. The result is never empty and stays within 50 characters. |
| `Transactions.NewRow` | backend/src/routes/transactions.ts:84 | The inserted row stores `description \|\| ''` and `source \|\| null`, with both timestamps from the clock. |
| `Transactions.CreateTransaction` | backend/src/routes/transactions.ts:63-91 | Create succeeds exactly when the id is fresh and the row passes the CHECKs. It then adds exactly that row and returns it. A failure changes nothing and is not operational. |
| `Transactions.GetTransaction` | backend/src/routes/transactions.ts:52-60 | Get returns the row exactly when the id exists. Otherwise the reply is 404 "Transaction not found". |
| `Transactions.CreateThenGet` | backend/src/routes/transactions.ts:84-90 | After a successful create, get by the new id returns what create answered. |
| `Transactions.Patched` | backend/src/routes/transactions.ts:95-118 | A partial update writes exactly the present fields among category, amount, description, date and source. Type and created_at are kept, and the trigger stamps updated_at. |
| `Transactions.UpdateTransaction` | backend/src/routes/transactions.ts:94-137 | An empty change-set is a 400 "No fields to update", even for a missing id. A missing id is a 404. A failure leaves the table unchanged. A success replaces only that row, with the patched row. |
| `Transactions.HandlersKeepChecks` | backend/src/database.ts:59-69 | Create, update and delete keep every stored transaction within the CHECK constraints. |
| `Transactions.ValidatedCreateSucceeds` | backend/src/middleware/validation.ts:26-62 | Defence in depth: a body the create validator accepts, with a fresh id, never trips a CHECK, so create succeeds. |
| `Transactions.ValidatedUpdateOnlyFailsOperationally` | backend/src/middleware/validation.ts:65-94 | With a validated change-set, the only errors update can throw are the operational 400 and 404. |
| `Transactions.SelectorCategoryFailsCheck` | backend/src/database.ts:62 | 49 letters followed by "❤️" pass the category's `isLength` rule as written. They fail the code-point rule, and every row holding them breaks the category CHECK. |
| `Transactions.PostTransaction` | backend/src/routes/transactions.ts:63-91 | POST / answers 400 with the validator's details exactly when validation fails. It succeeds exactly when the body validates and the id is fresh. A success is a 201 that stores `NewRow` of the validated body under that id and returns it. Anything else leaves the table unchanged. |
| `Transactions.PatchTransaction` | backend/src/routes/transactions.ts:94-137 | PATCH /:id is refused by validation exactly when the validator rejects the body, with exactly `ValidateTransactionUpdate`'s errors as the details. For a validated body, no fields gives 400 "No fields to update" and an unknown id gives 404. Over rows that meet the CHECKs, it succeeds exactly when both pass. A success is a 200 that writes and returns `Patched` of the stored row under the trimmed id. Any non-success leaves the table unchanged. |
| `Transactions.PatchWithoutFieldsIs400` | backend/src/routes/transactions.ts:120-122 | A body with no updatable field, even one carrying only `type`, gets 400 "No fields to update", and the table is unchanged. |
| `Transactions.FetchTransaction` | backend/src/routes/transactions.ts:52-60 | GET /:id is a 400 exactly for a blank id, carrying the single "ID is required" error. It is a 200 exactly when the trimmed id is stored, with that id's row, and a 404 "Transaction not found" otherwise. |
| `Transactions.RemoveTransaction` | backend/src/routes/transactions.ts:140-151 | DELETE /:id is a 400 with the single "ID is required" error exactly for a blank id. It succeeds exactly when the trimmed id is stored, then removes exactly that row and answers 200 "Transaction deleted successfully". Otherwise it answers 404 and changes nothing. |
| `Transactions.KindFilter` | backend/src/routes/transactions.ts:22-26 | The type filter applies exactly when the query is "income" or "expense". |
| `Transactions.Select` | backend/src/routes/transactions.ts:22-30 | A WHERE clause returns rows read from the table under their ids, each satisfying the clause. |
| `Transactions.SelectComplete` | backend/src/routes/transactions.ts:22-30 | Every scanned row that satisfies the clause is returned. |
| `Transactions.SelectionFacts` | backend/src/routes/transactions.ts:30-31 | The selected rows have distinct ids. There are as many as the ids `COUNT(*)` counts under the same clause. |
| `Transactions.NewestFirstIsTotalPreorder` | backend/src/routes/transactions.ts:28 | `ORDER BY date DESC, created_at DESC` orders any two rows and is transitive. |
| `Transactions.PageRows` | backend/src/routes/transactions.ts:28-30 | A page holds distinct table rows of the requested type, newest first. It is exactly the LIMIT/OFFSET window of some newest-first ordering of all matching rows (`PageOf`), so it is unique up to rows that tie on both keys. Its size is the clamped count `PageSize`. |
| `Transactions.CountMatching` | backend/src/routes/transactions.ts:31 | The count is the number of rows the WHERE clause keeps. |
| `Transactions.Paginate` | backend/src/routes/transactions.ts:40-47 | The pagination block: the limit is between 1 and 100, the page has at most `limit` rows, and `totalPages` is the ceiling of `total / limit`. |
| `Transactions.ListTransactions` | backend/src/routes/transactions.ts:11-49 | GET / returns the window at offset (page − 1)·limit of a newest-first ordering of the rows of the filtered type (`PageOf`), with exactly `PageSize` rows. `total` counts every matching row. The page is `parseInt(page) \|\| 1`, the limit is the corrected `Limit`, and the pagination block is consistent. |
| `Transactions.RouteAsWrittenListsEveryRow` | backend/src/routes/transactions.ts:13 | With the limit as written, `?limit=-1` makes the page hold every matching row, however many there are. |
| `Transactions.OtherTypeValuesListEverything` | backend/src/routes/transactions.ts:22-26 | Any `type` value other than income or expense lists exactly what no filter lists. |
| `Summary.OneDateIsIgnored` | backend/src/routes/transactions.ts:169-172 | With only one of startDate and endDate given, the date window keeps every row. |
| `Summary.BothDatesBound` | backend/src/routes/transactions.ts:169-172 | With both given, a row is kept exactly when its date lies between them, inclusive. |
| `Summary.AddRowSummarizes` | backend/src/routes/transactions.ts:174 | Adding one row to the GROUP BY result for some rows gives the result for those rows plus that one. |
| `Summary.GroupedSummarizes` | backend/src/routes/transactions.ts:157-174 | GROUP BY type, category gives one line per key that occurs. Each line holds its key's SUM, a COUNT of at least 1, and AVG = total / count. The counts add up to the number of rows and the totals to the sum of all amounts. |
| `Summary.SortedSummarizes` | backend/src/routes/transactions.ts:174 | Reordering the lines by total keeps all of that. |
| `Summary.Summarize` | backend/src/routes/transactions.ts:154-179 | The summary is the GROUP BY result for the rows in the date window, largest total first. Its counts add up to the number of rows in the window. |
| `Goals.View` | backend/src/routes/goals.ts:10-20 | `transformGoal` carries every column over under its camelCase name. A NULL note becomes ''. |
| `Goals.MissingNotesReadEmpty` | backend/src/routes/goals.ts:17 | A goal stored without notes reads exactly like one with an empty note. |
| `Goals.ByDeadline` | backend/src/routes/goals.ts:24 | The ordered goals are the table's rows, each exactly once, in non-decreasing deadline order. |
| `Goals.ListGoals` | backend/src/routes/goals.ts:23-32 | GET / returns every goal exactly once, transformed, with distinct ids, earliest deadline first. |
| `Goals.GetGoal` | backend/src/routes/goals.ts:35-43 | Get returns the transformed goal exactly when the id exists. Otherwise the reply is 404 "Goal not found". |
| `Goals.NewGoalRow` | backend/src/routes/goals.ts:55 | Create stores `currentAmount \|\| 0` and `notes \|\| ''`, with both timestamps from the clock. |
| `Goals.CreateGoal` | backend/src/routes/goals.ts:46-62 | Create succeeds exactly when the id is fresh and the row passes the CHECKs. It then adds exactly that row and returns it transformed. A failure changes nothing. |
| `Goals.CreateThenGetGoal` | backend/src/routes/goals.ts:55-61 | After a successful create, get by the new id returns what create answered. |
| `Goals.PatchedGoal` | backend/src/routes/goals.ts:66-93 | A partial update writes exactly the present fields among name, target, current, deadline, colour and notes. It keeps created_at and stamps updated_at. |
| `Goals.UpdateGoal` | backend/src/routes/goals.ts:65-112 | An empty change-set is a 400 before the id is looked up, and a missing id is a 404. A failure changes nothing. A success replaces only that row and returns it transformed. |
| `Goals.HandlersKeepChecks` | backend/src/database.ts:84-95 | Create, update and delete keep every stored goal within the CHECK constraints. |
| `Goals.ValidatedGoalCreateSucceeds` | backend/src/middleware/validation.ts:97-136 | A goal the create validator accepts, with a fresh id, never trips a CHECK. It is stored with current <= target. |
| `Goals.ValidatedGoalUpdateOnlyFailsOperationally` | backend/src/middleware/validation.ts:139-171 | With a validated change-set, the only errors update can throw are the operational 400 and 404. |
| `Goals.PatchCanExceedTarget` | backend/src/routes/goals.ts:65-101 | Nothing re-checks the amounts on update. PATCH with currentAmount 500 on a goal whose target is 100 succeeds and stores current > target. |
| `Goals.RaisingCurrentIsAccepted` | backend/src/middleware/validation.ts:153-156 | The update validator accepts a body that only sets currentAmount, and passes exactly that field on. |
| `Goals.RaisingCurrentApplies` | backend/src/database.ts:88-89 | The goals CHECKs bound each amount separately, so that update is stored with current above target. |
| `Goals.PostGoal` | backend/src/routes/goals.ts:46-62 | POST / answers 400 with the validator's details exactly when validation fails. It succeeds exactly when the body validates and the id is fresh. A success is a 201 that stores `NewGoalRow` of the validated body and returns its view. Anything else leaves the table unchanged. |
| `Goals.PatchGoal` | backend/src/routes/goals.ts:65-112 | PATCH /:id is refused by validation exactly when the validator rejects the body, with exactly `ValidateGoalUpdate`'s errors as the details. For a validated body, no fields gives 400 and an unknown id gives 404. Over rows that meet the CHECKs, it succeeds exactly when both pass. A success is a 200 that writes `PatchedGoal` of the stored goal and returns its view. Any non-success leaves the table unchanged. |
| `Goals.PatchWithoutFieldsIs400` | backend/src/routes/goals.ts:95-97 | An empty body gets 400 "No fields to update", and the table is unchanged. |
| `Goals.FetchGoal` | backend/src/routes/goals.ts:35-43 | GET /:id is a 400 exactly for a blank id, carrying the single "ID is required" error. It is a 200 exactly when the trimmed id is stored, with that goal's view, and a 404 "Goal not found" otherwise. |
| `Goals.RemoveGoal` | backend/src/routes/goals.ts:115-126 | DELETE /:id is a 400 with the single "ID is required" error exactly for a blank id. It succeeds exactly when the trimmed id is stored, then removes exactly that goal and answers 200 "Goal deleted successfully". Otherwise it answers 404 and changes nothing. |

## Left out

- Lower-casing is modelled for ASCII letters only. `toLowerCase` also maps some non-ASCII characters onto ASCII letters: U+212A KELVIN SIGN becomes `k`, and U+0130 becomes `i` followed by a combining dot. Keywords such as "parking" and "ticket" contain `k`, so a description spelled with the Kelvin sign matches a category in the program but not in `Categorization.Categorize`. Such characters are not modelled.
- Strings are sequences of Unicode code points, which is what SQLite's `length()` counts in the CHECK constraints. The model's length rules (`Validation.TrimmedLengthWithin`) count code points too. validator.js `isLength` counts code points less the variation selectors U+FE0E and U+FE0F. That is modelled as `Validation.IsLengthCount`, and the gap it opens is under Findings.
- `Transactions.ValidatedCreateSucceeds`: holds for the code-point length rules. With `isLength`'s own count, a category or description that ends at its cap with a variation selector validates, then breaks its CHECK, and the create answers 500.
- `Transactions.ValidatedUpdateOnlyFailsOperationally`: holds for the code-point length rules. With `isLength`'s own count, the same input lets a validated update throw a non-operational CHECK error, answered with a 500.
- `Goals.ValidatedGoalCreateSucceeds`: holds for the code-point length rules. With `isLength`'s own count, a name or notes at its cap with a variation selector validates and then breaks its CHECK.
- `Goals.ValidatedGoalUpdateOnlyFailsOperationally`: holds for the code-point length rules. With `isLength`'s own count, a validated update can break the name or notes CHECK.
- `Common.YearLater` keeps the position in the year. On 29 February, `setFullYear` rolls over to 1 March, and that is not modelled.
- Amounts are exact reals. Floating-point rounding in JSON numbers, SUM and AVG is not modelled.
- Numbers and dates arrive already parsed:
  - a body field is absent, present with its value, or unparsable;
  - string-to-number coercion and the ISO 8601 grammar are left out;
  - a JSON `null` is not distinguished from a missing field.
- `Transactions.ListTransactions` uses the corrected `Limit`, not the `LimitAsWritten` the route computes. For `?limit=-1` the program replies with `limit: -1`, every matching row and a `totalPages` of zero or below. The model replies with a page of at most 50 rows. `Transactions.RouteAsWrittenListsEveryRow` states the as-written page; the rest is described under Findings.
- Dates are compared as instants, but SQLite compares the stored TEXT. This applies to the summary's startDate and endDate window, to `ORDER BY date DESC, created_at DESC` in the transaction listing (`Transactions.NewestFirst`), and to `ORDER BY deadline ASC` in the goal listing (`Goals.EarliestDeadline`). Text and instant order agree only for uniformly formatted ISO strings. With time-zone offsets they differ: "2024-05-01T01:00:00+05:00" sorts after "2024-04-30T22:00:00Z" as text but is the earlier instant.
- SQL leaves the order of rows that tie on every ORDER BY key unspecified. The model sorts stably in the table's scan order, which is a parameter.
- The wall clock and `uuidv4` are parameters. The caller supplies `now` and a fresh id.
- Error texts from better-sqlite3 are stand-ins ("UNIQUE constraint failed", "CHECK constraint failed"). Only whether they mention SQLITE matters, and none does.
- Indexes and the `updated_at` triggers' SQL are left out. The trigger's effect is modelled as stamping `now`.
- Logging, `backupDatabase`, the WAL and foreign-key pragmas, configuration, server start-up, helmet, CORS and the rate limiter do nothing to the data and are left out.
- The frontend and the Electron shell are outside the backend core.

## Findings

| source | as written | input that shows it | evidently intended | confidence | as-written member | corrected member |
|---|---|---|---|---|---|---|
| backend/src/routes/transactions.ts:13 | `Math.min(parseInt(limit) \|\| 50, 100)` passes a negative limit through, and SQLite reads a negative LIMIT as no limit | `GET /transactions?limit=-1` on a table of more than 100 rows returns every row | page size between 1 and 100, so at most 100 rows per page | not executed | `Pagination.LimitAsWritten` (shown by `Pagination.NegativeLimitIsUnbounded` and, at the route, `Transactions.RouteAsWrittenListsEveryRow`) | `Pagination.Limit` (bounded by `Pagination.PageIsBounded`; used by `Transactions.ListTransactions`) |
| backend/src/middleware/validation.ts:35 | `isLength({ min: 1, max: 50 })` counts code points less U+FE0E/U+FE0F, while `CHECK(length(category) <= 50)` at backend/src/database.ts:62 counts every code point. The same holds for description, source, name and notes. | POST a category of 49 × "a" followed by "❤️" (U+2764 U+FE0F). It validates as 50 characters, the INSERT breaks the CHECK at 51, and the reply is 500 "An unexpected error occurred" instead of 400 | the validator and the CHECK measure length alike, so every validated body can be stored | not executed; depends on the validator.js version | `Validation.IsLengthCount` with `Validation.TrimmedIsLengthWithin` (shown by `Transactions.SelectorCategoryFailsCheck`) | `Validation.TrimmedLengthWithin` (a validated create always stores: `Transactions.ValidatedCreateSucceeds`, `Goals.ValidatedGoalCreateSucceeds`) |
