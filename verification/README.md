# Leave and overtime accounting engine, modelled in Dafny

This project models the accounting core of an HR leave system. The core has six parts:

- **Duration calculators.**
  - `calculateHours` counts overtime hours.
  - The detail-row calculator `calculateRowHours` counts the hours of a reviewed row.
  - The leave form's `calculateDays` counts day units.
  - The warning evaluator has its own day count.
- **Quota accountant.** `getDynamicQuotaInfo` gives the used, pending and remaining quota of a category. The pre-write checks and record construction of `handleSubmit` use it.
- **Overlap detector.** The predicate of `checkTimeOverlap`.
- **Warning evaluator.** `evaluateWarnings`.
- **Overtime settlement ledger.** This is the part that changes state:
  - the monthly applied and compensatory totals;
  - the live balance carried from the previous month;
  - `executeSettlement`, which writes settlement records keyed by (user, year, month), stamps the base and pay signatures independently, and re-derives each touched user's overtime quota from their latest record;
  - `saveDetailReview`, which writes the edited actual times into the requests, sums them per user into the month's base hours, upserts the records and re-syncs the quota.
- **Attachment-URL codec.** `sanitizeForDB` / `processFromDB` store the attachment list as JSON text in the legacy single-URL column and read it back.

## Modules

| file | module | what it holds |
|---|---|---|
| `domain.dfy` | `Domain` | The shared types below. |
| `overtime_hours.dfy` | `OvertimeHours` | `calculateHours`, the detail-row calculator, and the monthly totals as a loop proved equal to a sum. |
| `ledger_spec.dfy` | `LedgerSpec` | Value-level definitions of the ledger operations, and the lemmas about them. |
| `ledger_store.dfy` | `SettlementLedger` | The class `SettlementStore`, described below. |
| `leave_apply.dfy` | `LeaveApplication` | `calculateDays`, `formatQuota`, the quota accountant (loop), and `handleSubmit`. |
| `overlap.dfy` | `OverlapCheck` | The overlap predicate and the first-conflict search. |
| `warnings.dfy` | `WarningRules` | `evaluateWarnings` (nested loops), proved equal to a rule-by-rule definition. |
| `attachment_codec.dfy` | `AttachmentCodec` | A JSON encoder and decoder for lists of strings, the two row conversions, and their round trip. |

The types in `Domain` are:

- dates as canonical `YYYY-MM-DD` values with a day number;
- clock times;
- JavaScript numbers with `NaN`;
- requests, users, settlement records and warning rules.

The ledger definitions in `LedgerSpec` cover:

- record lookup;
- the live balance;
- the record a settlement writes;
- the batch upsert and the quota sync;
- the detail-review totals, records and request edits.

`SettlementStore` holds three tables: users, settlement records and requests. Its two methods, `ExecuteSettlement` and `SaveDetailReview`, run the source's loops through read-only helper methods. Each method's postcondition ties the new tables to the definitions in `LedgerSpec`. The lemmas there establish what the source promises:

- no duplicate (user, year, month) key;
- records of other users and months are kept;
- existing ids are kept;
- the remaining-hours identity;
- the quota sync.

## Model

| member | source | states |
|---|---|---|
| Domain.InclusiveDays | views/AdminOvertimeReview.tsx:43-46 | The day count of a span is at least 1 and equals the absolute day difference plus one. |
| Domain.InclusiveDaysSymmetric | views/AdminOvertimeReview.tsx:45 | The inclusive day count does not depend on which end comes first. |
| Domain.DayNumberCountsDays | views/AdminOvertimeReview.tsx:43-46 | Day numbers count calendar days. 1970-01-01 is day 0. The next valid date is always one day later: within a month, across a month end or year end, and across the end of February in leap and common years. |
| OvertimeHours.CalculateHours | views/AdminOvertimeReview.tsx:40-62 | The result is never negative. A whole-day span gives 8 × (day difference + 1), so at least 8. A partial day with HH:MM times gives max(0, minute difference)/60. A partial day with a missing or colon-less time gives 4. |
| OvertimeHours.WholeDayHoursSymmetric | views/AdminOvertimeReview.tsx:41-47 | Whole-day hours are unchanged when the two dates are swapped, and equal 8 × the inclusive day count. |
| OvertimeHours.CalculateRowHours | views/AdminOvertimeReview.tsx:614-628 | A blank date gives 0. A 00:00–00:00 row counts whole days (at least 8 hours). Any other row is the signed difference between the two date-times, in hours. |
| OvertimeHours.AutoDuration | views/AdminOvertimeReview.tsx:630-635 | The auto-calculated duration is max(0, row hours). It is never negative, never below the row hours, and either 0 or exactly the row hours. |
| OvertimeHours.HoursAgreeWithRowHours | views/AdminOvertimeReview.tsx:40-62 | Whole-day requests get the same hours from both calculators. On a same-day partial request the request hours are the clamped row hours. |
| OvertimeHours.MonthRequests | views/AdminOvertimeReview.tsx:255-260 | The filter keeps exactly the user's APPROVED requests of the type whose original start date is in the selected month. |
| OvertimeHours.SumHours | views/AdminOvertimeReview.tsx:262-266 | The sum of `calculateHours` over a list is never negative. |
| OvertimeHours.SumHoursAppend | views/AdminOvertimeReview.tsx:262-266 | The sum over a concatenation is the sum of the two parts. |
| OvertimeHours.MonthlyHoursBounds | views/AdminOvertimeReview.tsx:254-282 | A monthly total is ≥ 0. It is 0 when no request qualifies. It is at least the hours of each request it counts. |
| OvertimeHours.MonthlyHoursAppend | views/AdminOvertimeReview.tsx:254-282 | A monthly total is additive over list concatenation, so requests that do not qualify never change it. |
| OvertimeHours.CalculateMonthlyHours | views/AdminOvertimeReview.tsx:262-266 | The accumulation loop returns exactly the monthly total, which is ≥ 0. |
| OvertimeHours.CalculateMonthlyAppliedHours | views/AdminOvertimeReview.tsx:254-267 | Returns the monthly total of approved OVERTIME hours. |
| OvertimeHours.CalculateMonthlyCompensatoryHours | views/AdminOvertimeReview.tsx:270-282 | Returns the monthly total of approved COMPENSATORY hours. |
| LedgerSpec.FindIndex | views/AdminOvertimeReview.tsx:805-807 | The result is −1 or a valid index. An index it returns holds the key and no earlier index does. −1 means no record has the key. |
| LedgerSpec.FindRecord | views/AdminOvertimeReview.tsx:370 | A record it finds is in the list and has the key. It finds none exactly when no record has the key. |
| LedgerSpec.FindIndexIsFirst | views/AdminOvertimeReview.tsx:805-807 | The index found is the first one holding the key. |
| LedgerSpec.FindRecordUnique | views/AdminOvertimeReview.tsx:370 | In a list without duplicate keys or ids, the lookup of a record's key returns that record. |
| LedgerSpec.LiveBalance | views/AdminOvertimeReview.tsx:285-299 | A non-zero live balance is the remainingHours of one of the user's records for the previous month. |
| LedgerSpec.LiveBalanceReadsPreviousMonth | views/AdminOvertimeReview.tsx:285-299 | The live balance is the remaining hours of the (year, month − 1) record, with January wrapping to December of the previous year. It is 0 when that record is missing. |
| LedgerSpec.TargetUserIds | views/AdminOvertimeReview.tsx:359-366 | BATCH targets the modified users. BATCH_BASE targets the users with a base input. A single action targets its named user, or nobody if it names none. |
| LedgerSpec.SettledRecord | views/AdminOvertimeReview.tsx:368-432 | The written record has the selected key. remainingHours = live balance + actualHours − paidHours − monthly compensatory hours. appliedHours is the monthly OVERTIME total. The record keeps the existing id, or takes the fresh id only when no record exists. settledAt and settledBy come from the signature. |
| LedgerSpec.SubFieldIndependence | views/AdminOvertimeReview.tsx:379-393 | SINGLE_PAY never changes actualHours or baseAuth. SINGLE_BASE and BATCH_BASE never change paidHours or payAuth. |
| LedgerSpec.SignaturePolicy | views/AdminOvertimeReview.tsx:379-429 | An input is written as given, with no range check. Its signature is replaced when the value changes, and by SINGLE_BASE, BATCH_BASE or SINGLE_PAY even when it does not. Under BATCH an unchanged value keeps the old signature. Without an input, the value and signature stay. |
| LedgerSpec.ReapplySettlement | views/AdminOvertimeReview.tsx:379-432 | Repeating a BATCH settlement rewrites the identical record with only a new settlement time. A repeated single action re-stamps its own signature. |
| LedgerSpec.SettleBatch | views/AdminOvertimeReview.tsx:368-434 | There are at most as many records as users. Each record is the settled record of a target user who is in the user table, and every such user's settled record is present. |
| LedgerSpec.Kept | views/AdminOvertimeReview.tsx:436-437 | The kept records are exactly the old records whose id is not being rewritten, and there are no more of them than old records. |
| LedgerSpec.KeptAppend | views/AdminOvertimeReview.tsx:436-437 | Keeping distributes over concatenation, so the kept records keep their order and multiplicity. |
| LedgerSpec.Upsert | views/AdminOvertimeReview.tsx:436-438 | The written records come last, in order. The result holds exactly the written records and the old records whose id is not being rewritten. |
| LedgerSpec.SettlementUpsert | views/AdminOvertimeReview.tsx:436-438 | After the upsert there is still no duplicate key or id. Records of non-target users and of other months are unchanged. Each settled user's key finds exactly their new record. Nothing else is added. |
| LedgerSpec.UserRecords | views/AdminOvertimeReview.tsx:444-445 | The filter keeps exactly the user's records. It is empty when the user has none. |
| LedgerSpec.Latest | views/AdminOvertimeReview.tsx:447-452 | The latest record belongs to the list. No record has a later (year, month). It is missing only for an empty list. |
| LedgerSpec.SyncUsersSpec | views/AdminOvertimeReview.tsx:441-460 | The user list keeps its length and ids. Each touched user with records gets quota.overtime = max(0, latest remainingHours / 8) and nothing else changes. Untouched users and users without records are unchanged. |
| LedgerSpec.DetailRequests | views/AdminOvertimeReview.tsx:574-579 | The detail rows are exactly the APPROVED OVERTIME requests starting in the selected month. |
| LedgerSpec.UserOrderSpec | views/AdminOvertimeReview.tsx:782-788 | The keys of the per-user totals are exactly the users who have a detail row, each listed once. |
| LedgerSpec.UserTotalIsMonthlySum | views/AdminOvertimeReview.tsx:782-788 | A user's total is the sum of the edited durations over exactly that user's approved overtime requests of the month. |
| LedgerSpec.EditedSumOfUncorrected | views/AdminOvertimeReview.tsx:786 | When every row has an edit whose duration equals its calculated hours, the edited sum equals the sum of `calculateHours`. |
| LedgerSpec.UncorrectedReviewMatchesApplied | views/AdminOvertimeReview.tsx:782-788 | A review that leaves every duration at its calculated hours sets the base to the monthly applied hours. |
| LedgerSpec.ReviewedRecord | views/AdminOvertimeReview.tsx:800-838 | The record has the key and actualHours = the user's total. baseAuth is the review signature. paidHours and payAuth are kept (0 and none for a new record). The remaining-hours identity holds. An existing record changes only in actualHours, remainingHours and baseAuth. A new record has a fresh id and the monthly applied hours. |
| LedgerSpec.DetailUpsert | views/AdminOvertimeReview.tsx:799-840 | The upsert never removes a record and adds at most one per reviewed user. |
| LedgerSpec.DetailUpsertSpec | views/AdminOvertimeReview.tsx:799-840 | After the upsert there is no duplicate key or id. Each reviewed user's key finds their reviewed record. Records of other users and months keep their position and value. Every record past the old end belongs to a reviewed user who had no record for the month. |
| LedgerSpec.ReviewedRequest | views/AdminOvertimeReview.tsx:750-776 | The edit becomes the actual fields and isVerified = selected. Exactly one log entry is appended, with the old logs as prefix, if and only if the request is selected. That entry is an UPDATE by the reviewer (id and name), stamped with the review time, carrying the verified date, times and hours. Nothing else changes. |
| LedgerSpec.ReviewedRequests | views/AdminOvertimeReview.tsx:749-779 | Requests with an edit are reviewed, others are unchanged, and the list keeps its length and order. |
| SettlementLedger.SettleUser | views/AdminOvertimeReview.tsx:368-432 | The imperative record-building step returns exactly the settled record. |
| SettlementLedger.TouchedIds | views/AdminOvertimeReview.tsx:433 | The touched ids are exactly the target ids that belong to a user in the table. |
| SettlementLedger.SettleUsers | views/AdminOvertimeReview.tsx:368-434 | The loop over users builds exactly the batch of settled records and the touched-id set. |
| SettlementLedger.ReviewUser | views/AdminOvertimeReview.tsx:800-838 | One turn either overwrites the existing record in place or appends a new one, as the reviewed record states. |
| SettlementLedger.ReviewUsers | views/AdminOvertimeReview.tsx:799-840 | The loop yields the reviewed record list. "Records changed" holds exactly when some user had a total. |
| SettlementLedger.ComputeUserTotals | views/AdminOvertimeReview.tsx:782-788 | The loop's key order is the user order of the detail rows. The dictionary's keys are exactly those users, and each value is that user's edited sum. |
| SettlementLedger.UserTotals | views/AdminOvertimeReview.tsx:782-788 | Each listed user maps to their edited sum, and no other key is present. |
| SettlementLedger.SettlementStore.ExecuteSettlement | views/AdminOvertimeReview.tsx:354-460 | The stored records become the upsert of the settled batch, with no duplicate key or id. Records of untouched users and other months are kept. Each touched user's key finds their settled record. Touched users' quotas are re-synced and the other users are unchanged. Requests are unchanged. |
| SettlementLedger.SettlementStore.SaveDetailReview | views/AdminOvertimeReview.tsx:743-867 | The requests become the reviewed requests. The records satisfy the detail-upsert property. Users are re-synced for exactly the reviewed users when any record changed, and are otherwise unchanged. |
| LeaveApplication.CalculateDays | views/LeaveApply.tsx:82-93 | A whole day gives day difference + 1 (≥ 1). A partial day with both times gives (end − start minutes)/480, unclamped, or NaN for a colon-less time. A partial day with a missing time gives 0. |
| LeaveApplication.CalculateDaysSymmetric | views/LeaveApply.tsx:83-85 | The whole-day count is symmetric in start and end. |
| LeaveApplication.DaysAndHoursOnWholeAndPartialDays | views/LeaveApply.tsx:82-93 | On whole days the hours are 8 × the days. A partial day without times is 4 hours but 0 days. A reversed partial day is 0 hours but a negative day count. |
| LeaveApplication.FormatQuota | views/LeaveApply.tsx:95-98 | The label's days are floor(val). Its hours are in 1..8 and omitted when 0. Days × 8 + hours is within half an hour of val × 8. |
| LeaveApplication.AlmostWholeDayShowsEightHours | views/LeaveApply.tsx:95-98 | 0.95 is shown as 0 days 8 hours, 1.5 as 1 day 4 hours, and 2 as 2 days. |
| LeaveApplication.TotalQuota | views/LeaveApply.tsx:101 | ANNUAL gives the year's annual quota (0 if none). COMPENSATORY gives the overtime quota. Every other type gives 0. |
| LeaveApplication.Remaining | views/LeaveApply.tsx:110 | The remaining quota is max(0, total − (used + pending)), and NaN exactly when used or pending is NaN. |
| LeaveApplication.QuotaOf | views/LeaveApply.tsx:100-111 | The remaining quota is never negative, and is a number exactly when used and pending are. |
| LeaveApplication.GetDynamicQuotaInfo | views/LeaveApply.tsx:100-111 | The accumulation loop returns exactly the quota figures. |
| LeaveApplication.BucketDaysInsert | views/LeaveApply.tsx:104-108 | Inserting a request that is not counted, or whose status is not the bucket's, leaves the bucket unchanged. Inserting a counted one of the bucket's status adds its days. |
| LeaveApplication.QuotaOfInsert | views/LeaveApply.tsx:104-108 | These requests leave the quota figures unchanged: another user's, another type's, the edited one, another year's (ANNUAL), REJECTED or CANCELLED. An APPROVED counted request adds its days to used. An IN_PROCESS or '待…' one adds its days to pending. |
| LeaveApplication.QuotaFiniteWhenTimesWellFormed | views/LeaveApply.tsx:86-89 | When every partial request has HH:MM times, the remaining quota is a number. |
| LeaveApplication.FindTitleRule | views/LeaveApply.tsx:166 | A rule found is in the list and has the user's job title. There is none exactly when no rule matches. |
| LeaveApplication.FindTitleRuleIsFirst | views/LeaveApply.tsx:166 | The rule found is the first in list order with the user's job title. |
| LeaveApplication.TotalSteps | views/LeaveApply.tsx:165-167 | totalSteps is the number of steps, or min(maxLevel, steps) when a job-title rule matches. |
| LeaveApplication.HandleSubmit | views/LeaveApply.tsx:150-178 | Submission fails with an overlap if and only if a conflicting request exists. Otherwise it fails on quota if and only if the type is ANNUAL or COMPENSATORY and the days exceed the remaining quota. Otherwise it fails without a workflow group. Otherwise it builds the record: IN_PROCESS, step 1, empty approvals and logs, the computed totalSteps, the edited id or a fresh one, and the form's fields. |
| OverlapCheck.FindConflict | services/mockDb.ts:245 | A request found is in the list and conflicts. None is found exactly when no request conflicts. |
| OverlapCheck.FindConflictIsFirst | services/mockDb.ts:245 | The request reported is the first conflicting one in list order. |
| OverlapCheck.CheckTimeOverlap | services/mockDb.ts:243-247 | overlap holds if and only if a conflicting request is returned, if and only if some request has the same user, is not the excluded id, is not REJECTED or CANCELLED, and intersects the span inclusively. The clock times and partial flag are ignored. |
| OverlapCheck.SharedBoundaryDayOverlaps | services/mockDb.ts:245 | A shared boundary day overlaps. The day before does not. The excluded id and a cancelled request do not. |
| WarningRules.ApprovedOf | services/mockDb.ts:228 | The filter keeps exactly the user's APPROVED requests. |
| WarningRules.RequestWeight | services/mockDb.ts:232-235 | A partial request weighs 0.5. A whole-day request weighs its overtime hours in 8-hour days, which is its inclusive day count (≥ 1). |
| WarningRules.TypeCount | services/mockDb.ts:231-236 | A rule's count is never negative. |
| WarningRules.EvaluateWarnings | services/mockDb.ts:226-242 | The nested loops return exactly the rule-by-rule warnings. |
| WarningRules.TypeCountAppend | services/mockDb.ts:231-236 | The count over a concatenation is the sum of the counts. |
| WarningRules.ApprovedOfAppend | services/mockDb.ts:228 | Filtering distributes over concatenation. |
| WarningRules.WarningCountGrows | services/mockDb.ts:228-236 | Adding a request never lowers a count. It raises the count by the request's weight exactly when the request is the user's, APPROVED and of the rule's type. |
| WarningRules.WarningsFollowRules | services/mockDb.ts:229-239 | Warnings appear in rule order, at most one per rule (so at most \|rules\|). A warning appears exactly for the rules whose count ≥ threshold. Each copies the rule's id, name, message and colour, with the count as current value. |
| WarningRules.ThreeDayRequestFiresThreshold | services/mockDb.ts:232-239 | An approved three-day request fires a rule with threshold 3, with current value 3. |
| AttachmentCodec.EncodeList | services/mockDb.ts:75 | The text is at least two characters long and starts with '[', so a later read sends it to the decoder. |
| AttachmentCodec.DecodeList | services/mockDb.ts:84-86 | Only a text whose first non-space character is '[' decodes to a list. |
| AttachmentCodec.ListRoundTrip | services/mockDb.ts:75-86 | Decoding the encoding of any list of strings gives back the list. |
| AttachmentCodec.ElementsRoundTrip | services/mockDb.ts:75-86 | The element parser reads back every encoded list body. |
| AttachmentCodec.SanitizeForDb | services/mockDb.ts:71-80 | A present attachment list, even an empty one, is written as JSON into the legacy field. The list field is removed. Nothing else changes. |
| AttachmentCodec.StoredUrls | services/mockDb.ts:82-92 | Text starting with '[' or '{' is decoded, falling back to the text itself when it is not a list of strings. Other non-empty text is a single URL. Empty text gives no URLs. |
| AttachmentCodec.ProcessFromDb | services/mockDb.ts:82-94 | The list field is the recovered list and the legacy field its first URL or empty. Nothing else changes. |
| AttachmentCodec.SanitizeProcessRoundTrip | services/mockDb.ts:71-94 | Writing then reading gives back the original attachment list, with the legacy field set to its first URL. A legacy plain URL reads back as a one-element list. |

## Left out

- Rendering, hooks, modals, flash state and the search filter are presentation only. The input clearing after a settlement and after a review (views/AdminOvertimeReview.tsx:462-484, 869-884) is not modelled.
- The credential comparison at the start of `executeSettlement` is authentication. The model starts after it succeeds.
- All remote storage calls are not part of this model: the get/save/upsert methods, file upload with its rename retry, and file deletion. Neither is `getUserWorkflowGroup`. Fetched tables and the user's workflow group are parameters, or fields of `SettlementStore`.
- XLSX import/export and the review-note storage in the browser are a foreign library and browser storage.
- `toFixed`/`parseFloat` rounding is not modelled. Hours and days are exact reals.
- `Date` parsing is not modelled. Dates are canonical values, and year and month are read from the date itself, not in the local time zone.
- Clock times are HH:MM, a text without a colon, or missing. A text with a colon but non-numeric parts is not modelled.
- OvertimeHours.CalculateRowHours: a detail row's clock times are whole minutes, so a time field the operator has cleared is not modelled. In views/AdminOvertimeReview.tsx:622-626 a cleared time builds an invalid `Date`, and the row hours are `NaN`. The initial edits never hold a cleared time, since they fall back to 00:00 (589-590). This clock-time rule covers request times only.
- OvertimeHours.AutoDuration: for the same reason the `NaN` duration that `Math.max(0, NaN)` writes for a cleared time (630-635) is not modelled.
- Ids, UUIDs and timestamps are parameters. One signature timestamp stands for every `new Date()` of a settlement or review.
- A settlement's fresh ids come from an injective function whose values differ from the stored ids. Collisions of random ids are not modelled.
- AttachmentCodec.DecodeList: reads JSON arrays of strings only. Any other JSON value (an object, numbers, nested arrays) is treated as a failed parse, so it falls back to the raw text.
- AttachmentCodec.DecodeList: a `\u` escape naming a UTF-16 surrogate (D800–DFFF) is rejected, because a Dafny `char` is a Unicode scalar value. `JSON.parse` accepts such escapes and joins a pair into one code point, so a stored `["\ud83d\ude00.png"]` reads back here as the raw text rather than a one-URL list. `SanitizeForDb` never writes such escapes, since `JSON.stringify` copies every non-control character of a well-formed string.
- `handleOpenDetailView`'s date sort and its initial edit values are not modelled. The detail rows and the edits are inputs.
- `handleBatchAutoCalculate` is not modelled separately. It applies `AutoDuration` to every row.
- An edit's duration that is NaN or 0 counts as 0 in `saveDetailReview`. The model's durations are numbers.
- The order of per-user totals is the first-appearance order of the detail rows. JavaScript lists integer-like keys first, and that is not modelled.
- The access helpers `canAccessTeamStats` and `getVisibleUsers`, and the gender filter of leave categories, are configuration queries. They are not modelled.
- LeaveApplication.HandleSubmit: the write (create or update), the user refresh and the navigation after it are I/O and not modelled. The record's absent optional fields are modelled as none, and `isVerified` as false.
