# Weekly scheduler core, in Dafny

This project models the scheduling core of a small caregiver-scheduling web application. A user keeps two kinds of time slots:

- **Recurring slots** are rows of the `schedules` table. Each one is slot 0 or slot 1 of a weekday (0 = Sunday … 6 = Saturday), with `HH:MM` start and end times.
- **One-time overrides** are rows of the `edited_schedules` table. Each one gives new times to one recurring slot on a single calendar date.

The core has three parts:

- **`/getSchedule`** (module `GetSchedule`, function `Resolve`) builds the weekly view for a date range:
  - It checks the range.
  - It reads the user's recurring rows, and the user's overrides dated in the range.
  - It sorts the recurring rows by (weekday, slot) and the overrides by (date, slot).
  - It puts every recurring row into the bucket named after its weekday.
  - It overlays the overrides one by one. Each overlay drops the recurring entry the override names, appends the override, and re-sorts the bucket by slot.
- **`/addSchedule`** (module `AddSchedule`, function `Apply`) is a transition over the two stores:
  - It validates the request.
  - It looks up the first recurring row in the requested weekday and slot.
  - It then does one of three things: append a new recurring row, append an override of that row for the requested date, or refuse because that override already exists.
- **The sign-up / log-in form** (module `AuthForm`):
  - `ValidatePassword` lists the strength rules a password breaks.
  - `HandleSubmit` is the submit guard. It adds the confirmation mismatch on sign-up, and sends a request only when no message is reported.

Support modules:

- `Seqs` holds the order-preserving `Filter`, which plays the role of `Array.prototype.filter`, and the facts about it.
- `StableSort` holds the stable `Array.prototype.sort` under the comparators of the shape `a.x - b.x || a.y - b.y`, which the code uses, as a sort by a pair key.
- `Chars` holds the ASCII character classes.
- `ScheduleModel` holds the rows, the view entries, the weekday-name table, the `HH:MM` format and the store invariant.

Modelling choices:

- **Dates** are day ordinals. A date that does not parse is `None`.
- **Override entries have no `id`.** The override query selects no `id` column, so in the view an override entry has none. As a result, a later overlay never removes an earlier override.
- **Weekday names.** `dayjs().day(n)` names weekday `n` modulo 7, counted from Sunday. `DayIndex` is that Euclidean remainder.
- **`.first()`** is modelled as the earliest row in store order.
- **Ids.** The id the database gives a new recurring row is the parameter `nextId`.
- **The store invariant `StoreInv`** says that every row has a valid position and valid times, that recurring ids are unique, that (`schedule_id`, `occurrence_date`) is unique, and that every override points at a recurring row of its own user, weekday and slot. `Apply` is proved to keep it.

Behaviour of the code worth knowing, each point proved or stated in the model:

- A bad range gets one of two distinct errors: `InvalidDateFormat` when a date does not parse (scheduleRoutes.ts:16) and `EndBeforeStart` when the end precedes the start (scheduleRoutes.ts:22).
- A request whose times equal those of the slot's first recurring row appends a second recurring row in the same slot (`RepeatedRecurringDuplicates`). Both rows are then shown (`RecurringShownUnlessOverridden`), so a weekday can show several entries for one slot.
- A (`schedule_id`, `occurrence_date`) clash on insert would end in the generic 500 response. Under `StoreInv`, the lookup at scheduleRoutes.ts:130-136 already finds every such clash (`ConflictIffOccurrenceTaken`), so the insert never clashes while requests do not overlap.

## Model

| member | source | states |
|---|---|---|
| GetSchedule.Resolve | backend/src/routes/scheduleRoutes.ts:12-92 | succeeds exactly when both dates parse and end is not before start (equal dates accepted); the error is the format error exactly when a date does not parse; a success has exactly the seven keys monday … sunday, and every recurring row of the user whose weekday has no override in the range is shown under its weekday's name |
| GetSchedule.RegularRows | backend/src/routes/scheduleRoutes.ts:25-27 | the view reads exactly the user's recurring rows, each with its id, weekday, slot and times |
| GetSchedule.ResolveBuckets | backend/src/routes/scheduleRoutes.ts:25-90 | the seven buckets of a valid range: the user's recurring rows sorted by (weekday, slot) and placed by weekday, then the in-range overrides sorted by (date, slot) and overlaid one by one |
| GetSchedule.EditedRows | backend/src/routes/scheduleRoutes.ts:29-40 | the view reads exactly the user's overrides dated in [start, end] inclusive, without their row id |
| GetSchedule.OutOfRangeOverrideIgnored | backend/src/routes/scheduleRoutes.ts:29-40 | inserting an override of another user, or one dated outside the range, anywhere in the store leaves the result unchanged |
| GetSchedule.EditedRowsOnce | backend/src/migrations/20250904051853_scheduler.ts:47 | with (`schedule_id`, `occurrence_date`) unique, each selected override is read exactly once |
| StableSort.SortBy | backend/src/routes/scheduleRoutes.ts:42-49 | the sort returns a permutation of its input, ordered by the comparator's key |
| StableSort.SortByStable | backend/src/routes/scheduleRoutes.ts:42-49 | the sort is stable: elements with equal keys keep their relative order |
| StableSort.StableSortUnique | backend/src/routes/scheduleRoutes.ts:42-49 | two sorted sequences that keep the same order per key are equal, so a stable sort has one possible result |
| StableSort.SortByIsTheStableSort | backend/src/routes/scheduleRoutes.ts:42-49 | any sorted, stable rearrangement of the input is exactly the result of the sort, so the model agrees with every conforming engine |
| StableSort.FilterSorted | backend/src/routes/scheduleRoutes.ts:61-67 | taking the rows of one weekday out of a sorted list keeps them sorted |
| ScheduleModel.DayIndex | backend/src/routes/scheduleRoutes.ts:62-65 | the weekday a `day_of_week` value names is in 0..6 and is the value itself for 0..6 |
| GetSchedule.Place | backend/src/routes/scheduleRoutes.ts:61-67 | the bucket of weekday w holds exactly the rows of weekday w, in input order |
| GetSchedule.PlaceFrom | backend/src/routes/scheduleRoutes.ts:61-67 | each pushed row goes to the end of its weekday's bucket, in order, and no other bucket changes |
| GetSchedule.ToView | backend/src/routes/scheduleRoutes.ts:51-59 | the view has exactly the seven weekday names as keys, each mapped to the bucket of that weekday |
| ScheduleModel.DayName | backend/src/routes/scheduleRoutes.ts:62-65 | the lower-case English name of the weekday `dayjs().day(n)` lands on: Sunday for 0 through Saturday for 6, wrapping modulo 7 |
| GetSchedule.Guard | backend/src/routes/scheduleRoutes.ts:72-78 | the `some` test: an entry of the bucket has the override's `day_of_week` and `slot_number` |
| GetSchedule.Matches | backend/src/routes/scheduleRoutes.ts:79-85 | the filter removes an entry when its `id` is the override's `schedule_id` and the slots agree; an override entry has no `id` and never matches |
| GetSchedule.Supersede | backend/src/routes/scheduleRoutes.ts:72-86 | the filter runs only when the guard holds; otherwise the bucket is left as it is |
| GetSchedule.Overlay | backend/src/routes/scheduleRoutes.ts:72-89 | after an overlay the bucket is ordered by slot, and it holds what the guarded filter kept plus the override |
| GetSchedule.OverlayStable | backend/src/routes/scheduleRoutes.ts:89 | the re-sort by slot is stable: the entries of one slot keep their order, and the override comes after the kept ones |
| GetSchedule.OverlayOne | backend/src/routes/scheduleRoutes.ts:69-90 | an override changes only the bucket of its own weekday |
| GetSchedule.OverlayAll | backend/src/routes/scheduleRoutes.ts:69-90 | overlaying keeps every bucket sorted by slot, and a bucket no override falls on is unchanged |
| GetSchedule.GuardRedundant | backend/src/routes/scheduleRoutes.ts:72-86 | when all bucket entries share the override's weekday, the day/slot guard makes no difference: the result is the plain id/slot filter |
| GetSchedule.OverlayKeepsTheRest | backend/src/routes/scheduleRoutes.ts:72-88 | one overlay removes exactly the entries with id equal to `schedule_id` and the same slot, keeps every copy of every other entry, and adds the override once |
| GetSchedule.UntouchedWeekdayKept | backend/src/routes/scheduleRoutes.ts:61-90 | a recurring row stays in its bucket when no override in the range falls on its weekday |
| GetSchedule.ResolveIsEffectiveView | backend/src/routes/scheduleRoutes.ts:25-90 | for a valid range, each weekday shows, as a multiset, the user's recurring rows of that weekday that no in-range override supersedes plus the in-range overrides of that weekday, ordered by slot |
| GetSchedule.OverriddenInRangeIff | backend/src/routes/scheduleRoutes.ts:79-85 | a recurring entry is superseded by the read overrides exactly when some in-range override of the user names its id, weekday and slot |
| GetSchedule.RecurringShownUnlessOverridden | backend/src/routes/scheduleRoutes.ts:61-90 | a recurring row of the user is shown under its weekday exactly when no in-range override supersedes it, and never under another weekday |
| GetSchedule.OverrideShownOnce | backend/src/routes/scheduleRoutes.ts:69-90 | every in-range override of the user is shown exactly once, under its own weekday, and under no other weekday |
| GetSchedule.ResolveSize | backend/src/routes/scheduleRoutes.ts:61-90 | the view shows (recurring rows + in-range overrides − superseded recurring rows) entries in total |
| AddSchedule.Apply | backend/src/routes/scheduleRoutes.ts:100-165 | invalid input exactly when validation fails; for a valid request, the first recurring row in the slot decides: none, or one with the same start and end, appends a new recurring row; one with other times gives a conflict with the stores unchanged when an override of that row for the same user, weekday, slot and date exists, and otherwise appends exactly that row's override; the stores change exactly on the two creating outcomes |
| AddSchedule.Valid | backend/src/routes/scheduleRoutes.ts:110-118 | the request passes when the weekday is 0..6, the slot 0..1, both times match `^\d{2}:\d{2}$`, and the start is below the end in string order |
| ScheduleModel.IsClockTime | backend/src/routes/scheduleRoutes.ts:115-116 | the pattern `^\d{2}:\d{2}$`: exactly two ASCII digits, a colon and two ASCII digits |
| ScheduleModel.StrLess | backend/src/routes/scheduleRoutes.ts:117 | JavaScript string `<`: the first differing character decides, and a proper prefix is smaller |
| AddSchedule.ValidIffClockOrder | backend/src/routes/scheduleRoutes.ts:110-118 | validation accepts exactly weekday 0..6, slot 0..1, two `HH:MM` strings, and a start numerically before the end |
| AddSchedule.ClockOrder | backend/src/routes/scheduleRoutes.ts:115-117 | on `HH:MM` strings, the string `<` is the numeric order of `HHMM` |
| AddSchedule.OutOfClockTimeAccepted | backend/src/routes/scheduleRoutes.ts:115-116 | the pattern does not bound hours or minutes: "99:99" passes as an end time |
| AddSchedule.ChangedTimesCreateOverride | backend/src/routes/scheduleRoutes.ts:126-154 | a 09:00-10:00 row in Tuesday's slot 0 and a request for 10:00-11:00 there add an override of that row for the date |
| AddSchedule.FindRecurring | backend/src/routes/scheduleRoutes.ts:122-124 | the lookup finds nothing exactly when no row of the user is in the slot, and otherwise the earliest such row |
| AddSchedule.OccurrenceLookupIsUniqueKey | backend/src/routes/scheduleRoutes.ts:130-136 | under the store invariant, the five-column lookup finds an override exactly when the (`schedule_id`, `occurrence_date`) key is taken |
| AddSchedule.ConflictIffOccurrenceTaken | backend/src/routes/scheduleRoutes.ts:126-142 | under the store invariant, the request is refused exactly when the found row's times differ and the key (found row, date) is already taken |
| AddSchedule.InvariantAfterRecurring | backend/src/routes/scheduleRoutes.ts:157-163 | appending a valid recurring row with a fresh id keeps the store invariant |
| AddSchedule.InvariantAfterOverride | backend/src/routes/scheduleRoutes.ts:144-152 | appending a valid override that references its row and takes a free key keeps the store invariant |
| AddSchedule.ApplyPreservesInvariant | backend/src/routes/scheduleRoutes.ts:122-165 | every outcome of a request keeps the store invariant, given a fresh id for a new recurring row |
| AddSchedule.ApplyPreservesInvariantOverride | backend/src/routes/scheduleRoutes.ts:144-152 | inserting an override keeps the store invariant whatever id is offered |
| AddSchedule.RepeatedOverrideConflicts | backend/src/routes/scheduleRoutes.ts:126-142 | sending the same override request again is refused as a conflict, with the stores unchanged |
| AddSchedule.FindAfterAppend | backend/src/routes/scheduleRoutes.ts:122-124 | appending a row does not change which row the lookup finds, unless the slot was empty |
| AddSchedule.RepeatedRecurringDuplicates | backend/src/routes/scheduleRoutes.ts:122-165 | sending the same recurring request again creates another recurring row, so the slot holds one more row |
| AddSchedule.OverrideVisibleAfterApply | backend/src/routes/scheduleRoutes.ts:144-154 | after an override is inserted, every range holding its date shows it once under its weekday, and no longer shows the recurring row it replaces |
| AuthForm.ValidatePassword | frontend/src/pages/Auth.tsx:18-27 | the messages are those of the broken rules, in rule order, at most five; none exactly for a password of 8+ characters with an upper, a lower, a digit and a special character; the length message exactly when shorter than 8 |
| AuthForm.FollowsRules | frontend/src/pages/Auth.tsx:20-25 | each strength message is reported exactly when its own rule is broken |
| AuthForm.MessagesDistinct | frontend/src/pages/Auth.tsx:20-25 | the five strength messages are pairwise different, so each rule adds at most one message |
| AuthForm.ExtendingNeverAddsErrors | frontend/src/pages/Auth.tsx:18-27 | typing more characters never brings a new strength message |
| AuthForm.HandleSubmit | frontend/src/pages/Auth.tsx:33-67 | on sign-up the errors are the strength messages plus the mismatch message; on log-in they are the strength messages; errors are shown exactly when there is one, and a register or login request (with the form's fields) is sent exactly when there is none; any other mode does nothing |
| AuthForm.MismatchReportedLast | frontend/src/pages/Auth.tsx:34-37 | on sign-up with differing confirmation, the mismatch message is reported once, after all strength messages |

## Left out

- HTTP routing, the `authenticate` middleware, tokens and password hashing: the user id is an input the model trusts.
- The database: knex queries and inserts are reads and appends on two sequences. The schema constraints appear only as the store invariant.
- dayjs parsing and formatting: dates are day ordinals and an unparsable date is `None`. Time of day within a date, and time zones, are not modelled.
- `parseInt` returning NaN, which passes every comparison of the validation: day and slot are integers.
- Postgres `time` columns read back as `HH:MM:SS`, which would make the times test at line 128 differ from the request's `HH:MM`: stored times are compared as they were inserted.
- `occurrenceDate` is not validated by the handler and may be missing. The model takes the date as a well-formed date.
- The race between the lookup and the insert in `/addSchedule`: concurrency is not modelled, and each request runs alone.
- The 500 responses and logging on store failures: the stores never fail in the model.
- The order of the keys in the JSON response: the view is a map.
- The id of a new override row: it is never read back.
- GetSchedule.RegularRows: the select at scheduleRoutes.ts:25-27 has no `ORDER BY`, so the database may return rows in any order. The model reads them in store order. That order decides how rows with equal (weekday, slot) are ordered after the stable sort.
- GetSchedule.EditedRows: the select at scheduleRoutes.ts:29-40 has no `ORDER BY` either. The model reads in store order, which decides how overrides with equal (date, slot) are ordered after the stable sort.
- AddSchedule.FindRecurring: `.first()` has no `ORDER BY`, so the database may return any matching row. The model fixes the earliest stored row.
- AuthForm.ValidatePassword: `pwd.length` counts UTF-16 code units and the model counts characters. The two agree on the ASCII passwords the rules are about.
- AuthForm.HandleSubmit: the request's answer, the error messages from the server, token storage and navigation are not modelled. The model stops at the request being sent.
- The rendering of the forms and of the schedule page.
