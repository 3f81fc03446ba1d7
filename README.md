# IppoTracker 100: the daily log store and the training plan

IppoTracker 100 is a single-page tracker for a 100-day fitness program. This
project models its two pieces of logic in Dafny.

**The append-only daily log** (`services/storageService.ts`):
- The log is stored under one key. Reading an absent key gives the empty log.
- Saving appends one record. Clearing removes the key.
- The entry constructor fills defaults and numbers versions. It carries the
  body measurements forward.
- The effective projection sorts a copy of the log by date and then version,
  then folds it into a map from date to record, where the last write wins.
  So each date shows its highest version, and on a tie the record written later.
- The missing-day scan walks from the first logged date up to yesterday. It
  writes a system placeholder for every date without a record, carrying
  weight and waist forward, and appends all placeholders in one batch.

**The plan** (`constants.ts`):
- A day number falls in one of four phases.
- Every seventh day is a rest day.
- A training day's numeric targets depend on its phase.

Modules:
- `Types` (`types.dfy`): the record and the partial record.
- `Plan` (`plan.dfy`): phases, plan details and the baseline body stats.
- `Projection` (`projection.dfy`): the reference definition `Effective` of the
  effective map. It also holds the stable sort order and the last-write fold
  the application uses, and proves the two agree.
- `Entries` (`entries.dfy`): the two record constructors and the save protocol.
- `Storage` (`storage.dfy`): the `Store` class whose field `slot` is the
  persisted key. Its methods are the store operations, the in-place stable
  sort of the copy, and the scan loop.

How things are represented:
- Dates are day ordinals (`int`). Their order is the order of the
  `YYYY-MM-DD` strings.
- Today, the generated identifiers and the timestamps are parameters.
- Metric values are `real`.
- A field the source leaves `undefined` or `null` is `None`.

Two invariants carry the proofs:
- **Gapless versions** (`VersionsGapless`): each record's version is one
  more than the number of earlier records of its date. Saving through the
  daily form and appending placeholders both preserve it, and under it the
  effective record of a date is its newest version. The plan view's quick
  log breaks it when it redeems a placeholder: the new record is numbered 1
  again (see "## Findings"). After that, only the later-wins tie keeps the
  effective map right, and the lemmas that assume gapless numbering no
  longer apply to that log. A daily-form save still becomes effective without
  it (`SavedEntrySupersedes`).
- **Scan state** (`ScanState`): the in-memory map being filled is always
  exactly the effective map of the old log plus the placeholders so far.
  Because of this, each placeholder carries forward from the calendar day
  just before it.

## Model

| member | source | states |
|---|---|---|
| Types.OrElse | services/storageService.ts:45-62 | The `??` default: the given value when present, otherwise the fallback. |
| Plan.PhaseForDay | constants.ts:40-45 | The phase is in 1..4. It is 1 exactly for days up to 30, 2 exactly for 31-60, 3 exactly for 61-80 and 4 exactly above 80. |
| Plan.PhaseMonotonic | constants.ts:40-45 | A later day never falls in an earlier phase. |
| Plan.PlanDetails | constants.ts:102-145 | The day number is echoed and the nutrition is always the strict diet text. The day is a rest day iff it is divisible by 7. The phase is in 1..4 and equals PhaseForDay. Rest days have all-zero targets and the recovery text. Training days get their phase's workout text and exact targets (km, push-ups, squats, rounds): (2, 45, 75, 3), (3, 75, 105, 4), (4, 110, 135, 5) and (5, 135, 165, 5) for phases 1-4. |
| Plan.TrainingTargetsNonDecreasing | constants.ts:117-133 | Between two training days, the later day's km, push-up, squat and round targets are each at least the earlier day's. |
| Entries.CarriedMeasure | services/storageService.ts:42-43 | Weight or waist: the given value, else a non-zero previous value, else the baseline. |
| Entries.CreateNewEntry | services/storageService.ts:28-64 | The version is the previous version + 1 for an edit with a previous entry, otherwise 1. `editedAt` is set iff the call is an edit. The result is always a user record: not missed, not imputed, no carry-forward. Weight and waist follow CarriedMeasure with the baseline stats. Every other metric is the given value when present: otherwise 0 for the activity and compliance metrics, 3 for energy and 5 for discipline. Notes are the given text, otherwise empty. |
| Entries.MissedDay | services/storageService.ts:106-155 | The placeholder has version 1, a system creator, both flags set, zero activity, energy and discipline 1 and the fixed notes. Its carry-forward date is present iff some key is earlier. That date is the greatest earlier key, and weight and waist are copied from its record. With no earlier key, it takes the baseline weight and waist. |
| Entries.SavedEntrySupersedes | components/DailyForm.tsx:49-53 | When the current effective record of a date is saved as an edit, the new record becomes that date's effective record. No other date changes, and a gapless log stays gapless. |
| Entries.EditRoundTrip | services/storageService.ts:37 | Logging a date makes that record effective, and then editing it makes the edit effective. The log stays gapless. |
| Entries.MissedDayKeepsGapless | services/storageService.ts:129 | A version-1 placeholder for a date without a record keeps a gapless log gapless. |
| Entries.IsMissedDayRecord | services/storageService.ts:126-155 | The fixed content of a placeholder: version 1, the system creator, both flags set, zero activity and compliance, energy and discipline 1 and the fixed notes. |
| Entries.QuickLogOffered | components/PlanView.tsx:84-125 | A necessary condition for the plan view to offer the quick log: the date has no effective record ("mark done", when the day is also not locked), or its effective record is missed or imputed ("redeem"). |
| Entries.FlaggedAreFirst | services/storageService.ts:59-60 | Every missed or imputed record in the log has version 1. |
| Entries.QuickLogTakesEffect | components/PlanView.tsx:22-52 | On a date where the view offers it, and when flagged records have version 1, the quick-log record becomes the date's effective record. No other date changes, and flagged records keep version 1. |
| Entries.QuickLogIsHidden | components/PlanView.tsx:34-50 | A quick-log record always has version 1. On a date whose effective record has version 2 or more, appending it leaves the effective map unchanged. When flagged records have version 1, the view never offers the quick log on such a date. |
| Entries.QuickLogBreaksGapless | components/PlanView.tsx:34-49 | On a date that already has a record in a gapless log (for example the placeholder that "redeem" is offered on), the quick-log record has version 1 and the log stops being gapless. |
| Projection.Effective | services/storageService.ts:66-82 | The reference projection: the record with the highest version per date, the later one on a tie. Every value is filed under its own date. |
| Projection.Compare | services/storageService.ts:72-75 | The sort comparator is negative iff the first record has the earlier date, or the same date and a lower version. It is zero iff both date and version are equal. |
| Projection.LastWrite | services/storageService.ts:77-79 | The `forEach` fold writes each record under its date, so every value is filed under its own date. |
| Projection.EffectiveIsLatest | services/storageService.ts:66-82 | A date is a key of the effective map iff some record has that date. Its value is the record with the highest version for that date, the later one on a tie. |
| Projection.LatestIsUnique | services/storageService.ts:72-79 | Each date has at most one winning position. Existence comes from EffectiveIsLatest. |
| Projection.AppendNewDate | services/storageService.ts:157-158 | Appending a record for a date that has none adds exactly that date to the effective map. |
| Projection.LastWriteIsLastOccurrence | services/storageService.ts:77-79 | In the last-write fold, a date is a key iff it occurs. Its value is the date's last occurrence in the sequence. |
| Projection.LoggedOccurs | services/storageService.ts:72-75 | A permuted copy of the log still contains every logged date. |
| Projection.SortedLastIsLatest | services/storageService.ts:72-75 | In a stable sort of the tagged log by date and version, the last record of a date is its winner. |
| Projection.SortedFoldAgreesOn | services/storageService.ts:72-79 | Sorting and then folding agrees with the effective map on every date. |
| Projection.SortedFoldIsEffective | services/storageService.ts:66-82 | Sorting and then folding yields exactly the effective map. |
| Projection.GaplessEffectiveIsNewest | services/storageService.ts:37 | In a gapless log, a date is effective iff it has records, and its effective version is its record count. |
| Projection.AppendKeepsGapless | services/storageService.ts:37 | Appending a record whose version is one more than its date's count keeps the log gapless. |
| Projection.LeastOf | services/storageService.ts:87-91 | Helper for Earliest: a non-empty date set has a least element. It stands in for the head of the sorted keys. |
| Projection.GreatestOf | services/storageService.ts:117-119 | Helper for Latest: a non-empty date set has a greatest element. It stands in for the tail of the sorted earlier keys. |
| Projection.Earliest | services/storageService.ts:87-91 | The first date: a member no greater than any other. |
| Projection.Latest | services/storageService.ts:117-119 | The last date: a member no smaller than any other. |
| Projection.LatestBefore | services/storageService.ts:117-124 | The nearest key before a date. It is absent iff no key is earlier, and otherwise it is the greatest earlier key. |
| Projection.Gaps | services/storageService.ts:96-105 | The missing dates are the dates from the first key up to, not including, today that have no record. There are none for an empty map. |
| Storage.SwapDown | services/storageService.ts:72-75 | Swaps two neighbours and leaves everything else alone. The contents stay a permutation. |
| Storage.InsertStep | services/storageService.ts:72-75 | Inserts one element into the sorted prefix. The extended prefix is sorted by date, version and log position, and the array stays a permutation. |
| Storage.StableSort | services/storageService.ts:72-75 | Sorts the copy by the source comparator, keeping log order among equal keys. The result is a permutation of the tagged log. |
| Storage.Store.constructor | services/storageService.ts:17-19 | A fresh store has no key. |
| Storage.Store.RawEntries | services/storageService.ts:17-20 | An absent key reads as the empty log, and a present key reads as its stored log. |
| Storage.Store.SaveEntry | services/storageService.ts:22-26 | The log becomes exactly the old log followed by the entry. |
| Storage.Store.Nuke | services/storageService.ts:170-171 | The key is removed, and the store reads as empty. |
| Storage.Store.EffectiveEntries | services/storageService.ts:67-82 | Returns exactly the effective map of the stored log and leaves the store unchanged. |
| Storage.Store.ImputeMissingDays | services/storageService.ts:85-168 | If nothing is missing (in particular for an empty log), nothing is written. Otherwise the old log is a prefix of the new log. The effective keys become the old keys plus the missing dates, and old dates keep their records. Afterwards nothing is missing before today. Each appended record is the placeholder of a missing date and carries forward from the day before it. The appended dates ascend. Gaplessness, and version 1 for every flagged record, are preserved. |
| Storage.ScanStarts | services/storageService.ts:96-98 | The scan state holds at the first logged date, with nothing added. |
| Storage.ScanSkips | services/storageService.ts:100-105 | Passing a date that has a record keeps the scan state. |
| Storage.PlaceholderFits | services/storageService.ts:106-124 | Inside the scanned range, a missing date's placeholder is a missing date of the original map. The day before it is already in the map, so that day is its carry-forward source. |
| Storage.ChainExtends | services/storageService.ts:157-158 | Appending that placeholder keeps every placeholder's content and carry-forward link. |
| Storage.CoversExtends | services/storageService.ts:158-160 | Adding the cursor's date moves the covered range one day on. |
| Storage.ScanFills | services/storageService.ts:105-160 | Filling a missing date keeps the scan state, with the in-memory map still equal to the effective map of old log plus placeholders. |
| Storage.ScanEnds | services/storageService.ts:100-163 | When the cursor reaches today, the keys are the old keys plus the missing dates, none remain missing, and something was added iff something was missing. |
| Storage.ScanMissingDays | services/storageService.ts:96-161 | The scan loop adds something iff dates were missing. The new keys are the old keys plus the missing dates, old records are kept, and no date before today stays missing. Each placeholder is a missing date's record chained from the day before it. The dates ascend, and gaplessness is preserved. |
| Storage.ImputeTwice | services/storageService.ts:85-168 | A second run with the same today writes nothing. |

## Left out

- Persistence plumbing: `localStorage`, JSON encoding, `window.location.reload` and the log message are not modelled. The store is an optional in-memory sequence. A corrupt stored blob is out of scope.
- Identifier generation (`Math.random`) and the clock are parameters: `id` and `now` for one record, and a function from date to identifier for the scan.
- Entries.CreateNewEntry: `created_at` and `edited_at` come from one `now`, while the source reads the clock twice.
- Storage.Store.ImputeMissingDays: every placeholder of one run shares a single `now`, while the source reads the clock per placeholder.
- JavaScript `Date` arithmetic and time zones are not modelled. Dates are day ordinals and today is a parameter. So the early exit when the cursor's date string equals today's is the loop bound itself.
- Metric values are reals: NaN, infinities and float rounding are not modelled. The `||` fallback for weight and waist is modelled as "non-zero". Falsy `undefined` and `null` become `None`.
- Draft models only the fields the entry constructor reads. An `id` or flag passed in the partial record is ignored there, as in the source.
- `created_by` is a two-valued datatype instead of a free string.
- Storage.StableSort is an insertion sort on records tagged with their log position. It stands in for the engine's stable `Array.prototype.sort`. Only the resulting order is modelled, not the engine's algorithm.
- The baseline height in `INITIAL_BODY_STATS` is not modelled, because the core never reads it.
- Plan.PhaseForDay returns the phase number, not the `PHASES` record of display strings and targets. That table, the diet protocol and the quotes are static text.
- Day numbers are integers. The source's `%` truncates, but `dayNum % 7 === 0` has the same truth value either way.
- The UI components (App, form, plan view, targets, dashboard, history), the CSV export and the text-generation service are not part of this model. The only facts taken from them are the daily form's save protocol and the plan view's quick log, with a necessary condition under which the view offers it.
- Entries.QuickLogOffered: the lock is not modelled. On a day after the current day number with no record, the view shows LOCKED and no button. That lock depends on the day-number arithmetic in the app shell, which is not part of this model. Leaving it out only widens the dates QuickLogTakesEffect covers, and the dates QuickLogIsHidden shows are never offered.

## Findings

| source | as written | input that shows it | evidently intended | confidence | as-written member | corrected member |
|---|---|---|---|---|---|---|
| components/PlanView.tsx:34-49 | "Redeem" builds its record with no previous entry and not as an edit, so the record has version 1 even though the date already holds a version-1 placeholder. | A gapless log where the date has an imputed placeholder (version 1). Redeeming it appends a second version 1 for that date, and the log is no longer gapless. | Number the redeem as an edit of the effective record, as the daily form does. The record then has version 2, becomes effective and keeps the log gapless. | medium, not executed | Entries.QuickLogBreaksGapless | Entries.SavedEntrySupersedes |
