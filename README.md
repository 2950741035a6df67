# Cake tracker: the week/task store in Dafny

The cake tracker keeps one JSON document of weeks in the browser's `localStorage`. Each week
has a Monday start date, a Friday end date, a cake emoji and an ordered list of tasks. Every
operation loads the document, changes it in memory and saves it back. The operations are:

- find or create the current week;
- add, toggle, edit and delete a task;
- export and import the whole document;
- encode one week into a share link and decode it again;
- derive views: the completion percentage and the archive's grouping by month.

A separate seeding routine merges four historical weeks into the store once and sorts the
result newest first.

This project models that core and proves what it promises:

- **Date arithmetic.** The Gregorian calendar is modelled on day numbers, with the
  conversion proved in both directions. The week start is a Monday at most six days back
  (Sunday steps back six), and the week end is that Monday plus four.
- **The cake rotation.** The rotation over the fixed collection repeats every ten week
  numbers, and JavaScript's sign-keeping `%` is written out. Week numbers are not
  consecutive across a year end: the Mondays 2028-12-25 and 2029-01-01 share one, and
  with it a cake.
- **Find-or-create.** It is idempotent and keeps start dates unique; when every stored id
  lies below the id counter, the id it hands out collides with none of them.
- **Replace-or-prepend.** It changes exactly one position, or adds in front.
- **Task edits.** Toggling twice undoes itself, editing is idempotent, and removal keeps
  order and count.
- **Trimming.** ECMAScript `trim` is modelled down to the exact whitespace set.
- **Import and export.** Import is all or nothing, and export round-trips through import.
- **Share links.** A link keeps dates, emoji and task contents in order, with new task
  ids.
- **Completion percentage.** Stated as exact bounds on the rounding.
- **Month grouping.** It is a partition into groups in order of first appearance, with
  input order kept inside each group.
- **Seeding.** It is a guarded no-op, a permutation of old plus historical weeks, ordered
  newest first, stable and idempotent, and it keeps the id invariant. The sort is an
  in-place stable insertion sort proved equal to a functional specification.

Modules, one file each:

- `Wrappers`: `Option`.
- `Seqs`: `findIndex`/`find`/`some`/`filter`.
- `Calendar`: dates, day numbers, weeks, week numbers.
- `Text`: `trim`.
- `Cakes`: the collection and the rotation.
- `Weeks`: the records and the pure document transformations.
- `Codec`: import/export and share links.
- `Views`: percentage, cake earned, month grouping.
- `Storage`: the `Store` class, one method per read-modify-write operation of
  `src/lib/storage.ts`; the modelled pure exports are the functions of the other modules.
- `Sorting`: the stable sort.
- `Seed`: the historical weeks and `seedHistoricalData`.

Modelling choices:

- **Dates.** A date string 'YYYY-MM-DD' is a `Calendar.Date` triple known to exist in the
  calendar. The clock reading `new Date()` becomes a parameter `today`: a day number
  counted from 1970-01-01.
- **Ids.** `generateId` becomes a counter field of the store. The store's invariant
  `Storage.Store.Valid` says that no two weeks share an id and that every id in the
  document lies below the counter. The constructor establishes it when the loaded
  document satisfies it. Every operation keeps it, seeding included, except
  `importData` and an `updateWeek` given a week with a week or task id at or above
  the counter. As long as it holds, an id handed out is new.
- **Parse results.** `JSON.parse` results are a parameter of `importData`.
- **Share parameters.** A share parameter is the payload it decodes to, or
  `Undecodable`.

Points where the code is easy to misread:

- **A seeded week does not end on a Friday.** The second seeded week runs 2026-01-19 to
  2026-01-24, a Saturday, so the Monday/Friday facts are proved for created weeks only
  (`Weeks.NewWeek`).
- **Deleting a missing task still saves.** `deleteTask` writes the week back even when no
  task has the id. The saved document is then the same (`Weeks.RemoveTaskCount`), and
  `Storage.Store.DeleteTask` states the write.
- **The percentage is computed in floating point.** `(completed / total) * 100` is
  computed in double precision before `Math.round`, which differs from exact rounding at
  some exact halves (see `Views.CompletionPercentage` under Left out).
- **The share payload is plain base64.** `btoa` can produce `+`, `/` and `=`, which are
  not URL-safe. The encoding itself is not modelled.
- **Years 0 to 99 count their week number from 1900 + y.** `new Date(y, 0, 1)` reads a
  two-digit year as 1900 + y, so the week number of a day in those years is negative
  (`Calendar.EarlyYearsNegative`).

## Model

| member | source | states |
|---|---|---|
| Seqs.FindIndex | src/lib/storage.ts:208 | the result is the first index whose element satisfies the predicate, or -1 exactly when none does |
| Seqs.Filter | src/lib/storage.ts:273 | the result keeps exactly the elements that pass, and is no longer than the input |
| Seqs.FilterConcat | src/lib/storage.ts:273 | filtering works piecewise on a concatenation, so order is kept |
| Seqs.FilterSplit | src/lib/storage.ts:291 | the elements passing a test and those failing it add up to the whole list |
| Seqs.FindIndexAfterUpdate | src/lib/storage.ts:211 | replacing the first match by another match leaves it the first match |
| Calendar.DaysFromCivil | src/lib/storage.ts:181 | a date's day number lies inside its year's range of day numbers |
| Calendar.CivilFromDays | src/lib/storage.ts:63-64 | the date of a day number has that day number (month and year rollover of `setDate`) |
| Calendar.CivilRoundTrip | src/lib/storage.ts:181 | date to day number to date gives back the same date |
| Calendar.DaysFromCivilInjective | src/lib/storage.ts:184 | two dates are equal exactly when their day numbers are |
| Calendar.DaysFromCivilOrder | src/lib/seedData.ts:70 | comparing day numbers orders dates by year, then month, then day, as their 'YYYY-MM-DD' strings compare |
| Calendar.YearOf | src/lib/storage.ts:44 | the year found is the one whose 1 January to 31 December range holds the day |
| Calendar.YearOfUnique | src/lib/storage.ts:44 | that year is the only one whose range holds the day |
| Calendar.LeapStep | src/lib/storage.ts:44 | the count of leap years grows by one exactly at a Gregorian leap year |
| Calendar.YearsDisjoint | src/lib/storage.ts:44 | no day lies in the ranges of two different years |
| Calendar.YearStartStep | src/lib/storage.ts:44 | consecutive 1 Januaries lie 365 or 366 days apart by the Gregorian leap rule |
| Calendar.MonthOfYear | src/lib/storage.ts:63-64 | the month found holds the given day of the year |
| Calendar.Weekday | src/lib/storage.ts:62 | `getDay` numbering is 0..6 |
| Calendar.WeekStart | src/lib/storage.ts:60-67 | the week start is a Monday, not after the day and at most six days before it, and six days before exactly when the day is a Sunday |
| Calendar.WeekStartUnique | src/lib/storage.ts:60-67 | a Monday is the week start of exactly the seven days from it |
| Calendar.WeekStartIdempotent | src/lib/storage.ts:60-67 | the week start of a week start is itself |
| Calendar.WeekEnd | src/lib/storage.ts:70-75 | the week end is a Friday in the same week, exactly four days after the week start |
| Calendar.ConstructorYear | src/lib/storage.ts:44 | the year `new Date(y, 0, 1)` uses is never in 0 to 99 and keeps y's last two digits; it is y itself exactly when y is outside 0 to 99 |
| Calendar.WeekNumber | src/lib/storage.ts:43-47 | the week number is at least 1 from year 100 on |
| Calendar.EarlyYearsNegative | src/lib/storage.ts:43-47 | in the years 0 to 99 the week number is negative, since it counts from 1 January of 1900 + y |
| Calendar.WeekNumberFormula | src/lib/storage.ts:43-47 | the week number is ceil((days since 1 January + weekday of 1 January + 1) / 7) + 52 * year, with the 1 January that `new Date(year, 0, 1)` gives |
| Calendar.CalendarAnchors | src/lib/seedData.ts:7 | 1970-01-01 is day 0, a Thursday, and 2026-01-12 is a Monday |
| Text.Trim | src/lib/storage.ts:224 | the trimmed text is a slice of the text with only ECMAScript whitespace before and after it; it neither starts nor ends with whitespace, and is empty exactly when the text is all whitespace |
| Text.TrimPadded | src/lib/storage.ts:224 | trimming text padded on both sides with whitespace gives back the text |
| Text.TrimIdempotent | src/lib/storage.ts:259 | trimming twice is trimming once |
| Cakes.CakeIndex | src/lib/storage.ts:38 | the index is the week number's remainder modulo the collection's size, with the sign of the week number and smaller than the size in magnitude |
| Cakes.HasCakeExactly | src/lib/storage.ts:37-40 | the collection has an entry for a week number exactly when it is non-negative or a multiple of ten |
| Cakes.CakeByWeekNumber | src/lib/storage.ts:37-40 | the cake is the collection's entry at the week number modulo the collection's size |
| Cakes.EmojisDistinct | src/lib/storage.ts:23-34 | the ten cakes have ten different emojis |
| Cakes.CakeRotation | src/lib/storage.ts:22-40 | the cake repeats every ten week numbers, and no two of ten consecutive week numbers share one |
| Weeks.FirstWithOwnId | src/lib/storage.ts:208 | with unique ids, looking a week up by its own id finds that week |
| Weeks.WeekKey | src/lib/storage.ts:180-181 | the lookup key is the date of a Monday at most six days before today |
| Weeks.CanCreateFromYear100 | src/lib/storage.ts:190-195 | from year 100 on the new week's cake index is defined |
| Weeks.YearEndRepeatsCake | src/lib/storage.ts:37-47 | the Mondays 2028-12-25 and 2029-01-01 lie seven days apart and both get week number 105509, so the rotation gives them the same cake |
| Weeks.NewWeek | src/lib/storage.ts:189-197 | a created week has the given id, no tasks, starts on the key, ends on the Friday four days later, and has the rotation's cake |
| Weeks.FetchCurrentWeek | src/lib/storage.ts:178-203 | the week returned starts on the key; a week is created exactly when none starts on the key; otherwise the first such week is returned and nothing changes; a created week goes in front |
| Weeks.FetchIdempotent | src/lib/storage.ts:184-187 | a second find-or-create finds the week the first returned, creates nothing and changes nothing |
| Weeks.FetchLeavesCurrentInStore | src/lib/storage.ts:199-202 | afterwards the week returned is the first week of its start date in the document |
| Weeks.FetchedIdsBelow | src/lib/storage.ts:184-199 | with every id below the counter, the week find-or-create returns has its ids below the counter as it is afterwards |
| Weeks.PrependKeepsUniqueStarts | src/lib/storage.ts:199 | prepending a week whose start date is new keeps start dates unique |
| Weeks.PrependKeepsIdsFresh | src/lib/storage.ts:192-199 | prepending a task-less week with the next fresh id keeps ids unique and below the id counter |
| Weeks.FetchKeepsUniqueStarts | src/lib/storage.ts:184-199 | find-or-create never makes a second week with the same start date |
| Weeks.FetchKeepsIdsFresh | src/lib/storage.ts:192-199 | with fresh ids, the created week's id collides with no id in the document |
| Weeks.UpdateWeeks | src/lib/storage.ts:206-217 | the week is in the result; it replaces the first week with its id and nothing else, or goes in front when no week has the id |
| Weeks.UpdateKeepsIdsFresh | src/lib/storage.ts:206-217 | writing back a week whose ids lie below the counter keeps week ids unique and all ids below the counter |
| Weeks.SameIdsKeepFresh | src/lib/storage.ts:241-245 | a week whose tasks change in place under the same ids keeps its ids below the counter |
| Weeks.UpdateWeeksIdempotent | src/lib/storage.ts:206-217 | writing the same week twice is writing it once |
| Weeks.AppendTask | src/lib/storage.ts:222-228 | the week gains the new task, not completed, at the end of its list; the earlier tasks and all other fields stay |
| Weeks.AddTaskInPlace | src/lib/storage.ts:220-232 | after find-or-create, adding a task writes the current week back in its own place |
| Weeks.AddTaskThenFetch | src/lib/storage.ts:178-232 | after adding a task, find-or-create returns the written week, with one task more and nothing created |
| Weeks.ToggleInTasks | src/lib/storage.ts:241-245 | only the first task with the id changes, and only its completed flag, which flips |
| Weeks.ToggleTwice | src/lib/storage.ts:243 | toggling twice restores the list |
| Weeks.EditInTasks | src/lib/storage.ts:257-261 | only the first task with the id changes, and only its text, which becomes the new text |
| Weeks.EditIdempotent | src/lib/storage.ts:259 | editing twice with the same text is editing once |
| Weeks.RemoveTask | src/lib/storage.ts:273 | the result holds exactly the tasks without the id |
| Weeks.RemoveTaskCount | src/lib/storage.ts:273 | the list shrinks by the number of tasks with the id, and stays as it is when none has it |
| Weeks.RemoveTaskPiecewise | src/lib/storage.ts:273 | removal keeps the relative order of the remaining tasks |
| Codec.ImportedWeeks | src/lib/storage.ts:129-141 | import accepts exactly an object whose `weeks` is an array, and then yields that array |
| Codec.ExportValue | src/lib/storage.ts:123-126 | the exported document imports back as the same weeks |
| Codec.ExportImportRoundTrip | src/lib/storage.ts:123-142 | a document imports as given weeks exactly when it is the export of those weeks |
| Codec.ShareTasks | src/lib/storage.ts:150 | each task maps to its text and completed flag, in order |
| Codec.GenerateShareUrl | src/lib/storage.ts:145-155 | the link carries the origin, and decoding it under any ids gives back the week's start date, end date, emoji and task contents |
| Codec.FreshTasks | src/lib/storage.ts:165-169 | the k-th shared task becomes a task with the k-th fresh id and the same text and flag |
| Codec.ParseShareUrl | src/lib/storage.ts:158-175 | among the payloads modelled, decoding fails exactly on an undecodable parameter or a missing task list; otherwise it keeps dates, emoji and task contents |
| Codec.ShareRoundTrip | src/lib/storage.ts:145-175 | decoding a generated link gives back dates, emoji and task contents in order, under fresh ids |
| Codec.SharedIdsAreFresh | src/lib/storage.ts:165-169 | ids drawn above every id of the document collide with none of its tasks |
| Views.CompletedCount | src/lib/storage.ts:291 | the completed count is at most the number of tasks |
| Views.CompletionPercentage | src/lib/storage.ts:289-293 | 0 for no tasks; otherwise the integer nearest 100 * completed / total, halves rounded up, within 0..100 |
| Views.PercentageExtremes | src/lib/storage.ts:289-293 | nothing done gives 0, and everything done gives 100 |
| Views.TwoOfThree | src/lib/storage.ts:289-293 | two of three tasks done gives 67 |
| Views.AllDoneCount | src/lib/storage.ts:291 | every task is done exactly when the completed count equals the task count |
| Views.CakeEarned | src/components/CakeCard.tsx:26 | the cake is earned exactly when there are tasks and the completed count equals the task count |
| Views.CakeEarnedByPercentage | src/components/CakeCard.tsx:26 | the card's test passes exactly when there are tasks and at least 99.5 percent of them are done |
| Views.PercentageHundred | src/lib/storage.ts:289-293 | the percentage is 100 exactly when at least 99.5 percent of the tasks are done |
| Views.CakeEarnedMeans | src/components/CakeCard.tsx:26 | the cake is earned exactly when there are tasks and all are done, and then the percentage is 100 |
| Views.PercentageEarnsTooEarly | src/components/CakeCard.tsx:26 | with 199 of 200 tasks done the card's test passes although a task is open |
| Views.GroupedMonths | src/lib/storage.ts:296-307 | the group keys are the months in order of first appearance |
| Views.FirstSeenDistinct | src/lib/storage.ts:297 | the group keys are distinct |
| Views.AddToGroupsMonths | src/lib/storage.ts:299-304 | one step of the loop adds the week's month as a new key exactly when it is not a key yet |
| Views.AddToGroupMatches | src/lib/storage.ts:300-303 | one step of the loop keeps one given group equal to the filter of the weeks seen so far by its month |
| Views.AddToGroupsMatches | src/lib/storage.ts:300-303 | one step of the loop keeps each group equal to the filter of the weeks seen so far by its month |
| Views.GroupedContents | src/lib/storage.ts:296-307 | each group holds exactly its month's weeks, in input order |
| Views.EveryWeekGrouped | src/lib/storage.ts:299-304 | every week's month is a key |
| Views.FirstSeenHas | src/lib/storage.ts:299-304 | every week's month occurs among the first-seen months |
| Views.GroupedTotal | src/lib/storage.ts:296-307 | the groups hold as many weeks as the input |
| Views.GroupWeeksByMonth | src/lib/storage.ts:296-307 | the loop builds the grouping of the whole input, with groups keyed by distinct months in order of first appearance, each holding its month's weeks in input order, covering every week once |
| Storage.Store.constructor | src/lib/storage.ts:94-109 | the store holds the loaded document and the id counter's start, and the id invariant holds when the loaded document has distinct week ids below the counter's start |
| Storage.Store.GenerateId | src/lib/storage.ts:55-57 | the id is the counter's value and the counter moves past it; under the id invariant every id in the document lies below the new id, and the invariant still holds |
| Storage.Store.GetCurrentWeek | src/lib/storage.ts:178-203 | the week returned and the new document are those of find-or-create, and an id is used only when a week is created; the id invariant is kept, and the week returned has its ids below the counter |
| Storage.Store.CreateWeek | src/lib/storage.ts:189-199 | the new week is the created week of find-or-create under the counter's id, it goes in front, the counter moves on by one, and the id invariant is kept |
| Storage.Store.UpdateWeek | src/lib/storage.ts:206-217 | the document becomes the replace-or-prepend of the week; the id invariant is kept when the week's ids lie below the counter |
| Storage.Store.AddTask | src/lib/storage.ts:220-232 | after find-or-create, the current week gains the trimmed task under the next id and is written back and the id invariant is kept |
| Storage.Store.AppendNewTask | src/lib/storage.ts:222-231 | the week gains the trimmed task under the next id, the counter moves past it, and the week is written back; the id invariant is kept when the week's ids lie below the counter |
| Storage.Store.WriteTask | src/lib/storage.ts:241-246 | the week with its task replaced under the same id is written back, and the id invariant is kept |
| Storage.Store.ToggleTask | src/lib/storage.ts:235-248 | no week with the id: null and no change; otherwise the week with the task flipped is returned and written only if the task exists; the id invariant is kept |
| Storage.Store.EditTask | src/lib/storage.ts:251-264 | no week with the id: null and no change; otherwise the week with the task's text set to the trimmed text is returned and written only if the task exists; the id invariant is kept |
| Storage.Store.DeleteTask | src/lib/storage.ts:267-277 | no week with the id: null and no change; otherwise the week without the task is returned and written in its place; the id invariant is kept |
| Storage.Store.GetAllWeeks | src/lib/storage.ts:280-286 | the whole document after find-or-create, which then holds a week for the current Monday; the id invariant is kept |
| Storage.Store.ExportData | src/lib/storage.ts:123-126 | the exported document imports back as the stored weeks, and the store is not changed |
| Storage.Store.ImportData | src/lib/storage.ts:129-142 | success exactly when validation passes; then the document is replaced, otherwise left as it was |
| Sorting.SortDescending | src/lib/seedData.ts:70 | the sorted list is as long as the input |
| Sorting.InsertAt | src/lib/seedData.ts:70 | an insertion step puts the element after the larger-or-equal keys and before the smaller ones |
| Sorting.SortPermutes | src/lib/seedData.ts:70 | the sort keeps the same elements, each as often |
| Sorting.SortOrders | src/lib/seedData.ts:70 | the sorted list runs from the largest key down |
| Sorting.SortStable | src/lib/seedData.ts:70 | elements with equal keys keep their relative order |
| Sorting.InsertInPlace | src/lib/seedData.ts:70 | one in-place step inserts a[i] into the sorted a[..i] and leaves the rest of the array alone |
| Sorting.SortInPlace | src/lib/seedData.ts:70 | the array ends up holding the stable descending sort of its old contents |
| Seed.HistoricalCakes | src/lib/seedData.ts:4-53 | four weeks, the first starting on 2026-01-12 |
| Seed.HistoricalStarts | src/lib/seedData.ts:7-43 | the historical weeks start on different dates |
| Seed.HistoricalWeekIds | src/lib/seedData.ts:6-42 | the historical weeks get different ids |
| Seed.HistoricalIdRange | src/lib/seedData.ts:4-53 | the historical weeks and tasks use only the twenty ids firstId to firstId + 19 drawn for them |
| Seed.TimeValueOrder | src/lib/seedData.ts:70 | a larger time value is a later start date, and equal time values are the same date |
| Seqs.Any | src/lib/seedData.ts:60 | `some` is a `findIndex` that found something |
| Seqs.AnyMeans | src/lib/seedData.ts:60 | `some` holds exactly when some element satisfies the test |
| Seed.HasHistory | src/lib/seedData.ts:60 | the history counts as present exactly when some week starts on 2026-01-12 |
| Seed.DescendingByDate | src/lib/seedData.ts:70 | newest first by time value is newest first by calendar date |
| Seed.SeedHistoricalData | src/lib/seedData.ts:56-74 | the store ends up holding exactly what seeding prescribes: unchanged when the history is there, otherwise the sort of old plus historical weeks, whose ids are the counter's next twenty; the counter moves on by twenty, and the id invariant is kept |
| Seed.MergeHistory | src/lib/seedData.ts:57-73 | the load, the check and the sorted save leave exactly the seeded document |
| Seed.SeedKeepsIdsFresh | src/lib/seedData.ts:66-72 | with distinct week ids all below the counter, the seeded document still has distinct week ids and every id below the counter moved on by twenty |
| Weeks.AppendKeepsUniqueIds | src/lib/seedData.ts:67 | two lists of weeks with distinct ids each, divided by an id bound, join into one with distinct ids |
| Weeks.PermutedIdsUnique | src/lib/seedData.ts:70 | a rearrangement of weeks with distinct ids has distinct ids |
| Weeks.PermutedIdsBelow | src/lib/seedData.ts:70 | a rearrangement keeps every id below the bound |
| Seed.SeedNoOp | src/lib/seedData.ts:60-64 | a store with a week starting on 2026-01-12 is left unchanged |
| Seed.SeedContents | src/lib/seedData.ts:66-72 | without history, the result is the old weeks plus the four historical ones as a multiset, four longer, newest first, and stable for equal start dates |
| Seed.SeedIdempotent | src/lib/seedData.ts:60-63 | seeding a second time changes nothing, whatever ids it would draw |

## Left out

- Time zones and daylight saving time. The model counts days in one calendar, the local
  one.
  - `getCurrentWeek` derives its date strings with `toISOString`, which is UTC. East of
    UTC, local midnight of a Monday is the previous day in UTC, and the stored start date
    is then a Sunday.
  - `getWeekNumber` divides a millisecond span that includes a daylight saving shift.
  - `formatMonthYear` parses the date string as UTC and prints it in local time.
  - The model takes the start date's own year and month, and the week number computed
    from whole days.
- `formatDateRange` and `formatMonthYear` produce English locale text, which is not
  modelled. The month key is the (year, month) pair the label is printed from.
- `getRandomCakeEmoji` returns a random cake. Randomness is not modelled, and nothing in
  the core calls it.
- `localStorage`, the `typeof window` checks and `console` output are left out.
  - A save never fails here.
  - Storage unavailable and an unparsable stored text both load as empty; this is the
    state the constructor is given.
- The JSON, base64 and URI codecs are abstracted, and `window.location.origin` is a
  parameter.
  - A document is the `JsonValue` that `JSON.parse` makes of it.
  - A share parameter is the payload it decodes to.
  - A missing or non-array task list reads as `None`.
  - Import keeps only the `weeks` member.
- The elements of imported or stored data are assumed to be well-formed weeks with valid
  dates. Import does not check them, and a malformed element is not representable here.
- `generateId` builds a string from the clock and a random suffix. It is modelled as a
  counter. Its ids are new only as long as the id invariant holds. The constructor
  establishes it for a loaded document with distinct week ids below the counter's
  start; this takes the place of the source's reliance on clock readings that only
  grow.
- `Views.CompletionPercentage`: this is exact rational rounding, not the double-precision
  `Math.round((completed / total) * 100)`. They differ where the product should be an
  exact half but the double falls just below it: 23 of 40 gives 57 in double precision
  and 58 here. For 199 of 200 both give 100.
- `Storage.Store.GetCurrentWeek`: requires that a new week's cake index is defined. For a
  negative week number that is not a multiple of ten, `CAKE_COLLECTION[index]` is
  `undefined`, and the source throws a `TypeError`. This happens only for years before
  year 100: before year 0, and in the years 0 to 99, whose week numbers are negative
  (`Calendar.EarlyYearsNegative`). From year 100 on it cannot happen
  (`Weeks.CanCreateFromYear100`).
- `getCurrentWeek` reads the clock twice: once in `getWeekStart` and once in `getWeekEnd`.
  The model takes one day `today` for both. It does not capture a call that straddles
  midnight between Sunday and Monday, where the end date would belong to the next week.
- The share payload is typed here, and `parseShareUrl` does not check it.
  - The source passes any JSON value through as `startDate`, `endDate` or `cakeEmoji`.
    The model's payload holds only dates and strings there, or nothing.
  - The source returns null when a task element is `null` or `undefined`, because
    reading `t.text` throws. The model's task list has no such elements, so
    `Codec.ParseShareUrl` states the failure cases for the payloads it can represent.
- `Storage.Store.UpdateWeek`: keeps the id invariant only for a week whose ids, its
  tasks' included, lie below the counter. `updateWeek` is exported and accepts any
  week, so another caller can write ids the counter will hand out again. Inside the
  core its callers write only weeks of the document, which meet the condition.
- `Storage.Store.ImportData`: does not keep the id invariant. An imported document may
  repeat ids, or carry ids at or above the counter, from another device.
- The React components, `VoiceInput` and the page are presentation, and are not part of
  this model. The exception is CakeCard's `isComplete` test, modelled in `Views`.
- `Seed.SeedHistoricalData`: draws the twenty historical ids at each call. The source
  draws them once, when the module that defines `historicalCakes` loads, so a second
  call after the history was deleted would reuse the same ids there. The module is
  loaded before the page seeds, and its ids come before any later one.

## Findings

| source | as written | input that shows it | evidently intended | confidence | as-written member | corrected member |
|---|---|---|---|---|---|---|
| src/components/CakeCard.tsx:26 | the cake counts as earned when the rounded completion percentage is 100 and the week has tasks | a week of 200 tasks with 199 completed: 99.5 rounds to 100 | the cake is earned only when every task is completed | not executed; high, since 199 / 200 * 100 is exactly 99.5 in double precision | Views.PercentageEarnsTooEarly | Views.CakeEarnedMeans |
