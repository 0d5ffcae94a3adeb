# Doctor schedule engine: a Dafny model

This project models `SchedulesService`, the part of the doctor-management service that keeps each doctor's calendar of working times. It stores one row `(id, doctor, day, month, year, workingTimes)` per doctor and date, and it has these operations:

- **Daily job (`cronSchedule`).** Runs the fill, then the pruner.
- **Rolling-window fill (`ensureSchedulesForDoctors`).** For every doctor and every day of `[today, today + 14)` with no row yet, it creates a row. The row's `workingTimes` is the slot list for that date's weekday in the doctor's weekly template. Each doctor's new rows are saved in one batch.
- **Pruner (`schedulesToDelete`).** Removes every row dated before today.
- **Full schedule (`scheduleByDoctorId`).** Lists a doctor's rows as `{id, date: "day/month/year", working_times}`.
- **Slot update (`updateWorkingTime`).** Replaces one row's working times.
- **Date lookup (`workingTimeByDate`).** Returns the working times of a doctor on a date, or a `{code: 404, message}` result.

Files:

- `civil.dfy` (`Civil`): proleptic Gregorian dates.
  - `Date.setDate` overflow rollover (`SetDate`, `AddDays`).
  - The weekday with 0 = Sunday.
  - The lexicographic `Before` order.
- `date_text.dfy` (`DateText`): the unpadded `day/month/year` text and a reference parser for it.
- `entities.dfy` (`Entities`):
  - doctors and schedule rows;
  - the slot codec;
  - the repository value `Store` and its invariant `ValidStore` (ids unique and already issued, at most one row per doctor and date);
  - the `findOne` lookups.
- `fill.dfy` (`Fill`): the fill as functions (`Batch`, `FillDoctor`, `FillAll`) and what they guarantee.
- `prune.dfy` (`Prune`): the deletion filter, the found and kept rows, and what pruning guarantees.
- `service.dfy` (`Service`): the class `SchedulesService`.
  - Its fields are the repository's rows, the next id and the codec.
  - Its methods contain the source's loops and are proved against the functions of `Fill` and `Prune`.
  - `DailyRun` and its lemmas describe the daily job.

Notes on the model:

- **Inputs.** The clock's day, the doctor directory and the parsed lookup date are parameters.
- **Codec.** `fixedStringToArray` and `arrayToString` belong to a base class that is not part of this model. They are given as two function values in `Codec`. A weekday that the decoded template has no element for is passed to `arrayToString` as `None`, like JavaScript's `undefined`.
- **Identifiers.** Doctor ids and row ids are modelled as naturals, because the service only compares them. The repository gives each saved row the next number.
- **The count guard (lines 32-43) is modelled as written.** It filters on the row's own `id` being equal to the doctor's id. Row ids are unique, so the count is at most 1 and the guard always passes (`Fill.GuardAlwaysPasses`). Per-date existence (lines 50-59) is what decides which rows are created.

## Model

| member | source | states |
|---|---|---|
| `Civil.AddDays` | src/schedule/services/schedule.service.ts:47-48 | `new Date(today)` then `setDate(today.getDate() + i)`; always a valid date. Its properties are stated by `SetDateStep`, `AddDaysSucc`, `AddDaysMonotone`, `AddDaysInjective`, `AddDaysNotBefore` and `AddDaysExamples` |
| `Civil.Before` | src/schedule/services/schedule.service.ts:83-96 | the lexicographic (year, month, day) order that the pruner's `where` clause decides; `Prune.DeletionFilter` proves the clause equal to it |
| `Civil.Weekday` | src/schedule/services/schedule.service.ts:67 | `getUTCDay()`: in `0..6`, with 0 = Sunday. `WeekdayAfter` and `WeekdayExamples` state its properties |
| `Civil.SetDate` | src/schedule/services/schedule.service.ts:47-48 | `setDate` with a day-of-month past the month's end carries into the following months and years; the result is always a real calendar date, never before the month's own day |
| `Civil.SetDateStep` | src/schedule/services/schedule.service.ts:47-48 | `setDate(getDate() + n + 1)` is the calendar day after `setDate(getDate() + n)`, rolling over month and year ends |
| `Civil.AddDaysSucc` | src/schedule/services/schedule.service.ts:46-48 | the window date for `i + 1` is the next calendar day after the one for `i` |
| `Civil.AddDaysMonotone` | src/schedule/services/schedule.service.ts:46-48 | a larger offset gives a strictly later date |
| `Civil.AddDaysInjective` | src/schedule/services/schedule.service.ts:46-48 | the fourteen window dates are pairwise distinct |
| `Civil.AddDaysNotBefore` | src/schedule/services/schedule.service.ts:46-48 | no window date lies before today |
| `Civil.AddDaysExamples` | src/schedule/services/schedule.service.ts:48 | concrete rollovers: across a year end, and across February of a leap year and of a common year |
| `Civil.NextDayNumber` | src/schedule/services/schedule.service.ts:67 | the next calendar day has the next absolute day number, including at a year end of either length |
| `Civil.WeekdayAfter` | src/schedule/services/schedule.service.ts:67 | the weekday of `today + n` is today's weekday plus `n`, modulo 7 |
| `Civil.WeekdayExamples` | src/schedule/services/schedule.service.ts:67 | anchors the weekday numbering at 0 = Sunday: 1 January 1970 is 4, 14 October 2026 is 3, 29 February 2000 is 2 |
| `DateText.Text` | src/schedule/services/schedule.service.ts:119 | the record's `day + '/' + month + '/' + year`, with no zero padding; `TextRoundTrip`, `NatTextUnpadded` and `TextExamples` state its properties |
| `DateText.TextRoundTrip` | src/schedule/services/schedule.service.ts:119 | the record's `day/month/year` text reads back to the same date, so distinct dates get distinct texts |
| `DateText.NatTextUnpadded` | src/schedule/services/schedule.service.ts:119 | numbers in the date text have no leading zero |
| `DateText.TextExamples` | src/schedule/services/schedule.service.ts:119 | concrete texts: 5 March 2026 is `5/3/2026` |
| `Entities.DayTemplate` | src/schedule/services/schedule.service.ts:66-67 | `arrayToString(fixedStringToArray(fixed_times)[getUTCDay()])`, with `undefined` off the end of the array; `Fill.BatchDrafts`, `Fill.FillAllAdds` and `Fill.FillFromEmpty` say that every new row holds it |
| `Entities.FindEntry` | src/schedule/services/schedule.service.ts:50-57 | the lookup on (doctor, day, month, year) finds nothing exactly when no row has that key; otherwise it gives the first matching row |
| `Entities.IndexOfId` | src/schedule/services/schedule.service.ts:130-132 | the lookup by row id finds nothing exactly when no row has that id; otherwise it gives the row with it |
| `Entities.FindDoctor` | src/schedule/services/schedule.service.ts:149 | the directory lookup fails exactly when no doctor has that id; otherwise it gives a listed doctor with that id |
| `Fill.GuardCount` | src/schedule/services/schedule.service.ts:32-39 | `existingSchedules`, the count over rows whose own `id` is the doctor's id, whose day lies between today's and that of today + 14, and whose month and year are today's (`Fill.InGuard`); `GuardAlwaysPasses` bounds it by 1 |
| `Fill.GuardAlwaysPasses` | src/schedule/services/schedule.service.ts:32-43 | the count filters on the row's own id, so with unique row ids it is at most 1 and `existingSchedules < numberOfDays` always holds |
| `Fill.Batch` | src/schedule/services/schedule.service.ts:44-70 | `schedulesToCreate` after `n` passes of the inner loop; `BatchDrafts`, `BatchSorted`, `BatchCovers`, `BatchFresh` and `BatchOnEmpty` state its properties |
| `Fill.BatchDrafts` | src/schedule/services/schedule.service.ts:46-69 | every staged row is for a date `today + i` (`i < 14`) that had no row for the doctor; its day, month and year are that date's, and its working times are the template's slots for that date's weekday |
| `Fill.BatchSorted` | src/schedule/services/schedule.service.ts:46-69 | the staged dates are strictly increasing, so a batch never holds two rows for one date |
| `Fill.BatchCovers` | src/schedule/services/schedule.service.ts:46-69 | each of the first `n` window dates already has a row or has a staged one |
| `Fill.Save` | src/schedule/services/schedule.service.ts:72 | the batch save appends the staged rows in order under consecutive fresh ids and leaves the existing rows as they were |
| `Fill.SaveValid` | src/schedule/services/schedule.service.ts:72 | saving rows whose keys are new and pairwise distinct keeps ids unique and at most one row per doctor and date |
| `Fill.BatchFresh` | src/schedule/services/schedule.service.ts:44-70 | a staged batch neither repeats a stored (doctor, date) nor holds two rows for one date |
| `Fill.FillDoctor` | src/schedule/services/schedule.service.ts:31-75 | one pass of the outer loop: the count guard, then the batch save; `FillDoctorValid`, `FillDoctorAdds` and `FillDoctorCovers` state its properties |
| `Fill.FillDoctorValid` | src/schedule/services/schedule.service.ts:31-75 | one doctor's pass only appends rows and keeps the repository invariant |
| `Fill.FillDoctorAdds` | src/schedule/services/schedule.service.ts:46-72 | each row a doctor's pass adds falls on a window date that had no row for the doctor, and holds that weekday's template slots |
| `Fill.FillDoctorCovers` | src/schedule/services/schedule.service.ts:46-72 | after one doctor's pass, that doctor has a row on each of the fourteen dates |
| `Fill.FillAll` | src/schedule/services/schedule.service.ts:24-77 | the outer loop over the directory in order; `FillAllValid`, `FillAllCovers`, `FillAllAdds`, `FillAllAddsExactlyMissing`, `FillAllWhenCovered`, `FillAllTwice` and `FillFromEmpty` state its properties |
| `Fill.FillAllValid` | src/schedule/services/schedule.service.ts:24-77 | after a run, the old rows are an unchanged prefix, new rows carry consecutive fresh ids, and the repository invariant holds |
| `Fill.FillAllCovers` | src/schedule/services/schedule.service.ts:41-72 | window coverage: after a run, every listed doctor has a row for each of the fourteen dates `today + i`, with month and year rollover |
| `Fill.FillAllAdds` | src/schedule/services/schedule.service.ts:50-72 | every row a run adds was missing before, is for a listed doctor and a window date, and holds that doctor's template slots for the date's weekday |
| `Fill.FillAllAddsExactlyMissing` | src/schedule/services/schedule.service.ts:46-72 | both directions: a run adds a row for (doctor, date) if and only if the doctor is listed, the date is in the window and no row for it existed |
| `Fill.FillAllWhenCovered` | src/schedule/services/schedule.service.ts:50-72 | when every window date of every doctor already has a row, a run leaves the repository exactly as it was |
| `Fill.FillAllTwice` | src/schedule/services/schedule.service.ts:24-77 | idempotence: a second consecutive run gives the same repository as the first |
| `Fill.FillFromEmpty` | src/schedule/services/schedule.service.ts:46-72 | a doctor with no rows gets exactly fourteen rows, one per date in date order, each with its weekday's slots, even when a weekday's slot list is empty |
| `Prune.DeletionFilter` | src/schedule/services/schedule.service.ts:82-97 | the three-disjunct `where` clause holds exactly when the date is lexicographically before today |
| `Prune.Due` | src/schedule/services/schedule.service.ts:82-97 | the rows the deletion query finds, in order; `DueExact` and `PrunePartition` state its properties |
| `Prune.DueExact` | src/schedule/services/schedule.service.ts:82-97 | the deletion query finds exactly the rows dated before today |
| `Prune.Kept` | src/schedule/services/schedule.service.ts:99-101 | the rows left once the found rows are removed, in order; `KeptExact`, `PrunePartition`, `NothingDue`, `KeptHasEntry`, `KeptNotPast` and `KeptValid` state its properties |
| `Prune.KeptExact` | src/schedule/services/schedule.service.ts:79-102 | after pruning, a row is present exactly when it was present before and is dated today or later |
| `Prune.PrunePartition` | src/schedule/services/schedule.service.ts:82-101 | the found rows and the kept rows together are the repository as a multiset: nothing is lost or duplicated |
| `Prune.NothingDue` | src/schedule/services/schedule.service.ts:99-101 | when no row is dated before today, nothing is found and the repository is unchanged |
| `Prune.KeptHasEntry` | src/schedule/services/schedule.service.ts:79-102 | a row for a date on or after today survives pruning |
| `Prune.KeptNotPast` | src/schedule/services/schedule.service.ts:79-102 | no row left after pruning is dated before today |
| `Prune.KeptValid` | src/schedule/services/schedule.service.ts:100 | removal keeps unique ids and at most one row per doctor and date |
| `Service.DailyRun` | src/schedule/services/schedule.service.ts:19-22 | the fill for the fill's clock read (line 25), then the prune for the pruner's own clock read (line 80); `DailyRunResult`, `DailyRunSameDay` and `DailyRunLaterPrune` state its properties |
| `Service.DailyRunResult` | src/schedule/services/schedule.service.ts:19-22 | after the fill and then the prune, the invariant holds, no row is dated before the pruner's day, and every listed doctor has a row on each window date of the fill that is not before the pruner's day |
| `Service.DailyRunSameDay` | src/schedule/services/schedule.service.ts:19-22 | when both clock reads give the same day, every listed doctor has a row on each of the fourteen window dates after the daily job |
| `Service.DailyRunLaterPrune` | src/schedule/services/schedule.service.ts:19-22 | when the pruner's day is later than the fill's, no doctor keeps a row on the fill's own day |
| `Service.EntriesOf` | src/schedule/services/schedule.service.ts:110-112 | `find({ where: { doctor } })`, in repository order; `EntriesOfExact` states its properties |
| `Service.EntriesOfExact` | src/schedule/services/schedule.service.ts:110-112 | the query by doctor returns exactly the doctor's rows, whatever their date, each as many times as it is stored (a multiset equality) |
| `Service.Records` | src/schedule/services/schedule.service.ts:114-122 | the `forEach`/`push` building `data`; `RecordsAt` states its properties |
| `Service.RecordsAt` | src/schedule/services/schedule.service.ts:114-122 | one record per found row, in order, with the row's id, its `day/month/year` text and its working times |
| `Service.SchedulesService.constructor` | src/schedule/services/schedule.service.ts:11-16 | an empty repository that satisfies the invariant |
| `Service.SchedulesService.CronSchedule` | src/schedule/services/schedule.service.ts:18-22 | the new state is the fill for `fillDay` followed by the prune for `pruneDay`. Afterwards the invariant holds, no row is before `pruneDay`, and each window date not before `pruneDay` has a row for every doctor; when the two days are equal the whole window is covered |
| `Service.SchedulesService.EnsureSchedulesForDoctors` | src/schedule/services/schedule.service.ts:24-77 | the new state is `FillAll` of the old. The old rows stay an unchanged prefix, the window is covered, and every added row was missing and is built from its doctor's template |
| `Service.SchedulesService.FillDoctor` | src/schedule/services/schedule.service.ts:31-75 | one pass of the outer loop: the new state is `Fill.FillDoctor` of the old, i.e. the count guard, then the staged batch saved; the invariant is kept |
| `Service.SchedulesService.StageBatch` | src/schedule/services/schedule.service.ts:44-70 | the inner loop stages exactly the rows of `Fill.Batch` for fourteen days |
| `Service.SchedulesService.SaveAll` | src/schedule/services/schedule.service.ts:72 | the repository after the batch save is `Fill.Save` of the one before; rows with new, pairwise distinct keys keep the invariant |
| `Service.SchedulesService.SchedulesToDelete` | src/schedule/services/schedule.service.ts:79-102 | the rows left are the old rows dated today or later, in order; the id counter is unchanged |
| `Service.SchedulesService.ScheduleByDoctorId` | src/schedule/services/schedule.service.ts:104-127 | fails with `schedules_not_found` for an unknown doctor; otherwise it returns the records of all the doctor's rows in repository order |
| `Service.SchedulesService.UpdateWorkingTime` | src/schedule/services/schedule.service.ts:129-145 | fails with `schedule_not_found` and changes nothing for a missing id. Otherwise only that row's `workingTimes` changes, to `arrayToString(arr)`, and the saved row is returned with `successfully` |
| `Service.SchedulesService.WorkingTimeByDate` | src/schedule/services/schedule.service.ts:147-175 | both directions for each outcome: `{404, schedules_not_found}` exactly for an unknown doctor; `{404, working_times_not_found}` exactly when the doctor has no row that day; otherwise the text of that (unique) row |

## Left out

- **Wall clock and timezone.** `VNTime` and its timezone offset are not part of this model: the day it gives is a parameter. The fill (line 25) and the pruner (line 80) read the clock separately, so `CronSchedule` takes two days. Full window coverage after the daily job is proved only when both reads give the same day (`Service.DailyRunSameDay`); when the pruner's day is later, the fill's own day is pruned again (`Service.DailyRunLaterPrune`). The source mixes local `getDate`/`setDate` with `getUTC*` getters; the model treats them as one calendar.
- **`parseDate`.** It is not part of this model, so the lookup takes the parsed date. `DateText.ParseText` is only an inverse of the record text, not a model of `parseDate`.
- **The slot codec.** `fixedStringToArray` and `arrayToString` are not part of this model. They are uninterpreted function values, so codec round trips and malformed templates are not modelled.
- **The doctor directory.** `findAllDoctor` and `findDoctorById` are not part of this model. The directory is a sequence parameter, and a lookup takes the first doctor with the id.
- **TypeORM persistence.**
  - The repository is an in-memory sequence.
  - Query results come back in repository order; a database may return them in another order.
  - String ids (such as UUIDs) are naturals issued by a counter.
  - Transactions, isolation levels, batch atomicity and persistence failures are not modelled.
- **Response wrappers and exceptions.** The `{ data: ... }` wrapper is not modelled. `NotFoundException` is a `Failure` carrying its message.
- **Logging and the timer.** `console.log` and the `@Cron` timer itself are left out. Only the fill-then-prune order of the daily job is kept.
- **`async`/`await`.** Concurrency between the daily job and queries is not modelled; operations run one at a time.
- **JavaScript `Date` limits.** The year range and millisecond representation of JavaScript `Date` are not modelled: years are unbounded integers.
- **Other files.**
  - `src/schedule/consumers/schedule.consumer.ts` only forwards a message to `workingTimeByDate`, so it is messaging plumbing.
  - `src/doctor/controllers/doctor.controller.ts` is HTTP routing and calls into services that are not part of this model.
  - `src/app.module.ts` is module wiring.
- **Behaviour of the code that the model keeps.**
  - The count guard (lines 32-43) is kept as written and shown to always pass.
  - The code has three not-found messages: `schedules_not_found`, `schedule_not_found` and `working_times_not_found`.
  - The code neither isolates nor reports a failure in one doctor's pass: an exception ends the whole run. The model has no failing pass, so this is not modelled.
