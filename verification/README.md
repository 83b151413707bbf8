# Verified model of the HRIS attendance backend

This project models the stateful core of the HRIS backend in Dafny and proves what that core keeps over every run.

- **Attendance engine.** Clock-in, breaks, clock-out preview, clock-out and today's status, over two tables: one record
  per employee and work date, and break rows. The rows encode a four-state machine redundantly: starting a break looks at
  the `status` column, ending one looks for an open break row.
- **Employee IDs.** A counter per company and year, incremented by an atomic upsert, printed as `%s-%d-%04d`, and used as
  a unique key by registrations that interleave.
- **One-time passwords.** An expiring store that requests overwrite and successful verifications empty.

## How the model is built

Time is an integer number of microseconds. The server has a fixed UTC offset, a client timestamp carries its own, and a
civil date is `(t + offset) div day`. The server clock, random UUIDs, drawn OTP numbers and the fate of every repository
call are inputs of a request. A write is `Done`, `Refused`, or `Unacknowledged` (it took effect although the caller sees
an error); a read may fail.

| file | content |
|---|---|
| `Clock.dfy`, `Domain.dfy`, `Prelude.dfy` | instants, dates, Go's truncating minutes; rows, requests, replies |
| `Tables.dfy` | the meaning of each SQL statement on rows, and how every query answers after every update |
| `Attendance.dfy` | the engine as a specification: `Decide` reads and answers, `Patch` writes |
| `AttendanceStore.dfy`, `AttendanceUsecase.dfy` | repositories and use cases as classes, proved equal to that specification |
| `Safety.dfy` | what every request keeps whatever fails: constraints, write-once columns, the frozen past, repair |
| `Requests.dfy`, `Schedules.dfy` | each kind of request in rows and columns: refusals, replies, writes; the schedule snapshot |
| `Shifts.dfy` | the automaton, its accepted histories, their breaks, time counted instant by instant |
| `Automaton.dfy`, `Ledger.dfy`, `Today.dfy` | the tables implement the automaton; rows, minutes and the status query against histories |
| `Minutes.dfy` | preview against clock-out, break freeze, echoed server time |
| `DailyBound.dfy`, `Witnesses.dfy` | when breaks stay sound, the daily bound; literal runs outside its conditions |
| `ClockInRace.dfy` | racing clock-ins |
| `EmployeeIds.dfy`, `Allocation.dfy`, `EmployeeUsecase.dfy` | ID printer and reader, allocation protocol, registration, the migrated administrator |
| `Otp.dfy`, `AuthUsecase.dfy` | the OTP store, its use cases, matching of verifications to requests |

Two kinds of run are defined for one employee's day. Both start from any well-formed tables without a record for it, have
a server clock that does not go back, and allow anything, with any failures, on requests aimed at other days and employees;
offline clock-outs of any accepted time are part of both.

- In a *clean run* each request aimed at the day meets no failure and draws an unused UUID, or fails before writing.
- In a *sound run* requests aimed at the day may fail in any way but two: a break start that writes its row and not the
  status (`HalfStarted`), and a clock-out that ends the open break before its start and then does not write the outcome
  (`EndedEarly`). Clean runs are sound (`DailyBound.CleanRunIsSound`).

Results about `Run` that name neither hold for all runs, with any failures.

## Where the code and what is said about it differ

- A comment (internal/usecase/attendance_uc.go:292) and the offline clock-out design say that
  `break_end_at <= clock_out_at` always holds. An offline clock-out may carry a time before breaks that already ended.
  `Ledger.BreakEndsExactly` and `Ledger.BreaksInsideExactly` give the exact conditions,
  `Witnesses.BreakEndsAfterClockOut` a run in which nothing fails and the claim does not hold.
- "Cannot end a break if not currently on break" (internal/delivery/http/handler/attendance_handler.go:128): the code asks
  for an open break row, not for the status. On each employee's day the two stay in agreement exactly while no request
  aimed at that day is carried out by half (`Automaton.KeyInStepExactly`, `Automaton.RunInStepExactly`). After a half-done
  end or clock-out the shift is `on_break` with no open row, and until a clock-out is aimed at it both break actions are
  refused (`Safety.HalfDoneSticks`, `Safety.StuckUntilClockOut`); after a half-done start an end repairs it
  (`Safety.EndRepairs`).
- "Automatically ends any open break", of the clock-out (internal/delivery/http/handler/attendance_handler.go:236): the code
  asks for the status here. A clock-out ends whatever is open under `on_break` and nothing otherwise
  (`Safety.ClockOutClosesExactly`), so the break of a half-done start stays open in the closed shift for good
  (`Safety.HalfStartedSurvivesClockOut`).
- A shift lies on one date, so its minutes should be under 1440. They are in every sound run (`DailyBound.DailyBound`);
  either failure that a sound run excludes can store nearly two days (`Witnesses.EarlyEndStores2878`,
  `Witnesses.HalfStartStores2877`), and only with breaks of negative total length (`DailyBound.OverlongOnlyIfNegative`).
- The migration says its ID mirrors the application's; it does so up to counter 9999 (`EmployeeIds.SeededAgrees`,
  `Allocation.SeedKeepsInvExactly`).
- `EndLatestBreak` ends every open break of the record, not only the latest.

## Model

| member | source | states |
|---|---|---|
| `AttendanceRepositories.AttendanceStore.GetTodayRecord` | internal/repository/postgres/attendance_repo.go:25-37 | the scan returns the matching row with the least primary key, or none |
| `AttendanceRepositories.AttendanceStore.CreateClockIn` | internal/repository/postgres/attendance_repo.go:21-23 | the row is appended exactly when the write applies and both unique constraints allow it |
| `AttendanceRepositories.AttendanceStore.UpdateClockOut` | internal/repository/postgres/attendance_repo.go:39-52 | only the outcome columns of the one record change; notes only when given |
| `AttendanceRepositories.AttendanceStore.UpdateStatus` | internal/repository/postgres/attendance_repo.go:54-62 | only the status of the one record changes |
| `AttendanceRepositories.AttendanceStore.StartBreak` | internal/repository/postgres/attendance_break_repo.go:21-23 | one open row is appended unless refused or its primary key is taken |
| `AttendanceRepositories.AttendanceStore.EndLatestBreak` | internal/repository/postgres/attendance_break_repo.go:25-30 | every open row of the record ends at the given time, no other row changes |
| `AttendanceRepositories.AttendanceStore.GetOpenBreak` | internal/repository/postgres/attendance_break_repo.go:32-44 | the scan returns the open row of the record with the least primary key, or none |
| `AttendanceRepositories.AttendanceStore.SumBreakMinutes` | internal/repository/postgres/attendance_break_repo.go:46-57 | the loop computes the recursive total of ended breaks, truncated once |
| `AttendanceRepositories.AttendanceStore.GetByDayOfWeek` | internal/repository/postgres/employee_schedule_repo.go:20-32 | only an active schedule of that employee and weekday is returned |
| `AttendanceUsecase.Usecase.ClockIn` | internal/usecase/attendance_uc.go:72-135 | tables and reply after the call sequence are those of the specification, with every call's failure |
| `AttendanceUsecase.Usecase.ToggleBreak` | internal/usecase/attendance_uc.go:137-195 | the same for starting and ending breaks, partial effects of failures included |
| `AttendanceUsecase.Usecase.GetClockOutPreview` | internal/usecase/attendance_uc.go:197-249 | the reply is the specification's: closed and open breaks truncated separately, clamp, overtime |
| `AttendanceUsecase.Usecase.ClockOut` | internal/usecase/attendance_uc.go:251-334 | timestamp checks before any lookup, then tables and reply as specified |
| `AttendanceUsecase.Usecase.CloseShift` | internal/usecase/attendance_uc.go:292-333 | open breaks end first, minutes are taken from the breaks as they then are, outcome written last |
| `AttendanceUsecase.Usecase.GetTodayStatus` | internal/usecase/attendance_uc.go:361-398 | the reply is the specification's |
| `AttendanceUsecase.Usecase.Handle` | internal/domain/attendance.go:115-124 | one request is one step of a run |
| `Requests.RefusedExactly` | internal/usecase/attendance_uc.go:72-398 | for every request, from any well-formed tables and with any failures: each error answers exactly its own cause, stated in rows and columns and in the order of the checks; a request succeeds exactly when it finds the record it needs and every call it depends on succeeds |
| `Requests.RepliesExactly` | internal/usecase/attendance_uc.go:130-398 | for every request that succeeds, every field of the reply from the columns of the record it finds; minutes from durations cut to whole minutes toward zero, overtime by whole minutes past the scheduled end |
| `Requests.WritesExactly` | internal/usecase/attendance_uc.go:95-325 | for every request with any failures, the rows inserted and the columns changed, each exactly when the calls before it were acknowledged and its own took effect; nothing else changes |
| `Schedules.RecordsCarrySchedules` | internal/usecase/attendance_uc.go:89-124 | over every run with any failures, each record has both times of its employee's active schedule for the weekday of its work date, on that date, at that hour and minute and no seconds (midnight for unreadable text), and none exactly when there is no active schedule |
| `Clock.WeekdaysFollow` | internal/usecase/attendance_uc.go:90 | weekday numbers: 1970-01-01 is 4, each next day has the next number modulo 7 |
| `Clock.TruncIsWholeMinutes` | internal/usecase/attendance_uc.go:304 | `int(d.Minutes())` is the one number of whole minutes of sixty seconds cut toward zero, for either sign |
| `Tables.LookupFinds` | internal/repository/postgres/attendance_repo.go:25-37 | the query finds a matching row with the least key, and none only when no row matches |
| `Tables.LookupIsTheRow` | internal/repository/postgres/attendance_repo.go:25-37 | under the unique constraint any row of a key is the row the query returns |
| `Tables.LookupAfterUpdate` | internal/repository/postgres/attendance_repo.go:39-62 | an update by id changes what a query by key answers exactly when the answer was that row |
| `Tables.SpansAfterEnd` | internal/repository/postgres/attendance_break_repo.go:25-30 | ending breaks closes every open interval of that record and no interval of another |
| `Tables.SumIsClosedTicks` | internal/repository/postgres/attendance_break_repo.go:46-57 | the SQL sum is the total length of the record's ended intervals |
| `Tables.OpenBreakFinds` | internal/repository/postgres/attendance_break_repo.go:32-44 | the query finds an open row of the record with the least key, and none only when the record has no open row |
| `Tables.OpenBreakIsOpenSpan` | internal/repository/postgres/attendance_break_repo.go:32-44 | a row is found exactly when some interval is open, and is one of them |
| `Tables.CloseOneTicks` | internal/usecase/attendance_uc.go:292-302 | with one break open, ending it adds exactly its length to the total, even a negative one |
| `Safety.StepEvolves` | internal/usecase/attendance_uc.go:95-128 | one request with any failures keeps keys unique and rows well formed, and changes nothing that is write-once |
| `Safety.RunEvolves` | internal/repository/postgres/attendance_repo.go:39-62 | over every run with any failures: identity, work date, clock-in and schedule snapshot never change, a closed record and its breaks never change, outcome columns are set exactly when closed, an ended break stays ended |
| `Safety.TerminalRow` | internal/usecase/attendance_uc.go:157-159 | a closed record is found unchanged, with its breaks, after any run |
| `Safety.ClockOutReplyIsStored` | internal/usecase/attendance_uc.go:314-333 | a successful reply shows what is stored; offline exactly with a client time; notes replaced only when given |
| `Safety.FrozenStep` | internal/usecase/attendance_uc.go:257-281 | a request more than 24 hours past the end of a record's date leaves it and its breaks alone |
| `Safety.FrozenPast` | internal/domain/attendance.go:30 | the same over every run of such requests, with any failures |
| `Safety.WriteWindow` | internal/usecase/attendance_uc.go:257-279 | a client time on a date is acceptable exactly from the date's start until 24 hours after its end |
| `Safety.CloseableExactly` | internal/usecase/attendance_uc.go:257-290 | a running shift can be closed by an offline clock-out exactly in that window |
| `Safety.KeyAfter` | internal/usecase/attendance_uc.go:72-334 | whatever fails, a request works on the existing record of an employee's day, or gives the day its first record, or leaves its record and breaks as they are |
| `Safety.KeyAgreesExactly` | internal/usecase/attendance_uc.go:161-194 | with any failures, and whatever state all other days are in, a request keeps "no open break unless on break, then at most one" on a day if and only if it is not aimed at that day or does not start a break without marking the status (`BreaksAgreeExactly` is the corollary for all records) |
| `Safety.RunAgreesExactly` | internal/usecase/attendance_uc.go:161-194 | over runs: it holds of the day after every request if and only if no request aimed at the day is such a half start |
| `Safety.ClockOutClosesExactly` | internal/usecase/attendance_uc.go:281-325 | from any tables, a clock-out without failures leaves its shift closed with no open break if and only if it is `on_break`, with however many breaks open, or has none open |
| `Safety.ClockOutRetry` | internal/usecase/attendance_uc.go:281-325 | after any run without a half start on the day, any number of failed clock-outs and anything on other days included, a retry closes the day's shift cleanly, and reports "already clocked out" only if an earlier one took effect |
| `Safety.EndRepairs` | internal/usecase/attendance_uc.go:180-194 | ending a break removes every open row, under either running status, and restores `clocked_in` |
| `Safety.HalfDoneSticks` | internal/usecase/attendance_uc.go:180-194 | an end or clock-out that ended the breaks of a shift on break and did not go on leaves it `on_break` without an open row |
| `Safety.StuckOnBreak` | internal/usecase/attendance_uc.go:161-190 | there both break actions are refused, with these errors when no call fails, and change nothing |
| `Safety.StuckUntilClockOut` | internal/usecase/attendance_uc.go:161-190 | and so over every run with any failures, until a clock-out is aimed at the record |
| `Safety.HalfStartedSurvivesClockOut` | internal/usecase/attendance_uc.go:293-325 | a break left open under `clocked_in` stays open in the closed shift over every later run |
| `Shifts.AcceptedHistories` | internal/domain/attendance.go:33-38 | the automaton accepts exactly In (Start End)* [Start] [Out], and the state can be read off length and last event |
| `Shifts.LedgerOfHistory` | internal/usecase/attendance_uc.go:299-307 | instants spent working, counted one by one, are elapsed time minus breaks, at any time after the last event |
| `Shifts.IntervalsNested` | internal/usecase/attendance_uc.go:161-194 | breaks of an ordered history are ordered, disjoint and inside the shift |
| `Shifts.NestedExactly` | internal/usecase/attendance_uc.go:292-297 | for a closed history they are so if and only if the clock-out is not before an earlier event |
| `Shifts.BreakEndsByClockOutExactly` | internal/usecase/attendance_uc.go:292-297 | in a history, no break ends after the clock-out if and only if no end event is later than it |
| `Automaton.BadInputIsRefused` | internal/usecase/attendance_uc.go:138-145 | input errors come in the order of the checks and change nothing |
| `Automaton.StepRefines` | internal/usecase/attendance_uc.go:72-195 | without failures a request moves its record as the automaton says, or is refused with the automaton's error |
| `Automaton.EndDecision` | internal/usecase/attendance_uc.go:181-194 | deciding by the open row is deciding by the status while the two agree |
| `Automaton.StepKeepsOthers` | internal/usecase/attendance_uc.go:251-334 | other employees' and other days' records and breaks stay as they are, with any failures |
| `Automaton.KeyInStepExactly` | internal/usecase/attendance_uc.go:161-194 | with any failures, and whatever state all other days are in, a request keeps `on_break` going with exactly one open break and every other status with none on a day, if and only if it is not aimed at that day or not half done: a break started or ended without marking the status, or a clock-out that ended the break and did not write the outcome (`InStepExactly` is the corollary for all records) |
| `Automaton.RunInStepExactly` | internal/usecase/attendance_uc.go:161-194 | over runs: the day is in step after every request if and only if no request aimed at it is half done |
| `Automaton.TodayReportsState` | internal/usecase/attendance_uc.go:361-398 | the status query reports the automaton's state and the start of the open break |
| `Today.TodayReportsHistory` | internal/usecase/attendance_uc.go:361-398 | in every clean run the status query reports the state of the day's observed history, its first event as clock-in time, its clock-out and its last break start while on break, the identifier its clock-in was answered with, and the notes of the latest accepted clock-in or clock-out that gave any |
| `Ledger.RunTracks` | internal/usecase/attendance_uc.go:72-334 | in every run that is clean for an employee's day, the day's rows are those its observed history describes |
| `Ledger.RunRefines` | internal/usecase/attendance_uc.go:72-334 | in every clean run the day's history is an accepted one, and the next request on it succeeds or fails as the automaton says |
| `Ledger.LedgerTheorem` | internal/usecase/attendance_uc.go:292-307 | in every clean run a shift closed in order has nested breaks, and stores the worked ticks as whole minutes, or one more exactly on a carry; no clamp acts; overtime is the whole minutes past the scheduled end |
| `Ledger.BreaksInsideExactly` | internal/usecase/attendance_uc.go:257-297 | in every clean run a closed shift's breaks are inside it if and only if its effective clock-out is not before its last event |
| `Ledger.BreakEndsExactly` | internal/usecase/attendance_uc.go:292-297 | in every clean run no stored break of a closed shift ends after the stored clock-out if and only if no break of its history was ended at a later time |
| `Witnesses.BreakEndsAfterClockOut` | internal/usecase/attendance_uc.go:292-297 | a clean run (break 10:00 to 10:30, offline clock-out at 11:00 carrying 09:00) that stores a break ending after the clock-out |
| `Ledger.RunningShift` | internal/usecase/attendance_uc.go:137-195 | a running shift of a clean run has nested breaks, ended ones before the open one, all on its work date |
| `Minutes.PreviewAgainstClockOut` | internal/usecase/attendance_uc.go:217-241 | at one instant overtime agrees, and working minutes agree except for one minute exactly when truncations carry on an open break |
| `Minutes.RunningGoesForward` | internal/usecase/attendance_uc.go:217-241 | that comparison applies to every running shift of every sound run, whatever else fails |
| `Minutes.BreakFreeze` | internal/usecase/attendance_uc.go:222-236 | the state in which a break begins fixes `k`, the preview of that instant; after any later requests that leave the break open, every preview shows `k` or `k + 1` |
| `Minutes.PreviewCountsWork` | internal/usecase/attendance_uc.go:217-236 | while working, the preview is the time worked so far in whole minutes, or one more exactly on a carry |
| `DailyBound.RunSchedulesOnDate` | internal/usecase/attendance_uc.go:110-124 | over every run with any failures a schedule snapshot lies on its record's own work date |
| `DailyBound.KeySoundExactly` | internal/usecase/attendance_uc.go:161-325 | with any failures, and whatever state all other days are in, a request keeps a day's breaks sound (open ones as the status says, ended ones of a running shift not before their start) if and only if it is not aimed at the day, or neither half-starts a break nor ends one early (`SoundExactly` is the corollary for all records) |
| `DailyBound.RunSoundExactly` | internal/usecase/attendance_uc.go:161-325 | over runs: the day's breaks are sound after every request if and only if no request aimed at it does one of the two |
| `DailyBound.DailyBound` | internal/usecase/attendance_uc.go:279-312 | in every sound run, whatever else fails, offline clock-outs before clock-in or break start included, stored minutes are below a day plus the offsets' spread, so 0 to 1439 on one offset |
| `DailyBound.OverlongOnlyIfNegative` | internal/usecase/attendance_uc.go:292-320 | in every run, with any failures and any clock, a closed record stores as working minutes `p - q`, or 0 if that is negative, for `p` its elapsed time and `q` its stored break total, each of either sign, each cut to whole minutes; overtime is the whole minutes past the scheduled end and under a day; working minutes can exceed a day only when the stored breaks add up to minus one minute or less |
| `DailyBound.CleanRunIsSound` | internal/usecase/attendance_uc.go:137-334 | the bound covers every clean run |
| `Witnesses.EarlyEndStores2878` | internal/usecase/attendance_uc.go:293-302 | a clock-out carrying a time before the open break, whose read of the break total fails, and a clean retry store 2878 |
| `Witnesses.HalfStartStores2877` | internal/usecase/attendance_uc.go:161-178 | a break start that does not mark the status, a second start, and a clean clock-out carrying a time before both store 2877 |
| `Minutes.AcceptedWindow` | internal/usecase/attendance_uc.go:257-270 | a client time is accepted exactly in the last 24 hours, and so lies every accepted clock-out time |
| `Minutes.ServerTimeEcho` | internal/delivery/http/handler/utility_handler.go:31 | server time cut to seconds and echoed within 24 hours less a second is accepted, on the same work date |
| `Minutes.ServerTimeEchoExactly` | internal/delivery/http/handler/utility_handler.go:31 | and is accepted exactly until 24 hours after the second it was cut to |
| `ClockInRace.HalvesAreClockIn` | internal/usecase/attendance_uc.go:81-128 | the look-up and insert halves in one go are the clock-in |
| `ClockInRace.PlayedInOneGo` | internal/usecase/attendance_uc.go:81-134 | played with nothing in between, the halves leave the tables and give the answer of the whole clock-in |
| `ClockInRace.PlayedLater` | internal/usecase/attendance_uc.go:126-128 | whatever happened in between, the insert takes effect exactly when it is not refused and identifier and day are still free, and wins exactly when it is acknowledged too |
| `ClockInRace.OneRecordPerDay` | migrations/000007_create_attendance_records.up.sql:19 | in every interleaving of halves and whole requests, with any failures, one record per employee and date, and of all its clock-ins, racing halves and whole ones together, at most one succeeds |
| `ClockInRace.RefusedInsertMeansRecorded` | internal/usecase/attendance_uc.go:126-128 | without storage failures an insert loses exactly when the day is already recorded |
| `EmployeeIds.RoundTrip` | internal/usecase/employee_uc.go:38 | reading a printed ID from the right gives back code, year and counter, for every code |
| `EmployeeIds.IdsAreDistinct` | internal/usecase/employee_uc.go:38 | different code, year or counter never print alike |
| `EmployeeIds.IdFitsColumn` | migrations/000003_create_employees_table.up.sql:4 | every printed ID fits its column |
| `EmployeeIds.IdFormat` | internal/usecase/employee_uc.go:38 | an ID is the code, the year and the counter in four digits or more, with dashes between and no other leading zeros |
| `EmployeeIds.SeededAgrees` | migrations/000010_seed_default_admin.up.sql:30 | the migration prints the same ID if and only if the counter is at most 9999 |
| `EmployeeIds.SeededCollides` | migrations/000010_seed_default_admin.up.sql:30 | above 9999 it prints an ID issued earlier |
| `EmployeeUsecase.EmployeeStore.IncrementAndGetCounter` | internal/repository/postgres/employee_sequence_repo.go:18-39 | insert 1 or increment, returning the new value, unless refused or out of INT range |
| `EmployeeUsecase.Usecase.GenerateEmployeeID` | internal/usecase/employee_uc.go:30-41 | takes the next number of the company and year and prints it |
| `EmployeeUsecase.Usecase.Register` | internal/usecase/employee_uc.go:44-84 | a success adds one employee with the given email and phone, the code's company and an ID that reads back as code, year and next number; each error answers exactly its own cause; no other row is added except by an insert that took effect unacknowledged; no number stays in flight |
| `EmployeeUsecase.RegistersExactly` | internal/usecase/employee_uc.go:44-123 | the same of the protocol moves and the outcome the call is proved to make |
| `EmployeeUsecase.Usecase.RegisterByMoves` | internal/usecase/employee_uc.go:44-84 | one registration is a take followed by a place or a give-up of the protocol, with the error of the first step that fails |
| `Allocation.PlayAllKeepsInv` | internal/usecase/employee_uc.go:44-84 | every interleaving, from any agreeing tables, keeps counters, numbers and rows in agreement |
| `Allocation.IssuedIdsAreUnique` | migrations/000003_create_employees_table.up.sql:4 | over every interleaving with any failures IDs are distinct across companies and years, the table holds exactly the created ones, and no insert meets the employee_id constraint |
| `Allocation.CounterIsConserved` | internal/repository/postgres/employee_sequence_repo.go:18-39 | a counter is created plus failed plus in-flight registrations |
| `Allocation.NumbersAreDense` | internal/repository/postgres/employee_sequence_repo.go:21-30 | every number up to the counter was handed out |
| `Allocation.SeedIsARegistration` | migrations/000010_seed_default_admin.up.sql:19-46 | with no administrator yet and up to counter 9999, the admin migration is one take and one place of the protocol, and fails only if its phone number is taken |
| `Allocation.SeedKeepsInvExactly` | migrations/000010_seed_default_admin.up.sql:24-46 | a migration that registers keeps counters, numbers and rows in agreement if and only if the counter is at most 9999 |
| `Allocation.SeededBook` | migrations/000010_seed_default_admin.up.sql:18-46 | on empty tables it succeeds and leaves tables the allocation results apply to |
| `Allocation.SeedExactly` | migrations/000010_seed_default_admin.up.sql:11-46 | from any tables the migration fails as a whole without the company or when the new row or number would not fit, does nothing when the administrator exists, and otherwise adds that one row and takes one number |
| `AuthUsecase.OtpStore.GetOTP` | internal/repository/redis/otp_repo.go:26-29 | the stored code while its lifetime lasts |
| `AuthUsecase.Usecase.RequestOTP` | internal/usecase/auth_uc.go:30-47 | store and reply as specified: a code may be stored although the mail could not be queued |
| `AuthUsecase.Usecase.VerifyOTP` | internal/usecase/auth_uc.go:49-72 | store and reply as specified: the deletion's error is ignored |
| `Otp.RequestExactly` | internal/usecase/auth_uc.go:30-47 | a request answers Sent exactly when the employee is found, the code stored and acknowledged and the mail queued; each rejection has exactly its own cause; the new code is left behind for 300 seconds exactly when the store took effect, and no other key changes |
| `Otp.VerificationExactly` | internal/usecase/auth_uc.go:49-72 | a verification answers with a token or with each rejection exactly on its own cause, and removes the code exactly when it was accepted and the deletion took effect |
| `Otp.SentCodeWorks` | internal/usecase/auth_uc.go:30-72 | over every run, after Sent the drawn code is accepted by the next call for that email within five minutes, unless that call itself meets a failure |
| `Otp.VaultHoldsCurrent` | internal/repository/redis/otp_repo.go:21-34 | after every run the store holds exactly the code and deadline of each email's current request |
| `Otp.VerifyExactly` | internal/usecase/auth_uc.go:49-72 | a verification succeeds if and only if a current request under five minutes old has its code and no call fails |
| `Otp.OtpMatching` | internal/usecase/auth_uc.go:30-72 | in every run whose deletions take effect, successes match distinct earlier requests with no request or success in between |
| `Otp.ReuseExactly` | internal/usecase/auth_uc.go:49-72 | over every run, a code that succeeded and is sent again in its lifetime, with no newer code stored, succeeds again if and only if no deletion for its email took effect since, its own included |
| `Otp.CodesHaveSixDigits` | internal/usecase/auth_uc.go:36 | the printed code has six digits and tells the drawn number |

## Left out

- RFC 3339 parsing and printing, time zone data and daylight saving: a client timestamp is absent, malformed, or an instant
  with an offset; the server's offset is fixed.
- Floating point in `Duration.Minutes()` and SQL `EXTRACT(EPOCH ...)`, nanoseconds, Postgres rounding to microseconds and
  the saturation of `Duration`: durations are exact integers.
- Whether a Redis key is still readable at the very instant its lifetime ends: the model says it is not.
- Columns that are stored and never read back by the engine: company, coordinates, selfie, created and updated times.
- Interleaving inside ToggleBreak and ClockOut: each runs as a whole, because the code has no transaction and the break
  invariant does not hold between their statements. Clock-ins and registrations are interleaved.
- Several OTP requests at once: runs of whole calls only.
- Employees and schedules as changing tables: they are fixed during a run, as the engine never writes them.
- `ValidateLocation` and the haversine distance: trigonometry over floats.
- HTTP handlers, JWT, bcrypt, mail, the task queue, `Login`, profiles, selfies and the blocklist of mail domains: their
  verdicts are inputs where a modelled call depends on them.
- Which of two violated constraints Postgres reports: the model takes the employee ID, then the email, then the phone.
- The weekly schedules that the admin migration also inserts.
