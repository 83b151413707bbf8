/** The stored rows, the requests and the replies of the attendance engine. */
module Domain {
  import opened Prelude

  // `Idle` is what an employee without a row for the day is reported as; no row carries it.
  datatype Status = Idle | ClockedIn | OnBreak | ClockedOut

  /** A row of attendance_records. Identifiers are UUIDs in the database; only their order and equality matter. */
  datatype Record = Record(
    id: nat,
    employee: nat,
    workDate: int,
    status: Status,
    clockInAt: int,
    scheduledInAt: Option<int>,
    scheduledOutAt: Option<int>,
    clockOutAt: Option<int>,
    workingMinutes: Option<int>,
    overtimeMinutes: Option<int>,
    offline: bool,
    notes: Option<string>)

  /** A row of attendance_breaks; it is open while `endAt` is absent. */
  datatype Break = Break(id: nat, record: nat, startAt: int, endAt: Option<int>)

  type Hour = h: int | 0 <= h < 24
  type Sixty = m: int | 0 <= m < 60

  /** The text of a TIME column, as the "15:04:05" layout reads it. */
  datatype WallClock = Unreadable | Reads(hour: Hour, minute: Sixty, second: Sixty)

  /** A row of employee_schedules; unique per employee and weekday. */
  datatype Schedule = Schedule(clockIn: WallClock, clockOut: WallClock, active: bool)

  datatype Error =
    | StorageFailure            // a repository call returned an error
    | EmployeeNotFound
    | AlreadyClockedIn
    | NotClockedIn
    | AlreadyClockedOut
    | AlreadyOnBreak
    | NotOnBreak
    | InvalidBreakAction
    | InvalidClientTimestamp
    | ClientTimestampInFuture
    | ClientTimestampTooOld

  const BREAK_START := "start"
  const BREAK_END := "end"

  /** The optional client_timestamp of a clock-out: absent, not RFC 3339, or an instant with its own UTC offset. */
  datatype ClientTime = Absent | Malformed | At(instant: int, offset: int)

  datatype Call =
    | ClockIn(notes: Option<string>)
    | ToggleBreak(action: string)
    | Preview
    | ClockOut(client: ClientTime, notes: Option<string>)
    | TodayStatus

  /** What happens to a write: applied, refused, or applied although the caller sees an error. */
  datatype Write = Done | Refused | Unacknowledged {
    predicate Applied() {
      !Refused?
    }
  }

  /** One verdict per repository call; every use case makes each of these calls at most once. `true` is a failed read. */
  datatype Faults = Faults(
    resolve: bool,
    lookup: bool,
    schedule: bool,
    openBreak: bool,
    sum: bool,
    insertRecord: Write,
    insertBreak: Write,
    endBreaks: Write,
    setStatus: Write,
    closeRecord: Write)

  const NO_FAULTS := Faults(false, false, false, false, false, Done, Done, Done, Done, Done)

  /** A call with what the environment supplies: server clock, caller's employee code, the next random UUID, and faults. */
  datatype Request = Request(now: int, code: string, newId: nat, call: Call, faults: Faults)

  datatype Reply =
    | ClockInReply(id: nat, clockInAt: int, status: Status)
    | BreakReply(action: string, timestamp: int, status: Status)
    | PreviewReply(workingMinutes: int, overtimeMinutes: int, scheduledOutAt: Option<int>, currentTime: int)
    | ClockOutReply(clockOutAt: int, workingMinutes: int, overtimeMinutes: int, status: Status, offline: bool)
    | StatusReply(
        status: Status,
        attendanceId: Option<nat>,
        since: Option<int>,
        until: Option<int>,
        notes: Option<string>,
        onBreak: bool,
        openBreakStartAt: Option<int>)
    | Failed(error: Error)
}
