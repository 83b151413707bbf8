/**
  The specification of the attendance engine on table values.

  `Decide` says what a request reads, answers and writes; `Patch` carries the writes out.
  The use-case methods are proved to do exactly this, statement by statement.
 */
module Attendance {
  import opened Prelude
  import opened Clock
  import opened Domain
  import opened Tables

  /** The database, with the server's fixed UTC offset. `employees` resolves the public employee code. */
  datatype Db = Db(
    offset: int,
    employees: map<string, nat>,
    schedules: map<(nat, int), Schedule>,
    records: seq<Record>,
    breaks: seq<Break>)

  /** What a request writes. A record it works on is carried as the row it read. */
  datatype Delta =
    | Same
    | Born(record: Record)
    | Started(row: Record, added: Break, marked: bool)
    | Ended(row: Record, at: int, marked: bool)
    | Left(row: Record, at: int, breaksEnded: bool, sealed: Option<Record>)

  function Patch(db: Db, d: Delta): Db {
    match d
    case Same => db
    case Born(r) => db.(records := db.records + [r])
    case Started(r, b, marked) =>
      db.(breaks := db.breaks + [b],
      records := if marked then Update(db.records, r.id, SetStatus(OnBreak)) else db.records)
    case Ended(r, t, marked) =>
      db.(breaks := EndOpen(db.breaks, r.id, t),
      records := if marked then Update(db.records, r.id, SetStatus(ClockedIn)) else db.records)
    case Left(r, t, ended, sealed) =>
      db.(breaks := if ended then EndOpen(db.breaks, r.id, t) else db.breaks,
      records := if sealed.Some? then Update(db.records, r.id, Close(sealed.value)) else db.records)
  }

  /** resolveEmployeeUUID followed by GetTodayRecord. */
  function Seek(db: Db, code: string, date: int, f: Faults): Result<Option<Record>, Error> {
    if f.resolve then Failure(StorageFailure)
    else if code !in db.employees then Failure(EmployeeNotFound)
    else if f.lookup then Failure(StorageFailure)
    else Success(Lookup(db.records, db.employees[code], date))
  }

  /** The record of a shift that is still running. */
  function SeekRunning(db: Db, code: string, date: int, f: Faults): Result<Record, Error> {
    match Seek(db, code, date, f)
    case Failure(e) => Failure(e)
    case Success(None) => Failure(NotClockedIn)
    case Success(Some(r)) => if r.status.ClockedOut? then Failure(AlreadyClockedOut) else Success(r)
  }

  // ---- clock-in ----

  function ScheduleFor(db: Db, employee: nat, now: int): Option<Schedule> {
    var key := (employee, Weekday(now, db.offset));
    if key in db.schedules && db.schedules[key].active then Some(db.schedules[key]) else None
  }

  /** The instant of a wall-clock time on a date; seconds are dropped and unreadable text counts as midnight. */
  function ScheduledAt(date: int, offset: int, w: WallClock): int {
    DayStart(date, offset) + match w
                             case Unreadable => 0
                             case Reads(h, m, _) => (h * 60 + m) * MINUTE
  }

  function NewRecord(db: Db, employee: nat, now: int, id: nat, notes: Option<string>): Record {
    var date := DateOf(now, db.offset);
    var s := ScheduleFor(db, employee, now);
    Record(id, employee, date, ClockedIn, now,
           if s.Some? then Some(ScheduledAt(date, db.offset, s.value.clockIn)) else None,
           if s.Some? then Some(ScheduledAt(date, db.offset, s.value.clockOut)) else None,
           None, None, None, false, notes)
  }

  function DecideClockIn(db: Db, now: int, code: string, newId: nat, notes: Option<string>, f: Faults): (Delta, Reply) {
    match Seek(db, code, DateOf(now, db.offset), f)
    case Failure(e) => (Same, Failed(e))
    case Success(Some(_)) => (Same, Failed(AlreadyClockedIn))
    case Success(None) =>
      if f.schedule then (Same, Failed(StorageFailure)) else
        var r := NewRecord(db, db.employees[code], now, newId, notes);
        if f.insertRecord.Refused? || !InsertAllowed(db.records, r) then (Same, Failed(StorageFailure))
        else (Born(r), if f.insertRecord.Done? then ClockInReply(newId, now, ClockedIn) else Failed(StorageFailure))
  }

  // ---- breaks ----

  function DecideStart(db: Db, r: Record, now: int, newId: nat, f: Faults): (Delta, Reply) {
    if r.status.OnBreak? then (Same, Failed(AlreadyOnBreak))
    else if f.insertBreak.Refused? || HasBreakId(db.breaks, newId) then (Same, Failed(StorageFailure))
    else
      var b := Break(newId, r.id, now, None);
      if !f.insertBreak.Done? then (Started(r, b, false), Failed(StorageFailure))
      else (Started(r, b, f.setStatus.Applied()),
            if f.setStatus.Done? then BreakReply(BREAK_START, now, OnBreak) else Failed(StorageFailure))
  }

  function DecideEnd(db: Db, r: Record, now: int, f: Faults): (Delta, Reply) {
    if f.openBreak then (Same, Failed(StorageFailure))
    else if OpenBreak(db.breaks, r.id).None? then (Same, Failed(NotOnBreak))
    else if !f.endBreaks.Done? then
      (if f.endBreaks.Applied() then Ended(r, now, false) else Same, Failed(StorageFailure))
    else (Ended(r, now, f.setStatus.Applied()),
          if f.setStatus.Done? then BreakReply(BREAK_END, now, ClockedIn) else Failed(StorageFailure))
  }

  function DecideToggle(db: Db, now: int, code: string, newId: nat, action: string, f: Faults): (Delta, Reply) {
    if action != BREAK_START && action != BREAK_END then (Same, Failed(InvalidBreakAction)) else
      match SeekRunning(db, code, DateOf(now, db.offset), f)
      case Failure(e) => (Same, Failed(e))
      case Success(r) =>
        if action == BREAK_START then DecideStart(db, r, now, newId, f) else DecideEnd(db, r, now, f)
  }

  // ---- minutes ----

  function AtLeastZero(n: int): int {
    if n < 0 then 0 else n
  }

  function WorkingMinutes(clockIn: int, clockOut: int, breakTicks: int): int {
    AtLeastZero(TruncMinutes(clockOut - clockIn) - TruncMinutes(breakTicks))
  }

  function OvertimeMinutes(scheduledOut: Option<int>, at: int): int {
    if scheduledOut.Some? && at > scheduledOut.value then TruncMinutes(at - scheduledOut.value) else 0
  }

  /** The preview truncates the closed breaks and the open break separately. */
  function PreviewMinutes(clockIn: int, now: int, closedTicks: int, openSince: Option<int>): int {
    AtLeastZero(TruncMinutes(now - clockIn) -
                (TruncMinutes(closedTicks) + if openSince.Some? then TruncMinutes(now - openSince.value) else 0))
  }

  function DecidePreview(db: Db, now: int, code: string, f: Faults): Reply {
    match SeekRunning(db, code, DateOf(now, db.offset), f)
    case Failure(e) => Failed(e)
    case Success(r) =>
      if f.sum || (r.status.OnBreak? && f.openBreak) then Failed(StorageFailure) else
        var open := if r.status.OnBreak? then OpenBreak(db.breaks, r.id) else None;
        PreviewReply(
          PreviewMinutes(r.clockInAt, now, SumTicks(db.breaks, r.id),
                         if open.Some? then Some(open.value.startAt) else None),
          OvertimeMinutes(r.scheduledOutAt, now), r.scheduledOutAt, now)
  }

  // ---- clock-out ----

  /** The effective clock-out time, with the offset its date is read at. */
  datatype Stamp = Stamp(at: int, offset: int, offline: bool)

  function Effective(now: int, offset: int, client: ClientTime): Result<Stamp, Error> {
    match client
    case Absent => Success(Stamp(now, offset, false))
    case Malformed => Failure(InvalidClientTimestamp)
    case At(t, o) =>
      if t > now then Failure(ClientTimestampInFuture)
      else if now - t > MAX_OFFLINE then Failure(ClientTimestampTooOld)
      else Success(Stamp(t, o, true))
  }

  function Closed(r: Record, s: Stamp, working: int, overtime: int, notes: Option<string>): Record {
    r.(clockOutAt := Some(s.at),
    status := ClockedOut,
    workingMinutes := Some(working),
    overtimeMinutes := Some(overtime),
    offline := s.offline,
    notes := if notes.Some? then notes else r.notes)
  }

  function DecideLeave(db: Db, r: Record, s: Stamp, notes: Option<string>, f: Faults): (Delta, Reply) {
    var ended := r.status.OnBreak? && f.endBreaks.Applied();
    if (r.status.OnBreak? && !f.endBreaks.Done?) || f.sum then
      (Left(r, s.at, ended, None), Failed(StorageFailure))
    else
      var breaks := if ended then EndOpen(db.breaks, r.id, s.at) else db.breaks;
      var working := WorkingMinutes(r.clockInAt, s.at, SumTicks(breaks, r.id));
      var overtime := OvertimeMinutes(r.scheduledOutAt, s.at);
      var closed := Closed(r, s, working, overtime, notes);
      (Left(r, s.at, ended, if f.closeRecord.Applied() then Some(closed) else None),
       if f.closeRecord.Done? then ClockOutReply(s.at, working, overtime, ClockedOut, s.offline)
       else Failed(StorageFailure))
  }

  function DecideClockOut(db: Db, now: int, code: string, client: ClientTime, notes: Option<string>, f: Faults)
    : (Delta, Reply)
  {
    match Effective(now, db.offset, client)
    case Failure(e) => (Same, Failed(e))
    case Success(s) =>
      match SeekRunning(db, code, DateOf(s.at, s.offset), f)
      case Failure(e) => (Same, Failed(e))
      case Success(r) => DecideLeave(db, r, s, notes, f)
  }

  // ---- today's status ----

  function DecideToday(db: Db, now: int, code: string, f: Faults): Reply {
    match Seek(db, code, DateOf(now, db.offset), f)
    case Failure(e) => Failed(e)
    case Success(None) => StatusReply(Idle, None, None, None, None, false, None)
    case Success(Some(r)) =>
      if r.status.OnBreak? && f.openBreak then Failed(StorageFailure) else
        var open := if r.status.OnBreak? then OpenBreak(db.breaks, r.id) else None;
        StatusReply(r.status, Some(r.id), Some(r.clockInAt), r.clockOutAt, r.notes, r.status.OnBreak?,
                    if open.Some? then Some(open.value.startAt) else None)
  }

  // ---- one request, a run of requests ----

  function Decide(db: Db, q: Request): (Delta, Reply) {
    match q.call
    case ClockIn(notes) => DecideClockIn(db, q.now, q.code, q.newId, notes, q.faults)
    case ToggleBreak(action) => DecideToggle(db, q.now, q.code, q.newId, action, q.faults)
    case Preview => (Same, DecidePreview(db, q.now, q.code, q.faults))
    case ClockOut(client, notes) => DecideClockOut(db, q.now, q.code, client, notes, q.faults)
    case TodayStatus => (Same, DecideToday(db, q.now, q.code, q.faults))
  }

  function Step(db: Db, q: Request): Db {
    Patch(db, Decide(db, q).0)
  }

  function Answer(db: Db, q: Request): Reply {
    Decide(db, q).1
  }

  /** The database after a sequence of requests. */
  function Run(db: Db, qs: seq<Request>): Db {
    if qs == [] then db else Step(Run(db, qs[..|qs| - 1]), qs[|qs| - 1])
  }

  /** The offset at which the date of a request's effective time is read. */
  function OffsetOf(db: Db, q: Request): int {
    if q.call.ClockOut? && q.call.client.At? then q.call.client.offset else db.offset
  }

  /** The effective time of a request: the client's instant for an offline clock-out, the server clock otherwise. */
  function TimeOf(q: Request): int {
    if q.call.ClockOut? && q.call.client.At? then q.call.client.instant else q.now
  }
}
