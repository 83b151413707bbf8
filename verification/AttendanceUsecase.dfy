/**
  The attendance use cases, call by call, over the repositories.
  Every method is proved to write and to answer exactly what `Decide` says.
 */
module AttendanceUsecase {
  import opened Prelude
  import opened Clock
  import opened Domain
  import opened Attendance
  import opened AttendanceRepositories

  class Usecase {
    const store: AttendanceStore

    constructor (store: AttendanceStore)
      ensures this.store == store
    {
      this.store := store;
    }

    method ClockIn(now: int, code: string, newId: nat, notes: Option<string>, f: Faults) returns (reply: Reply)
      modifies store
      ensures (var d := DecideClockIn(old(store.View()), now, code, newId, notes, f);
               store.View() == Patch(old(store.View()), d.0) && reply == d.1)
    {
      var employee := store.GetByEmployeeID(code, f.resolve);
      if employee.Failure? {
        return Failed(employee.error);
      }
      var today := DateOf(now, store.offset);
      var existing := store.GetTodayRecord(employee.value, today, f.lookup);
      if existing.Failure? {
        return Failed(existing.error);
      }
      if existing.value.Some? {
        return Failed(AlreadyClockedIn);
      }

      var schedule := store.GetByDayOfWeek(employee.value, Weekday(now, store.offset), f.schedule);
      if schedule.Failure? {
        return Failed(schedule.error);
      }
      var record := Record(newId, employee.value, today, ClockedIn, now, None, None, None, None, None, false, notes);
      if schedule.value.Some? {
        var scheduledIn := ScheduledAt(today, store.offset, schedule.value.value.clockIn);
        var scheduledOut := ScheduledAt(today, store.offset, schedule.value.value.clockOut);
        record := record.(scheduledInAt := Some(scheduledIn), scheduledOutAt := Some(scheduledOut));
      }

      assert record == NewRecord(old(store.View()), employee.value, now, newId, notes);
      var ok := store.CreateClockIn(record, f.insertRecord);
      if !ok {
        return Failed(StorageFailure);
      }
      return ClockInReply(record.id, record.clockInAt, record.status);
    }

    /** The steps ToggleBreak, GetClockOutPreview and ClockOut share: resolve, look up, and refuse unless the shift runs. */
    method FindRunning(code: string, date: int, f: Faults) returns (r: Result<Record, Error>)
      ensures r == SeekRunning(store.View(), code, date, f)
    {
      var employee := store.GetByEmployeeID(code, f.resolve);
      if employee.Failure? {
        return Failure(employee.error);
      }
      var found := store.GetTodayRecord(employee.value, date, f.lookup);
      if found.Failure? {
        return Failure(found.error);
      }
      if found.value.None? {
        return Failure(NotClockedIn);
      }
      if found.value.value.status.ClockedOut? {
        return Failure(AlreadyClockedOut);
      }
      return Success(found.value.value);
    }

    method ToggleBreak(now: int, code: string, newId: nat, action: string, f: Faults) returns (reply: Reply)
      modifies store
      ensures (var d := DecideToggle(old(store.View()), now, code, newId, action, f);
               store.View() == Patch(old(store.View()), d.0) && reply == d.1)
    {
      if action != BREAK_START && action != BREAK_END {
        return Failed(InvalidBreakAction);
      }
      var running := FindRunning(code, DateOf(now, store.offset), f);
      if running.Failure? {
        return Failed(running.error);
      }
      var record := running.value;

      var ok;
      if action == BREAK_START {
        if record.status.OnBreak? {
          return Failed(AlreadyOnBreak);
        }
        ok := store.StartBreak(Break(newId, record.id, now, None), f.insertBreak);
        if !ok {
          return Failed(StorageFailure);
        }
        ok := store.UpdateStatus(record.id, OnBreak, f.setStatus);
        if !ok {
          return Failed(StorageFailure);
        }
        return BreakReply(BREAK_START, now, OnBreak);
      }

      var open := store.GetOpenBreak(record.id, f.openBreak);
      if open.Failure? {
        return Failed(open.error);
      }
      if open.value.None? {
        return Failed(NotOnBreak);
      }
      ok := store.EndLatestBreak(record.id, now, f.endBreaks);
      if !ok {
        return Failed(StorageFailure);
      }
      ok := store.UpdateStatus(record.id, Status.ClockedIn, f.setStatus);
      if !ok {
        return Failed(StorageFailure);
      }
      return BreakReply(BREAK_END, now, Status.ClockedIn);
    }

    /** The arithmetic GetClockOutPreview and ClockOut have in common: working minutes, clamped, and overtime. */
    method Totals(record: Record, at: int, breakMinutes: int) returns (working: int, overtime: int)
      ensures working == AtLeastZero(TruncMinutes(at - record.clockInAt) - breakMinutes)
      ensures overtime == OvertimeMinutes(record.scheduledOutAt, at)
    {
      working := TruncMinutes(at - record.clockInAt) - breakMinutes;
      if working < 0 {
        working := 0;
      }
      overtime := 0;
      if record.scheduledOutAt.Some? && at > record.scheduledOutAt.value {
        overtime := TruncMinutes(at - record.scheduledOutAt.value);
      }
    }

    method GetClockOutPreview(now: int, code: string, f: Faults) returns (reply: Reply)
      ensures reply == DecidePreview(store.View(), now, code, f)
    {
      var running := FindRunning(code, DateOf(now, store.offset), f);
      if running.Failure? {
        return Failed(running.error);
      }
      var record := running.value;

      var sum := store.SumBreakMinutes(record.id, f.sum);
      if sum.Failure? {
        return Failed(sum.error);
      }
      var breakMinutes := sum.value;
      if record.status.OnBreak? {
        var open := store.GetOpenBreak(record.id, f.openBreak);
        if open.Failure? {
          return Failed(open.error);
        }
        if open.value.Some? {
          breakMinutes := breakMinutes + TruncMinutes(now - open.value.value.startAt);
        }
      }
      var totalMinutes, overtimeMinutes := Totals(record, now, breakMinutes);
      return PreviewReply(totalMinutes, overtimeMinutes, record.scheduledOutAt, now);
    }

    method ClockOut(now: int, code: string, client: ClientTime, notes: Option<string>, f: Faults)
      returns (reply: Reply)
      modifies store
      ensures (var d := DecideClockOut(old(store.View()), now, code, client, notes, f);
               store.View() == Patch(old(store.View()), d.0) && reply == d.1)
    {
      var clockOutAt, location, isOffline := now, store.offset, false;
      if client.Malformed? {
        return Failed(InvalidClientTimestamp);
      }
      if client.At? {
        if client.instant > now {
          return Failed(ClientTimestampInFuture);
        }
        if now - client.instant > MAX_OFFLINE {
          return Failed(ClientTimestampTooOld);
        }
        clockOutAt, location, isOffline := client.instant, client.offset, true;
      }

      var running := FindRunning(code, DateOf(clockOutAt, location), f);
      if running.Failure? {
        return Failed(running.error);
      }
      var record := running.value;

      reply := CloseShift(record, Stamp(clockOutAt, location, isOffline), notes, f);
    }

    /** The second half of ClockOut: end an open break, add up, write the outcome. */
    method CloseShift(running: Record, s: Stamp, notes: Option<string>, f: Faults) returns (reply: Reply)
      modifies store
      ensures (var d := DecideLeave(old(store.View()), running, s, notes, f);
               store.View() == Patch(old(store.View()), d.0) && reply == d.1)
    {
      var record := running;
      var ok;
      if record.status.OnBreak? {
        ok := store.EndLatestBreak(record.id, s.at, f.endBreaks);
        if !ok {
          return Failed(StorageFailure);
        }
      }
      var sum := store.SumBreakMinutes(record.id, f.sum);
      if sum.Failure? {
        return Failed(sum.error);
      }
      var workingMinutes, overtimeMinutes := Totals(record, s.at, sum.value);

      record := record.(clockOutAt := Some(s.at), status := ClockedOut, workingMinutes := Some(workingMinutes),
                        overtimeMinutes := Some(overtimeMinutes), offline := s.offline);
      if notes.Some? {
        record := record.(notes := notes);
      }
      ok := store.UpdateClockOut(record, f.closeRecord);
      if !ok {
        return Failed(StorageFailure);
      }
      return ClockOutReply(s.at, workingMinutes, overtimeMinutes, ClockedOut, s.offline);
    }

    method GetTodayStatus(now: int, code: string, f: Faults) returns (reply: Reply)
      ensures reply == DecideToday(store.View(), now, code, f)
    {
      var employee := store.GetByEmployeeID(code, f.resolve);
      if employee.Failure? {
        return Failed(employee.error);
      }
      var found := store.GetTodayRecord(employee.value, DateOf(now, store.offset), f.lookup);
      if found.Failure? {
        return Failed(found.error);
      }
      if found.value.None? {
        return StatusReply(Idle, None, None, None, None, false, None);
      }
      var record := found.value.value;
      reply := StatusReply(record.status, Some(record.id), Some(record.clockInAt), record.clockOutAt, record.notes,
                           false, None);
      if record.status.OnBreak? {
        reply := reply.(onBreak := true);
        var open := store.GetOpenBreak(record.id, f.openBreak);
        if open.Failure? {
          return Failed(open.error);
        }
        if open.value.Some? {
          reply := reply.(openBreakStartAt := Some(open.value.value.startAt));
        }
      }
    }

    /** One request of a run. */
    method Handle(q: Request) returns (reply: Reply)
      modifies store
      ensures store.View() == Step(old(store.View()), q)
      ensures reply == Answer(old(store.View()), q)
    {
      match q.call
      case ClockIn(notes) => reply := ClockIn(q.now, q.code, q.newId, notes, q.faults);
      case ToggleBreak(action) => reply := ToggleBreak(q.now, q.code, q.newId, action, q.faults);
      case Preview => reply := GetClockOutPreview(q.now, q.code, q.faults);
      case ClockOut(client, notes) => reply := ClockOut(q.now, q.code, client, notes, q.faults);
      case TodayStatus => reply := GetTodayStatus(q.now, q.code, q.faults);
    }
  }
}
