/**
  The PostgreSQL repositories of the attendance engine, with their rows as mutable state.
  Each method is one statement: it either takes effect as its SQL says, or is refused.
 */
module AttendanceRepositories {
  import opened Prelude
  import opened Clock
  import opened Domain
  import opened Tables
  import opened Attendance

  class AttendanceStore {
    const offset: int
    const employees: map<string, nat>
    const schedules: map<(nat, int), Schedule>
    var records: seq<Record>
    var breaks: seq<Break>

    /** The abstract database. */
    function View(): Db
      reads this
    {
      Db(offset, employees, schedules, records, breaks)
    }

    constructor (offset: int, employees: map<string, nat>, schedules: map<(nat, int), Schedule>)
      ensures View() == Db(offset, employees, schedules, [], [])
    {
      this.offset, this.employees, this.schedules := offset, employees, schedules;
      records, breaks := [], [];
    }

    method GetByEmployeeID(code: string, fails: bool) returns (r: Result<nat, Error>)
      ensures r == if fails then Failure(StorageFailure)
                   else if code in employees then Success(employees[code])
                   else Failure(EmployeeNotFound)
    {
      if fails {
        return Failure(StorageFailure);
      }
      if code !in employees {
        return Failure(EmployeeNotFound);
      }
      return Success(employees[code]);
    }

    method GetByDayOfWeek(employee: nat, day: int, fails: bool) returns (r: Result<Option<Schedule>, Error>)
      ensures fails ==> r == Failure(StorageFailure)
      ensures !fails && (employee, day) in schedules && schedules[(employee, day)].active ==>
                r == Success(Some(schedules[(employee, day)]))
      ensures !fails && !((employee, day) in schedules && schedules[(employee, day)].active) ==> r == Success(None)
    {
      if fails {
        return Failure(StorageFailure);
      }
      if (employee, day) in schedules && schedules[(employee, day)].active {
        return Success(Some(schedules[(employee, day)]));
      }
      return Success(None);
    }

    method GetTodayRecord(employee: nat, date: int, fails: bool) returns (r: Result<Option<Record>, Error>)
      ensures r == if fails then Failure(StorageFailure) else Success(Lookup(records, employee, date))
    {
      if fails {
        return Failure(StorageFailure);
      }
      var first: Option<Record> := None;
      for i := 0 to |records|
        invariant first == Lookup(records[..i], employee, date)
      {
        assert records[..i + 1][..i] == records[..i];
        if Matches(records[i], employee, date) && (first.None? || records[i].id < first.value.id) {
          first := Some(records[i]);
        }
      }
      assert records[..|records|] == records;
      return Success(first);
    }

    method CreateClockIn(record: Record, w: Write) returns (ok: bool)
      modifies this`records
      ensures ok == (w.Done? && InsertAllowed(old(records), record))
      ensures records == old(records) + if w.Applied() && InsertAllowed(old(records), record) then [record] else []
    {
      if !w.Applied() || !InsertAllowed(records, record) {
        return false;
      }
      records := records + [record];
      return w.Done?;
    }

    /** UPDATE attendance_records ... WHERE id = ?, row by row. */
    method UpdateRows(id: nat, c: Change)
      modifies this`records
      ensures records == Update(old(records), id, c)
    {
      for i := 0 to |records|
        invariant |records| == |old(records)|
        invariant forall k :: 0 <= k < |records| ==> records[k] == if k < i then Update(old(records), id, c)[k] else old(records)[k]
      {
        if records[i].id == id {
          records := records[i := Changed(records[i], c)];
        }
      }
    }

    method UpdateClockOut(record: Record, w: Write) returns (ok: bool)
      modifies this`records
      ensures ok == w.Done?
      ensures records == if w.Applied() then Update(old(records), record.id, Close(record)) else old(records)
      ensures |records| == |old(records)|
      ensures forall i :: 0 <= i < |records| ==>
                if w.Applied() && old(records)[i].id == record.id then OnlyOutcome(old(records)[i], record, records[i])
                else records[i] == old(records)[i]
    {
      if w.Applied() {
        UpdateRows(record.id, Close(record));
      }
      return w.Done?;
    }

    method UpdateStatus(id: nat, status: Status, w: Write) returns (ok: bool)
      modifies this`records
      ensures ok == w.Done?
      ensures records == if w.Applied() then Update(old(records), id, SetStatus(status)) else old(records)
    {
      if w.Applied() {
        UpdateRows(id, SetStatus(status));
      }
      return w.Done?;
    }

    method StartBreak(b: Break, w: Write) returns (ok: bool)
      modifies this`breaks
      ensures ok == (w.Done? && !HasBreakId(old(breaks), b.id))
      ensures breaks == old(breaks) + if w.Applied() && !HasBreakId(old(breaks), b.id) then [b] else []
    {
      if !w.Applied() || HasBreakId(breaks, b.id) {
        return false;
      }
      breaks := breaks + [b];
      return w.Done?;
    }

    /** Despite its name it ends every open break of the record. */
    method EndLatestBreak(record: nat, t: int, w: Write) returns (ok: bool)
      modifies this`breaks
      ensures ok == w.Done?
      ensures breaks == if w.Applied() then EndOpen(old(breaks), record, t) else old(breaks)
    {
      if w.Applied() {
        for i := 0 to |breaks|
          invariant |breaks| == |old(breaks)|
          invariant forall k :: 0 <= k < |breaks| ==> breaks[k] == if k < i then EndOpen(old(breaks), record, t)[k] else old(breaks)[k]
        {
          if breaks[i].record == record && breaks[i].endAt.None? {
            breaks := breaks[i := breaks[i].(endAt := Some(t))];
          }
        }
      }
      return w.Done?;
    }

    method GetOpenBreak(record: nat, fails: bool) returns (r: Result<Option<Break>, Error>)
      ensures r == if fails then Failure(StorageFailure) else Success(OpenBreak(breaks, record))
    {
      if fails {
        return Failure(StorageFailure);
      }
      var first: Option<Break> := None;
      for i := 0 to |breaks|
        invariant first == OpenBreak(breaks[..i], record)
      {
        assert breaks[..i + 1][..i] == breaks[..i];
        if IsOpen(breaks[i], record) && (first.None? || breaks[i].id < first.value.id) {
          first := Some(breaks[i]);
        }
      }
      assert breaks[..|breaks|] == breaks;
      return Success(first);
    }

    /** One truncation, over the total of the closed breaks. */
    method SumBreakMinutes(record: nat, fails: bool) returns (r: Result<int, Error>)
      ensures r == if fails then Failure(StorageFailure) else Success(TruncMinutes(SumTicks(breaks, record)))
    {
      if fails {
        return Failure(StorageFailure);
      }
      var total := 0;
      for i := 0 to |breaks|
        invariant total == SumTicks(breaks[..i], record)
      {
        assert breaks[..i + 1][..i] == breaks[..i];
        if breaks[i].record == record && breaks[i].endAt.Some? {
          total := total + (breaks[i].endAt.value - breaks[i].startAt);
        }
      }
      assert breaks[..|breaks|] == breaks;
      return Success(TruncMinutes(total));
    }
  }
}
