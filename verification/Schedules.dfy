/** The schedule a clock-in copies: over every run, each record carries the one of its own employee and weekday. */
module Schedules {
  import opened Prelude
  import opened Clock
  import opened Domain
  import opened Tables
  import opened Attendance
  import opened Safety

  /** An instant is on the date, at the hour and minute of the text and no seconds; midnight when that is unreadable. */
  ghost predicate ReadsAs(t: int, offset: int, date: int, w: WallClock) {
    var ofDay := (t + offset) % 86_400_000_000;
    && DateOf(t, offset) == date
    && match w
       case Unreadable => ofDay == 0
       case Reads(h, m, _) =>
         ofDay / 3_600_000_000 == h && ofDay % 3_600_000_000 / 60_000_000 == m && ofDay % 60_000_000 == 0
  }

  ghost predicate HasSchedule(db: Db, employee: nat, day: int) {
    (employee, day) in db.schedules && db.schedules[(employee, day)].active
  }

  /** Clocked in on its work date, with the schedule of that weekday, or with none exactly when none is active. */
  ghost predicate Snapshot(db: Db, r: Record) {
    var day := Weekday(r.clockInAt, db.offset);
    && DateOf(r.clockInAt, db.offset) == r.workDate
    && if HasSchedule(db, r.employee, day) then
         var s := db.schedules[(r.employee, day)];
         && r.scheduledInAt.Some? && ReadsAs(r.scheduledInAt.value, db.offset, r.workDate, s.clockIn)
         && r.scheduledOutAt.Some? && ReadsAs(r.scheduledOutAt.value, db.offset, r.workDate, s.clockOut)
       else r.scheduledInAt.None? && r.scheduledOutAt.None?
  }

  ghost predicate KeySnapshot(db: Db, employee: nat, date: int) {
    var r := Lookup(db.records, employee, date);
    r.Some? ==> Snapshot(db, r.value)
  }

  /** Dividing the time of day gives back what the wall clock said. */
  lemma WallClockTime(date: int, offset: int, w: WallClock)
    ensures ReadsAs(ScheduledAt(date, offset, w), offset, date, w)
  {
    var ofDay := match w case Unreadable => 0 case Reads(h, m, _) => (h * 60 + m) * MINUTE;
    DateOfUnique(DayStart(date, offset) + ofDay, offset, date);
    assert (ScheduledAt(date, offset, w) + offset) % DAY == ofDay by {
      SplitDay(date, ofDay);
    }
  }

  lemma SplitDay(date: int, ofDay: int)
    requires 0 <= ofDay < DAY
    ensures (date * DAY + ofDay) % DAY == ofDay
  {
  }

  lemma NewSnapshot(db: Db, employee: nat, now: int, id: nat, notes: Option<string>)
    ensures Snapshot(db, NewRecord(db, employee, now, id, notes))
  {
    var s := ScheduleFor(db, employee, now);
    if s.Some? {
      WallClockTime(DateOf(now, db.offset), db.offset, s.value.clockIn);
      WallClockTime(DateOf(now, db.offset), db.offset, s.value.clockOut);
    }
  }

  lemma SnapshotStep(db: Db, q: Request, employee: nat, date: int)
    requires Wf(db) && KeySnapshot(db, employee, date)
    ensures KeySnapshot(Step(db, q), employee, date)
  {
    DecideFits(db, q);
    SnapshotAfter(db, q, Decide(db, q).0, employee, date);
  }

  lemma SnapshotAfter(db: Db, q: Request, d: Delta, employee: nat, date: int)
    requires Wf(db) && Fits(db, q, d) && KeySnapshot(db, employee, date)
    ensures KeySnapshot(Patch(db, d), employee, date)
  {
    KeyAfter(db, q, d, employee, date);
    if d.Born? {
      NewSnapshot(db, d.record.employee, q.now, d.record.id, d.record.notes);
    }
  }

  lemma {:induction false} RunSnapshot(db: Db, qs: seq<Request>, employee: nat, date: int)
    requires Wf(db) && KeySnapshot(db, employee, date)
    ensures Wf(Run(db, qs)) && KeySnapshot(Run(db, qs), employee, date)
  {
    RunEvolves(db, qs);
    if qs != [] {
      RunSnapshot(db, qs[..|qs| - 1], employee, date);
      SnapshotStep(Run(db, qs[..|qs| - 1]), qs[|qs| - 1], employee, date);
    }
  }

  /**
    Schedule snapshots: after every run with any failures, a record that is on a day which had none before, or which had
    one like this, carries both times of its own employee's active schedule for the weekday of its work date, on that date
    and to the minute, and carries none exactly when there is no active schedule.
   */
  lemma {:induction false} RecordsCarrySchedules(db: Db, qs: seq<Request>, r: Record)
    requires Wf(db) && KeySnapshot(db, r.employee, r.workDate) && r in Run(db, qs).records
    ensures Snapshot(db, r)
  {
    RunSnapshot(db, qs, r.employee, r.workDate);
    RunEvolves(db, qs);
    LookupIsTheRow(Run(db, qs).records, r);
  }
}
