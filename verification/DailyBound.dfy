/**
  How many minutes a closed shift can store: under a day, in every run that keeps its breaks sound.
  An employee's day loses soundness in exactly two ways, and everything else that fails, for anyone, does no harm.
 */
module DailyBound {
  import opened Prelude
  import opened Clock
  import opened Domain
  import opened Tables
  import opened Shifts
  import opened Attendance
  import opened Safety
  import opened Automaton
  import opened Ledger
  import opened Requests

  // ---- sound breaks ----

  /** Every ended break ends no earlier than it starts. */
  ghost predicate Onward(ss: seq<Span>) {
    forall i :: 0 <= i < |ss| && ss[i].end.Some? ==> ss[i].start <= ss[i].end.value
  }

  /**
    No open break unless on break, then at most one; and while the shift runs, no break of negative length:
    for a row, for an employee's day, for all rows.
   */
  ghost predicate RowSound(db: Db, r: Record) {
    RowAgrees(db, r) && (!r.status.ClockedOut? ==> Onward(Spans(db.breaks, r.id)))
  }

  ghost predicate KeySound(db: Db, employee: nat, date: int) {
    var r := Lookup(db.records, employee, date);
    r.Some? ==> RowSound(db, r.value)
  }

  ghost predicate Sound(db: Db) {
    forall r :: r in db.records ==> RowSound(db, r)
  }

  /** The server clock is past every break's start, and past clock-in. */
  ghost predicate Started(ss: seq<Span>, now: int) {
    forall i :: 0 <= i < |ss| ==> ss[i].start <= now
  }

  ghost predicate RowStarted(db: Db, r: Record, now: int) {
    r.clockInAt <= now && Started(Spans(db.breaks, r.id), now)
  }

  ghost predicate KeyStarted(db: Db, employee: nat, date: int, now: int) {
    var r := Lookup(db.records, employee, date);
    r.Some? ==> RowStarted(db, r.value, now)
  }

  ghost predicate AllStarted(db: Db, now: int) {
    forall r :: r in db.records ==> RowStarted(db, r, now)
  }

  /** A clock-out ended the open break before its start and did not write the outcome. */
  predicate EndedEarly(db: Db, q: Request) {
    && HalfLeft(db, q)
    && var r := SeekRunning(db, q.code, DateFor(db, q), q.faults).value;
       var open := OpenBreak(db.breaks, r.id);
       open.Some? && TimeOf(q) < open.value.startAt
  }

  lemma {:induction false} OneOpen(ss: seq<Span>, i: nat, j: nat)
    requires i < |ss| && j < |ss| && ss[i].end.None? && ss[j].end.None? && OpenCount(ss) <= 1
    ensures i == j
  {
    var init := ss[..|ss| - 1];
    if i < |init| && j < |init| {
      OneOpen(init, i, j);
    } else if i < |init| {
      NoOpenMember(init, init[i]);
    } else if j < |init| {
      NoOpenMember(init, init[j]);
    }
  }

  /** Ending the open break at `t` keeps breaks onward exactly when it did not start later. */
  lemma CloseOnward(ss: seq<Span>, start: int, t: int)
    requires Onward(ss) && OpenCount(ss) <= 1 && Span(start, None) in ss
    ensures Onward(CloseSpans(ss, t)) <==> start <= t
  {
    var k :| 0 <= k < |ss| && ss[k] == Span(start, None);
    CloseSpansAt(ss, t, k);
    forall i | 0 <= i < |ss|
      ensures CloseSpans(ss, t)[i] == if i == k then Span(start, Some(t)) else ss[i]
    {
      CloseSpansAt(ss, t, i);
      if ss[i].end.None? {
        OneOpen(ss, i, k);
      }
    }
  }

  lemma CloseAtNow(ss: seq<Span>, now: int)
    requires Onward(ss) && Started(ss, now)
    ensures Onward(CloseSpans(ss, now))
  {
    forall i | 0 <= i < |ss|
      ensures CloseSpans(ss, now)[i] == if ss[i].end.None? then Span(ss[i].start, Some(now)) else ss[i]
    {
      CloseSpansAt(ss, now, i);
    }
  }

  /** What a request writes does one of the two. */
  ghost predicate Harms(db: Db, q: Request, d: Delta) {
    || (d.Started? && !d.marked)
    || (d.Left? && d.breaksEnded && d.sealed.None?
        && OpenBreak(db.breaks, d.row.id).Some? && TimeOf(q) < OpenBreak(db.breaks, d.row.id).value.startAt)
  }

  lemma HarmsIs(db: Db, q: Request)
    ensures HalfStarted(db, q) || EndedEarly(db, q) <==> Harms(db, q, Decide(db, q).0)
  {
    HalfStartedIs(db, q);
    HalfLeftIs(db, q);
  }

  /** A clock-out, from the breaks of its row: ended at `t` and left running, or written. */
  lemma SoundLeave(ss: seq<Span>, open: Option<Break>, t: int)
    requires Onward(ss) && OpenCount(ss) <= 1
    requires open.None? <==> OpenCount(ss) == 0
    requires open.Some? ==> Span(open.value.startAt, None) in ss
    ensures OpenCount(CloseSpans(ss, t)) == 0
    ensures Onward(CloseSpans(ss, t)) <==> !(open.Some? && t < open.value.startAt)
  {
    ClosedHasNoOpen(ss, t);
    if open.Some? {
      CloseOnward(ss, open.value.startAt, t);
    }
  }

  lemma SoundOfBreak(db: Db, q: Request, d: Delta)
    requires Wf(db) && Fits(db, q, d) && (d.Started? || d.Ended?) && RowSound(db, d.row) && RowStarted(db, d.row, q.now)
    ensures RowSound(Patch(db, d), RowAfter(d)) <==> !Harms(db, q, d)
  {
    var ss := Spans(db.breaks, d.row.id);
    SpansAfterPatch(db, q, d, d.row.id);
    OpenCountAppend(ss, Span(q.now, None));
    ClosedHasNoOpen(ss, q.now);
    CloseAtNow(ss, q.now);
  }

  lemma SoundOfLeave(db: Db, q: Request, d: Delta)
    requires Wf(db) && Fits(db, q, d) && d.Left? && RowSound(db, d.row)
    ensures RowSound(Patch(db, d), RowAfter(d)) <==> !Harms(db, q, d)
  {
    SpansAfterPatch(db, q, d, d.row.id);
    OpenBreakIsOpenSpan(db.breaks, d.row.id);
    SoundLeave(Spans(db.breaks, d.row.id), OpenBreak(db.breaks, d.row.id), TimeOf(q));
  }

  /**
    Soundness, exactly, for one employee's day and whatever state all others are in: with any failures, a request at a
    server clock past the day's clock-in and break starts keeps its breaks sound if and only if it is aimed elsewhere, or
    neither starts a break by half nor ends one before its start without writing the outcome.
   */
  lemma KeySoundExactly(db: Db, q: Request, employee: nat, date: int)
    requires Wf(db) && KeySound(db, employee, date) && KeyStarted(db, employee, date, q.now)
    ensures KeySound(Step(db, q), employee, date) <==>
            !(OnKey(db, q, employee, date) && (HalfStarted(db, q) || EndedEarly(db, q)))
  {
    var d := Decide(db, q).0;
    DecideFits(db, q);
    HarmsIs(db, q);
    KeyAfter(db, q, d, employee, date);
    SoundAfter(db, q, d, employee, date);
  }

  lemma SoundAfter(db: Db, q: Request, d: Delta, employee: nat, date: int)
    requires Wf(db) && Fits(db, q, d) && KeySound(db, employee, date) && KeyStarted(db, employee, date, q.now)
    ensures KeySound(Patch(db, d), employee, date) <==> !(WorksOn(d, employee, date) && Harms(db, q, d))
  {
    KeyAfter(db, q, d, employee, date);
    if WorksOn(d, employee, date) {
      if d.Left? {
        SoundOfLeave(db, q, d);
      } else {
        SoundOfBreak(db, q, d);
      }
    }
  }

  /** All rows are sound, and started, exactly when every employee's day is. */
  lemma SoundByKey(db: Db, now: int)
    requires Wf(db)
    ensures Sound(db) <==> forall employee, date :: KeySound(db, employee, date)
    ensures AllStarted(db, now) ==> forall employee, date :: KeyStarted(db, employee, date, now)
  {
    forall employee, date
      ensures (Sound(db) ==> KeySound(db, employee, date)) && (AllStarted(db, now) ==> KeyStarted(db, employee, date, now))
    {
      LookupFinds(db.records, employee, date);
    }
    forall r | r in db.records && KeySound(db, r.employee, r.workDate) ensures RowSound(db, r) {
      LookupIsTheRow(db.records, r);
    }
  }

  /** So for all rows at once. */
  lemma SoundExactly(db: Db, q: Request)
    requires Wf(db) && Sound(db) && AllStarted(db, q.now)
    ensures Sound(Step(db, q)) <==> !HalfStarted(db, q) && !EndedEarly(db, q)
  {
    StepEvolves(db, q);
    SoundByKey(db, q.now);
    SoundByKey(Step(db, q), q.now);
    forall employee, date
      ensures KeySound(Step(db, q), employee, date) <==>
              !(OnKey(db, q, employee, date) && (HalfStarted(db, q) || EndedEarly(db, q)))
    {
      KeySoundExactly(db, q, employee, date);
    }
    if HalfStarted(db, q) || EndedEarly(db, q) {
      assert OnKey(db, q, db.employees[q.code], DateFor(db, q));
    }
  }

  /** Break starts after a request: the old ones, and possibly the server clock. */
  lemma StartsAfter(db: Db, q: Request, d: Delta, id: nat)
    requires Wf(db) && Fits(db, q, d)
    ensures var ss, ss' := Spans(db.breaks, id), Spans(Patch(db, d).breaks, id);
            && |ss'| == |ss| + (if d.Started? && d.row.id == id then 1 else 0)
            && (forall i :: 0 <= i < |ss| ==> ss'[i].start == ss[i].start)
            && (forall i :: |ss| <= i < |ss'| ==> ss'[i].start == q.now)
  {
    var ss, ss' := Spans(db.breaks, id), Spans(Patch(db, d).breaks, id);
    SpansAfterPatch(db, q, d, id);
    if (d.Ended? || d.Left?) && ss' != ss {
      var t := if d.Ended? then q.now else TimeOf(q);
      forall i | 0 <= i < |ss| ensures ss'[i].start == ss[i].start {
        CloseSpansAt(ss, t, i);
      }
    }
  }

  lemma KeyStartedAfter(db: Db, q: Request, employee: nat, date: int)
    requires Wf(db) && KeyStarted(db, employee, date, q.now)
    ensures KeyStarted(Step(db, q), employee, date, q.now)
  {
    DecideFits(db, q);
    StartedAfter(db, q, Decide(db, q).0, employee, date);
  }

  lemma StartedAfter(db: Db, q: Request, d: Delta, employee: nat, date: int)
    requires Wf(db) && Fits(db, q, d) && KeyStarted(db, employee, date, q.now)
    ensures KeyStarted(Patch(db, d), employee, date, q.now)
  {
    KeyAfter(db, q, d, employee, date);
    if WorksOn(d, employee, date) {
      StartsAfter(db, q, d, d.row.id);
    }
  }

  /** The day's breaks are sound after every request of the run. */
  ghost predicate AlwaysSound(db: Db, qs: seq<Request>, employee: nat, date: int) {
    KeySound(Run(db, qs), employee, date) && (qs != [] ==> AlwaysSound(db, qs[..|qs| - 1], employee, date))
  }

  /** No request of the run that is aimed at the day half-starts a break or ends one early. */
  ghost predicate NeverHarmed(db: Db, qs: seq<Request>, employee: nat, date: int) {
    qs != [] ==>
      var before, q := Run(db, qs[..|qs| - 1]), qs[|qs| - 1];
      && NeverHarmed(db, qs[..|qs| - 1], employee, date)
      && !(OnKey(before, q, employee, date) && (HalfStarted(before, q) || EndedEarly(before, q)))
  }

  ghost predicate ClockForward(qs: seq<Request>) {
    forall i, j :: 0 <= i < j < |qs| ==> qs[i].now <= qs[j].now
  }

  /** Over runs: a day's breaks stay sound throughout if and only if no request aimed at it does one of the two. */
  lemma {:induction false} RunSoundExactly(db: Db, qs: seq<Request>, employee: nat, date: int, now: int)
    requires Wf(db) && KeySound(db, employee, date) && ClockForward(qs) && (forall q :: q in qs ==> q.now <= now)
    requires KeyStarted(db, employee, date, if qs == [] then now else qs[0].now)
    ensures AlwaysSound(db, qs, employee, date) <==> NeverHarmed(db, qs, employee, date)
    ensures KeyStarted(Run(db, qs), employee, date, now)
  {
    if qs != [] {
      var init, q := qs[..|qs| - 1], qs[|qs| - 1];
      RunSoundExactly(db, init, employee, date, q.now);
      RunEvolves(db, init);
      KeyStartedAfter(Run(db, init), q, employee, date);
      if AlwaysSound(db, init, employee, date) {
        KeySoundExactly(Run(db, init), q, employee, date);
      }
    }
  }

  // ---- dates ----

  /** Client offsets stay within `slack` of the server's. */
  ghost predicate OffsetsWithin(db: Db, qs: seq<Request>, slack: int) {
    forall q :: q in qs ==> -slack <= OffsetOf(db, q) - db.offset <= slack
  }

  /** An instant is on a date, up to the slack between the offsets. */
  ghost predicate NearDate(t: int, offset: int, date: int, slack: int) {
    DayStart(date, offset) - slack <= t < DayStart(date + 1, offset) + slack
  }

  /** A schedule snapshot lies on the record's own date. */
  ghost predicate SchedulesOnDate(db: Db) {
    forall r :: r in db.records && r.scheduledOutAt.Some? ==> NearDate(r.scheduledOutAt.value, db.offset, r.workDate, 0)
  }

  lemma {:induction false} RunSchedulesOnDate(db: Db, qs: seq<Request>)
    requires Wf(db) && SchedulesOnDate(db)
    ensures SchedulesOnDate(Run(db, qs))
  {
    if qs != [] {
      var init, q := qs[..|qs| - 1], qs[|qs| - 1];
      RunSchedulesOnDate(db, init);
      RunEvolves(db, init);
      StepSchedulesOnDate(Run(db, init), q);
    }
  }

  lemma NewScheduleOnDate(db: Db, employee: nat, now: int, id: nat, notes: Option<string>)
    ensures var r := NewRecord(db, employee, now, id, notes);
            r.scheduledOutAt.Some? ==> NearDate(r.scheduledOutAt.value, db.offset, r.workDate, 0)
  {
  }

  lemma StepSchedulesOnDate(db: Db, q: Request)
    requires Wf(db) && SchedulesOnDate(db)
    ensures SchedulesOnDate(Step(db, q))
  {
    StepEvolves(db, q);
    DecideFits(db, q);
    var d, rows := Decide(db, q).0, Step(db, q).records;
    forall r | r in rows && r.scheduledOutAt.Some? ensures NearDate(r.scheduledOutAt.value, db.offset, r.workDate, 0) {
      var i :| 0 <= i < |rows| && rows[i] == r;
      if i < |db.records| {
        assert RowEvolves(db.records[i], rows[i]) && db.records[i] in db.records;
      } else {
        NewScheduleOnDate(db, r.employee, q.now, r.id, r.notes);
      }
    }
  }

  // ---- the bound on what a clock-out stores ----

  /** All signs of elapsed and break time covered: what a clock-out stores is under a day, up to the slack. */
  lemma ShiftBound(clockIn: int, last: int, closed: int, out: int, breaks: int, offset: int, date: int, slack: int)
    requires slack >= 0 && 0 <= closed && (breaks == closed || breaks == closed + (out - last))
    requires NearDate(clockIn, offset, date, 0) && NearDate(last, offset, date, 0) && NearDate(out, offset, date, slack)
    ensures 0 <= WorkingMinutes(clockIn, out, breaks) <= (DAY - 1 + slack) / MINUTE
  {
    TruncDifferenceBound(out - clockIn, breaks, (DAY - 1 + slack) / MINUTE);
  }

  lemma OvertimeBound(scheduled: Option<int>, out: int, offset: int, date: int, slack: int)
    requires slack >= 0 && NearDate(out, offset, date, slack)
    requires scheduled.Some? ==> NearDate(scheduled.value, offset, date, 0)
    ensures 0 <= OvertimeMinutes(scheduled, out) <= (DAY - 1 + slack) / MINUTE
  {
  }

  ghost predicate UnderADay(r: Record, slack: int) {
    && r.workingMinutes.Some? && 0 <= r.workingMinutes.value <= (DAY - 1 + slack) / MINUTE
    && r.overtimeMinutes.Some? && 0 <= r.overtimeMinutes.value <= (DAY - 1 + slack) / MINUTE
  }

  ghost predicate UnderMinutes(r: Record, limit: int) {
    && r.workingMinutes.Some? && 0 <= r.workingMinutes.value < limit
    && r.overtimeMinutes.Some? && 0 <= r.overtimeMinutes.value < limit
  }

  lemma UnderADayIs1439(r: Record)
    requires UnderADay(r, 0)
    ensures UnderMinutes(r, 1440)
  {
  }

  lemma {:induction false} OnwardTicks(ss: seq<Span>)
    requires Onward(ss)
    ensures ClosedTicks(ss) >= 0
  {
    if ss != [] {
      OnwardTicks(ss[..|ss| - 1]);
    }
  }

  /** Clock-in, schedule and break starts of a row are on its date. */
  ghost predicate RowOnDate(db: Db, r: Record) {
    && NearDate(r.clockInAt, db.offset, r.workDate, 0)
    && (r.scheduledOutAt.Some? ==> NearDate(r.scheduledOutAt.value, db.offset, r.workDate, 0))
    && forall i :: 0 <= i < |Spans(db.breaks, r.id)| ==> NearDate(Spans(db.breaks, r.id)[i].start, db.offset, r.workDate, 0)
  }

  /**
    A row is on its date, and once closed its minutes are those of its clock-out time and of its breaks as stored.
    So is the day's record, if any.
   */
  ghost predicate RowBooked(db: Db, r: Record, slack: int) {
    && RowOnDate(db, r)
    && (r.status.ClockedOut? ==>
          && r.clockOutAt.Some? && NearDate(r.clockOutAt.value, db.offset, r.workDate, slack)
          && ClosedAt(db, r, r.clockOutAt.value))
  }

  ghost predicate KeyBooked(db: Db, employee: nat, date: int, slack: int) {
    var r := Lookup(db.records, employee, date);
    r.Some? ==> RowBooked(db, r.value, slack)
  }

  /** What is written when a clock-out takes effect: minutes from the breaks as they are once the open ones are ended. */
  ghost predicate Seals(db: Db, q: Request, d: Delta) {
    d.Left? && d.sealed.Some? ==>
      var breaks := if d.breaksEnded then EndOpen(db.breaks, d.row.id, TimeOf(q)) else db.breaks;
      && d.breaksEnded == d.row.status.OnBreak?
      && d.sealed.value.clockOutAt == Some(TimeOf(q))
      && d.sealed.value.workingMinutes ==
         Some(WorkingMinutes(d.row.clockInAt, TimeOf(q), SumTicks(breaks, d.row.id)))
      && d.sealed.value.overtimeMinutes == Some(OvertimeMinutes(d.row.scheduledOutAt, TimeOf(q)))
  }

  lemma SealedMinutes(db: Db, q: Request)
    ensures Seals(db, q, Decide(db, q).0)
    ensures Decide(db, q).0.Started? || Decide(db, q).0.Ended? ==> q.call.ToggleBreak?
    ensures Decide(db, q).0.Born? ==> q.call.ClockIn?
  {
  }

  /** A request works on a date it is near. */
  lemma TargetNear(db: Db, q: Request, r: Record, slack: int)
    requires OnTarget(db, q, r) && 0 <= slack && -slack <= OffsetOf(db, q) - db.offset <= slack
    ensures NearDate(TimeOf(q), db.offset, r.workDate, slack)
    ensures !q.call.ClockOut? ==> NearDate(q.now, db.offset, r.workDate, 0)
  {
    DateBounds(TimeOf(q), OffsetOf(db, q));
  }

  /** With any failures, no request takes the row it works on off its date, or closes it with other minutes. */
  lemma BookedOfRow(db: Db, q: Request, d: Delta, slack: int)
    requires Wf(db) && Fits(db, q, d) && Seals(db, q, d) && !d.Same? && !d.Born? && RowBooked(db, d.row, slack)
    requires d.Started? || d.Ended? ==> q.call.ToggleBreak?
    requires 0 <= slack && -slack <= OffsetOf(db, q) - db.offset <= slack
    ensures RowBooked(Patch(db, d), RowAfter(d), slack)
  {
    TargetNear(db, q, d.row, slack);
    StartsAfter(db, q, d, d.row.id);
    if d.Left? && d.sealed.Some? {
      var breaks := if d.breaksEnded then EndOpen(db.breaks, d.row.id, TimeOf(q)) else db.breaks;
      SumIsClosedTicks(breaks, d.row.id);
      assert Patch(db, d).breaks == breaks;
    }
  }

  lemma BookedAfter(db: Db, q: Request, d: Delta, employee: nat, date: int, slack: int)
    requires Wf(db) && Fits(db, q, d) && Seals(db, q, d) && KeyBooked(db, employee, date, slack)
    requires (d.Started? || d.Ended? ==> q.call.ToggleBreak?) && (d.Born? ==> q.call.ClockIn?)
    requires 0 <= slack && -slack <= OffsetOf(db, q) - db.offset <= slack
    ensures KeyBooked(Patch(db, d), employee, date, slack)
  {
    KeyAfter(db, q, d, employee, date);
    if WorksOn(d, employee, date) {
      BookedOfRow(db, q, d, slack);
    } else if d.Born? && Matches(d.record, employee, date) {
      TargetNear(db, q, d.record, slack);
      NewScheduleOnDate(db, employee, q.now, d.record.id, d.record.notes);
    }
  }

  lemma BookedStep(db: Db, q: Request, employee: nat, date: int, slack: int)
    requires Wf(db) && KeyBooked(db, employee, date, slack)
    requires 0 <= slack && -slack <= OffsetOf(db, q) - db.offset <= slack
    ensures KeyBooked(Step(db, q), employee, date, slack)
  {
    DecideFits(db, q);
    SealedMinutes(db, q);
    BookedAfter(db, q, Decide(db, q).0, employee, date, slack);
  }

  /** Over every run, with any failures and any clock. */
  lemma {:induction false} RunBooked(db: Db, qs: seq<Request>, employee: nat, date: int, slack: int)
    requires Wf(db) && KeyBooked(db, employee, date, slack) && 0 <= slack && OffsetsWithin(db, qs, slack)
    ensures Wf(Run(db, qs)) && KeyBooked(Run(db, qs), employee, date, slack)
  {
    RunEvolves(db, qs);
    if qs != [] {
      var init, q := qs[..|qs| - 1], qs[|qs| - 1];
      assert q in qs;
      RunBooked(db, init, employee, date, slack);
      RunKeepsConfig(db, init);
      BookedStep(Run(db, init), q, employee, date, slack);
    }
  }

  /**
    A closed row's minutes against its own columns and breaks: elapsed time and break total, of either sign, each cut to
    whole minutes, one less the other and never negative; overtime by the whole minute and under a day; and working minutes
    under a day exactly when the truncated elapsed time and break total differ by less; too long only when the breaks
    add up to minus one minute or less.
   */
  ghost predicate MinutesByBreaks(db: Db, r: Record, slack: int) {
    && r.clockOutAt.Some? && ClosedAt(db, r, r.clockOutAt.value)
    && 0 <= r.workingMinutes.value && 0 <= r.overtimeMinutes.value <= (DAY - 1 + slack) / MINUTE
    && OvertimeFor(r.overtimeMinutes.value, r.scheduledOutAt, r.clockOutAt.value)
    && var total := ClosedTicks(Spans(db.breaks, r.id));
       && NetMinutes(r.workingMinutes.value, r.clockOutAt.value - r.clockInAt, total)
       && (UnderADay(r, slack) <==>
           TruncMinutes(r.clockOutAt.value - r.clockInAt) - TruncMinutes(total) <= (DAY - 1 + slack) / MINUTE)
       && (!UnderADay(r, slack) ==> total <= -MINUTE)
  }

  lemma ElapsedBound(clockIn: int, out: int, total: int, offset: int, date: int, slack: int)
    requires 0 <= slack && NearDate(clockIn, offset, date, 0) && NearDate(out, offset, date, slack) && total > -MINUTE
    ensures TruncMinutes(out - clockIn) - TruncMinutes(total) <= (DAY - 1 + slack) / MINUTE
  {
    TruncMonotone(out - clockIn, DAY - 1 + slack);
  }

  lemma MinutesOfRow(db: Db, r: Record, slack: int)
    requires RowBooked(db, r, slack) && r.status.ClockedOut? && 0 <= slack
    ensures MinutesByBreaks(db, r, slack)
  {
    var total := ClosedTicks(Spans(db.breaks, r.id));
    OvertimeBound(r.scheduledOutAt, r.clockOutAt.value, db.offset, r.workDate, slack);
    StoredOvertime(r.scheduledOutAt, r.clockOutAt.value);
    WorkingIsNet(r.clockInAt, r.clockOutAt.value, total);
    if total > -MINUTE {
      ElapsedBound(r.clockInAt, r.clockOutAt.value, total, db.offset, r.workDate, slack);
    }
  }

  /**
    What closed shifts store in every run, with any failures whatever: minutes that follow from the stored clock-out and
    breaks, so that a shift can exceed a day only on breaks that add up to minus one minute or less.
   */
  lemma {:induction false} OverlongOnlyIfNegative(db: Db, qs: seq<Request>, r: Record, slack: int)
    requires Wf(db) && KeyBooked(db, r.employee, r.workDate, slack) && 0 <= slack && OffsetsWithin(db, qs, slack)
    requires r in Run(db, qs).records && r.status.ClockedOut?
    ensures MinutesByBreaks(Run(db, qs), r, slack)
  {
    RunBooked(db, qs, r.employee, r.workDate, slack);
    LookupIsTheRow(Run(db, qs).records, r);
    MinutesOfRow(Run(db, qs), r, slack);
  }

  /** The break total of a sound row once a clock-out has ended what was open: not negative before, and one break more. */
  lemma TicksOfSoundRow(db: Db, r: Record, t: int) returns (closed: int, last: int)
    requires RowSound(db, r) && !r.status.ClockedOut? && RowOnDate(db, r)
    ensures 0 <= closed && NearDate(last, db.offset, r.workDate, 0)
    ensures var breaks := if r.status.OnBreak? then EndOpen(db.breaks, r.id, t) else db.breaks;
            SumTicks(breaks, r.id) == closed || SumTicks(breaks, r.id) == closed + (t - last)
  {
    var ss := Spans(db.breaks, r.id);
    SumIsClosedTicks(db.breaks, r.id);
    SumIsClosedTicks(EndOpen(db.breaks, r.id, t), r.id);
    SpansAfterEnd(db.breaks, r.id, t, r.id);
    OnwardTicks(ss);
    OpenBreakIsOpenSpan(db.breaks, r.id);
    closed, last := ClosedTicks(ss), r.clockInAt;
    if OpenBreak(db.breaks, r.id).Some? {
      last := OpenBreak(db.breaks, r.id).value.startAt;
      CloseOneTicks(ss, last, t);
    } else {
      ClosedHasNoOpen(ss, t);
    }
  }

  /** Whatever a clock-out of a sound row stores is under a day, up to the slack, at any acceptable client time. */
  lemma SealedUnderADay(db: Db, q: Request, d: Delta, slack: int)
    requires Wf(db) && Fits(db, q, d) && Seals(db, q, d) && d.Left? && d.sealed.Some?
    requires RowSound(db, d.row) && RowOnDate(db, d.row)
    requires 0 <= slack && -slack <= OffsetOf(db, q) - db.offset <= slack
    ensures UnderADay(RowAfter(d), slack)
  {
    TargetNear(db, q, d.row, slack);
    var closed, last := TicksOfSoundRow(db, d.row, TimeOf(q));
    var breaks := if d.breaksEnded then EndOpen(db.breaks, d.row.id, TimeOf(q)) else db.breaks;
    ShiftBound(d.row.clockInAt, last, closed, TimeOf(q), SumTicks(breaks, d.row.id), db.offset, d.row.workDate, slack);
    OvertimeBound(d.row.scheduledOutAt, TimeOf(q), db.offset, d.row.workDate, slack);
  }

  // ---- over sound runs ----

  /** The server clock never goes back, and no request aimed at the day half-starts a break or ends one early. */
  ghost predicate SoundRun(db: Db, qs: seq<Request>, employee: nat, date: int) {
    if qs == [] then Wf(db) && Lookup(db.records, employee, date).None?
    else
      var before, q := Run(db, qs[..|qs| - 1]), qs[|qs| - 1];
      && SoundRun(db, qs[..|qs| - 1], employee, date)
      && (OnKey(before, q, employee, date) ==> !HalfStarted(before, q) && !EndedEarly(before, q))
      && forall x :: x in qs ==> x.now <= q.now
  }

  lemma {:induction false} RunStaysSound(db: Db, qs: seq<Request>, employee: nat, date: int, now: int)
    requires SoundRun(db, qs, employee, date) && forall q :: q in qs ==> q.now <= now
    ensures Wf(Run(db, qs)) && KeySound(Run(db, qs), employee, date) && KeyStarted(Run(db, qs), employee, date, now)
  {
    if qs != [] {
      var init, q := qs[..|qs| - 1], qs[|qs| - 1];
      assert q in qs;
      RunStaysSound(db, init, employee, date, q.now);
      StepEvolves(Run(db, init), q);
      KeySoundExactly(Run(db, init), q, employee, date);
      KeyStartedAfter(Run(db, init), q, employee, date);
    }
  }

  ghost predicate KeyUnderADay(db: Db, employee: nat, date: int, slack: int) {
    var r := Lookup(db.records, employee, date);
    r.Some? && r.value.status.ClockedOut? ==> UnderADay(r.value, slack)
  }

  /** One request on a sound day, whatever fails: the outcome it may write is under a day. */
  lemma UnderADayStep(db: Db, q: Request, employee: nat, date: int, slack: int)
    requires Wf(db) && KeySound(db, employee, date) && KeyBooked(db, employee, date, slack)
    requires KeyUnderADay(db, employee, date, slack)
    requires 0 <= slack && -slack <= OffsetOf(db, q) - db.offset <= slack
    ensures KeyUnderADay(Step(db, q), employee, date, slack)
  {
    var d := Decide(db, q).0;
    DecideFits(db, q);
    SealedMinutes(db, q);
    KeyAfter(db, q, d, employee, date);
    if WorksOn(d, employee, date) && d.Left? && d.sealed.Some? {
      SealedUnderADay(db, q, d, slack);
    }
  }

  lemma {:induction false} RunUnderADay(db: Db, qs: seq<Request>, employee: nat, date: int, slack: int)
    requires SoundRun(db, qs, employee, date) && OffsetsWithin(db, qs, slack) && 0 <= slack
    ensures Wf(Run(db, qs)) && KeyUnderADay(Run(db, qs), employee, date, slack)
  {
    if qs != [] {
      var init, q := qs[..|qs| - 1], qs[|qs| - 1];
      assert q in qs;
      RunUnderADay(db, init, employee, date, slack);
      SoundRunStarts(db, init, employee, date);
      RunStaysSound(db, init, employee, date, q.now);
      RunBooked(db, init, employee, date, slack);
      RunKeepsConfig(db, init);
      StepEvolves(Run(db, init), q);
      UnderADayStep(Run(db, init), q, employee, date, slack);
    }
  }

  lemma {:induction false} SoundRunStarts(db: Db, qs: seq<Request>, employee: nat, date: int)
    requires SoundRun(db, qs, employee, date)
    ensures Wf(db) && Lookup(db.records, employee, date).None?
  {
    if qs != [] {
      SoundRunStarts(db, qs[..|qs| - 1], employee, date);
    }
  }

  /**
    Daily bound: in every run that keeps the day's breaks sound, whatever else fails and for whomever, and with offline
    clock-outs of any accepted time (before clock-in, or before the open break began), a closed shift has working and
    overtime minutes between 0 and one day, lengthened by how far client offsets stray from the server's; with one
    offset, between 0 and 1439.
   */
  lemma {:induction false} DailyBound(db: Db, qs: seq<Request>, r: Record, slack: int)
    requires SoundRun(db, qs, r.employee, r.workDate) && r in Run(db, qs).records && r.status.ClockedOut?
    requires slack >= 0 && OffsetsWithin(db, qs, slack)
    ensures UnderADay(r, slack)
    ensures slack == 0 ==> UnderMinutes(r, 1440)
  {
    RunUnderADay(db, qs, r.employee, r.workDate, slack);
    LookupIsTheRow(Run(db, qs).records, r);
    if slack == 0 {
      UnderADayIs1439(r);
    }
  }

  /** Clean runs are among them. */
  lemma {:induction false} CleanRunIsSound(db: Db, qs: seq<Request>, employee: nat, date: int)
    requires CleanRun(db, qs, employee, date)
    ensures SoundRun(db, qs, employee, date)
  {
    if qs != [] {
      CleanRunIsSound(db, qs[..|qs| - 1], employee, date);
      RunTracks(db, qs[..|qs| - 1], employee, date);
      var before, q := Run(db, qs[..|qs| - 1]), qs[|qs| - 1];
      if OnKey(before, q, employee, date) {
        UnharmedIsSound(before, q);
      }
    }
  }

  lemma UnharmedIsSound(db: Db, q: Request)
    requires Wf(db) && Unharmed(db, q)
    ensures !HalfStarted(db, q)
    ensures !EndedEarly(db, q)
  {
    if !Clean(db, q) {
      HalfStartedIs(db, q);
      if EndedEarly(db, q) {
        EarlyEndWrites(db, q);
      }
    }
  }

  lemma EarlyEndWrites(db: Db, q: Request)
    requires Wf(db) && EndedEarly(db, q)
    ensures Step(db, q) != db
  {
    HalfLeftIs(db, q);
    var d := Decide(db, q).0;
    OpenBreakIsOpenSpan(db.breaks, d.row.id);
    SpansAfterEnd(db.breaks, d.row.id, TimeOf(q), d.row.id);
    ClosedHasNoOpen(Spans(db.breaks, d.row.id), TimeOf(q));
  }
}
