/**
  The ledger of one shift: the history of its accepted events, as seen in requests and replies, determines its rows,
  and the stored minutes against time counted instant by instant.
 */
module Ledger {
  import opened Prelude
  import opened Clock
  import opened Domain
  import opened Tables
  import opened Shifts
  import opened Attendance
  import opened Safety
  import opened Automaton

  // ---- histories as observed from requests and replies ----

  /** The event an accepted request adds to the history of an employee's day, if any. */
  function EventFor(db: Db, q: Request, employee: nat, date: int): seq<Event> {
    if !Answer(db, q).Failed? && KindOf(q.call).Some? && q.code in db.employees
       && (employee, date) == (db.employees[q.code], DateFor(db, q))
    then [Event(KindOf(q.call).value, TimeOf(q))] else []
  }

  function History(db: Db, qs: seq<Request>, employee: nat, date: int): seq<Event> {
    if qs == [] then [] else
      History(db, qs[..|qs| - 1], employee, date) + EventFor(Run(db, qs[..|qs| - 1]), qs[|qs| - 1], employee, date)
  }

  /** The request meets no failure, or fails before writing anything. */
  ghost predicate Unharmed(db: Db, q: Request) {
    Clean(db, q) || (Answer(db, q).Failed? && Step(db, q) == db)
  }

  /**
    A run in which every request aimed at one employee's day is unharmed, whatever fails for others. It starts without
    a record for that day, and the server clock never goes back.
   */
  ghost predicate CleanRun(db: Db, qs: seq<Request>, employee: nat, date: int) {
    if qs == [] then Wf(db) && Lookup(db.records, employee, date).None?
    else
      var before, q := Run(db, qs[..|qs| - 1]), qs[|qs| - 1];
      && CleanRun(db, qs[..|qs| - 1], employee, date)
      && (OnKey(before, q, employee, date) ==> Unharmed(before, q))
      && forall x :: x in qs ==> x.now <= q.now
  }

  /** The outcome columns of a row that was closed at `out`. */
  ghost predicate ClosedAt(db: Db, r: Record, out: int) {
    && r.clockOutAt == Some(out)
    && r.workingMinutes == Some(WorkingMinutes(r.clockInAt, out, ClosedTicks(Spans(db.breaks, r.id))))
    && r.overtimeMinutes == Some(OvertimeMinutes(r.scheduledOutAt, out))
  }

  /** Every column of the row that the history determines. */
  ghost predicate RowOf(db: Db, r: Record, h: seq<Event>) {
    && h != [] && Accept(h) == Success(r.status) && r.clockInAt == h[0].at
    && Spans(db.breaks, r.id) == Intervals(h)
    && (r.status.ClockedOut? ==> ClosedAt(db, r, h[|h| - 1].at))
  }

  ghost predicate Tracks(db: Db, employee: nat, date: int, h: seq<Event>) {
    var r := Lookup(db.records, employee, date);
    Accept(h).Success? && if r.None? then h == [] else RowOf(db, r.value, h)
  }

  lemma RowAfterEvent(db: Db, db': Db, r: Record, r': Record, h: seq<Event>, ev: Event)
    requires RowOf(db, r, h) && r'.clockInAt == r.clockInAt && Accept(h + [ev]) == Success(r'.status)
    requires Spans(db'.breaks, r'.id) == Advance(Spans(db.breaks, r.id), ev)
    requires r'.status.ClockedOut? ==> ClosedAt(db', r', ev.at)
    ensures RowOf(db', r', h + [ev])
  {
    assert (h + [ev])[..|h|] == h;
  }

  /** A key that follows its history is in step. */
  lemma TracksInStep(db: Db, employee: nat, date: int, h: seq<Event>)
    requires Tracks(db, employee, date, h)
    ensures KeyInStep(db, employee, date)
  {
    IntervalsBoundary(h);
  }

  /** One unharmed request extends the history of a day and the row follows; requests aimed elsewhere do not matter. */
  lemma TracksStep(db: Db, q: Request, employee: nat, date: int, h: seq<Event>)
    requires Wf(db) && Tracks(db, employee, date, h) && (OnKey(db, q, employee, date) ==> Unharmed(db, q))
    ensures Tracks(Step(db, q), employee, date, h + EventFor(db, q, employee, date))
  {
    var added := EventFor(db, q, employee, date);
    if !OnKey(db, q, employee, date) {
      StepKeepsOthers(db, q, employee, date);
      assert h + added == h;
    } else if !Clean(db, q) || KindOf(q.call).None? {
      assert h + added == h;
    } else if InputError(db, q).Some? {
      BadInputIsRefused(db, q);
      assert h + added == h;
    } else {
      TracksInStep(db, employee, date, h);
      StepRefines(db, q);
      if Answer(db, q).Failed? {
        assert h + added == h;
      } else {
        assert added == [Event(KindOf(q.call).value, TimeOf(q))];
        assert (h + added)[..|h|] == h;
        TracksAccepted(db, q, employee, date, h, added[0]);
      }
    }
  }

  /** The request is a clean one on the day of the history and adds the event. */
  ghost predicate Accepted(db: Db, q: Request, employee: nat, date: int, h: seq<Event>, ev: Event) {
    && Wf(db) && Clean(db, q) && Tracks(db, employee, date, h) && KeyInStep(db, employee, date)
    && OnKey(db, q, employee, date)
    && KindOf(q.call) == Some(ev.kind) && ev.at == TimeOf(q) && !Answer(db, q).Failed?
    && Accept(h + [ev]).Success?
  }

  lemma TracksAccepted(db: Db, q: Request, employee: nat, date: int, h: seq<Event>, ev: Event)
    requires Accepted(db, q, employee, date, h, ev)
    ensures Tracks(Step(db, q), employee, date, h + [ev])
  {
    var d := Decide(db, q).0;
    DecideFits(db, q);
    AcceptedNext(h, ev);
    match d
    case Same => assert false;
    case Born(r) =>
      LookupNone(db.records, employee, date);
      NewRecordHasNoBreaks(db, r.id);
      TrackBorn(db, r, ev);
    case Started(r, b, _) =>
      LookupIsTheRow(db.records, r);
      TrackStarted(db, r, b, employee, date, h, ev);
    case Ended(r, _, _) =>
      LookupIsTheRow(db.records, r);
      TrackEnded(db, r, employee, date, h, ev);
    case Left(r, _, _, _) =>
      LookupIsTheRow(db.records, r);
      TrackLeft(db, r, Effective(q.now, db.offset, q.call.client).value, q.call.notes, employee, date, h, ev);
  }

  lemma AcceptedNext(h: seq<Event>, ev: Event)
    requires Accept(h).Success?
    ensures Accept(h + [ev]) == Next(Accept(h).value, ev.kind)
  {
    assert (h + [ev])[..|h|] == h;
  }

  lemma TrackBorn(db: Db, r: Record, ev: Event)
    requires InsertAllowed(db.records, r) && Spans(db.breaks, r.id) == []
    requires r.status.ClockedIn? && ev == Event(In, r.clockInAt)
    ensures Tracks(Patch(db, Born(r)), r.employee, r.workDate, [] + [ev])
  {
    assert [ev][..0] == [];
    LookupAfterInsert(db.records, r, r.employee, r.workDate);
  }

  /** The row of the day, before a write. */
  ghost predicate Row(db: Db, r: Record, employee: nat, date: int, h: seq<Event>) {
    Lookup(db.records, employee, date) == Some(r) && RowOf(db, r, h)
  }

  lemma TrackStarted(db: Db, r: Record, b: Break, employee: nat, date: int, h: seq<Event>, ev: Event)
    requires Row(db, r, employee, date, h) && r.status.ClockedIn?
    requires ev.kind == Start && b == Break(b.id, r.id, ev.at, None)
    ensures Tracks(Patch(db, Started(r, b, true)), employee, date, h + [ev])
  {
    LookupAfterUpdate(db.records, r.id, SetStatus(OnBreak), employee, date);
    SpansAppend(db.breaks, b, r.id);
    AcceptedNext(h, ev);
    RowAfterEvent(db, Patch(db, Started(r, b, true)), r, r.(status := OnBreak), h, ev);
  }

  lemma TrackEnded(db: Db, r: Record, employee: nat, date: int, h: seq<Event>, ev: Event)
    requires Row(db, r, employee, date, h) && r.status.OnBreak? && ev.kind == End
    ensures Tracks(Patch(db, Ended(r, ev.at, true)), employee, date, h + [ev])
  {
    LookupAfterUpdate(db.records, r.id, SetStatus(ClockedIn), employee, date);
    SpansAfterEnd(db.breaks, r.id, ev.at, r.id);
    AcceptedNext(h, ev);
    RowAfterEvent(db, Patch(db, Ended(r, ev.at, true)), r, r.(status := ClockedIn), h, ev);
  }

  /** What a clock-out without faults writes: every open break ended, and minutes from the breaks as they then are. */
  lemma LeaveWrites(db: Db, r: Record, s: Stamp, notes: Option<string>)
    requires r.status.OnBreak? || OpenCount(Spans(db.breaks, r.id)) == 0
    ensures var d := DecideLeave(db, r, s, notes, NO_FAULTS).0;
            var after := Patch(db, d);
            && d.Left? && d.row == r && d.sealed.Some?
            && Spans(after.breaks, r.id) == CloseSpans(Spans(db.breaks, r.id), s.at)
            && d.sealed.value.id == r.id && d.sealed.value.status.ClockedOut?
            && ClosedAt(after, Changed(r, Close(d.sealed.value)), s.at)
  {
    SpansAfterEnd(db.breaks, r.id, s.at, r.id);
    ClosedHasNoOpen(Spans(db.breaks, r.id), s.at);
    SumIsClosedTicks(db.breaks, r.id);
    SumIsClosedTicks(EndOpen(db.breaks, r.id, s.at), r.id);
  }

  lemma TrackLeft(db: Db, r: Record, s: Stamp, notes: Option<string>, employee: nat, date: int, h: seq<Event>, ev: Event)
    requires Row(db, r, employee, date, h) && (r.status.ClockedIn? || r.status.OnBreak?)
    requires r.status.OnBreak? || OpenCount(Spans(db.breaks, r.id)) == 0
    requires ev == Event(Out, s.at)
    ensures Tracks(Patch(db, DecideLeave(db, r, s, notes, NO_FAULTS).0), employee, date, h + [ev])
  {
    var d := DecideLeave(db, r, s, notes, NO_FAULTS).0;
    LeaveWrites(db, r, s, notes);
    LookupAfterUpdate(db.records, r.id, Close(d.sealed.value), employee, date);
    AcceptedNext(h, ev);
    RowAfterEvent(db, Patch(db, d), r, Changed(r, Close(d.sealed.value)), h, ev);
  }

  /** In every clean run the stored rows are the ones the observed history describes. */
  lemma {:induction false} RunTracks(db: Db, qs: seq<Request>, employee: nat, date: int)
    requires CleanRun(db, qs, employee, date)
    ensures Wf(Run(db, qs)) && Tracks(Run(db, qs), employee, date, History(db, qs, employee, date))
  {
    if qs != [] {
      var init, q := qs[..|qs| - 1], qs[|qs| - 1];
      RunTracks(db, init, employee, date);
      StepEvolves(Run(db, init), q);
      TracksStep(Run(db, init), q, employee, date, History(db, init, employee, date));
    }
  }

  /** An accepted request adds at most its own event, at its effective time, not after the server clock. */
  lemma EventTimes(db: Db, q: Request, employee: nat, date: int)
    ensures var added := EventFor(db, q, employee, date);
            && |added| <= 1
            && (added != [] ==> added[0].at <= q.now)
            && (added != [] && added[0].kind != Out ==> added[0].at == q.now && DateOf(q.now, db.offset) == date)
  {
  }

  /** Every event of the history happened by the time `last`; all but clock-outs on the day itself, in order. */
  ghost predicate OnTheDay(h: seq<Event>, offset: int, date: int, last: int) {
    && ServerOrdered(h)
    && (forall i :: 0 <= i < |h| ==> h[i].at <= last)
    && (forall i :: 0 <= i < |h| && h[i].kind != Out ==> DateOf(h[i].at, offset) == date)
  }

  lemma OnTheDayExtends(h: seq<Event>, added: seq<Event>, offset: int, date: int, last: int, now: int)
    requires OnTheDay(h, offset, date, last) && last <= now
    requires |added| <= 1 && (added != [] ==> added[0].at <= now)
    requires added != [] && added[0].kind != Out ==> added[0].at == now && DateOf(now, offset) == date
    ensures OnTheDay(h + added, offset, date, now)
  {
  }

  lemma {:induction false} RunKeepsConfig(db: Db, qs: seq<Request>)
    ensures Run(db, qs).offset == db.offset && Run(db, qs).employees == db.employees
  {
    if qs != [] {
      RunKeepsConfig(db, qs[..|qs| - 1]);
    }
  }

  /** In a clean run the events of a day lie on that day, in the order of the server clock. */
  lemma {:induction false} RunOrdered(db: Db, qs: seq<Request>, employee: nat, date: int, now: int)
    requires CleanRun(db, qs, employee, date) && forall q :: q in qs ==> q.now <= now
    ensures OnTheDay(History(db, qs, employee, date), db.offset, date, now)
  {
    if qs != [] {
      var init, q := qs[..|qs| - 1], qs[|qs| - 1];
      RunOrdered(db, init, employee, date, q.now);
      RunKeepsConfig(db, init);
      EventTimes(Run(db, init), q, employee, date);
      OnTheDayExtends(History(db, init, employee, date), EventFor(Run(db, init), q, employee, date),
                      db.offset, date, q.now, q.now);
    }
  }

  /** What the observed history says about any row of a clean run. */
  lemma {:induction false} RowOfRun(db: Db, qs: seq<Request>, r: Record, now: int)
    requires CleanRun(db, qs, r.employee, r.workDate) && r in Run(db, qs).records && forall q :: q in qs ==> q.now <= now
    ensures RowOf(Run(db, qs), r, History(db, qs, r.employee, r.workDate))
    ensures OnTheDay(History(db, qs, r.employee, r.workDate), db.offset, r.workDate, now)
    ensures Run(db, qs).offset == db.offset && Wf(Run(db, qs))
  {
    RunTracks(db, qs, r.employee, r.workDate);
    RunOrdered(db, qs, r.employee, r.workDate, now);
    RunKeepsConfig(db, qs);
    LookupIsTheRow(Run(db, qs).records, r);
  }

  // ---- the main results ----

  /**
    Refinement over runs: in every clean run the history of the employee's day has the shape
    In (Start End)* [Start] [Out], the stored status is the state it leads to, and the next clean request on that day
    is accepted, or refused with its error, exactly as the automaton says in that state.
   */
  lemma {:induction false} RunRefines(db: Db, qs: seq<Request>, q: Request, employee: nat, date: int)
    requires CleanRun(db, qs, employee, date) && Clean(Run(db, qs), q)
    ensures var h, later := History(db, qs, employee, date), Run(db, qs);
            && Shape(h) && StatusOf(later, employee, date) == StateAfter(h)
            && (InputError(later, q).None? && KindOf(q.call).Some? && OnKey(later, q, employee, date) ==>
                  match Next(StateAfter(h), KindOf(q.call).value)
                  case Failure(error) => Answer(later, q) == Failed(error) && Step(later, q) == later
                  case Success(s) => !Answer(later, q).Failed? && StatusOf(Step(later, q), employee, date) == s)
  {
    var h, later := History(db, qs, employee, date), Run(db, qs);
    RunTracks(db, qs, employee, date);
    AcceptedHistories(h);
    if InputError(later, q).None? && KindOf(q.call).Some? && OnKey(later, q, employee, date) {
      TracksInStep(later, employee, date, h);
      StepRefines(later, q);
    }
  }

  /** Minutes stored for `worked` ticks out of an elapsed time with some break time: the quotient, or one more on a carry. */
  predicate MinutesFor(minutes: int, worked: int, elapsed: int, breaks: int) {
    && worked == elapsed - breaks
    && minutes == TruncMinutes(elapsed) - TruncMinutes(breaks)
    && minutes == worked / MINUTE + if elapsed % MINUTE < breaks % MINUTE then 1 else 0
  }

  lemma StoredMinutes(clockIn: int, out: int, breaks: int)
    requires 0 <= breaks <= out - clockIn
    ensures MinutesFor(WorkingMinutes(clockIn, out, breaks), out - clockIn - breaks, out - clockIn, breaks)
  {
    TruncDifference(out - clockIn, breaks);
  }

  /** Overtime is the whole minutes from the scheduled end to `out`: none without a schedule or before that end. */
  predicate OvertimeFor(minutes: int, scheduledOut: Option<int>, out: int) {
    && minutes >= 0
    && (scheduledOut.None? || out <= scheduledOut.value ==> minutes == 0)
    && (scheduledOut.Some? && out > scheduledOut.value ==>
          minutes * MINUTE <= out - scheduledOut.value < (minutes + 1) * MINUTE)
  }

  lemma StoredOvertime(scheduledOut: Option<int>, out: int)
    ensures OvertimeFor(OvertimeMinutes(scheduledOut, out), scheduledOut, out)
  {
  }

  /** Breaks ordered, disjoint and ended inside the shift, and minutes that count the time worked and the overtime. */
  ghost predicate Balanced(db: Db, r: Record, h: seq<Event>) {
    && Accept(h).Success? && r.clockOutAt.Some? && r.workingMinutes.Some? && r.overtimeMinutes.Some?
    && OvertimeFor(r.overtimeMinutes.value, r.scheduledOutAt, r.clockOutAt.value)
    && var out, spans := r.clockOutAt.value, Spans(db.breaks, r.id);
       && Nested(spans, r.clockInAt, out) && OpenCount(spans) == 0
       && MinutesFor(r.workingMinutes.value, CountWorking(h, r.clockInAt, out), out - r.clockInAt, ClosedTicks(spans))
  }

  lemma LedgerOfRow(db: Db, r: Record, h: seq<Event>)
    requires RowOf(db, r, h) && r.status.ClockedOut? && Ordered(h)
    ensures Balanced(db, r, h)
  {
    var out := h[|h| - 1].at;
    IntervalsNested(h);
    IntervalsBoundary(h);
    LedgerOfHistory(h, out);
    NestedTicks(Intervals(h), r.clockInAt, out);
    StoredMinutes(r.clockInAt, out, ClosedTicks(Intervals(h)));
    StoredOvertime(r.scheduledOutAt, out);
  }

  /**
    Ledger: over every clean run, a closed shift whose effective clock-out is not before its last event has
    its breaks ordered, disjoint and inside the shift; the time spent working, counted instant by instant,
    is elapsed time minus breaks; and the stored minutes are its exact quotient, or that plus one when the
    two truncations carry. The clamp at zero does not act. Overtime is the whole minutes past the scheduled end.
   */
  lemma {:induction false} LedgerTheorem(db: Db, qs: seq<Request>, r: Record)
    requires CleanRun(db, qs, r.employee, r.workDate) && r in Run(db, qs).records && r.status.ClockedOut?
    requires Ordered(History(db, qs, r.employee, r.workDate))
    ensures Balanced(Run(db, qs), r, History(db, qs, r.employee, r.workDate))
  {
    RunTracks(db, qs, r.employee, r.workDate);
    LookupIsTheRow(Run(db, qs).records, r);
    LedgerOfRow(Run(db, qs), r, History(db, qs, r.employee, r.workDate));
  }

  /** The breaks are inside the closed shift exactly when its clock-out is not before its last event. */
  ghost predicate InsideExactly(db: Db, r: Record, h: seq<Event>) {
    && |h| >= 2 && r.clockOutAt == Some(h[|h| - 1].at)
    && (Nested(Spans(db.breaks, r.id), r.clockInAt, h[|h| - 1].at) <==> h[|h| - 2].at <= h[|h| - 1].at)
  }

  lemma InsideExactlyOfRow(db: Db, r: Record, h: seq<Event>)
    requires RowOf(db, r, h) && r.status.ClockedOut? && ServerOrdered(h)
    ensures InsideExactly(db, r, h)
  {
    NestedExactly(h);
    OrderedExactly(h);
  }

  /** In every clean run, every closed shift. */
  lemma {:induction false} BreaksInsideExactly(db: Db, qs: seq<Request>, r: Record)
    requires CleanRun(db, qs, r.employee, r.workDate) && r in Run(db, qs).records && r.status.ClockedOut?
    ensures InsideExactly(Run(db, qs), r, History(db, qs, r.employee, r.workDate))
  {
    RowOfRun(db, qs, r, if qs == [] then 0 else qs[|qs| - 1].now);
    InsideExactlyOfRow(Run(db, qs), r, History(db, qs, r.employee, r.workDate));
  }

  /**
    "No break ends after the clock-out" is claimed for every stored shift. In a clean run it holds exactly when no
    break of the history was ended at a later time than the effective clock-out.
   */
  lemma {:induction false} BreakEndsExactly(db: Db, qs: seq<Request>, r: Record)
    requires CleanRun(db, qs, r.employee, r.workDate) && r in Run(db, qs).records && r.status.ClockedOut?
    ensures EndsExactly(Run(db, qs), r, History(db, qs, r.employee, r.workDate))
  {
    RowOfRun(db, qs, r, if qs == [] then 0 else qs[|qs| - 1].now);
    EndsExactlyOfRow(Run(db, qs), r, History(db, qs, r.employee, r.workDate));
  }

  ghost predicate EndsExactly(db: Db, r: Record, h: seq<Event>) {
    && r.clockOutAt.Some?
    && (BreaksEndBy(Spans(db.breaks, r.id), r.clockOutAt.value) <==> EndEventsBy(h, r.clockOutAt.value))
  }

  lemma EndsExactlyOfRow(db: Db, r: Record, h: seq<Event>)
    requires RowOf(db, r, h) && r.status.ClockedOut?
    ensures EndsExactly(db, r, h)
  {
    BreakEndsByClockOutExactly(h);
  }

  /**
    The running shift the minute arithmetic starts from: breaks ordered inside it up to its last event, which is
    the start of the open break if there is one, and everything on the work date.
   */
  ghost predicate Running(db: Db, r: Record, last: int) {
    var spans := Spans(db.breaks, r.id);
    && Nested(spans, r.clockInAt, last) && Boundary(r.status, spans, last)
    && DateOf(r.clockInAt, db.offset) == r.workDate && DateOf(last, db.offset) == r.workDate
  }

  /** Every shift that is running in a clean run is in that state, with its last event not after the server clock. */
  lemma {:induction false} RunningShift(db: Db, qs: seq<Request>, r: Record, now: int) returns (last: int)
    requires CleanRun(db, qs, r.employee, r.workDate) && r in Run(db, qs).records && !r.status.ClockedOut?
    requires forall q :: q in qs ==> q.now <= now
    ensures Running(Run(db, qs), r, last) && last <= now
  {
    var h := History(db, qs, r.employee, r.workDate);
    RowOfRun(db, qs, r, now);
    NoEarlyOut(h);
    IntervalsNested(h);
    IntervalsBoundary(h);
    last := h[|h| - 1].at;
  }
}
