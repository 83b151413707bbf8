/** The proof that two tables of rows implement the four-state automaton when repository calls succeed. */
module Automaton {
  import opened Prelude
  import opened Domain
  import opened Tables
  import opened Shifts
  import opened Attendance
  import opened Safety

  // ---- the tables as a state of the automaton ----

  function StatusOf(db: Db, employee: nat, date: int): Status {
    var r := Lookup(db.records, employee, date);
    if r.Some? then r.value.status else Idle
  }

  /** Status `on_break` goes with exactly one open break, any other status with none: for a row, for a key, for all rows. */
  ghost predicate RowInStep(db: Db, r: Record) {
    OpenCount(Spans(db.breaks, r.id)) == if r.status.OnBreak? then 1 else 0
  }

  ghost predicate KeyInStep(db: Db, employee: nat, date: int) {
    var r := Lookup(db.records, employee, date);
    r.Some? ==> RowInStep(db, r.value)
  }

  ghost predicate InStep(db: Db) {
    forall r :: r in db.records ==> RowInStep(db, r)
  }

  /** No repository call fails, and the random identifier is not one already in a table. */
  ghost predicate Clean(db: Db, q: Request) {
    q.faults == NO_FAULTS && !HasId(db.records, q.newId) && !HasBreakId(db.breaks, q.newId)
  }

  function KindOf(c: Call): Option<Kind> {
    match c
    case ClockIn(_) => Some(In)
    case ToggleBreak(a) => if a == BREAK_START then Some(Start) else if a == BREAK_END then Some(End) else None
    case ClockOut(_, _) => Some(Out)
    case _ => None
  }

  /** The error of a request whose input is refused before any record is looked at, in the order of the checks. */
  function InputError(db: Db, q: Request): Option<Error> {
    if q.call.ToggleBreak? && KindOf(q.call).None? then Some(InvalidBreakAction)
    else if q.call.ClockOut? && Effective(q.now, db.offset, q.call.client).Failure? then
      Some(Effective(q.now, db.offset, q.call.client).error)
    else if q.code !in db.employees then Some(EmployeeNotFound)
    else None
  }

  lemma BadInputIsRefused(db: Db, q: Request)
    requires Clean(db, q) && InputError(db, q).Some?
    ensures Step(db, q) == db && Answer(db, q) == Failed(InputError(db, q).value)
  {
  }

  /** The request's own record moves as the automaton says, with the automaton's error when it refuses. */
  ghost predicate Refines(db: Db, q: Request)
    requires q.code in db.employees && KindOf(q.call).Some?
  {
    var e, d := db.employees[q.code], DateFor(db, q);
    match Next(StatusOf(db, e, d), KindOf(q.call).value)
    case Failure(error) => Answer(db, q) == Failed(error) && Step(db, q) == db
    case Success(s) => !Answer(db, q).Failed? && StatusOf(Step(db, q), e, d) == s
  }

  lemma StepRefines(db: Db, q: Request)
    requires Wf(db) && Clean(db, q) && InputError(db, q).None? && KindOf(q.call).Some?
    requires KeyInStep(db, db.employees[q.code], DateFor(db, q))
    ensures Refines(db, q)
  {
    match q.call
    case ClockIn(_) => ClockInRefines(db, q);
    case ToggleBreak(a) =>
      if a == BREAK_START {
        StartRefines(db, q);
      } else {
        EndRefines(db, q);
      }
    case ClockOut(_, _) => ClockOutRefines(db, q);
  }

  lemma ClockInRefines(db: Db, q: Request)
    requires Wf(db) && Clean(db, q) && InputError(db, q).None? && q.call.ClockIn?
    ensures Refines(db, q)
  {
    var e, d := db.employees[q.code], DateFor(db, q);
    LookupFinds(db.records, e, d);
    LookupNone(db.records, e, d);
    if Lookup(db.records, e, d).None? {
      LookupAfterInsert(db.records, NewRecord(db, e, q.now, q.newId, q.call.notes), e, d);
    }
  }

  lemma StartRefines(db: Db, q: Request)
    requires Wf(db) && Clean(db, q) && InputError(db, q).None? && q.call == ToggleBreak(BREAK_START)
    ensures Refines(db, q)
  {
    var e, d := db.employees[q.code], DateFor(db, q);
    LookupFinds(db.records, e, d);
    var found := Lookup(db.records, e, d);
    if found.Some? {
      LookupAfterUpdate(db.records, found.value.id, SetStatus(OnBreak), e, d);
    }
  }

  /** The code decides by the open row, the automaton by the status: this is where they must agree. */
  lemma EndDecision(db: Db, r: Record, now: int)
    requires RowInStep(db, r)
    ensures DecideEnd(db, r, now, NO_FAULTS) ==
            if r.status.OnBreak? then (Ended(r, now, true), BreakReply(BREAK_END, now, ClockedIn))
            else (Same, Failed(NotOnBreak))
  {
    OpenBreakIsOpenSpan(db.breaks, r.id);
  }

  lemma EndRefines(db: Db, q: Request)
    requires Wf(db) && Clean(db, q) && InputError(db, q).None? && q.call == ToggleBreak(BREAK_END)
    requires KeyInStep(db, db.employees[q.code], DateFor(db, q))
    ensures Refines(db, q)
  {
    var e, d := db.employees[q.code], DateFor(db, q);
    LookupFinds(db.records, e, d);
    var found := Lookup(db.records, e, d);
    if found.Some? && !found.value.status.ClockedOut? {
      assert Decide(db, q) == DecideEnd(db, found.value, q.now, NO_FAULTS);
      EndDecision(db, found.value, q.now);
      LookupAfterUpdate(db.records, found.value.id, SetStatus(ClockedIn), e, d);
    }
  }

  lemma ClockOutRefines(db: Db, q: Request)
    requires Wf(db) && Clean(db, q) && InputError(db, q).None? && q.call.ClockOut?
    ensures Refines(db, q)
  {
    var e, d := db.employees[q.code], DateFor(db, q);
    LookupFinds(db.records, e, d);
    var found := Lookup(db.records, e, d);
    if found.Some? && !found.value.status.ClockedOut? {
      var s := Effective(q.now, db.offset, q.call.client).value;
      LeaveDecision(db, found.value, s, q.call.notes);
      assert Decide(db, q) == DecideLeave(db, found.value, s, q.call.notes, NO_FAULTS);
      SealedIsClosed(db, found.value, Decide(db, q).0, e, d);
    }
  }

  lemma SealedIsClosed(db: Db, r: Record, d: Delta, employee: nat, date: int)
    requires Lookup(db.records, employee, date) == Some(r)
    requires d.Left? && d.row == r && d.sealed.Some? && d.sealed.value.status.ClockedOut?
    ensures StatusOf(Patch(db, d), employee, date) == ClockedOut
  {
    LookupAfterUpdate(db.records, r.id, Close(d.sealed.value), employee, date);
  }

  /** Every record other than the request's own stays as it is, with its breaks. */
  lemma StepKeepsOthers(db: Db, q: Request, employee: nat, date: int)
    requires Wf(db)
    requires !OnKey(db, q, employee, date)
    ensures Lookup(Step(db, q).records, employee, date) == Lookup(db.records, employee, date)
    ensures var r := Lookup(db.records, employee, date);
            r.Some? ==> Spans(Step(db, q).breaks, r.value.id) == Spans(db.breaks, r.value.id)
  {
    DecideFits(db, q);
    KeyAfter(db, q, Decide(db, q).0, employee, date);
  }

  // ---- rows and statuses under failures ----

  /** A call was carried out by half: a break started or ended without marking the status, or a shift left unclosed. */
  predicate HalfDone(db: Db, q: Request) {
    HalfStarted(db, q) || HalfEnded(db, q) || HalfLeft(db, q)
  }

  /** The same of what a request writes. */
  predicate ByHalf(d: Delta) {
    (d.Started? && !d.marked) || (d.Ended? && !d.marked) || (d.Left? && d.breaksEnded && d.sealed.None?)
  }

  /**
    With any failures and whatever state all other days are in: a day's open breaks and status stay in step exactly when
    the request is not aimed at the day or not half done.
   */
  lemma KeyInStepExactly(db: Db, q: Request, employee: nat, date: int)
    requires Wf(db) && KeyInStep(db, employee, date)
    ensures KeyInStep(Step(db, q), employee, date) <==> !(OnKey(db, q, employee, date) && HalfDone(db, q))
  {
    var d := Decide(db, q).0;
    DecideFits(db, q);
    HalfStartedIs(db, q);
    HalfEndedIs(db, q);
    HalfLeftIs(db, q);
    KeyAfter(db, q, d, employee, date);
    InStepAfter(db, q, d, employee, date);
  }

  lemma InStepAfter(db: Db, q: Request, d: Delta, employee: nat, date: int)
    requires Wf(db) && Fits(db, q, d) && KeyInStep(db, employee, date)
    ensures KeyInStep(Patch(db, d), employee, date) <==> !(WorksOn(d, employee, date) && ByHalf(d))
  {
    KeyAfter(db, q, d, employee, date);
    if WorksOn(d, employee, date) {
      InStepOfRow(db, q, d);
    }
  }

  /** The row a request works on, from its breaks and status before. */
  lemma InStepOfRow(db: Db, q: Request, d: Delta)
    requires Wf(db) && Fits(db, q, d) && !d.Same? && !d.Born? && RowInStep(db, d.row)
    ensures RowInStep(Patch(db, d), RowAfter(d)) <==> !ByHalf(d)
  {
    var ss := Spans(db.breaks, d.row.id);
    SpansAfterPatch(db, q, d, d.row.id);
    OpenBreakIsOpenSpan(db.breaks, d.row.id);
    match d
    case Started(_, _, _) => OpenCountAppend(ss, Span(q.now, None));
    case Ended(_, _, _) => ClosedHasNoOpen(ss, q.now);
    case Left(_, _, _, _) => ClosedHasNoOpen(ss, TimeOf(q));
  }

  /** All rows are in step exactly when every employee's day is. */
  lemma InStepByKey(db: Db)
    requires Wf(db)
    ensures InStep(db) <==> forall employee, date :: KeyInStep(db, employee, date)
  {
    forall employee, date | InStep(db) ensures KeyInStep(db, employee, date) {
      LookupFinds(db.records, employee, date);
    }
    forall r | r in db.records && KeyInStep(db, r.employee, r.workDate) ensures RowInStep(db, r) {
      LookupIsTheRow(db.records, r);
    }
  }

  /** So for all rows at once. */
  lemma InStepExactly(db: Db, q: Request)
    requires Wf(db) && InStep(db)
    ensures InStep(Step(db, q)) <==> !HalfDone(db, q)
  {
    StepEvolves(db, q);
    InStepByKey(db);
    InStepByKey(Step(db, q));
    forall employee, date
      ensures KeyInStep(Step(db, q), employee, date) <==> !(OnKey(db, q, employee, date) && HalfDone(db, q))
    {
      KeyInStepExactly(db, q, employee, date);
    }
    if HalfDone(db, q) {
      assert OnKey(db, q, db.employees[q.code], DateFor(db, q));
    }
  }

  /** No request of the run that is aimed at the day is half done. */
  ghost predicate NeverHalfDone(db: Db, qs: seq<Request>, employee: nat, date: int) {
    qs != [] ==>
      var before, q := Run(db, qs[..|qs| - 1]), qs[|qs| - 1];
      NeverHalfDone(db, qs[..|qs| - 1], employee, date) && !(OnKey(before, q, employee, date) && HalfDone(before, q))
  }

  /** The day's open breaks and status are in step after every request of the run. */
  ghost predicate AlwaysInStep(db: Db, qs: seq<Request>, employee: nat, date: int) {
    KeyInStep(Run(db, qs), employee, date) && (qs != [] ==> AlwaysInStep(db, qs[..|qs| - 1], employee, date))
  }

  /** Over runs: a day stays in step throughout if and only if no request aimed at it is half done. */
  lemma {:induction false} RunInStepExactly(db: Db, qs: seq<Request>, employee: nat, date: int)
    requires Wf(db) && KeyInStep(db, employee, date)
    ensures AlwaysInStep(db, qs, employee, date) <==> NeverHalfDone(db, qs, employee, date)
  {
    if qs != [] {
      var init := qs[..|qs| - 1];
      RunInStepExactly(db, init, employee, date);
      RunEvolves(db, init);
      if AlwaysInStep(db, init, employee, date) {
        KeyInStepExactly(Run(db, init), qs[|qs| - 1], employee, date);
      }
    }
  }

  /** The status query reports the automaton's state of today, and since when an open break runs. */
  lemma TodayReportsState(db: Db, q: Request)
    requires Wf(db) && Clean(db, q) && q.call.TodayStatus? && q.code in db.employees
    requires KeyInStep(db, db.employees[q.code], DateFor(db, q))
    ensures var e, d := db.employees[q.code], DateFor(db, q);
            var reply := Answer(db, q);
            && reply.StatusReply? && reply.status == StatusOf(db, e, d)
            && reply.onBreak == reply.status.OnBreak? == reply.openBreakStartAt.Some?
            && (reply.status.Idle? <==> reply.attendanceId.None?) && (reply.status.Idle? <==> reply.since.None?)
            && (reply.status.ClockedOut? <==> reply.until.Some?)
            && (reply.onBreak ==> Span(reply.openBreakStartAt.value, None) in Spans(db.breaks, reply.attendanceId.value))
  {
    var e, d := db.employees[q.code], DateFor(db, q);
    LookupFinds(db.records, e, d);
    if Lookup(db.records, e, d).Some? {
      OpenBreakIsOpenSpan(db.breaks, Lookup(db.records, e, d).value.id);
    }
  }
}
