/** What the status query reports over clean runs, against the history the day's requests and replies tell. */
module Today {
  import opened Prelude
  import opened Clock
  import opened Domain
  import opened Tables
  import opened Shifts
  import opened Attendance
  import opened Safety
  import opened Automaton
  import opened Ledger

  // ---- what requests and replies tell beside the events ----

  /** The identifier in the clock-in reply that opened the day. */
  function OpenedAs(db: Db, qs: seq<Request>, employee: nat, date: int): Option<nat> {
    if qs == [] then None else
      var before, q := Run(db, qs[..|qs| - 1]), qs[|qs| - 1];
      var id := OpenedAs(db, qs[..|qs| - 1], employee, date);
      if Told(before, q, employee, date) && Answer(before, q).ClockInReply? then Some(Answer(before, q).id) else id
  }

  /** The notes of the latest accepted clock-in or clock-out that gave any. */
  function NotesGiven(db: Db, qs: seq<Request>, employee: nat, date: int): Option<string> {
    if qs == [] then None else
      var before, q := Run(db, qs[..|qs| - 1]), qs[|qs| - 1];
      var notes := NotesGiven(db, qs[..|qs| - 1], employee, date);
      if Told(before, q, employee, date) && NotesIn(q.call).Some? then NotesIn(q.call) else notes
  }

  function NotesIn(c: Call): Option<string> {
    match c
    case ClockIn(notes) => notes
    case ClockOut(_, notes) => notes
    case _ => None
  }

  /** The request was accepted on the day. */
  predicate Told(db: Db, q: Request, employee: nat, date: int) {
    && !Answer(db, q).Failed? && q.code in db.employees
    && (employee, date) == (db.employees[q.code], DateFor(db, q))
  }

  /** The day's record has this identifier and these notes; without a record there are none to have. */
  ghost predicate Named(db: Db, employee: nat, date: int, id: Option<nat>, notes: Option<string>) {
    var r := Lookup(db.records, employee, date);
    if r.None? then id.None? && notes.None? else id == Some(r.value.id) && notes == r.value.notes
  }

  /** What one unharmed request adds to what is told. */
  lemma NamedStep(db: Db, q: Request, employee: nat, date: int, id: Option<nat>, notes: Option<string>)
    requires Wf(db) && Named(db, employee, date, id, notes) && (OnKey(db, q, employee, date) ==> Unharmed(db, q))
    ensures var told := Told(db, q, employee, date);
            Named(Step(db, q), employee, date,
                  if told && Answer(db, q).ClockInReply? then Some(Answer(db, q).id) else id,
                  if told && NotesIn(q.call).Some? then NotesIn(q.call) else notes)
  {
    if !OnKey(db, q, employee, date) {
      StepKeepsOthers(db, q, employee, date);
    } else if Clean(db, q) {
      DecideFits(db, q);
      KeyAfter(db, q, Decide(db, q).0, employee, date);
      CleanDelta(db, q);
    }
  }

  /** A clean request writes exactly when it is accepted, unless it only reads. */
  lemma CleanDelta(db: Db, q: Request)
    requires Wf(db) && Clean(db, q)
    ensures var (d, a) := Decide(db, q);
            && (a.Failed? ==> d.Same?)
            && (a.ClockInReply? <==> d.Born?) && (d.Born? ==> a.id == d.record.id && d.record.notes == NotesIn(q.call))
            && (a.ClockOutReply? <==> d.Left?)
            && (d.Left? ==> d.sealed.Some? && q.call.ClockOut?
                            && d.sealed.value.notes == if q.call.notes.Some? then q.call.notes else d.row.notes)
            && (!a.Failed? && (q.call.ClockIn? || q.call.ClockOut?) ==> d.Born? || d.Left?)
            && (d.Started? || d.Ended? ==> NotesIn(q.call).None?)
  {
    if q.code in db.employees {
      LookupNone(db.records, db.employees[q.code], DateOf(q.now, db.offset));
    }
  }

  lemma {:induction false} RunNamed(db: Db, qs: seq<Request>, employee: nat, date: int)
    requires CleanRun(db, qs, employee, date)
    ensures Named(Run(db, qs), employee, date, OpenedAs(db, qs, employee, date), NotesGiven(db, qs, employee, date))
  {
    if qs != [] {
      var init := qs[..|qs| - 1];
      RunNamed(db, init, employee, date);
      RunTracks(db, init, employee, date);
      NamedStep(Run(db, init), qs[|qs| - 1], employee, date,
                OpenedAs(db, init, employee, date), NotesGiven(db, init, employee, date));
    }
  }

  // ---- the status query ----

  /** The reply to a status query, from the day's history and from what was told beside it. */
  ghost predicate Reports(a: Reply, h: seq<Event>, id: Option<nat>, notes: Option<string>) {
    && a.StatusReply? && a.attendanceId == id && a.notes == notes
    && a.status == StateAfter(h)
    && a.since == (if h == [] then None else Some(h[0].at))
    && a.until == (if h != [] && h[|h| - 1].kind == Out then Some(h[|h| - 1].at) else None)
    && a.onBreak == (h != [] && h[|h| - 1].kind == Start)
    && a.openBreakStartAt == (if a.onBreak then Some(h[|h| - 1].at) else None)
  }

  /** On break, the open row is the break that started last. */
  lemma OpenIsLast(db: Db, r: Record, h: seq<Event>)
    requires RowOf(db, r, h) && r.status.OnBreak?
    ensures OpenBreak(db.breaks, r.id).Some? && OpenBreak(db.breaks, r.id).value.startAt == h[|h| - 1].at
  {
    var ss := Spans(db.breaks, r.id);
    IntervalsBoundary(h);
    OpenBreakIsOpenSpan(db.breaks, r.id);
    var open := Span(OpenBreak(db.breaks, r.id).value.startAt, None);
    if open != ss[|ss| - 1] {
      NoOpenMember(ss[..|ss| - 1], open);
    }
  }

  lemma ReportOfRow(db: Db, q: Request, r: Record, h: seq<Event>)
    requires Wf(db) && r in db.records && OnTarget(db, q, r) && RowOf(db, r, h)
    requires q.call.TodayStatus? && q.faults == NO_FAULTS
    ensures Reports(Answer(db, q), h, Some(r.id), r.notes)
  {
    LookupIsTheRow(db.records, r);
    AcceptedHistories(h);
    LastEvent(h);
    if r.status.OnBreak? {
      OpenIsLast(db, r, h);
    }
  }

  lemma LastEvent(h: seq<Event>)
    requires Accept(h).Success? && h != []
    ensures StateAfter(h).OnBreak? <==> h[|h| - 1].kind == Start
    ensures StateAfter(h).ClockedOut? <==> h[|h| - 1].kind == Out
  {
    AcceptedHistories(h);
  }

  /**
    Status query: in every clean run it reports the state of the day's history, the time of its first event as clock-in,
    of its clock-out if there is one, and of its last start while on break; the identifier its clock-in was answered with;
    and the notes of the latest accepted clock-in or clock-out that gave any.
   */
  lemma {:induction false} TodayReportsHistory(db: Db, qs: seq<Request>, q: Request, employee: nat, date: int)
    requires CleanRun(db, qs, employee, date) && OnKey(Run(db, qs), q, employee, date)
    requires q.call.TodayStatus? && q.faults == NO_FAULTS
    ensures Reports(Answer(Run(db, qs), q), History(db, qs, employee, date),
                    OpenedAs(db, qs, employee, date), NotesGiven(db, qs, employee, date))
  {
    var later, h := Run(db, qs), History(db, qs, employee, date);
    RunTracks(db, qs, employee, date);
    RunNamed(db, qs, employee, date);
    LookupFinds(later.records, employee, date);
    var found := Lookup(later.records, employee, date);
    if found.Some? {
      ReportOfRow(later, q, found.value, h);
    }
  }
}
