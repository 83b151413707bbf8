/**
  One request of each kind, with any failures, from the rows as they are: when it is refused and with which error,
  what it answers, and which rows it leaves behind. Everything is said of rows, columns and numbers.
 */
module Requests {
  import opened Prelude
  import opened Clock
  import opened Domain
  import opened Tables
  import opened Attendance
  import opened Safety
  import opened Ledger

  // ---- what a request finds ----

  /** A clock-out's timestamp is absent, or an instant of the last 24 hours; a break action is one of the two. */
  ghost predicate InputFine(q: Request) {
    match q.call
    case ToggleBreak(a) => a == "start" || a == "end"
    case ClockOut(Malformed, _) => false
    case ClockOut(At(t, _), _) => t <= q.now <= t + 86_400_000_000
    case _ => true
  }

  ghost predicate Known(db: Db, q: Request) {
    InputFine(q) && !q.faults.resolve && q.code in db.employees
  }

  /** The request finds this record: the caller's, on the date of the request's effective time. */
  ghost predicate Finds(db: Db, q: Request, r: Record) {
    && Known(db, q) && !q.faults.lookup
    && r in db.records && r.employee == db.employees[q.code] && r.workDate == DateOf(TimeOf(q), OffsetOf(db, q))
  }

  ghost predicate FindsNone(db: Db, q: Request) {
    Known(db, q) && !q.faults.lookup && forall r :: r in db.records ==> !Finds(db, q, r)
  }

  /** It finds this record, of a shift that is not closed. */
  ghost predicate FindsRunning(db: Db, q: Request, r: Record) {
    Finds(db, q, r) && (r.status.ClockedIn? || r.status.OnBreak?)
  }

  ghost predicate NeedsRunning(c: Call) {
    c.ToggleBreak? || c.Preview? || c.ClockOut?
  }

  /** The record has a break without an end. */
  ghost predicate HasOpen(db: Db, r: Record) {
    exists b :: b in db.breaks && b.record == r.id && b.endAt.None?
  }

  ghost predicate UnusedRecordId(db: Db, id: nat) {
    forall r :: r in db.records ==> r.id != id
  }

  ghost predicate UnusedBreakId(db: Db, id: nat) {
    forall b :: b in db.breaks ==> b.id != id
  }

  /** The look-up, in these terms. */
  lemma FoundRow(db: Db, q: Request)
    requires Wf(db) && Known(db, q) && !q.faults.lookup
    ensures var found := Lookup(db.records, db.employees[q.code], DateOf(TimeOf(q), OffsetOf(db, q)));
            && (found.None? <==> FindsNone(db, q))
            && forall r :: Finds(db, q, r) <==> found == Some(r)
  {
    var e, d := db.employees[q.code], DateOf(TimeOf(q), OffsetOf(db, q));
    LookupFinds(db.records, e, d);
    forall r | Finds(db, q, r) ensures Lookup(db.records, e, d) == Some(r) {
      LookupIsTheRow(db.records, r);
    }
    if Lookup(db.records, e, d).Some? {
      assert Finds(db, q, Lookup(db.records, e, d).value);
    }
  }

  lemma OpenRow(db: Db, r: Record)
    ensures OpenBreak(db.breaks, r.id).Some? <==> HasOpen(db, r)
  {
    OpenBreakFinds(db.breaks, r.id);
    if HasOpen(db, r) {
      var b :| b in db.breaks && b.record == r.id && b.endAt.None?;
      assert IsOpen(b, r.id);
    } else if OpenBreak(db.breaks, r.id).Some? {
      assert OpenBreak(db.breaks, r.id).value in db.breaks;
    }
  }

  lemma UnusedIds(db: Db, id: nat)
    ensures HasId(db.records, id) <==> !UnusedRecordId(db, id)
    ensures HasBreakId(db.breaks, id) <==> !UnusedBreakId(db, id)
  {
    if HasId(db.records, id) {
      var i :| 0 <= i < |db.records| && db.records[i].id == id;
      assert db.records[i] in db.records;
    }
    if HasBreakId(db.breaks, id) {
      var i :| 0 <= i < |db.breaks| && db.breaks[i].id == id;
      assert db.breaks[i] in db.breaks;
    }
  }

  // ---- refusals ----

  /** Which input gets which error, before anything is looked up. */
  ghost predicate InputRefusals(db: Db, q: Request, a: Reply) {
    && (a == Failed(InvalidBreakAction) <==> q.call.ToggleBreak? && q.call.action != "start" && q.call.action != "end")
    && (a == Failed(InvalidClientTimestamp) <==> q.call.ClockOut? && q.call.client.Malformed?)
    && (a == Failed(ClientTimestampInFuture) <==> q.call.ClockOut? && q.call.client.At? && q.call.client.instant > q.now)
    && (a == Failed(ClientTimestampTooOld) <==>
        q.call.ClockOut? && q.call.client.At? && q.call.client.instant < q.now - 86_400_000_000)
    && (a == Failed(EmployeeNotFound) <==> InputFine(q) && !q.faults.resolve && q.code !in db.employees)
  }

  /** Which record gets which error. */
  ghost predicate RowRefusals(db: Db, q: Request, a: Reply) {
    && (a == Failed(AlreadyClockedIn) <==> q.call.ClockIn? && exists r :: Finds(db, q, r))
    && (a == Failed(NotClockedIn) <==> NeedsRunning(q.call) && FindsNone(db, q))
    && (a == Failed(AlreadyClockedOut) <==> NeedsRunning(q.call) && exists r :: Finds(db, q, r) && r.status.ClockedOut?)
    && (a == Failed(AlreadyOnBreak) <==>
        q.call == ToggleBreak("start") && exists r :: Finds(db, q, r) && r.status.OnBreak?)
    && (a == Failed(NotOnBreak) <==>
        q.call == ToggleBreak("end") && !q.faults.openBreak && exists r :: FindsRunning(db, q, r) && !HasOpen(db, r))
  }

  /** Every call the request depends on succeeds, on a record that allows it. */
  ghost predicate GoesThrough(db: Db, q: Request) {
    match q.call
    case ClockIn(_) =>
      FindsNone(db, q) && !q.faults.schedule && q.faults.insertRecord.Done? && UnusedRecordId(db, q.newId)
    case ToggleBreak(a) =>
      exists r :: FindsRunning(db, q, r) && q.faults.setStatus.Done? &&
        if a == "start" then r.status.ClockedIn? && q.faults.insertBreak.Done? && UnusedBreakId(db, q.newId)
        else HasOpen(db, r) && !q.faults.openBreak && q.faults.endBreaks.Done?
    case Preview => exists r :: FindsRunning(db, q, r) && !q.faults.sum && (r.status.OnBreak? ==> !q.faults.openBreak)
    case ClockOut(_, _) =>
      exists r :: FindsRunning(db, q, r) && !q.faults.sum && q.faults.closeRecord.Done?
        && (r.status.OnBreak? ==> q.faults.endBreaks.Done?)
    case TodayStatus => FindsNone(db, q) || exists r :: Finds(db, q, r) && (r.status.OnBreak? ==> !q.faults.openBreak)
  }

  lemma InputRefusedExactly(db: Db, q: Request)
    ensures InputRefusals(db, q, Answer(db, q))
  {
  }

  lemma RefusedOnRow(db: Db, q: Request, r: Record)
    requires Wf(db) && Finds(db, q, r)
    ensures var a := Answer(db, q);
            && (a == Failed(AlreadyClockedIn) <==> q.call.ClockIn?) && a != Failed(NotClockedIn)
            && (a == Failed(AlreadyClockedOut) <==> NeedsRunning(q.call) && r.status.ClockedOut?)
            && (a == Failed(AlreadyOnBreak) <==> q.call == ToggleBreak("start") && r.status.OnBreak?)
            && (a == Failed(NotOnBreak) <==>
                q.call == ToggleBreak("end") && !q.faults.openBreak && !r.status.ClockedOut? && !HasOpen(db, r))
  {
    FoundRow(db, q);
    OpenRow(db, r);
  }

  lemma RefusedWithoutRow(db: Db, q: Request)
    requires Wf(db) && forall r :: !Finds(db, q, r)
    ensures var a := Answer(db, q);
            && (a == Failed(NotClockedIn) <==> NeedsRunning(q.call) && FindsNone(db, q))
            && a != Failed(AlreadyClockedIn) && a != Failed(AlreadyClockedOut)
            && a != Failed(AlreadyOnBreak) && a != Failed(NotOnBreak)
  {
    if Known(db, q) && !q.faults.lookup {
      FoundRow(db, q);
      LookupFinds(db.records, db.employees[q.code], DateOf(TimeOf(q), OffsetOf(db, q)));
    }
  }

  lemma RowRefusedExactly(db: Db, q: Request)
    requires Wf(db)
    ensures RowRefusals(db, q, Answer(db, q))
  {
    if r :| Finds(db, q, r) {
      RefusedOnRow(db, q, r);
      OneRowFound(db, q, r);
    } else {
      RefusedWithoutRow(db, q);
    }
  }

  lemma OneRowFound(db: Db, q: Request, r: Record)
    requires Wf(db) && Finds(db, q, r)
    ensures !FindsNone(db, q) && r.status != Idle && forall x :: Finds(db, q, x) ==> x == r
  {
    FoundRow(db, q);
  }

  lemma GoesThroughExactly(db: Db, q: Request)
    requires Wf(db)
    ensures !Answer(db, q).Failed? <==> GoesThrough(db, q)
  {
    UnusedIds(db, q.newId);
    if Known(db, q) && !q.faults.lookup {
      FoundRow(db, q);
      var found := Lookup(db.records, db.employees[q.code], DateOf(TimeOf(q), OffsetOf(db, q)));
      LookupNone(db.records, db.employees[q.code], DateOf(TimeOf(q), OffsetOf(db, q)));
      if found.Some? {
        OpenRow(db, found.value);
        assert Finds(db, q, found.value);
        LookupFinds(db.records, db.employees[q.code], DateOf(TimeOf(q), OffsetOf(db, q)));
      }
    }
  }

  /**
    Refusals, exactly: from any well-formed tables and with any failures, each error answers its own cause and no other;
    a request is answered with success exactly when nothing it depends on is in its way; and what is left over,
    a call that fails, is reported as a storage failure.
   */
  lemma RefusedExactly(db: Db, q: Request)
    requires Wf(db)
    ensures InputRefusals(db, q, Answer(db, q)) && RowRefusals(db, q, Answer(db, q))
    ensures !Answer(db, q).Failed? <==> GoesThrough(db, q)
  {
    InputRefusedExactly(db, q);
    RowRefusedExactly(db, q);
    GoesThroughExactly(db, q);
  }

  // ---- replies ----

  /** The effective time of a clock-out. */
  function ClockOutTime(q: Request): int
    requires q.call.ClockOut?
  {
    if q.call.client.At? then q.call.client.instant else q.now
  }

  /** Of the record's breaks without an end, the one with the least key. */
  ghost predicate FirstOpen(db: Db, r: Record, b: Break) {
    && b in db.breaks && b.record == r.id && b.endAt.None?
    && forall x :: x in db.breaks && x.record == r.id && x.endAt.None? ==> b.id <= x.id
  }

  /** The minutes the open break of a shift on break has lasted. */
  ghost predicate OpenMinutes(db: Db, r: Record, now: int, m: int) {
    if r.status.OnBreak? && HasOpen(db, r) then exists b :: FirstOpen(db, r, b) && WholeMinutes(now - b.startAt, m)
    else m == 0
  }

  /** Elapsed time less the ended breaks and less the open one of a shift on break, each cut to whole minutes. */
  ghost predicate PreviewNet(db: Db, r: Record, now: int, minutes: int) {
    exists o :: OpenMinutes(db, r, now, o) && NetOf(minutes, now - r.clockInAt, ClosedTicks(Spans(db.breaks, r.id)), o)
  }

  ghost predicate PreviewOf(db: Db, q: Request, r: Record, a: Reply) {
    && a.PreviewReply? && a.currentTime == q.now && a.scheduledOutAt == r.scheduledOutAt
    && OvertimeFor(a.overtimeMinutes, r.scheduledOutAt, q.now) && PreviewNet(db, r, q.now, a.workingMinutes)
  }

  ghost predicate ClockOutOf(q: Request, r: Record, a: Reply, after: Db)
    requires q.call.ClockOut?
  {
    && a.ClockOutReply? && a.clockOutAt == ClockOutTime(q) && a.status.ClockedOut? && a.offline == q.call.client.At?
    && OvertimeFor(a.overtimeMinutes, r.scheduledOutAt, a.clockOutAt)
    && NetMinutes(a.workingMinutes, a.clockOutAt - r.clockInAt, ClosedTicks(Spans(after.breaks, r.id)))
  }

  ghost predicate StatusOfRow(db: Db, r: Record, a: Reply) {
    && a.StatusReply? && a.status == r.status && a.attendanceId == Some(r.id) && a.since == Some(r.clockInAt)
    && a.until == r.clockOutAt && a.notes == r.notes && a.onBreak == r.status.OnBreak?
    && if a.onBreak && HasOpen(db, r) then exists b :: FirstOpen(db, r, b) && a.openBreakStartAt == Some(b.startAt)
       else a.openBreakStartAt.None?
  }

  /** What a request answers that goes through. */
  ghost predicate Replies(db: Db, q: Request, a: Reply, after: Db) {
    match q.call
    case ClockIn(_) => a == ClockInReply(q.newId, q.now, ClockedIn)
    case ToggleBreak(x) => a == BreakReply(x, q.now, if x == "start" then OnBreak else ClockedIn)
    case Preview => forall r :: Finds(db, q, r) ==> PreviewOf(db, q, r, a)
    case ClockOut(_, _) => forall r :: Finds(db, q, r) ==> ClockOutOf(q, r, a, after)
    case TodayStatus =>
      && (FindsNone(db, q) ==> a == StatusReply(Idle, None, None, None, None, false, None))
      && (forall r :: Finds(db, q, r) ==> StatusOfRow(db, r, a))
  }

  lemma WorkingIsNet(clockIn: int, out: int, ticks: int)
    ensures NetMinutes(WorkingMinutes(clockIn, out, ticks), out - clockIn, ticks)
  {
    TruncIsWholeMinutes(out - clockIn, TruncMinutes(out - clockIn));
    TruncIsWholeMinutes(ticks, TruncMinutes(ticks));
  }

  lemma PreviewIsNet(db: Db, r: Record, now: int)
    ensures var open := OpenBreak(db.breaks, r.id);
            var since := if r.status.OnBreak? && open.Some? then Some(open.value.startAt) else None;
            PreviewNet(db, r, now, PreviewMinutes(r.clockInAt, now, SumTicks(db.breaks, r.id), since))
  {
    OpenRow(db, r);
    OpenBreakFinds(db.breaks, r.id);
    SumIsClosedTicks(db.breaks, r.id);
    var open, closed := OpenBreak(db.breaks, r.id), ClosedTicks(Spans(db.breaks, r.id));
    var p, c := TruncMinutes(now - r.clockInAt), TruncMinutes(closed);
    var o := if r.status.OnBreak? && open.Some? then TruncMinutes(now - open.value.startAt) else 0;
    TruncIsWholeMinutes(now - r.clockInAt, p);
    TruncIsWholeMinutes(closed, c);
    if r.status.OnBreak? && open.Some? {
      TruncIsWholeMinutes(now - open.value.startAt, o);
      assert FirstOpen(db, r, open.value);
    }
    assert OpenMinutes(db, r, now, o);
  }

  lemma PreviewReplies(db: Db, q: Request, r: Record)
    requires Wf(db) && Finds(db, q, r) && q.call.Preview? && !Answer(db, q).Failed?
    ensures PreviewOf(db, q, r, Answer(db, q))
  {
    FoundRow(db, q);
    PreviewIsNet(db, r, q.now);
    StoredOvertime(r.scheduledOutAt, q.now);
  }

  lemma ClockOutReplies(db: Db, q: Request, r: Record)
    requires Wf(db) && Finds(db, q, r) && q.call.ClockOut? && !Answer(db, q).Failed?
    ensures ClockOutOf(q, r, Answer(db, q), Step(db, q))
  {
    FoundRow(db, q);
    var t := ClockOutTime(q);
    var after := Step(db, q);
    SumIsClosedTicks(after.breaks, r.id);
    WorkingIsNet(r.clockInAt, t, SumTicks(after.breaks, r.id));
    StoredOvertime(r.scheduledOutAt, t);
  }

  lemma TodayReplies(db: Db, q: Request, r: Record)
    requires Wf(db) && Finds(db, q, r) && q.call.TodayStatus? && !Answer(db, q).Failed?
    ensures StatusOfRow(db, r, Answer(db, q))
  {
    FoundRow(db, q);
    OpenRow(db, r);
    OpenBreakFinds(db.breaks, r.id);
    if HasOpen(db, r) {
      assert FirstOpen(db, r, OpenBreak(db.breaks, r.id).value);
    }
  }

  /**
    Replies, exactly: what every request that goes through answers, from the columns of the record it finds,
    with any state of the other rows.
   */
  lemma RepliesExactly(db: Db, q: Request)
    requires Wf(db) && !Answer(db, q).Failed?
    ensures Replies(db, q, Answer(db, q), Step(db, q))
  {
    match q.call
    case ClockIn(_) =>
    case ToggleBreak(_) =>
    case Preview =>
      forall r | Finds(db, q, r) ensures PreviewOf(db, q, r, Answer(db, q)) {
        PreviewReplies(db, q, r);
      }
    case ClockOut(_, _) =>
      forall r | Finds(db, q, r) ensures ClockOutOf(q, r, Answer(db, q), Step(db, q)) {
        ClockOutReplies(db, q, r);
      }
    case TodayStatus =>
      if FindsNone(db, q) {
        FoundRow(db, q);
      }
      forall r | Finds(db, q, r) ensures StatusOfRow(db, r, Answer(db, q)) {
        TodayReplies(db, q, r);
      }
  }

  // ---- writes ----

  /** The status column of one row, and nothing else. */
  ghost predicate OnlyStatusSet(rows: seq<Record>, rows': seq<Record>, id: nat, s: Status) {
    && |rows'| == |rows|
    && forall i :: 0 <= i < |rows| ==> rows'[i] == if rows[i].id == id then rows[i].(status := s) else rows[i]
  }

  /** Every break of one record that had no end, and nothing else. */
  ghost predicate OnlyEnded(rows: seq<Break>, rows': seq<Break>, record: nat, t: int) {
    && |rows'| == |rows|
    && forall i :: 0 <= i < |rows| ==>
         rows'[i] == if rows[i].record == record && rows[i].endAt.None? then rows[i].(endAt := Some(t)) else rows[i]
  }

  /** The row of a clock-in, but for its schedule columns. */
  ghost predicate BornAs(db: Db, q: Request, x: Record)
    requires q.call.ClockIn? && q.code in db.employees
  {
    && x.id == q.newId && x.employee == db.employees[q.code] && x.workDate == DateOf(q.now, db.offset)
    && x.status.ClockedIn? && x.clockInAt == q.now && x.notes == q.call.notes && !x.offline
    && x.clockOutAt.None? && x.workingMinutes.None? && x.overtimeMinutes.None?
  }

  /** The row of a clock-out: the outcome columns from the breaks as they then are, the rest as it was. */
  ghost predicate ClosedAs(q: Request, r: Record, x: Record, breaks: seq<Break>)
    requires q.call.ClockOut?
  {
    && SameBirth(r, x) && x.status.ClockedOut? && x.clockOutAt == Some(ClockOutTime(q)) && x.offline == q.call.client.At?
    && x.notes == (if q.call.notes.Some? then q.call.notes else r.notes)
    && x.workingMinutes.Some? && x.overtimeMinutes.Some?
    && NetMinutes(x.workingMinutes.value, ClockOutTime(q) - r.clockInAt, ClosedTicks(Spans(breaks, r.id)))
    && OvertimeFor(x.overtimeMinutes.value, r.scheduledOutAt, ClockOutTime(q))
  }

  ghost predicate OnlyClosed(q: Request, rows: seq<Record>, rows': seq<Record>, r: Record, breaks: seq<Break>)
    requires q.call.ClockOut?
  {
    && |rows'| == |rows|
    && forall i :: 0 <= i < |rows| ==> if rows[i].id == r.id then ClosedAs(q, r, rows'[i], breaks) else rows'[i] == rows[i]
  }

  /** A clock-in inserts its row when it gets that far and the insert takes effect. */
  ghost predicate ClockInWrites(db: Db, q: Request, after: Db)
    requires q.call.ClockIn?
  {
    && after.breaks == db.breaks
    && if FindsNone(db, q) && !q.faults.schedule && q.faults.insertRecord.Applied() && UnusedRecordId(db, q.newId)
       then |after.records| == |db.records| + 1 && after.records[..|db.records|] == db.records
            && BornAs(db, q, after.records[|db.records|])
       else after.records == db.records
  }

  /** A break start inserts its row, and marks the status only when the insert was acknowledged. */
  ghost predicate StartWrites(db: Db, q: Request, r: Record, after: Db) {
    var inserts := r.status.ClockedIn? && q.faults.insertBreak.Applied() && UnusedBreakId(db, q.newId);
    && after.breaks == db.breaks + (if inserts then [Break(q.newId, r.id, q.now, None)] else [])
    && if inserts && q.faults.insertBreak.Done? && q.faults.setStatus.Applied()
       then OnlyStatusSet(db.records, after.records, r.id, OnBreak) else after.records == db.records
  }

  /** A break end ends every open break, and marks the status only when that was acknowledged. */
  ghost predicate EndWrites(db: Db, q: Request, r: Record, after: Db) {
    var ends := HasOpen(db, r) && !q.faults.openBreak && q.faults.endBreaks.Applied();
    && (if ends then OnlyEnded(db.breaks, after.breaks, r.id, q.now) else after.breaks == db.breaks)
    && if ends && q.faults.endBreaks.Done? && q.faults.setStatus.Applied()
       then OnlyStatusSet(db.records, after.records, r.id, ClockedIn) else after.records == db.records
  }

  /** A clock-out ends the breaks of a shift on break, and writes the outcome only when that and the sum succeeded. */
  ghost predicate ClockOutWrites(db: Db, q: Request, r: Record, after: Db)
    requires q.call.ClockOut?
  {
    var ends := r.status.OnBreak? && q.faults.endBreaks.Applied();
    var writes := (r.status.OnBreak? ==> q.faults.endBreaks.Done?) && !q.faults.sum && q.faults.closeRecord.Applied();
    && (if ends then OnlyEnded(db.breaks, after.breaks, r.id, ClockOutTime(q)) else after.breaks == db.breaks)
    && if writes then OnlyClosed(q, db.records, after.records, r, after.breaks) else after.records == db.records
  }

  /** The tables a request leaves behind. */
  ghost predicate Writes(db: Db, q: Request, after: Db) {
    && (after.offset, after.employees, after.schedules) == (db.offset, db.employees, db.schedules)
    && (q.call.ClockIn? ==> ClockInWrites(db, q, after))
    && (!q.call.ClockIn? && (forall r :: !FindsRunning(db, q, r)) ==> after == db)
    && (q.call.Preview? || q.call.TodayStatus? ==> after == db)
    && forall r :: FindsRunning(db, q, r) ==>
         && (q.call == ToggleBreak("start") ==> StartWrites(db, q, r, after))
         && (q.call == ToggleBreak("end") ==> EndWrites(db, q, r, after))
         && (q.call.ClockOut? ==> ClockOutWrites(db, q, r, after))
  }

  lemma ClockInWritten(db: Db, q: Request)
    requires Wf(db) && q.call.ClockIn?
    ensures ClockInWrites(db, q, Step(db, q))
  {
    UnusedIds(db, q.newId);
    if Known(db, q) && !q.faults.lookup {
      FoundRow(db, q);
      LookupNone(db.records, db.employees[q.code], DateOf(q.now, db.offset));
      if !FindsNone(db, q) {
        assert exists r :: Finds(db, q, r);
      }
    }
  }

  lemma StartWritten(db: Db, q: Request, r: Record)
    requires Wf(db) && q.call == ToggleBreak("start") && FindsRunning(db, q, r)
    ensures StartWrites(db, q, r, Step(db, q))
  {
    FoundRow(db, q);
    UnusedIds(db, q.newId);
  }

  lemma EndWritten(db: Db, q: Request, r: Record)
    requires Wf(db) && q.call == ToggleBreak("end") && FindsRunning(db, q, r)
    ensures EndWrites(db, q, r, Step(db, q))
  {
    FoundRow(db, q);
    OpenRow(db, r);
  }

  lemma ClosedRow(r: Record, q: Request, s: Stamp, breaks: seq<Break>, k: Record, x: Record)
    requires q.call.ClockOut? && s.at == ClockOutTime(q) && s.offline == q.call.client.At?
    requires k == Closed(r, s, WorkingMinutes(r.clockInAt, s.at, SumTicks(breaks, r.id)),
                         OvertimeMinutes(r.scheduledOutAt, s.at), q.call.notes)
    requires x == Changed(r, Close(k))
    ensures ClosedAs(q, r, x, breaks)
  {
    SumIsClosedTicks(breaks, r.id);
    WorkingIsNet(r.clockInAt, s.at, SumTicks(breaks, r.id));
    StoredOvertime(r.scheduledOutAt, s.at);
  }

  lemma LeaveWritten(db: Db, q: Request, r: Record, s: Stamp)
    requires Wf(db) && r in db.records && q.call.ClockOut? && s.at == ClockOutTime(q) && s.offline == q.call.client.At?
    ensures ClockOutWrites(db, q, r, Patch(db, DecideLeave(db, r, s, q.call.notes, q.faults).0))
  {
    var d := DecideLeave(db, r, s, q.call.notes, q.faults).0;
    var after := Patch(db, d);
    if d.sealed.Some? {
      forall i | 0 <= i < |db.records| && db.records[i].id == r.id ensures ClosedAs(q, r, after.records[i], after.breaks) {
        OneRowPerId(db.records, db.records[i], r);
        ClosedRow(r, q, s, after.breaks, d.sealed.value, after.records[i]);
      }
    }
  }

  lemma ClockOutWritten(db: Db, q: Request, r: Record)
    requires Wf(db) && q.call.ClockOut? && FindsRunning(db, q, r)
    ensures ClockOutWrites(db, q, r, Step(db, q))
  {
    FoundRow(db, q);
    LeaveWritten(db, q, r, Effective(q.now, db.offset, q.call.client).value);
  }

  lemma NothingWritten(db: Db, q: Request)
    requires Wf(db) && !q.call.ClockIn? && forall r :: !FindsRunning(db, q, r)
    ensures Step(db, q) == db
  {
    if Known(db, q) && !q.faults.lookup {
      FoundRow(db, q);
      var found := Lookup(db.records, db.employees[q.code], DateOf(TimeOf(q), OffsetOf(db, q)));
      if found.Some? {
        OneRowFound(db, q, found.value);
        assert !FindsRunning(db, q, found.value);
      }
    }
  }

  /**
    Writes, exactly: from any well-formed tables and with any failures, the rows a request inserts and the columns it
    changes, each exactly when the calls before it were acknowledged and its own took effect; no other row or column changes.
   */
  lemma WritesExactly(db: Db, q: Request)
    requires Wf(db)
    ensures Writes(db, q, Step(db, q))
  {
    if q.call.ClockIn? {
      ClockInWritten(db, q);
    } else if forall r :: !FindsRunning(db, q, r) {
      NothingWritten(db, q);
    }
    forall r | FindsRunning(db, q, r)
      ensures q.call == ToggleBreak("start") ==> StartWrites(db, q, r, Step(db, q))
      ensures q.call == ToggleBreak("end") ==> EndWrites(db, q, r, Step(db, q))
      ensures q.call.ClockOut? ==> ClockOutWrites(db, q, r, Step(db, q))
    {
      if q.call == ToggleBreak("start") {
        StartWritten(db, q, r);
      } else if q.call == ToggleBreak("end") {
        EndWritten(db, q, r);
      } else if q.call.ClockOut? {
        ClockOutWritten(db, q, r);
      }
    }
  }
}
