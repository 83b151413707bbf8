/**
  What every request keeps, whatever repository calls fail: table constraints, write-once columns,
  the frozen past, and how far breaks and statuses can drift apart.
 */
module Safety {
  import opened Prelude
  import opened Clock
  import opened Domain
  import opened Tables
  import opened Attendance

  // ---- the invariant of the tables ----

  /** The outcome columns are set together, exactly when the shift is closed. */
  ghost predicate WellFormed(r: Record) {
    && r.status != Idle
    && (r.status.ClockedOut? <==> r.clockOutAt.Some?)
    && (r.status.ClockedOut? <==> r.workingMinutes.Some?)
    && (r.status.ClockedOut? <==> r.overtimeMinutes.Some?)
    && (r.offline ==> r.status.ClockedOut?)
  }

  ghost predicate UniqueBreaks(rows: seq<Break>) {
    forall i, j :: 0 <= i < j < |rows| ==> rows[i].id != rows[j].id
  }

  /** Primary keys, the unique (employee, work date), the foreign key, and well-formed rows. */
  ghost predicate Wf(db: Db) {
    && UniqueRecords(db.records)
    && (forall r :: r in db.records ==> WellFormed(r))
    && UniqueBreaks(db.breaks)
    && (forall b :: b in db.breaks ==> HasId(db.records, b.record))
  }

  lemma OneRowPerId(rows: seq<Record>, r: Record, x: Record)
    requires UniqueRecords(rows) && r in rows && x in rows && r.id == x.id
    ensures r == x
  {
    var i :| 0 <= i < |rows| && rows[i] == r;
    var j :| 0 <= j < |rows| && rows[j] == x;
  }

  lemma DistinctRows(rows: seq<Record>, r: Record, x: Record)
    requires UniqueRecords(rows) && r in rows && x in rows && r != x
    ensures r.id != x.id
  {
    if r.id == x.id {
      OneRowPerId(rows, r, x);
    }
  }

  // ---- what a request may write ----

  ghost predicate OnTarget(db: Db, q: Request, r: Record) {
    q.code in db.employees && Matches(r, db.employees[q.code], DateOf(TimeOf(q), OffsetOf(db, q)))
  }

  function DateFor(db: Db, q: Request): int {
    DateOf(TimeOf(q), OffsetOf(db, q))
  }

  /** The request is aimed at an employee's day. */
  ghost predicate OnKey(db: Db, q: Request, employee: nat, date: int) {
    q.code in db.employees && (employee, date) == (db.employees[q.code], DateFor(db, q))
  }

  ghost predicate SameBirth(r: Record, x: Record) {
    && r.id == x.id && r.employee == x.employee && r.workDate == x.workDate
    && r.clockInAt == x.clockInAt && r.scheduledInAt == x.scheduledInAt && r.scheduledOutAt == x.scheduledOutAt
  }

  /** Every write concerns one running shift: the caller's, on the date of the request's effective time. */
  ghost predicate Fits(db: Db, q: Request, d: Delta) {
    match d
    case Same => true
    case Born(r) =>
      && InsertAllowed(db.records, r) && r == NewRecord(db, r.employee, q.now, r.id, r.notes) && OnTarget(db, q, r)
    case Started(r, b, _) =>
      && r in db.records && r.status.ClockedIn? && OnTarget(db, q, r)
      && b == Break(b.id, r.id, q.now, None) && !HasBreakId(db.breaks, b.id)
    case Ended(r, t, _) =>
      && r in db.records && !r.status.ClockedOut? && OnTarget(db, q, r)
      && t == q.now && OpenBreak(db.breaks, r.id).Some?
    case Left(r, t, ended, sealed) =>
      && r in db.records && !r.status.ClockedOut? && OnTarget(db, q, r)
      && t == TimeOf(q) && (ended ==> r.status.OnBreak?)
      && (sealed.Some? ==> WellFormed(sealed.value) && sealed.value.status.ClockedOut? && SameBirth(r, sealed.value)
                           && (r.status.OnBreak? ==> ended))
  }

  lemma DecideFits(db: Db, q: Request)
    requires Wf(db)
    ensures Fits(db, q, Decide(db, q).0)
  {
    match q.call
    case ClockIn(_) =>
    case ToggleBreak(_) => ToggleFits(db, q);
    case Preview =>
    case ClockOut(_, _) => ClockOutFits(db, q);
    case TodayStatus =>
  }

  /** A running shift is a row of the table, on the date asked for. */
  lemma RunningRow(db: Db, code: string, date: int, f: Faults)
    requires Wf(db) && SeekRunning(db, code, date, f).Success?
    ensures var r := SeekRunning(db, code, date, f).value;
            && code in db.employees && r in db.records && Matches(r, db.employees[code], date)
            && (r.status.ClockedIn? || r.status.OnBreak?)
  {
    LookupFinds(db.records, db.employees[code], date);
  }

  lemma ToggleFits(db: Db, q: Request)
    requires Wf(db) && q.call.ToggleBreak?
    ensures Fits(db, q, Decide(db, q).0)
  {
    var running := SeekRunning(db, q.code, DateOf(q.now, db.offset), q.faults);
    if running.Success? {
      RunningRow(db, q.code, DateOf(q.now, db.offset), q.faults);
    }
  }

  lemma ClockOutFits(db: Db, q: Request)
    requires Wf(db) && q.call.ClockOut?
    ensures Fits(db, q, Decide(db, q).0)
  {
    var running := SeekRunning(db, q.code, DateOf(TimeOf(q), OffsetOf(db, q)), q.faults);
    if running.Success? {
      RunningRow(db, q.code, DateOf(TimeOf(q), OffsetOf(db, q)), q.faults);
    }
  }

  // ---- monotone history of the tables ----

  /** The identity, work date, clock-in time and schedule snapshot never change; a closed row never changes at all. */
  ghost predicate RowEvolves(r: Record, r': Record) {
    SameBirth(r, r') && (r.status.ClockedOut? ==> r' == r)
  }

  /** A break keeps its record and start, and once ended its end. */
  ghost predicate BreakEvolves(b: Break, b': Break) {
    b.id == b'.id && b.record == b'.record && b.startAt == b'.startAt && (b.endAt.Some? ==> b' == b)
  }

  ghost predicate Evolves(db: Db, db': Db) {
    && db.offset == db'.offset && db.employees == db'.employees && db.schedules == db'.schedules
    && |db.records| <= |db'.records| && |db.breaks| <= |db'.breaks|
    && (forall i :: 0 <= i < |db.records| ==> RowEvolves(db.records[i], db'.records[i]))
    && (forall i :: 0 <= i < |db.breaks| ==> BreakEvolves(db.breaks[i], db'.breaks[i]))
    && (forall r :: r in db.records && r.status.ClockedOut? ==> Spans(db'.breaks, r.id) == Spans(db.breaks, r.id))
  }

  lemma UpdateKeepsWf(rows: seq<Record>, r: Record, c: Change)
    requires UniqueRecords(rows) && (forall x :: x in rows ==> WellFormed(x)) && r in rows
    requires c.SetStatus? ==> !r.status.ClockedOut? && c.status != Idle && c.status != ClockedOut
    requires c.Close? ==> WellFormed(c.from) && c.from.status.ClockedOut?
    ensures UniqueRecords(Update(rows, r.id, c))
    ensures forall x :: x in Update(rows, r.id, c) ==> WellFormed(x)
    ensures forall id :: HasId(Update(rows, r.id, c), id) == HasId(rows, id)
  {
    var rows' := Update(rows, r.id, c);
    forall i | 0 <= i < |rows| ensures WellFormed(rows'[i]) {
      assert rows[i] in rows;
      if rows[i].id == r.id {
        OneRowPerId(rows, r, rows[i]);
      }
    }
    forall id ensures HasId(rows', id) == HasId(rows, id) {
      assert forall i :: 0 <= i < |rows| ==> rows'[i].id == rows[i].id;
    }
  }

  lemma InsertKeepsIds(rows: seq<Record>, r: Record)
    ensures forall id :: HasId(rows, id) ==> HasId(rows + [r], id)
    ensures HasId(rows + [r], r.id)
  {
    forall id | HasId(rows, id) ensures HasId(rows + [r], id) {
      var i :| 0 <= i < |rows| && rows[i].id == id;
      assert (rows + [r])[i].id == id;
    }
    assert (rows + [r])[|rows|] == r;
  }

  lemma PatchKeepsWf(db: Db, q: Request, d: Delta)
    requires Wf(db) && Fits(db, q, d)
    ensures Wf(Patch(db, d))
  {
    var db' := Patch(db, d);
    match d
    case Same =>
    case Born(r) =>
      InsertKeepsIds(db.records, r);
    case Started(r, b, marked) =>
      assert HasId(db.records, r.id);
      if marked {
        UpdateKeepsWf(db.records, r, SetStatus(OnBreak));
      }
    case Ended(r, t, marked) =>
      EndKeepsKeys(db, r.id, t);
      if marked {
        UpdateKeepsWf(db.records, r, SetStatus(ClockedIn));
      }
    case Left(r, t, ended, sealed) =>
      EndKeepsKeys(db, r.id, t);
      if sealed.Some? {
        UpdateKeepsWf(db.records, r, Close(sealed.value));
      }
  }

  lemma EndKeepsKeys(db: Db, record: nat, t: int)
    requires Wf(db)
    ensures UniqueBreaks(EndOpen(db.breaks, record, t))
    ensures forall b :: b in EndOpen(db.breaks, record, t) ==> HasId(db.records, b.record)
  {
    var rows' := EndOpen(db.breaks, record, t);
    forall b | b in rows' ensures HasId(db.records, b.record) {
      var i :| 0 <= i < |rows'| && rows'[i] == b;
      assert db.breaks[i] in db.breaks;
    }
  }

  /** No request touches the breaks of a record other than the one it works on. */
  lemma PatchKeepsOtherBreaks(db: Db, q: Request, d: Delta, x: Record)
    requires Wf(db) && Fits(db, q, d) && x in db.records
    requires x.status.ClockedOut? || !OnTarget(db, q, x)
    ensures Spans(Patch(db, d).breaks, x.id) == Spans(db.breaks, x.id)
  {
    match d
    case Same =>
    case Born(_) =>
    case Started(r, b, _) =>
      if r.id == x.id { OneRowPerId(db.records, r, x); }
      SpansAppend(db.breaks, b, x.id);
      assert Spans(db.breaks, x.id) + [] == Spans(db.breaks, x.id);
    case Ended(r, t, _) =>
      if r.id == x.id { OneRowPerId(db.records, r, x); }
      SpansAfterEnd(db.breaks, r.id, t, x.id);
    case Left(r, t, _, _) =>
      if r.id == x.id { OneRowPerId(db.records, r, x); }
      SpansAfterEnd(db.breaks, r.id, t, x.id);
  }

  /** Table constraints, write-once columns and terminal rows, over one request with any faults. */
  lemma StepEvolves(db: Db, q: Request)
    requires Wf(db)
    ensures Wf(Step(db, q)) && Evolves(db, Step(db, q))
  {
    var d := Decide(db, q).0;
    DecideFits(db, q);
    PatchKeepsWf(db, q, d);
    var db' := Patch(db, d);
    forall i | 0 <= i < |db.records| ensures RowEvolves(db.records[i], db'.records[i]) {
      if !d.Same? && !d.Born? && db.records[i].id == d.row.id {
        OneRowPerId(db.records, db.records[i], d.row);
      }
    }
    forall r | r in db.records && r.status.ClockedOut? ensures Spans(db'.breaks, r.id) == Spans(db.breaks, r.id) {
      PatchKeepsOtherBreaks(db, q, d, r);
    }
  }

  lemma EvolvesTransitive(a: Db, b: Db, c: Db)
    requires Evolves(a, b) && Evolves(b, c)
    ensures Evolves(a, c)
  {
    forall i | 0 <= i < |a.records| ensures RowEvolves(a.records[i], c.records[i]) {
      assert RowEvolves(a.records[i], b.records[i]) && RowEvolves(b.records[i], c.records[i]);
    }
    forall i | 0 <= i < |a.breaks| ensures BreakEvolves(a.breaks[i], c.breaks[i]) {
      assert BreakEvolves(a.breaks[i], b.breaks[i]) && BreakEvolves(b.breaks[i], c.breaks[i]);
    }
    forall r | r in a.records && r.status.ClockedOut? ensures Spans(c.breaks, r.id) == Spans(a.breaks, r.id) {
      var i :| 0 <= i < |a.records| && a.records[i] == r;
      assert RowEvolves(a.records[i], b.records[i]);
      assert b.records[i] in b.records;
    }
  }

  /** Terminal and write-once: over every run, with any repository failures anywhere. */
  lemma {:induction false} RunEvolves(db: Db, qs: seq<Request>)
    requires Wf(db)
    ensures Wf(Run(db, qs)) && Evolves(db, Run(db, qs))
  {
    if qs != [] {
      var before := Run(db, qs[..|qs| - 1]);
      RunEvolves(db, qs[..|qs| - 1]);
      StepEvolves(before, qs[|qs| - 1]);
      EvolvesTransitive(db, before, Run(db, qs));
    }
  }

  // ---- the frozen past ----

  /** The server clock is at least the offline window past the end of the date. */
  ghost predicate Beyond(db: Db, q: Request, date: int) {
    q.now >= DayStart(date + 1, OffsetOf(db, q)) + MAX_OFFLINE
  }

  /** A request aimed elsewhere leaves a row and its breaks alone. */
  lemma OffTargetKeepsRow(db: Db, q: Request, r: Record)
    requires Wf(db) && r in db.records && !OnTarget(db, q, r)
    ensures r in Step(db, q).records
    ensures Spans(Step(db, q).breaks, r.id) == Spans(db.breaks, r.id)
  {
    var d := Decide(db, q).0;
    DecideFits(db, q);
    PatchKeepsOtherBreaks(db, q, d, r);
    var i :| 0 <= i < |db.records| && db.records[i] == r;
    if !d.Same? && !d.Born? {
      DistinctRows(db.records, d.row, r);
    }
    assert Step(db, q).records[i] == r;
  }

  lemma FrozenStep(db: Db, q: Request, r: Record)
    requires Wf(db) && r in db.records && Beyond(db, q, r.workDate)
    ensures r in Step(db, q).records
    ensures Spans(Step(db, q).breaks, r.id) == Spans(db.breaks, r.id)
  {
    if OnTarget(db, q, r) {
      DateBounds(TimeOf(q), OffsetOf(db, q));
      assert Effective(q.now, db.offset, if q.call.ClockOut? then q.call.client else Absent).Failure?;
    } else {
      OffTargetKeepsRow(db, q, r);
    }
  }

  /** No run changes a record or its breaks once every request comes more than the offline window after its date. */
  lemma {:induction false} FrozenPast(db: Db, qs: seq<Request>, r: Record)
    requires Wf(db) && r in db.records
    requires forall q :: q in qs ==> Beyond(db, q, r.workDate)
    ensures r in Run(db, qs).records
    ensures Spans(Run(db, qs).breaks, r.id) == Spans(db.breaks, r.id)
  {
    if qs != [] {
      var init, q := qs[..|qs| - 1], qs[|qs| - 1];
      FrozenPast(db, init, r);
      RunEvolves(db, init);
      assert Beyond(db, q, r.workDate);
      FrozenStep(Run(db, init), q, r);
    }
  }

  /** The window is exact: an offline clock-out can reach a date from its first instant until a day after its last. */
  lemma WriteWindow(now: int, offset: int, date: int)
    ensures (exists t :: Effective(now, offset, At(t, offset)).Success? && DateOf(t, offset) == date)
            <==> DayStart(date, offset) <= now < DayStart(date + 1, offset) + MAX_OFFLINE
  {
    if DayStart(date, offset) <= now < DayStart(date + 1, offset) + MAX_OFFLINE {
      var t := if now < DayStart(date + 1, offset) then now else DayStart(date + 1, offset) - 1;
      DateOfUnique(t, offset, date);
      assert Effective(now, offset, At(t, offset)).Success?;
    }
    if t :| Effective(now, offset, At(t, offset)).Success? && DateOf(t, offset) == date {
      DateBounds(t, offset);
    }
  }

  // ---- breaks against statuses, under faults ----

  /** No open break unless on break, and then at most one: for a row, for an employee's day, for all rows. */
  ghost predicate RowAgrees(db: Db, r: Record) {
    OpenCount(Spans(db.breaks, r.id)) <= if r.status.OnBreak? then 1 else 0
  }

  ghost predicate KeyAgrees(db: Db, employee: nat, date: int) {
    var r := Lookup(db.records, employee, date);
    r.Some? ==> RowAgrees(db, r.value)
  }

  ghost predicate BreaksAgree(db: Db) {
    forall r :: r in db.records ==> RowAgrees(db, r)
  }

  /** StartBreak took effect and UpdateStatus did not. */
  predicate HalfStarted(db: Db, q: Request) {
    && q.call == ToggleBreak(BREAK_START)
    && SeekRunning(db, q.code, DateOf(q.now, db.offset), q.faults).Success?
    && SeekRunning(db, q.code, DateOf(q.now, db.offset), q.faults).value.status != OnBreak
    && q.faults.insertBreak.Applied() && !HasBreakId(db.breaks, q.newId)
    && (q.faults.insertBreak.Unacknowledged? || q.faults.setStatus.Refused?)
  }

  /** EndLatestBreak took effect and UpdateStatus did not. */
  predicate HalfEnded(db: Db, q: Request) {
    var running := SeekRunning(db, q.code, DateOf(q.now, db.offset), q.faults);
    && q.call == ToggleBreak(BREAK_END) && running.Success?
    && !q.faults.openBreak && OpenBreak(db.breaks, running.value.id).Some? && q.faults.endBreaks.Applied()
    && (q.faults.endBreaks.Unacknowledged? || q.faults.setStatus.Refused?)
  }

  /** A clock-out ended the break of a shift on break and did not write the outcome. */
  predicate HalfLeft(db: Db, q: Request) {
    && q.call.ClockOut? && Effective(q.now, db.offset, q.call.client).Success?
    && var running := SeekRunning(db, q.code, DateOf(TimeOf(q), OffsetOf(db, q)), q.faults);
       && running.Success? && running.value.status.OnBreak? && q.faults.endBreaks.Applied()
       && (q.faults.endBreaks.Unacknowledged? || q.faults.sum || q.faults.closeRecord.Refused?)
  }

  lemma HalfStartedIs(db: Db, q: Request)
    ensures HalfStarted(db, q) <==> Decide(db, q).0.Started? && !Decide(db, q).0.marked
  {
  }

  lemma HalfEndedIs(db: Db, q: Request)
    ensures HalfEnded(db, q) <==> Decide(db, q).0.Ended? && !Decide(db, q).0.marked
  {
  }

  lemma HalfLeftIs(db: Db, q: Request)
    ensures HalfLeft(db, q) <==>
            var d := Decide(db, q).0;
            d.Left? && d.breaksEnded && d.sealed.None?
  {
  }

  lemma NewRecordHasNoBreaks(db: Db, id: nat)
    requires Wf(db) && !HasId(db.records, id)
    ensures Spans(db.breaks, id) == []
  {
    assert forall b :: b in db.breaks ==> b.record != id;
    NoRowsNoSpans(db.breaks, id);
  }

  lemma {:induction false} NoRowsNoSpans(rows: seq<Break>, id: nat)
    requires forall b :: b in rows ==> b.record != id
    ensures Spans(rows, id) == []
  {
    if rows != [] {
      assert rows[|rows| - 1] in rows;
      NoRowsNoSpans(rows[..|rows| - 1], id);
    }
  }

  /** What a request does to the breaks of each record it leaves behind. */
  lemma SpansAfterPatch(db: Db, q: Request, d: Delta, id: nat)
    requires Wf(db) && Fits(db, q, d)
    ensures var before, after := Spans(db.breaks, id), Spans(Patch(db, d).breaks, id);
            if d.Started? && d.row.id == id then after == before + [Span(q.now, None)]
            else if d.Ended? && d.row.id == id then after == CloseSpans(before, q.now)
            else if d.Left? && d.row.id == id && d.breaksEnded then after == CloseSpans(before, TimeOf(q))
            else after == before
  {
    match d
    case Same =>
    case Born(_) =>
    case Started(r, b, _) =>
      SpansAppend(db.breaks, b, id);
      assert Spans(db.breaks, id) + [] == Spans(db.breaks, id);
    case Ended(r, t, _) => SpansAfterEnd(db.breaks, r.id, t, id);
    case Left(r, t, _, _) => SpansAfterEnd(db.breaks, r.id, t, id);
  }

  /** The request works on the existing record of an employee's day. */
  predicate WorksOn(d: Delta, employee: nat, date: int) {
    !d.Same? && !d.Born? && Matches(d.row, employee, date)
  }

  /** The row a request works on, afterwards. */
  function RowAfter(d: Delta): Record
    requires !d.Same? && !d.Born?
  {
    match d
    case Started(r, _, marked) => if marked then r.(status := OnBreak) else r
    case Ended(r, _, marked) => if marked then r.(status := ClockedIn) else r
    case Left(r, _, _, sealed) => if sealed.Some? then Changed(r, Close(sealed.value)) else r
  }

  /** What a request does to an employee's day: it works on its record, or gives it one, or leaves row and breaks alone. */
  lemma KeyAfter(db: Db, q: Request, d: Delta, employee: nat, date: int)
    requires Wf(db) && Fits(db, q, d)
    ensures var before, after := Lookup(db.records, employee, date), Lookup(Patch(db, d).records, employee, date);
            if WorksOn(d, employee, date) then
              before == Some(d.row) && after == Some(RowAfter(d)) && OnKey(db, q, employee, date)
            else if d.Born? && Matches(d.record, employee, date) then
              before == None && after == Some(d.record) && Spans(Patch(db, d).breaks, d.record.id) == []
            else
              && after == before
              && (before.Some? ==> Spans(Patch(db, d).breaks, before.value.id) == Spans(db.breaks, before.value.id))
  {
    LookupFinds(db.records, employee, date);
    var before := Lookup(db.records, employee, date);
    if before.Some? {
      SpansAfterPatch(db, q, d, before.value.id);
    }
    match d
    case Same =>
    case Born(r) =>
      LookupAfterInsert(db.records, r, employee, date);
      LookupNone(db.records, employee, date);
      NewRecordHasNoBreaks(db, r.id);
    case Started(r, _, _) => RowOfKey(db, r, SetStatus(OnBreak), employee, date);
    case Ended(r, _, _) => RowOfKey(db, r, SetStatus(ClockedIn), employee, date);
    case Left(r, _, _, sealed) =>
      RowOfKey(db, r, if sealed.Some? then Close(sealed.value) else SetStatus(ClockedIn), employee, date);
  }

  /** An update of one row seen from a key: that row's own key, or another that does not notice. */
  lemma RowOfKey(db: Db, r: Record, c: Change, employee: nat, date: int)
    requires Wf(db) && r in db.records
    ensures var before, after := Lookup(db.records, employee, date), Lookup(Update(db.records, r.id, c), employee, date);
            if Matches(r, employee, date) then before == Some(r) && after == Some(Changed(r, c))
            else after == before && (before.Some? ==> before.value.id != r.id)
  {
    LookupFinds(db.records, employee, date);
    LookupIsTheRow(db.records, r);
    LookupAfterUpdate(db.records, r.id, c, employee, date);
    var before := Lookup(db.records, employee, date);
    if before.Some? && before.value.id == r.id {
      OneRowPerId(db.records, before.value, r);
    }
  }

  /**
    Fault tolerance, exactly, for one employee's day and whatever state all others are in: with any failures, a request
    keeps the day's breaks and status in agreement unless it is aimed at the day and starts a break by half.
   */
  lemma KeyAgreesExactly(db: Db, q: Request, employee: nat, date: int)
    requires Wf(db) && KeyAgrees(db, employee, date)
    ensures KeyAgrees(Step(db, q), employee, date) <==> !(OnKey(db, q, employee, date) && HalfStarted(db, q))
  {
    var d := Decide(db, q).0;
    DecideFits(db, q);
    HalfStartedIs(db, q);
    KeyAfter(db, q, d, employee, date);
    AgreesAfter(db, q, d, employee, date);
  }

  lemma AgreesAfter(db: Db, q: Request, d: Delta, employee: nat, date: int)
    requires Wf(db) && Fits(db, q, d) && KeyAgrees(db, employee, date)
    ensures KeyAgrees(Patch(db, d), employee, date) <==> !(WorksOn(d, employee, date) && d.Started? && !d.marked)
  {
    KeyAfter(db, q, d, employee, date);
    if WorksOn(d, employee, date) {
      var ss := Spans(db.breaks, d.row.id);
      SpansAfterPatch(db, q, d, d.row.id);
      OpenCountAppend(ss, Span(q.now, None));
      ClosedHasNoOpen(ss, q.now);
      ClosedHasNoOpen(ss, TimeOf(q));
    }
  }

  /** All rows agree exactly when every employee's day does. */
  lemma AgreeByKey(db: Db)
    requires Wf(db)
    ensures BreaksAgree(db) <==> forall employee, date :: KeyAgrees(db, employee, date)
  {
    forall employee, date | BreaksAgree(db) ensures KeyAgrees(db, employee, date) {
      LookupFinds(db.records, employee, date);
    }
    forall r | r in db.records && KeyAgrees(db, r.employee, r.workDate) ensures RowAgrees(db, r) {
      LookupIsTheRow(db.records, r);
    }
  }

  /** So for all rows at once. */
  lemma BreaksAgreeExactly(db: Db, q: Request)
    requires Wf(db) && BreaksAgree(db)
    ensures BreaksAgree(Step(db, q)) <==> !HalfStarted(db, q)
  {
    StepEvolves(db, q);
    AgreeByKey(db);
    AgreeByKey(Step(db, q));
    forall employee, date
      ensures KeyAgrees(Step(db, q), employee, date) <==> !(OnKey(db, q, employee, date) && HalfStarted(db, q))
    {
      KeyAgreesExactly(db, q, employee, date);
    }
    if HalfStarted(db, q) {
      assert OnKey(db, q, db.employees[q.code], DateFor(db, q));
    }
  }

  /** No request of the run that is aimed at the day is half started. */
  ghost predicate NeverHalfStarted(db: Db, qs: seq<Request>, employee: nat, date: int) {
    qs != [] ==>
      var before, q := Run(db, qs[..|qs| - 1]), qs[|qs| - 1];
      NeverHalfStarted(db, qs[..|qs| - 1], employee, date) && !(OnKey(before, q, employee, date) && HalfStarted(before, q))
  }

  /** The day's breaks and status agree after every request of the run. */
  ghost predicate AlwaysAgrees(db: Db, qs: seq<Request>, employee: nat, date: int) {
    KeyAgrees(Run(db, qs), employee, date) && (qs != [] ==> AlwaysAgrees(db, qs[..|qs| - 1], employee, date))
  }

  /** Over runs: a day's breaks and status agree throughout if and only if no request aimed at it is half started. */
  lemma {:induction false} RunAgreesExactly(db: Db, qs: seq<Request>, employee: nat, date: int)
    requires Wf(db) && KeyAgrees(db, employee, date)
    ensures AlwaysAgrees(db, qs, employee, date) <==> NeverHalfStarted(db, qs, employee, date)
  {
    if qs != [] {
      var init := qs[..|qs| - 1];
      RunAgreesExactly(db, init, employee, date);
      RunEvolves(db, init);
      if AlwaysAgrees(db, init, employee, date) {
        KeyAgreesExactly(Run(db, init), qs[|qs| - 1], employee, date);
      }
    }
  }

  // ---- retry and repair ----

  /** The record of one employee and date is closed and has no open break. */
  ghost predicate ClosedCleanly(db: Db, employee: nat, date: int) {
    var r := Lookup(db.records, employee, date);
    r.Some? && r.value.status.ClockedOut? && OpenCount(Spans(db.breaks, r.value.id)) == 0
  }

  /** A clock-out whose timestamp is acceptable and whose repository calls all succeed. */
  predicate SoundClockOut(db: Db, q: Request) {
    && q.call.ClockOut? && q.faults == NO_FAULTS && q.code in db.employees
    && Effective(q.now, db.offset, q.call.client).Success?
  }

  /** What a clock-out without failures writes to a running row. */
  lemma LeaveDecision(db: Db, r: Record, s: Stamp, notes: Option<string>)
    ensures var (d, reply) := DecideLeave(db, r, s, notes, NO_FAULTS);
            && d.Left? && d.row == r && d.at == s.at && d.breaksEnded == r.status.OnBreak? && d.sealed.Some?
            && d.sealed.value.status.ClockedOut? && reply.ClockOutReply?
  {
  }

  lemma LeaveCloses(db: Db, r: Record, d: Delta)
    requires Lookup(db.records, r.employee, r.workDate) == Some(r)
    requires d.Left? && d.row == r && d.breaksEnded == r.status.OnBreak?
    requires d.sealed.Some? && d.sealed.value.status.ClockedOut?
    ensures ClosedCleanly(Patch(db, d), r.employee, r.workDate) <==>
            r.status.OnBreak? || OpenCount(Spans(db.breaks, r.id)) == 0
  {
    LookupAfterUpdate(db.records, r.id, Close(d.sealed.value), r.employee, r.workDate);
    SpansAfterEnd(db.breaks, r.id, d.at, r.id);
    ClosedHasNoOpen(Spans(db.breaks, r.id), d.at);
  }

  /**
    "A clock-out automatically ends any open break", exactly: from any tables, a clock-out without failures leaves its
    shift closed with no open break if and only if the shift is on break, with however many breaks open, or has none open.
   */
  lemma ClockOutClosesExactly(db: Db, q: Request, r: Record)
    requires Wf(db) && SoundClockOut(db, q) && r in db.records && OnTarget(db, q, r)
    ensures ClosedCleanly(Step(db, q), r.employee, r.workDate) <==>
            r.status.OnBreak? || OpenCount(Spans(db.breaks, r.id)) == 0
    ensures if r.status.ClockedOut? then Answer(db, q) == Failed(AlreadyClockedOut) else Answer(db, q).ClockOutReply?
  {
    LookupIsTheRow(db.records, r);
    if !r.status.ClockedOut? {
      var s := Effective(q.now, db.offset, q.call.client).value;
      LeaveDecision(db, r, s, q.call.notes);
      assert Decide(db, q) == DecideLeave(db, r, s, q.call.notes, NO_FAULTS);
      LeaveCloses(db, r, Decide(db, q).0);
    }
  }

  /** An offline clock-out at `now` carrying instant `t` read at `offset`. */
  function OfflineClockOut(now: int, code: string, t: int, offset: int): Request {
    Request(now, code, 0, ClockOut(At(t, offset), None), NO_FAULTS)
  }

  /** A running shift can still be closed by some offline clock-out exactly while the write window of its date is open. */
  lemma CloseableExactly(db: Db, r: Record, now: int, code: string, offset: int)
    requires Wf(db) && r in db.records && !r.status.ClockedOut?
    requires code in db.employees && db.employees[code] == r.employee
    ensures (exists t :: DateOf(t, offset) == r.workDate && Answer(db, OfflineClockOut(now, code, t, offset)).ClockOutReply?)
            <==> DayStart(r.workDate, offset) <= now < DayStart(r.workDate + 1, offset) + MAX_OFFLINE
  {
    WriteWindow(now, offset, r.workDate);
    LookupIsTheRow(db.records, r);
    forall t | DateOf(t, offset) == r.workDate
      ensures Answer(db, OfflineClockOut(now, code, t, offset)).ClockOutReply? <==>
              Effective(now, offset, At(t, offset)).Success?
    {
      assert Effective(now, db.offset, At(t, offset)) == Effective(now, offset, At(t, offset));
    }
  }

  /** A clock-out that reports success has stored what it reports; it replaces the notes only when given some. */
  lemma ClockOutReplyIsStored(db: Db, q: Request)
    requires Wf(db) && Answer(db, q).ClockOutReply?
    ensures q.call.ClockOut? && q.code in db.employees
    ensures var e, d, reply := db.employees[q.code], DateOf(TimeOf(q), OffsetOf(db, q)), Answer(db, q);
            var before, after := Lookup(db.records, e, d), Lookup(Step(db, q).records, e, d);
            && before.Some? && after.Some? && SameBirth(before.value, after.value)
            && after.value.status == reply.status == ClockedOut
            && after.value.clockOutAt == Some(reply.clockOutAt) && reply.clockOutAt == TimeOf(q)
            && after.value.workingMinutes == Some(reply.workingMinutes)
            && after.value.overtimeMinutes == Some(reply.overtimeMinutes)
            && after.value.offline == reply.offline == q.call.client.At?
            && after.value.notes == if q.call.notes.Some? then q.call.notes else before.value.notes
  {
    var e, d := db.employees[q.code], DateOf(TimeOf(q), OffsetOf(db, q));
    LookupAfterUpdate(db.records, Lookup(db.records, e, d).value.id, Close(Decide(db, q).0.sealed.value), e, d);
  }

  /**
    Retry: after any run in which no break of the day was half started, whatever else failed and for whomever (failed
    clock-outs included, any number of them), a clock-out without failures closes the day's shift cleanly.
    It reports AlreadyClockedOut only if an earlier one took effect.
   */
  lemma {:induction false} ClockOutRetry(db: Db, qs: seq<Request>, q: Request, employee: nat, date: int)
    requires Wf(db) && KeyAgrees(db, employee, date) && NeverHalfStarted(db, qs, employee, date)
    requires Lookup(Run(db, qs).records, employee, date).Some?
    requires OnKey(db, q, employee, date) && SoundClockOut(db, q)
    ensures ClosesOnRetry(Run(db, qs), q, employee, date)
  {
    RunAgreesExactly(db, qs, employee, date);
    RunEvolves(db, qs);
    LookupFinds(Run(db, qs).records, employee, date);
    RetryOutcome(Run(db, qs), q, Lookup(Run(db, qs).records, employee, date).value);
  }

  ghost predicate ClosesOnRetry(db: Db, q: Request, employee: nat, date: int) {
    && ClosedCleanly(Step(db, q), employee, date)
    && (Answer(db, q).ClockOutReply? || Answer(db, q) == Failed(AlreadyClockedOut))
    && (Answer(db, q) == Failed(AlreadyClockedOut) <==> ClosedCleanly(db, employee, date))
  }

  lemma RetryOutcome(db: Db, q: Request, r: Record)
    requires Wf(db) && RowAgrees(db, r) && SoundClockOut(db, q) && r in db.records && OnTarget(db, q, r)
    ensures ClosesOnRetry(db, q, r.employee, r.workDate)
  {
    LookupIsTheRow(db.records, r);
    ClockOutClosesExactly(db, q, r);
  }

  /** The row a record has become after a run. */
  lemma {:induction false} RowLater(db: Db, qs: seq<Request>, r: Record) returns (x: Record)
    requires Wf(db) && r in db.records
    ensures Wf(Run(db, qs)) && x in Run(db, qs).records && SameBirth(r, x)
    ensures Run(db, qs).employees == db.employees && Run(db, qs).offset == db.offset
    ensures r.status.ClockedOut? ==> x == r
  {
    RunEvolves(db, qs);
    var i :| 0 <= i < |db.records| && db.records[i] == r;
    x := Run(db, qs).records[i];
    assert RowEvolves(db.records[i], x);
  }

  /** Ending a break repairs a half-started one: however many are open, and under either running status, none is left. */
  lemma EndRepairs(db: Db, q: Request, r: Record)
    requires Wf(db) && r in db.records && !r.status.ClockedOut? && OnTarget(db, q, r)
    requires q.call == ToggleBreak(BREAK_END) && q.faults == NO_FAULTS
    requires OpenCount(Spans(db.breaks, r.id)) > 0
    ensures Answer(db, q) == BreakReply(BREAK_END, q.now, ClockedIn)
    ensures Lookup(Step(db, q).records, r.employee, r.workDate) == Some(r.(status := ClockedIn))
    ensures OpenCount(Spans(Step(db, q).breaks, r.id)) == 0
  {
    LookupIsTheRow(db.records, r);
    OpenBreakIsOpenSpan(db.breaks, r.id);
    DecideFits(db, q);
    SpansAfterPatch(db, q, Decide(db, q).0, r.id);
    ClosedHasNoOpen(Spans(db.breaks, r.id), q.now);
    LookupAfterUpdate(db.records, r.id, SetStatus(ClockedIn), r.employee, r.workDate);
  }

  /** A row that is `on_break` without an open break. */
  ghost predicate Stuck(db: Db, r: Record) {
    r in db.records && r.status.OnBreak? && OpenCount(Spans(db.breaks, r.id)) == 0
  }

  /** Ending the breaks of a shift on break and failing to go on leaves it stuck, whether by a break end or a clock-out. */
  lemma HalfDoneSticks(db: Db, q: Request)
    requires Wf(db) && (HalfEnded(db, q) || HalfLeft(db, q))
    requires SeekRunning(db, q.code, DateOf(TimeOf(q), OffsetOf(db, q)), q.faults).value.status.OnBreak?
    ensures Stuck(Step(db, q), SeekRunning(db, q.code, DateOf(TimeOf(q), OffsetOf(db, q)), q.faults).value)
  {
    var d := Decide(db, q).0;
    HalfEndedIs(db, q);
    HalfLeftIs(db, q);
    DecideFits(db, q);
    SpansAfterPatch(db, q, d, d.row.id);
    ClosedHasNoOpen(Spans(db.breaks, d.row.id), q.now);
    ClosedHasNoOpen(Spans(db.breaks, d.row.id), TimeOf(q));
  }

  /** Both break actions are refused on a stuck row, whatever fails, and change nothing. */
  lemma StuckOnBreak(db: Db, q: Request, r: Record)
    requires Wf(db) && Stuck(db, r) && OnTarget(db, q, r) && q.call.ToggleBreak?
    ensures Step(db, q) == db && Answer(db, q).Failed?
    ensures q.faults == NO_FAULTS && q.call.action == BREAK_START ==> Answer(db, q) == Failed(AlreadyOnBreak)
    ensures q.faults == NO_FAULTS && q.call.action == BREAK_END ==> Answer(db, q) == Failed(NotOnBreak)
  {
    LookupIsTheRow(db.records, r);
    OpenBreakIsOpenSpan(db.breaks, r.id);
  }

  lemma StuckStep(db: Db, q: Request, r: Record)
    requires Wf(db) && Stuck(db, r) && !(q.call.ClockOut? && OnTarget(db, q, r))
    ensures Stuck(Step(db, q), r)
  {
    if OnTarget(db, q, r) {
      LookupIsTheRow(db.records, r);
      if q.call.ToggleBreak? {
        StuckOnBreak(db, q, r);
      }
    } else {
      OffTargetKeepsRow(db, q, r);
    }
  }

  /**
    A stuck row stays stuck over every run, whatever fails, until a clock-out is aimed at it:
    every break action after such a run is refused and changes nothing.
   */
  lemma {:induction false} StuckUntilClockOut(db: Db, qs: seq<Request>, r: Record, q: Request)
    requires Wf(db) && Stuck(db, r)
    requires forall x :: x in qs && x.call.ClockOut? ==> !OnTarget(db, x, r)
    ensures Wf(Run(db, qs)) && Stuck(Run(db, qs), r)
    ensures OnTarget(db, q, r) && q.call.ToggleBreak? ==>
              Step(Run(db, qs), q) == Run(db, qs) && Answer(Run(db, qs), q).Failed?
  {
    RunEvolves(db, qs);
    if qs != [] {
      StuckUntilClockOut(db, qs[..|qs| - 1], r, q);
      RunEvolves(db, qs[..|qs| - 1]);
      assert qs[|qs| - 1] in qs;
      StuckStep(Run(db, qs[..|qs| - 1]), qs[|qs| - 1], r);
    }
    if OnTarget(db, q, r) && q.call.ToggleBreak? {
      StuckOnBreak(Run(db, qs), q, r);
    }
  }

  /** A clock-out of a shift that is not `on_break` leaves its break rows alone. */
  lemma ClockOutSkipsBreaks(db: Db, q: Request, r: Record)
    requires Wf(db) && SoundClockOut(db, q) && OnTarget(db, q, r)
    requires r in db.records && r.status.ClockedIn?
    ensures Spans(Step(db, q).breaks, r.id) == Spans(db.breaks, r.id)
    ensures exists x :: x in Step(db, q).records && SameBirth(r, x) && x.status.ClockedOut?
  {
    LookupIsTheRow(db.records, r);
    var i :| 0 <= i < |db.records| && db.records[i] == r;
    var x := Step(db, q).records[i];
    assert x in Step(db, q).records && SameBirth(r, x) && x.status.ClockedOut?;
  }

  /** A half-started break is not ended by clocking out: it stays open in the closed shift for good. */
  lemma {:induction false} HalfStartedSurvivesClockOut(db: Db, q: Request, r: Record, qs: seq<Request>)
    requires Wf(db) && SoundClockOut(db, q) && OnTarget(db, q, r)
    requires r in db.records && r.status.ClockedIn? && OpenCount(Spans(db.breaks, r.id)) > 0
    ensures var after := Run(Step(db, q), qs);
            && Lookup(after.records, r.employee, r.workDate).Some?
            && Lookup(after.records, r.employee, r.workDate).value.status.ClockedOut?
            && OpenCount(Spans(after.breaks, r.id)) == OpenCount(Spans(db.breaks, r.id))
  {
    ClockOutSkipsBreaks(db, q, r);
    StepEvolves(db, q);
    var x :| x in Step(db, q).records && SameBirth(r, x) && x.status.ClockedOut?;
    TerminalRow(Step(db, q), qs, x);
  }

  /** A closed row is found unchanged, with its breaks, after any run. */
  lemma {:induction false} TerminalRow(db: Db, qs: seq<Request>, r: Record)
    requires Wf(db) && r in db.records && r.status.ClockedOut?
    ensures Lookup(Run(db, qs).records, r.employee, r.workDate) == Some(r)
    ensures Spans(Run(db, qs).breaks, r.id) == Spans(db.breaks, r.id)
  {
    var x := RowLater(db, qs, r);
    RunEvolves(db, qs);
    LookupIsTheRow(Run(db, qs).records, x);
  }
}
