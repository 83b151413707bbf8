/**
  What the minute arithmetic of preview and clock-out guarantees, although both truncate
  toward zero, in different orders, and a clock-out may carry an earlier client time.
 */
module Minutes {
  import opened Prelude
  import opened Clock
  import opened Domain
  import opened Tables
  import opened Shifts
  import opened Attendance
  import opened Safety
  import opened Ledger
  import opened DailyBound

  // ---- preview against clock-out ----

  /** Two requests of one employee at one instant without faults: a preview, and a clock-out at server time. */
  ghost predicate SameInstant(db: Db, p: Request, c: Request) {
    && p.call.Preview? && c.call.ClockOut? && c.call.client.Absent?
    && p.now == c.now && p.code == c.code && p.faults == NO_FAULTS && c.faults == NO_FAULTS
  }

  /** No duration of the shift is negative at `now`, and at most one break is open, only while on break. */
  ghost predicate Forward(db: Db, r: Record, now: int) {
    var spans := Spans(db.breaks, r.id);
    && r.clockInAt <= now && ClosedTicks(spans) >= 0
    && OpenCount(spans) <= (if r.status.OnBreak? then 1 else 0)
    && forall s :: s in spans && s.end.None? ==> s.start <= now
  }

  /** Whole-minute remainders of the ended breaks and of the open break add up to a minute. */
  predicate Carries(closed: int, open: int) {
    closed % MINUTE + open % MINUTE >= MINUTE
  }

  lemma SeparateTruncation(clockIn: int, now: int, closed: int, since: Option<int>)
    requires closed >= 0 && (since.Some? ==> since.value <= now)
    ensures var preview := PreviewMinutes(clockIn, now, closed, since);
            preview == WorkingMinutes(clockIn, now, if since.Some? then closed + (now - since.value) else closed) +
            if since.Some? && Carries(closed, now - since.value) && preview > 0 then 1 else 0
  {
    if since.Some? {
      TruncSplit(closed, now - since.value);
    }
  }

  /** The start of the open break a preview looks at. */
  function OpenSince(db: Db, r: Record): Option<int> {
    var open := OpenBreak(db.breaks, r.id);
    if r.status.OnBreak? && open.Some? then Some(open.value.startAt) else None
  }

  lemma PreviewAnswer(db: Db, q: Request, r: Record)
    requires Wf(db) && r in db.records && !r.status.ClockedOut? && OnTarget(db, q, r)
    requires q.call.Preview? && q.faults == NO_FAULTS
    ensures Answer(db, q) == PreviewReply(
              PreviewMinutes(r.clockInAt, q.now, ClosedTicks(Spans(db.breaks, r.id)), OpenSince(db, r)),
              OvertimeMinutes(r.scheduledOutAt, q.now), r.scheduledOutAt, q.now)
  {
    LookupIsTheRow(db.records, r);
    SumIsClosedTicks(db.breaks, r.id);
  }

  /** The break total a clock-out at `now` adds up to. */
  lemma TicksAtClockOut(db: Db, r: Record, now: int)
    requires Forward(db, r, now)
    ensures var closed, since := ClosedTicks(Spans(db.breaks, r.id)), OpenSince(db, r);
            SumTicks(if r.status.OnBreak? then EndOpen(db.breaks, r.id, now) else db.breaks, r.id) ==
            if since.Some? then closed + (now - since.value) else closed
  {
    var spans := Spans(db.breaks, r.id);
    SumIsClosedTicks(db.breaks, r.id);
    SumIsClosedTicks(EndOpen(db.breaks, r.id, now), r.id);
    SpansAfterEnd(db.breaks, r.id, now, r.id);
    OpenBreakIsOpenSpan(db.breaks, r.id);
    if OpenSince(db, r).Some? {
      CloseOneTicks(spans, OpenSince(db, r).value, now);
    } else {
      ClosedHasNoOpen(spans, now);
    }
  }

  lemma ClockOutAnswer(db: Db, q: Request, r: Record)
    requires Wf(db) && r in db.records && !r.status.ClockedOut? && OnTarget(db, q, r)
    requires q.call.ClockOut? && q.call.client.Absent? && q.faults == NO_FAULTS
    ensures var breaks := if r.status.OnBreak? then EndOpen(db.breaks, r.id, q.now) else db.breaks;
            Answer(db, q) == ClockOutReply(q.now, WorkingMinutes(r.clockInAt, q.now, SumTicks(breaks, r.id)),
                                           OvertimeMinutes(r.scheduledOutAt, q.now), ClockedOut, false)
  {
    LookupIsTheRow(db.records, r);
  }

  /** A clock-out at server time stores the shift less what its breaks add up to, the open one included. */
  lemma ClockOutWithOpenBreak(db: Db, q: Request, r: Record)
    requires Wf(db) && r in db.records && !r.status.ClockedOut? && Forward(db, r, q.now) && OnTarget(db, q, r)
    requires q.call.ClockOut? && q.call.client.Absent? && q.faults == NO_FAULTS
    ensures var closed, since := ClosedTicks(Spans(db.breaks, r.id)), OpenSince(db, r);
            var total := if since.Some? then closed + (q.now - since.value) else closed;
            Answer(db, q) == ClockOutReply(q.now, WorkingMinutes(r.clockInAt, q.now, total),
                                           OvertimeMinutes(r.scheduledOutAt, q.now), ClockedOut, false)
  {
    ClockOutAnswer(db, q, r);
    TicksAtClockOut(db, r, q.now);
  }

  /**
    Preview and clock-out of the same state at the same instant: the same overtime; the same working minutes,
    except that on an open break the preview is one minute higher exactly when the separately truncated
    remainders carry and the preview is not zero.
   */
  lemma PreviewAgainstClockOut(db: Db, p: Request, c: Request, r: Record)
    requires Wf(db) && r in db.records && !r.status.ClockedOut? && Forward(db, r, p.now)
    requires SameInstant(db, p, c) && OnTarget(db, p, r)
    ensures Answer(db, p).PreviewReply? && Answer(db, c).ClockOutReply?
    ensures Answer(db, p).overtimeMinutes == Answer(db, c).overtimeMinutes
    ensures var closed, since := ClosedTicks(Spans(db.breaks, r.id)), OpenSince(db, r);
            Answer(db, p).workingMinutes == Answer(db, c).workingMinutes +
            if since.Some? && Carries(closed, p.now - since.value) && Answer(db, p).workingMinutes > 0 then 1 else 0
  {
    PreviewAnswer(db, p, r);
    ClockOutWithOpenBreak(db, c, r);
    OpenSinceBefore(db, r, p.now);
    SeparateTruncation(r.clockInAt, p.now, ClosedTicks(Spans(db.breaks, r.id)), OpenSince(db, r));
  }

  lemma OpenSinceBefore(db: Db, r: Record, now: int)
    requires Forward(db, r, now)
    ensures OpenSince(db, r).Some? ==> OpenSince(db, r).value <= now
  {
    OpenBreakIsOpenSpan(db.breaks, r.id);
  }

  /**
    Every running shift of a sound run goes forward, so preview and clock-out compare as above throughout such runs,
    whatever else fails in them.
   */
  lemma {:induction false} RunningGoesForward(db: Db, qs: seq<Request>, r: Record, now: int)
    requires SoundRun(db, qs, r.employee, r.workDate) && r in Run(db, qs).records && !r.status.ClockedOut?
    requires forall q :: q in qs ==> q.now <= now
    ensures Wf(Run(db, qs)) && Forward(Run(db, qs), r, now)
  {
    RunStaysSound(db, qs, r.employee, r.workDate, now);
    LookupIsTheRow(Run(db, qs).records, r);
    OnwardTicks(Spans(Run(db, qs).breaks, r.id));
  }

  // ---- a break does not accrue work ----

  /** The preview of a running shift, before and after the clamp. */
  lemma PreviewOfRunning(db: Db, q: Request, r: Record, last: int)
    requires Wf(db) && r in db.records && !r.status.ClockedOut? && Running(db, r, last)
    requires q.call.Preview? && q.faults == NO_FAULTS && OnTarget(db, q, r) && last <= q.now
    ensures var closed := ClosedTicks(Spans(db.breaks, r.id));
            && 0 <= closed <= last - r.clockInAt
            && Answer(db, q) == PreviewReply(
                 PreviewMinutes(r.clockInAt, q.now, closed, if r.status.OnBreak? then Some(last) else None),
                 OvertimeMinutes(r.scheduledOutAt, q.now), r.scheduledOutAt, q.now)
  {
    PreviewAnswer(db, q, r);
    OpenBreakIsOpenSpan(db.breaks, r.id);
    NestedTicks(Spans(db.breaks, r.id), r.clockInAt, last);
  }

  /** The working minutes fixed when a break began: those of the shift up to the start of the break. */
  function FrozenMinutes(clockIn: int, start: int, closed: int): int {
    TruncMinutes(start - clockIn) - TruncMinutes(closed)
  }

  lemma FreezeArithmetic(clockIn: int, start: int, closed: int, now: int)
    requires 0 <= closed <= start - clockIn && start <= now
    ensures var k := FrozenMinutes(clockIn, start, closed);
            && 0 <= k == PreviewMinutes(clockIn, start, closed, None)
            && PreviewMinutes(clockIn, now, closed, Some(start)) ==
               k + if Carries(start - clockIn, now - start) then 1 else 0
  {
    TruncSplit(start - clockIn, now - start);
    TruncMonotone(closed, start - clockIn);
  }

  lemma {:induction false} CleanPrefix(db: Db, qs: seq<Request>, later: seq<Request>, employee: nat, date: int)
    requires CleanRun(db, qs + later, employee, date)
    ensures CleanRun(db, qs, employee, date)
  {
    if later == [] {
      assert qs + later == qs;
    } else {
      assert (qs + later)[..|qs + later| - 1] == qs + later[..|later| - 1];
      CleanPrefix(db, qs, later[..|later| - 1], employee, date);
    }
  }

  lemma HistoryOneMore(db: Db, qs: seq<Request>, q: Request, employee: nat, date: int)
    ensures History(db, qs + [q], employee, date) ==
            History(db, qs, employee, date) + EventFor(Run(db, qs), q, employee, date)
  {
    assert (qs + [q])[..|qs|] == qs;
  }

  /** Requests `qs`, an accepted break start `s`, and `later` requests that add no event: the same break is still open. */
  ghost predicate StillOpen(db: Db, qs: seq<Request>, s: Request, later: seq<Request>, employee: nat, date: int) {
    && CleanRun(db, qs + [s] + later, employee, date)
    && EventFor(Run(db, qs), s, employee, date) == [Event(Start, s.now)]
    && History(db, qs + [s] + later, employee, date) == History(db, qs + [s], employee, date)
  }

  /** The row while that break is open, against the row it began on. */
  ghost predicate OnThatBreak(before: Db, r: Record, after: Db, x: Record, start: int) {
    && x.status.OnBreak? && x.clockInAt == r.clockInAt
    && Spans(after.breaks, x.id) == Spans(before.breaks, r.id) + [Span(start, None)]
  }

  lemma OneMoreStart(before: Db, r: Record, after: Db, x: Record, h: seq<Event>, start: int)
    requires RowOf(before, r, h) && RowOf(after, x, h + [Event(Start, start)])
    ensures OnThatBreak(before, r, after, x, start)
  {
    AcceptedNext(h, Event(Start, start));
    assert (h + [Event(Start, start)])[..|h|] == h;
  }

  lemma {:induction false} BeforeThatBreak(
    db: Db, qs: seq<Request>, s: Request, later: seq<Request>, employee: nat, date: int)
    requires StillOpen(db, qs, s, later, employee, date)
    ensures CleanRun(db, qs, employee, date)
    ensures History(db, qs + [s] + later, employee, date) == History(db, qs, employee, date) + [Event(Start, s.now)]
  {
    assert qs + [s] + later == qs + ([s] + later);
    CleanPrefix(db, qs, [s] + later, employee, date);
    HistoryOneMore(db, qs, s, employee, date);
  }

  lemma {:induction false} RowWhileOpen(
    db: Db, qs: seq<Request>, s: Request, later: seq<Request>, r: Record, x: Record, now: int)
    requires StillOpen(db, qs, s, later, r.employee, r.workDate)
    requires r in Run(db, qs).records && x in Run(db, qs + [s] + later).records
    requires x.employee == r.employee && x.workDate == r.workDate
    requires forall q :: q in qs + [s] + later ==> q.now <= now
    ensures OnThatBreak(Run(db, qs), r, Run(db, qs + [s] + later), x, s.now)
  {
    var all := qs + [s] + later;
    BeforeThatBreak(db, qs, s, later, r.employee, r.workDate);
    assert forall q :: q in qs ==> q in all;
    RowOfRun(db, qs, r, now);
    RowOfRun(db, all, x, now);
    OneMoreStart(Run(db, qs), r, Run(db, all), x, History(db, qs, r.employee, r.workDate), s.now);
  }

  /**
    Break freeze: the row a break begins on fixes a value `k`, the preview of that very instant, and in every clean run,
    however long the break stays open and whatever else is requested, each preview of the day shows `k` or `k + 1`.
   */
  lemma {:induction false} BreakFreeze(db: Db, qs: seq<Request>, s: Request, later: seq<Request>, r: Record, q: Request)
    requires StillOpen(db, qs, s, later, r.employee, r.workDate) && r in Run(db, qs).records
    requires q.call.Preview? && q.faults == NO_FAULTS && OnTarget(Run(db, qs + [s] + later), q, r)
    requires forall x :: x in qs + [s] + later ==> x.now <= q.now
    ensures var closed := ClosedTicks(Spans(Run(db, qs).breaks, r.id));
            var k := FrozenMinutes(r.clockInAt, s.now, closed);
            && 0 <= k == PreviewMinutes(r.clockInAt, s.now, closed, None)
            && Answer(Run(db, qs + [s] + later), q).PreviewReply?
            && k <= Answer(Run(db, qs + [s] + later), q).workingMinutes <= k + 1
  {
    var all := qs + [s] + later;
    var x := FoundWhileOpen(db, qs, s, later, r);
    assert s in all;
    RowWhileOpen(db, qs, s, later, r, x, q.now);
    var last := RunningShift(db, all, x, q.now);
    RowOfRun(db, all, x, q.now);
    var before := Spans(Run(db, qs).breaks, r.id);
    OpenCountAppend(before, Span(s.now, None));
    assert last == s.now;
    PreviewOfRunning(Run(db, all), q, x, last);
    FreezeArithmetic(r.clockInAt, s.now, ClosedTicks(before), q.now);
  }

  lemma {:induction false} FoundWhileOpen(db: Db, qs: seq<Request>, s: Request, later: seq<Request>, r: Record)
    returns (x: Record)
    requires StillOpen(db, qs, s, later, r.employee, r.workDate) && r in Run(db, qs).records
    ensures x in Run(db, qs + [s] + later).records && x.employee == r.employee && x.workDate == r.workDate
  {
    var all := qs + [s] + later;
    RunTracks(db, all, r.employee, r.workDate);
    HistoryOneMore(db, qs, s, r.employee, r.workDate);
    LookupFinds(Run(db, all).records, r.employee, r.workDate);
    x := Lookup(Run(db, all).records, r.employee, r.workDate).value;
  }

  lemma WorkSoFar(db: Db, r: Record, h: seq<Event>, now: int)
    requires RowOf(db, r, h) && r.status.ClockedIn? && Ordered(h) && h[|h| - 1].at <= now
    ensures CountWorking(h, r.clockInAt, now) == now - r.clockInAt - ClosedTicks(Spans(db.breaks, r.id))
  {
    LedgerOfHistory(h, now);
  }

  /** The preview shows the time worked so far, counted instant by instant, in whole minutes or one more. */
  ghost predicate PreviewCounts(db: Db, q: Request, r: Record, h: seq<Event>) {
    && Accept(h).Success? && Answer(db, q).PreviewReply?
    && MinutesFor(Answer(db, q).workingMinutes, CountWorking(h, r.clockInAt, q.now), q.now - r.clockInAt,
                  ClosedTicks(Spans(db.breaks, r.id)))
  }

  /** In every clean run, while working, the preview counts exactly the work of the history. */
  lemma {:induction false} PreviewCountsWork(db: Db, qs: seq<Request>, r: Record, q: Request)
    requires CleanRun(db, qs, r.employee, r.workDate) && r in Run(db, qs).records && r.status.ClockedIn?
    requires q.call.Preview? && q.faults == NO_FAULTS && OnTarget(Run(db, qs), q, r)
    requires forall x :: x in qs ==> x.now <= q.now
    ensures PreviewCounts(Run(db, qs), q, r, History(db, qs, r.employee, r.workDate))
  {
    var h := History(db, qs, r.employee, r.workDate);
    RowOfRun(db, qs, r, q.now);
    var last := RunningShift(db, qs, r, q.now);
    NoEarlyOut(h);
    PreviewOfWorking(Run(db, qs), q, r, h, last);
  }

  lemma PreviewOfWorking(db: Db, q: Request, r: Record, h: seq<Event>, last: int)
    requires Wf(db) && r in db.records && r.status.ClockedIn? && Running(db, r, last) && last <= q.now
    requires q.call.Preview? && q.faults == NO_FAULTS && OnTarget(db, q, r)
    requires RowOf(db, r, h) && Ordered(h) && h[|h| - 1].at <= q.now
    ensures PreviewCounts(db, q, r, h)
  {
    PreviewOfRunning(db, q, r, last);
    WorkSoFar(db, r, h, q.now);
    PreviewWithoutOpenBreak(r.clockInAt, q.now, ClosedTicks(Spans(db.breaks, r.id)));
  }

  lemma PreviewWithoutOpenBreak(clockIn: int, now: int, closed: int)
    requires 0 <= closed <= now - clockIn
    ensures MinutesFor(PreviewMinutes(clockIn, now, closed, None), now - clockIn - closed, now - clockIn, closed)
  {
    StoredMinutes(clockIn, now, closed);
  }

  // ---- server time echoed by a client ----

  /** A client timestamp is accepted exactly when it lies in the last 24 hours, ends included. */
  lemma AcceptedWindow(now: int, offset: int, client: ClientTime)
    ensures Effective(now, offset, client).Success? <==>
            client.Absent? || (client.At? && now - MAX_OFFLINE <= client.instant <= now)
    ensures Effective(now, offset, client).Success? ==> now - MAX_OFFLINE <= Effective(now, offset, client).value.at <= now
  {
  }

  /**
    Server time sent at `sent`, cut to whole seconds, and echoed as client_timestamp: accepted at every later instant
    up to 24 hours less a second, and read as the same work date.
   */
  lemma ServerTimeEcho(sent: int, now: int, serverOffset: int, offset: int)
    requires sent <= now <= sent + MAX_OFFLINE - SECOND
    requires offset % SECOND == 0
    ensures Effective(now, serverOffset, At(WholeSecond(sent), offset)) == Success(Stamp(WholeSecond(sent), offset, true))
    ensures DateOf(WholeSecond(sent), offset) == DateOf(sent, offset)
  {
    DateBounds(sent, offset);
    DateOfUnique(WholeSecond(sent), offset, DateOf(sent, offset));
  }

  /** The echo is still accepted exactly until 24 hours after the second it was cut to. */
  lemma ServerTimeEchoExactly(sent: int, now: int, serverOffset: int, offset: int)
    requires sent <= now
    ensures Effective(now, serverOffset, At(WholeSecond(sent), offset)).Success? <==>
            now <= sent - sent % SECOND + MAX_OFFLINE
  {
  }
}
