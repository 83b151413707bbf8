/**
  Literal runs that show the conditions of the daily bound and of "no break ends after the clock-out" to be real:
  without them each claim fails. One employee, one day, one offset, a server clock that never goes back.
 */
module Witnesses {
  import opened Prelude
  import opened Clock
  import opened Domain
  import opened Tables
  import opened Attendance
  import opened Safety
  import opened Automaton
  import opened Ledger
  import opened DailyBound

  const EMPTY := Db(0, map["E" := 7], map[], [], [])

  /** The tables while the one shift has not been closed. */
  function Shift(clockIn: int, status: Status, breaks: seq<Break>): Db {
    EMPTY.(records := [Record(1, 7, 0, status, clockIn, None, None, None, None, None, false, None)], breaks := breaks)
  }

  function Arrive(now: int): Request {
    Request(now, "E", 1, ClockIn(None), NO_FAULTS)
  }

  function Toggle(now: int, id: nat, action: string, f: Faults): Request {
    Request(now, "E", id, ToggleBreak(action), f)
  }

  /** An offline clock-out. */
  function Leave(now: int, at: int, f: Faults): Request {
    Request(now, "E", 9, ClockOut(At(at, 0), None), f)
  }

  // ---- one request on the one shift ----

  lemma Today(at: int)
    requires 0 <= at < DAY
    ensures DateOf(at, 0) == 0
  {
  }

  lemma Arrives(now: int)
    requires 0 <= now < DAY
    ensures Step(EMPTY, Arrive(now)) == Shift(now, ClockedIn, [])
  {
    Today(now);
  }

  lemma Pauses(clockIn: int, breaks: seq<Break>, now: int, id: nat, f: Faults)
    requires 0 <= now < DAY && !HasBreakId(breaks, id) && (f == NO_FAULTS || f == NO_FAULTS.(setStatus := Refused))
    ensures Step(Shift(clockIn, ClockedIn, breaks), Toggle(now, id, BREAK_START, f)) ==
            Shift(clockIn, if f == NO_FAULTS then OnBreak else ClockedIn, breaks + [Break(id, 1, now, None)])
    ensures HalfStarted(Shift(clockIn, ClockedIn, breaks), Toggle(now, id, BREAK_START, f)) <==> f != NO_FAULTS
  {
    var r := Shift(clockIn, ClockedIn, breaks).records[0];
    Today(now);
    LookupOne(r);
  }

  lemma LookupOne(r: Record)
    ensures Lookup([r], r.employee, r.workDate) == Some(r)
  {
    LookupIsTheRow([r], r);
  }

  lemma Resumes(clockIn: int, id: nat, start: int, now: int)
    requires 0 <= now < DAY
    ensures Step(Shift(clockIn, OnBreak, [Break(id, 1, start, None)]), Toggle(now, 3, BREAK_END, NO_FAULTS)) ==
            Shift(clockIn, ClockedIn, [Break(id, 1, start, Some(now))])
  {
    var r := Shift(clockIn, OnBreak, []).records[0];
    Today(now);
    LookupOne(r);
  }

  /** What an offline clock-out does to the breaks, and the minutes it stores when it is written. */
  lemma Leaves(clockIn: int, status: Status, breaks: seq<Break>, now: int, at: int, f: Faults)
    requires 0 <= at <= now < DAY && (status.ClockedIn? || status.OnBreak?)
    requires f == NO_FAULTS || f == NO_FAULTS.(sum := true)
    ensures var after := Step(Shift(clockIn, status, breaks), Leave(now, at, f));
            var rows := if status.OnBreak? then EndOpen(breaks, 1, at) else breaks;
            if f != NO_FAULTS then after == Shift(clockIn, status, rows)
            else
              && after.breaks == rows
              && var r := Lookup(after.records, 7, 0);
                 && r.Some? && r.value.id == 1 && r.value.clockOutAt == Some(at)
                 && r.value.workingMinutes == Some(WorkingMinutes(clockIn, at, SumTicks(rows, 1)))
  {
    Today(at);
    LookupOne(Shift(clockIn, status, breaks).records[0]);
  }

  lemma OneMore(qs: seq<Request>, q: Request)
    ensures Run(EMPTY, qs + [q]) == Step(Run(EMPTY, qs), q)
    ensures CleanRun(EMPTY, qs, 7, 0) && Clean(Run(EMPTY, qs), q) && (forall x :: x in qs ==> x.now <= q.now) ==>
              CleanRun(EMPTY, qs + [q], 7, 0)
  {
    assert (qs + [q])[..|qs|] == qs;
  }

  // ---- the runs ----

  const ON_BREAK_LATE := [Arrive(0), Toggle(1439 * MINUTE, 2, BREAK_START, NO_FAULTS)]
  const EARLY_END := Leave(1439 * MINUTE, 0, NO_FAULTS.(sum := true))
  const ENDED_EARLY := Break(2, 1, 1439 * MINUTE, Some(0))
  const RETRY := Leave(1439 * MINUTE, 1439 * MINUTE, NO_FAULTS)

  const ARRIVED := [Arrive(0)]
  const HALF_START := Toggle(1438 * MINUTE, 2, BREAK_START, NO_FAULTS.(setStatus := Refused))
  const HALF_OPEN := Break(2, 1, 1438 * MINUTE, None)
  const SECOND_START := Toggle(1439 * MINUTE, 3, BREAK_START, NO_FAULTS)
  const BACKDATED := Leave(1439 * MINUTE, 0, NO_FAULTS)

  const AFTER_A_BREAK := [Arrive(480 * MINUTE), Toggle(600 * MINUTE, 2, BREAK_START, NO_FAULTS),
                          Toggle(630 * MINUTE, 3, BREAK_END, NO_FAULTS)]
  const BEFORE_THE_BREAK := Leave(660 * MINUTE, 540 * MINUTE, NO_FAULTS)

  /** On one offset and a clock that never goes back, the run stores these working minutes. */
  ghost predicate Stores(qs: seq<Request>, minutes: int) {
    && OffsetsWithin(EMPTY, qs, 0) && (forall i, j :: 0 <= i < j < |qs| ==> qs[i].now <= qs[j].now)
    && var r := Lookup(Run(EMPTY, qs).records, 7, 0);
       r.Some? && r.value.workingMinutes == Some(minutes)
  }

  lemma Arrived(now: int)
    requires 0 <= now < DAY
    ensures Run(EMPTY, [Arrive(now)]) == Shift(now, ClockedIn, []) && CleanRun(EMPTY, [Arrive(now)], 7, 0)
  {
    OneMore([], Arrive(now));
    assert [] + [Arrive(now)] == [Arrive(now)];
    Arrives(now);
  }

  lemma OnBreakLate()
    ensures Run(EMPTY, ON_BREAK_LATE) == Shift(0, OnBreak, [Break(2, 1, 1439 * MINUTE, None)])
    ensures CleanRun(EMPTY, ON_BREAK_LATE, 7, 0)
  {
    var q := Toggle(1439 * MINUTE, 2, BREAK_START, NO_FAULTS);
    Arrived(0);
    Pauses(0, [], 1439 * MINUTE, 2, NO_FAULTS);
    OneMore([Arrive(0)], q);
    assert [Arrive(0)] + [q] == ON_BREAK_LATE;
  }

  lemma EndsEarly()
    ensures EndedEarly(Run(EMPTY, ON_BREAK_LATE), EARLY_END) && !HalfStarted(Run(EMPTY, ON_BREAK_LATE), EARLY_END)
    ensures Run(EMPTY, ON_BREAK_LATE + [EARLY_END]) == Shift(0, OnBreak, [ENDED_EARLY])
  {
    var open := Break(2, 1, 1439 * MINUTE, None);
    OnBreakLate();
    Leaves(0, OnBreak, [open], 1439 * MINUTE, 0, EARLY_END.faults);
    OneMore(ON_BREAK_LATE, EARLY_END);
    LookupOne(Shift(0, OnBreak, [open]).records[0]);
    Today(0);
  }

  /** A run whose last request is a clock-out without failures. */
  lemma LeavesAtLast(qs: seq<Request>, clockIn: int, status: Status, breaks: seq<Break>, now: int, at: int)
    requires Run(EMPTY, qs) == Shift(clockIn, status, breaks) && (status.ClockedIn? || status.OnBreak?)
    requires 0 <= at <= now < DAY && !HasBreakId(breaks, 9)
    ensures Clean(Run(EMPTY, qs), Leave(now, at, NO_FAULTS))
    ensures var r := Lookup(Run(EMPTY, qs + [Leave(now, at, NO_FAULTS)]).records, 7, 0);
            var rows := if status.OnBreak? then EndOpen(breaks, 1, at) else breaks;
            r.Some? && r.value.workingMinutes == Some(WorkingMinutes(clockIn, at, SumTicks(rows, 1)))
  {
    Leaves(clockIn, status, breaks, now, at, NO_FAULTS);
    OneMore(qs, Leave(now, at, NO_FAULTS));
  }

  lemma NegativeTotals()
    ensures var early := [ENDED_EARLY];
            WorkingMinutes(0, 1439 * MINUTE, SumTicks(EndOpen(early, 1, 1439 * MINUTE), 1)) == 2878
    ensures var both := [HALF_OPEN, Break(3, 1, 1439 * MINUTE, None)];
            WorkingMinutes(0, 0, SumTicks(EndOpen(both, 1, 0), 1)) == 2877
  {
    var one, two := [ENDED_EARLY], [Break(2, 1, 1438 * MINUTE, Some(0)), Break(3, 1, 1439 * MINUTE, Some(0))];
    assert two[..1] == [two[0]];
    assert SumTicks(two[..1], 1) == -1438 * MINUTE;
    assert SumTicks(one, 1) == -1439 * MINUTE && SumTicks(two, 1) == -2877 * MINUTE;
  }

  /**
    The first way to lose the bound. After a clean run into a break, one clock-out carrying a time before the break fails
    to read the break total (it ends the break early and writes nothing else); the retry, without failures, stores 2878.
   */
  lemma EarlyEndStores2878()
    ensures CleanRun(EMPTY, ON_BREAK_LATE, 7, 0)
    ensures EndedEarly(Run(EMPTY, ON_BREAK_LATE), EARLY_END) && !HalfStarted(Run(EMPTY, ON_BREAK_LATE), EARLY_END)
    ensures Clean(Run(EMPTY, ON_BREAK_LATE + [EARLY_END]), RETRY)
    ensures Stores(ON_BREAK_LATE + [EARLY_END] + [RETRY], 2878)
  {
    OnBreakLate();
    EndsEarly();
    LeavesAtLast(ON_BREAK_LATE + [EARLY_END], 0, OnBreak, [ENDED_EARLY], 1439 * MINUTE, 1439 * MINUTE);
    NegativeTotals();
  }

  lemma StartsByHalf()
    ensures CleanRun(EMPTY, ARRIVED, 7, 0) && Run(EMPTY, ARRIVED) == Shift(0, ClockedIn, [])
    ensures HalfStarted(Run(EMPTY, ARRIVED), HALF_START) && !EndedEarly(Run(EMPTY, ARRIVED), HALF_START)
    ensures Run(EMPTY, ARRIVED + [HALF_START]) == Shift(0, ClockedIn, [HALF_OPEN])
  {
    Arrived(0);
    Pauses(0, [], 1438 * MINUTE, 2, HALF_START.faults);
    OneMore(ARRIVED, HALF_START);
  }

  lemma StartsBeside()
    ensures Clean(Run(EMPTY, ARRIVED + [HALF_START]), SECOND_START)
    ensures Run(EMPTY, ARRIVED + [HALF_START] + [SECOND_START]) ==
            Shift(0, OnBreak, [HALF_OPEN, Break(3, 1, 1439 * MINUTE, None)])
  {
    StartsByHalf();
    Pauses(0, [HALF_OPEN], 1439 * MINUTE, 3, NO_FAULTS);
    OneMore(ARRIVED + [HALF_START], SECOND_START);
  }

  /**
    The second way. A break start writes its row and not the status, so a second break can start beside it;
    a clock-out without failures, carrying a time before both, ends both and stores 2877.
   */
  lemma HalfStartStores2877()
    ensures CleanRun(EMPTY, ARRIVED, 7, 0)
    ensures HalfStarted(Run(EMPTY, ARRIVED), HALF_START) && !EndedEarly(Run(EMPTY, ARRIVED), HALF_START)
    ensures Clean(Run(EMPTY, ARRIVED + [HALF_START]), SECOND_START)
    ensures Clean(Run(EMPTY, ARRIVED + [HALF_START] + [SECOND_START]), BACKDATED)
    ensures Stores(ARRIVED + [HALF_START] + [SECOND_START] + [BACKDATED], 2877)
  {
    var second := Break(3, 1, 1439 * MINUTE, None);
    StartsByHalf();
    StartsBeside();
    LeavesAtLast(ARRIVED + [HALF_START] + [SECOND_START], 0, OnBreak, [HALF_OPEN, second], 1439 * MINUTE, 0);
    NegativeTotals();
  }

  const MORNING := [AFTER_A_BREAK[0], AFTER_A_BREAK[1]]

  lemma AfterABreak()
    ensures CleanRun(EMPTY, AFTER_A_BREAK, 7, 0)
    ensures Run(EMPTY, AFTER_A_BREAK) == Shift(480 * MINUTE, ClockedIn, [Break(2, 1, 600 * MINUTE, Some(630 * MINUTE))])
  {
    Morning();
    Resumes(480 * MINUTE, 2, 600 * MINUTE, 630 * MINUTE);
    OneMore(MORNING, AFTER_A_BREAK[2]);
    assert MORNING + [AFTER_A_BREAK[2]] == AFTER_A_BREAK;
  }

  lemma Morning()
    ensures CleanRun(EMPTY, MORNING, 7, 0)
    ensures Run(EMPTY, MORNING) == Shift(480 * MINUTE, OnBreak, [Break(2, 1, 600 * MINUTE, None)])
  {
    Arrived(480 * MINUTE);
    Pauses(480 * MINUTE, [], 600 * MINUTE, 2, NO_FAULTS);
    OneMore([AFTER_A_BREAK[0]], AFTER_A_BREAK[1]);
    assert [AFTER_A_BREAK[0]] + [AFTER_A_BREAK[1]] == MORNING;
  }

  /**
    No failure is needed to end a break after the clock-out: clock-in at 08:00, break 10:00 to 10:30, and at 11:00
    an offline clock-out carrying 09:00.
   */
  lemma BreakEndsAfterClockOut()
    ensures CleanRun(EMPTY, AFTER_A_BREAK + [BEFORE_THE_BREAK], 7, 0)
    ensures var after := Run(EMPTY, AFTER_A_BREAK + [BEFORE_THE_BREAK]);
            var r := Lookup(after.records, 7, 0);
            && r.Some? && r.value.clockOutAt == Some(540 * MINUTE)
            && Spans(after.breaks, r.value.id) == [Span(600 * MINUTE, Some(630 * MINUTE))]
  {
    AfterABreak();
    Leaves(480 * MINUTE, ClockedIn, [Break(2, 1, 600 * MINUTE, Some(630 * MINUTE))], 660 * MINUTE, 540 * MINUTE, NO_FAULTS);
    OneMore(AFTER_A_BREAK, BEFORE_THE_BREAK);
  }
}
