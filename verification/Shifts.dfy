/**
  One shift as a sequence of events: the four-state automaton it is meant to follow, the histories that accepts,
  the breaks they describe, and the time they spend working.
 */
module Shifts {
  import opened Prelude
  import opened Domain
  import opened Tables

  datatype Kind = In | Start | End | Out

  datatype Event = Event(kind: Kind, at: int)

  function Next(s: Status, k: Kind): Result<Status, Error> {
    match (s, k)
    case (Idle, In) => Success(ClockedIn)
    case (_, In) => Failure(AlreadyClockedIn)
    case (Idle, _) => Failure(NotClockedIn)
    case (ClockedOut, _) => Failure(AlreadyClockedOut)
    case (ClockedIn, Start) => Success(OnBreak)
    case (OnBreak, Start) => Failure(AlreadyOnBreak)
    case (OnBreak, End) => Success(ClockedIn)
    case (ClockedIn, End) => Failure(NotOnBreak)
    case (_, Out) => Success(ClockedOut)
  }

  // ---- accepted histories ----

  function Accept(h: seq<Event>): Result<Status, Error> {
    if h == [] then Success(Idle) else
      match Accept(h[..|h| - 1])
      case Failure(e) => Failure(e)
      case Success(s) => Next(s, h[|h| - 1].kind)
  }

  /** In (Start End)* [Start] [Out], or nothing: position decides every event, except that the last may be Out. */
  ghost predicate Shape(h: seq<Event>) {
    forall i :: 0 <= i < |h| ==>
      if i == 0 then h[i].kind == In
      else h[i].kind == (if i % 2 == 1 then Start else End) || (h[i].kind == Out && i == |h| - 1)
  }

  /** The state of a well-shaped history can be read off its length and last event. */
  function StateAfter(h: seq<Event>): Status {
    if h == [] then Idle
    else if h[|h| - 1].kind == Out then ClockedOut
    else if |h| % 2 == 1 then ClockedIn
    else OnBreak
  }

  lemma ShapeInit(h: seq<Event>)
    requires Shape(h) && h != []
    ensures Shape(h[..|h| - 1])
    ensures StateAfter(h[..|h| - 1]) != ClockedOut
  {
    var init := h[..|h| - 1];
    forall i | 0 <= i < |init|
      ensures if i == 0 then init[i].kind == In
              else init[i].kind == (if i % 2 == 1 then Start else End)
    {
      assert init[i] == h[i];
    }
  }

  /** The accepted histories are exactly the well-shaped ones. */
  lemma {:induction false} AcceptedHistories(h: seq<Event>)
    ensures Accept(h).Success? <==> Shape(h)
    ensures Shape(h) ==> Accept(h) == Success(StateAfter(h))
  {
    if h != [] {
      var init, last := h[..|h| - 1], h[|h| - 1];
      AcceptedHistories(init);
      if Shape(h) {
        ShapeInit(h);
        assert h[|h| - 1] == last;
      } else if Shape(init) && Accept(h).Success? {
        forall i | 0 <= i < |h|
          ensures if i == 0 then h[i].kind == In
                  else h[i].kind == (if i % 2 == 1 then Start else End) || (h[i].kind == Out && i == |h| - 1)
        {
          if i < |init| {
            assert init[i] == h[i];
          }
        }
      }
    }
  }

  /** The state an accepted history leads to. */
  function Reached(h: seq<Event>): Status
    requires Accept(h).Success?
  {
    Accept(h).value
  }

  // ---- the breaks of a history ----

  /** The breaks after one more event. */
  function Advance(ss: seq<Span>, ev: Event): seq<Span> {
    match ev.kind
    case In => ss
    case Start => ss + [Span(ev.at, None)]
    case End => CloseSpans(ss, ev.at)
    case Out => CloseSpans(ss, ev.at)
  }

  /** The breaks a history describes. */
  function Intervals(h: seq<Event>): seq<Span> {
    if h == [] then [] else Advance(Intervals(h[..|h| - 1]), h[|h| - 1])
  }

  /** In a state reached at `last`: the last break is the one that starts there while on break, or ends there while working. */
  ghost predicate Boundary(s: Status, ss: seq<Span>, last: int) {
    && OpenCount(ss) == (if s.OnBreak? then 1 else 0)
    && (s.Idle? ==> ss == [])
    && (s.OnBreak? ==> ss != [] && ss[|ss| - 1] == Span(last, None))
    && (s.ClockedIn? && ss != [] ==> ss[|ss| - 1].end == Some(last))
  }

  lemma AdvanceBoundary(s: Status, ss: seq<Span>, last: int, ev: Event)
    requires Boundary(s, ss, last) && Next(s, ev.kind).Success?
    ensures Boundary(Next(s, ev.kind).value, Advance(ss, ev), ev.at)
  {
    OpenCountAppend(ss, Span(ev.at, None));
    ClosedHasNoOpen(ss, ev.at);
    if s.OnBreak? {
      CloseSpansAt(ss, ev.at, |ss| - 1);
    }
  }

  /** Ending a break adds its length to the total; nothing else does. */
  lemma AdvanceTicks(s: Status, ss: seq<Span>, last: int, ev: Event)
    requires Boundary(s, ss, last) && Next(s, ev.kind).Success?
    ensures ClosedTicks(Advance(ss, ev)) == ClosedTicks(ss) + if s.OnBreak? then ev.at - last else 0
  {
    OpenCountAppend(ss, Span(ev.at, None));
    if s.OnBreak? {
      CloseOneTicks(ss, last, ev.at);
    } else {
      ClosedHasNoOpen(ss, ev.at);
    }
  }

  lemma {:induction false} IntervalsBoundary(h: seq<Event>)
    requires Accept(h).Success?
    ensures Boundary(Reached(h), Intervals(h), if h == [] then 0 else h[|h| - 1].at)
  {
    if h != [] {
      var init := h[..|h| - 1];
      IntervalsBoundary(init);
      AdvanceBoundary(Reached(init), Intervals(init), if init == [] then 0 else init[|init| - 1].at, h[|h| - 1]);
    }
  }

  // ---- time spent working, counted instant by instant ----

  /** The status an observer would see at an instant. */
  function StatusAt(h: seq<Event>, t: int): Status
    requires Accept(h).Success?
  {
    if h == [] then Idle
    else if h[|h| - 1].at <= t then Reached(h)
    else StatusAt(h[..|h| - 1], t)
  }

  /** The number of instants in [from, to) at which the status is `clocked_in`. */
  function CountWorking(h: seq<Event>, from: int, to: int): nat
    requires Accept(h).Success?
    decreases if to > from then to - from else 0
  {
    if to <= from then 0
    else CountWorking(h, from, to - 1) + if StatusAt(h, to - 1).ClockedIn? then 1 else 0
  }

  /** All events in order, the clock-out included. */
  ghost predicate Ordered(h: seq<Event>) {
    forall i, j :: 0 <= i < j < |h| ==> h[i].at <= h[j].at
  }

  lemma {:induction false} CountSplit(h: seq<Event>, a: int, b: int, c: int)
    requires a <= b <= c && Accept(h).Success?
    ensures CountWorking(h, a, c) == CountWorking(h, a, b) + CountWorking(h, b, c)
    decreases c - b
  {
    if b < c {
      CountSplit(h, a, b, c - 1);
    }
  }

  lemma {:induction false} CountIgnoresLater(h: seq<Event>, a: int, b: int)
    requires h != [] && Accept(h).Success? && b <= h[|h| - 1].at
    ensures CountWorking(h, a, b) == CountWorking(h[..|h| - 1], a, b)
    decreases b - a
  {
    if a < b {
      CountIgnoresLater(h, a, b - 1);
    }
  }

  lemma {:induction false} CountAfterLast(h: seq<Event>, a: int, b: int)
    requires h != [] && Accept(h).Success? && h[|h| - 1].at <= a <= b
    ensures CountWorking(h, a, b) == if Reached(h).ClockedIn? then b - a else 0
    decreases b - a
  {
    if a < b {
      CountAfterLast(h, a, b - 1);
    }
  }

  /** Up to any instant after the last event: elapsed time of the running status, minus ended breaks, is time working. */
  lemma {:induction false} LedgerOfHistory(h: seq<Event>, until: int)
    requires Accept(h).Success? && Ordered(h) && h != [] && h[|h| - 1].at <= until
    ensures var end := if Reached(h).ClockedIn? then until else h[|h| - 1].at;
            CountWorking(h, h[0].at, until) == end - h[0].at - ClosedTicks(Intervals(h))
  {
    var init, ev := h[..|h| - 1], h[|h| - 1];
    CountSplit(h, h[0].at, ev.at, until);
    CountAfterLast(h, ev.at, until);
    CountIgnoresLater(h, h[0].at, ev.at);
    if init == [] {
      assert Intervals(init) == [];
    } else {
      LedgerOfHistory(init, ev.at);
      IntervalsBoundary(init);
      AdvanceTicks(Reached(init), Intervals(init), init[|init| - 1].at, ev);
    }
  }

  /** Breaks in order, none overlapping the next, all inside [from, to]; only the last may be open. */
  ghost predicate Nested(ss: seq<Span>, from: int, to: int) {
    && from <= to
    && (forall i :: 0 <= i < |ss| ==> from <= ss[i].start <= to)
    && (forall i :: 0 <= i < |ss| && ss[i].end.Some? ==> ss[i].start <= ss[i].end.value <= to)
    && (forall i, j :: 0 <= i < j < |ss| ==> ss[i].end.Some? && ss[i].end.value <= ss[j].start)
  }

  lemma {:induction false} NestedTicks(ss: seq<Span>, from: int, to: int)
    requires Nested(ss, from, to)
    ensures 0 <= ClosedTicks(ss) <= to - from
    ensures ss != [] && ss[|ss| - 1].end.None? ==> ClosedTicks(ss) <= ss[|ss| - 1].start - from
  {
    if ss != [] {
      var init, last := ss[..|ss| - 1], ss[|ss| - 1];
      NestedTicks(init, from, last.start);
    }
  }

  lemma {:induction false} CloseSpansAt(ss: seq<Span>, t: int, i: nat)
    requires i < |ss|
    ensures CloseSpans(ss, t)[i] == if ss[i].end.None? then Span(ss[i].start, Some(t)) else ss[i]
  {
    if i < |ss| - 1 {
      CloseSpansAt(ss[..|ss| - 1], t, i);
    }
  }

  lemma CloseKeepsNested(ss: seq<Span>, from: int, to: int, t: int)
    requires Nested(ss, from, to) && to <= t
    ensures Nested(CloseSpans(ss, t), from, t)
  {
    forall i | 0 <= i < |ss|
      ensures CloseSpans(ss, t)[i] == if ss[i].end.None? then Span(ss[i].start, Some(t)) else ss[i]
    {
      CloseSpansAt(ss, t, i);
    }
  }

  lemma AdvanceNested(s: Status, ss: seq<Span>, from: int, last: int, ev: Event)
    requires Boundary(s, ss, last) && Next(s, ev.kind).Success? && Nested(ss, from, last) && last <= ev.at
    ensures Nested(Advance(ss, ev), from, ev.at)
  {
    CloseKeepsNested(ss, from, last, ev.at);
    if ev.kind == Start {
      forall i | 0 <= i < |ss| ensures ss[i].end.Some? {
        if ss[i].end.None? {
          NoOpenMember(ss, ss[i]);
        }
      }
    }
  }

  lemma {:induction false} IntervalsNested(h: seq<Event>)
    requires Accept(h).Success? && Ordered(h) && h != []
    ensures Nested(Intervals(h), h[0].at, h[|h| - 1].at)
  {
    var init := h[..|h| - 1];
    if init == [] {
      assert Intervals(init) == [];
    } else {
      IntervalsNested(init);
      IntervalsBoundary(init);
      AdvanceNested(Reached(init), Intervals(init), h[0].at, h[|h| - 2].at, h[|h| - 1]);
    }
  }

  // ---- clock-outs that carry an earlier time ----

  /** The events follow the server clock; a clock-out may carry an earlier client time. */
  ghost predicate ServerOrdered(h: seq<Event>) {
    forall i, j :: 0 <= i < j < |h| && h[j].kind != Out ==> h[i].at <= h[j].at
  }

  lemma {:induction false} OutIsLast(h: seq<Event>, i: nat)
    requires Accept(h).Success? && i < |h| && h[i].kind == Out
    ensures i == |h| - 1 && Reached(h).ClockedOut?
  {
    if i < |h| - 1 {
      OutIsLast(h[..|h| - 1], i);
    }
  }

  lemma StartsWithIn(h: seq<Event>)
    requires Accept(h).Success? && h != []
    ensures h[0].kind == In
  {
    AcceptedHistories(h);
  }

  /** Before clocking out, a history is in server order throughout. */
  lemma NoEarlyOut(h: seq<Event>)
    requires Accept(h).Success? && h != [] && Reached(h) != ClockedOut && ServerOrdered(h)
    ensures Ordered(h) && forall i :: 0 <= i < |h| ==> h[i].kind != Out
  {
    forall i | 0 <= i < |h| ensures h[i].kind != Out {
      if h[i].kind == Out {
        OutIsLast(h, i);
      }
    }
  }

  /** A closed history: what was open before the clock-out ends with it, and only the clock-out may be out of order. */
  lemma ClosedHistory(h: seq<Event>) returns (s: Status)
    requires Accept(h).Success? && h != [] && Reached(h).ClockedOut? && ServerOrdered(h)
    ensures |h| >= 2 && h[|h| - 1].kind == Out && (forall i :: 0 <= i < |h| - 1 ==> h[i].kind != Out)
    ensures var init := h[..|h| - 1];
            && Ordered(init) && Accept(init) == Success(s) && (s.ClockedIn? || s.OnBreak?)
            && Nested(Intervals(init), h[0].at, h[|h| - 2].at) && Boundary(s, Intervals(init), h[|h| - 2].at)
            && Intervals(h) == CloseSpans(Intervals(init), h[|h| - 1].at)
            && ClosedTicks(Intervals(h)) ==
               ClosedTicks(Intervals(init)) + if s.OnBreak? then h[|h| - 1].at - h[|h| - 2].at else 0
  {
    var init := h[..|h| - 1];
    s := Reached(init);
    assert init != [];
    NoEarlyOut(init);
    IntervalsNested(init);
    IntervalsBoundary(init);
    AdvanceTicks(s, Intervals(init), h[|h| - 2].at, h[|h| - 1]);
  }

  /** A closed history is out of order exactly when its clock-out is before the event it follows. */
  lemma OrderedExactly(h: seq<Event>)
    requires Accept(h).Success? && h != [] && Reached(h).ClockedOut? && ServerOrdered(h)
    ensures |h| >= 2 && (Ordered(h) <==> h[|h| - 2].at <= h[|h| - 1].at)
  {
    var _ := ClosedHistory(h);
    if h[|h| - 2].at <= h[|h| - 1].at {
      forall i, j | 0 <= i < j < |h| ensures h[i].at <= h[j].at {
        if j == |h| - 1 && i < |h| - 2 {
          assert h[|h| - 2].kind != Out;
        }
      }
    }
  }

  lemma LateClockOutNotNested(h: seq<Event>)
    requires Accept(h).Success? && |h| >= 2 && Reached(h).ClockedOut? && h[|h| - 1].at < h[|h| - 2].at
    ensures !Nested(Intervals(h), h[0].at, h[|h| - 1].at)
  {
    var init, out := h[..|h| - 1], h[|h| - 1].at;
    IntervalsBoundary(init);
    var ss := Intervals(init);
    if ss == [] {
      NoBreaksYet(init);
    } else {
      CloseSpansAt(ss, out, |ss| - 1);
      var last := Intervals(h)[|ss| - 1];
      assert last.start > out || last.end == Some(h[|h| - 2].at);
    }
  }

  /** The breaks of a closed shift are in order inside it exactly when its clock-out is not before its last event. */
  lemma NestedExactly(h: seq<Event>)
    requires Accept(h).Success? && h != [] && Reached(h).ClockedOut? && ServerOrdered(h)
    ensures Nested(Intervals(h), h[0].at, h[|h| - 1].at) <==> Ordered(h)
  {
    OrderedExactly(h);
    if Ordered(h) {
      IntervalsNested(h);
    } else {
      LateClockOutNotNested(h);
    }
  }

  lemma NoBreaksYet(h: seq<Event>)
    requires Accept(h).Success? && h != [] && Reached(h) != ClockedOut && Intervals(h) == []
    ensures |h| == 1
  {
    var init, ev := h[..|h| - 1], h[|h| - 1];
    IntervalsBoundary(init);
    StartsWithIn(h);
  }

  ghost predicate EndsAt(ss: seq<Span>, t: int) {
    exists i :: 0 <= i < |ss| && ss[i].end == Some(t)
  }

  ghost predicate BreakEndedAt(h: seq<Event>, t: int) {
    exists i :: 0 <= i < |h| && h[i] == Event(End, t)
  }

  lemma ClosedEnds(ss: seq<Span>, t: int, u: int)
    ensures EndsAt(CloseSpans(ss, t), u) ==> EndsAt(ss, u) || u == t
    ensures EndsAt(ss, u) ==> EndsAt(CloseSpans(ss, t), u)
    ensures ss != [] && ss[|ss| - 1].end.None? ==> EndsAt(CloseSpans(ss, t), t)
  {
    forall i | 0 <= i < |ss|
      ensures CloseSpans(ss, t)[i] == if ss[i].end.None? then Span(ss[i].start, Some(t)) else ss[i]
    {
      CloseSpansAt(ss, t, i);
    }
    if EndsAt(ss, u) {
      var i :| 0 <= i < |ss| && ss[i].end == Some(u);
      assert CloseSpans(ss, t)[i].end == Some(u);
    }
    if ss != [] && ss[|ss| - 1].end.None? {
      assert CloseSpans(ss, t)[|ss| - 1].end == Some(t);
    }
  }

  /** Before clock-out, the stored break ends are exactly the times of the end-of-break events. */
  lemma {:induction false} EndsAreEvents(h: seq<Event>, t: int)
    requires Accept(h).Success? && Reached(h) != ClockedOut
    ensures EndsAt(Intervals(h), t) <==> BreakEndedAt(h, t)
  {
    if h != [] {
      var init, ev := h[..|h| - 1], h[|h| - 1];
      EndsAreEvents(init, t);
      assert h == init + [ev];
      assert BreakEndedAt(h, t) <==> BreakEndedAt(init, t) || ev == Event(End, t) by {
        if BreakEndedAt(init, t) {
          var i :| 0 <= i < |init| && init[i] == Event(End, t);
          assert h[i] == Event(End, t);
        }
      }
      if ev.kind == Start {
        var ss := Intervals(init);
        assert EndsAt(ss + [Span(ev.at, None)], t) <==> EndsAt(ss, t) by {
          if EndsAt(ss, t) {
            var i :| 0 <= i < |ss| && ss[i].end == Some(t);
            assert (ss + [Span(ev.at, None)])[i].end == Some(t);
          }
        }
      } else if ev.kind == End {
        IntervalsBoundary(init);
        ClosedEnds(Intervals(init), ev.at, t);
      }
    }
  }

  lemma BreakEndedEarlier(h: seq<Event>, t: int)
    requires h != [] && h[|h| - 1].kind != End
    ensures BreakEndedAt(h, t) <==> BreakEndedAt(h[..|h| - 1], t)
  {
    var init := h[..|h| - 1];
    if BreakEndedAt(init, t) {
      var i :| 0 <= i < |init| && init[i] == Event(End, t);
      assert h[i] == Event(End, t);
    }
    if BreakEndedAt(h, t) {
      var i :| 0 <= i < |h| && h[i] == Event(End, t);
      assert init[i] == Event(End, t);
    }
  }

  /** A closed history's break ends are its end-of-break events, and the clock-out if it was on break. */
  lemma EndsOfClosed(h: seq<Event>, t: int)
    requires Accept(h).Success? && h != [] && Reached(h).ClockedOut?
    ensures EndsAt(Intervals(h), t) ==> BreakEndedAt(h, t) || t == h[|h| - 1].at
    ensures BreakEndedAt(h, t) ==> EndsAt(Intervals(h), t)
  {
    var init, ev := h[..|h| - 1], h[|h| - 1];
    assert ev.kind == Out && Reached(init) != ClockedOut;
    EndsAreEvents(init, t);
    BreakEndedEarlier(h, t);
    ClosedEnds(Intervals(init), ev.at, t);
  }

  /** Every ended break ends by `out`. */
  ghost predicate BreaksEndBy(ss: seq<Span>, out: int) {
    forall t :: EndsAt(ss, t) ==> t <= out
  }

  /** Every end-of-break event is by `out`. */
  ghost predicate EndEventsBy(h: seq<Event>, out: int) {
    forall t :: BreakEndedAt(h, t) ==> t <= out
  }

  /** All breaks of a closed history end by its clock-out exactly when no break was ended at a later time. */
  lemma BreakEndsByClockOutExactly(h: seq<Event>)
    requires Accept(h).Success? && h != [] && Reached(h).ClockedOut?
    ensures BreaksEndBy(Intervals(h), h[|h| - 1].at) <==> EndEventsBy(h, h[|h| - 1].at)
  {
    forall t
      ensures EndsAt(Intervals(h), t) ==> BreakEndedAt(h, t) || t == h[|h| - 1].at
      ensures BreakEndedAt(h, t) ==> EndsAt(Intervals(h), t)
    {
      EndsOfClosed(h, t);
    }
  }
}
