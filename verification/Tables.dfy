/**
  The two tables as sequences of rows, the meaning of each SQL statement on them,
  and the laws the proofs need: how every query answers after every update.
 */
module Tables {
  import opened Prelude
  import opened Domain

  // ---- attendance_records ----

  predicate Matches(r: Record, employee: nat, date: int) {
    r.employee == employee && r.workDate == date
  }

  /** SELECT ... WHERE employee_id = ? AND work_date = ? ORDER BY id LIMIT 1 */
  function Lookup(rows: seq<Record>, employee: nat, date: int): Option<Record> {
    if rows == [] then None else
      var rest := Lookup(rows[..|rows| - 1], employee, date);
      var r := rows[|rows| - 1];
      if Matches(r, employee, date) && (rest.None? || r.id < rest.value.id) then Some(r) else rest
  }

  /** The two updates: the status column alone, or the columns UpdateClockOut copies from a record. */
  datatype Change = SetStatus(status: Status) | Close(from: Record)

  function Changed(r: Record, c: Change): Record {
    match c
    case SetStatus(s) => r.(status := s)
    case Close(k) =>
      r.(clockOutAt := k.clockOutAt,
      status := k.status,
      workingMinutes := k.workingMinutes,
      overtimeMinutes := k.overtimeMinutes,
      offline := k.offline,
      notes := if k.notes.Some? then k.notes else r.notes)
  }

  /** `x` is the row `r` with the outcome columns of `from`: those five always, the notes when there are any, no other. */
  predicate OnlyOutcome(r: Record, from: Record, x: Record) {
    && x.id == r.id && x.employee == r.employee && x.workDate == r.workDate && x.clockInAt == r.clockInAt
    && x.scheduledInAt == r.scheduledInAt && x.scheduledOutAt == r.scheduledOutAt
    && x.clockOutAt == from.clockOutAt && x.status == from.status && x.offline == from.offline
    && x.workingMinutes == from.workingMinutes && x.overtimeMinutes == from.overtimeMinutes
    && x.notes == if from.notes.None? then r.notes else from.notes
  }

  /** UPDATE attendance_records SET ... WHERE id = ? */
  function Update(rows: seq<Record>, id: nat, c: Change): seq<Record> {
    seq(|rows|, i requires 0 <= i < |rows| => if rows[i].id == id then Changed(rows[i], c) else rows[i])
  }

  predicate HasId(rows: seq<Record>, id: nat) {
    exists i :: 0 <= i < |rows| && rows[i].id == id
  }

  predicate HasKey(rows: seq<Record>, employee: nat, date: int) {
    exists i :: 0 <= i < |rows| && Matches(rows[i], employee, date)
  }

  /** PRIMARY KEY (id) and UNIQUE (employee_id, work_date). */
  predicate InsertAllowed(rows: seq<Record>, r: Record) {
    !HasId(rows, r.id) && !HasKey(rows, r.employee, r.workDate)
  }

  ghost predicate UniqueRecords(rows: seq<Record>) {
    forall i, j :: 0 <= i < j < |rows| ==>
      rows[i].id != rows[j].id && !Matches(rows[j], rows[i].employee, rows[i].workDate)
  }

  lemma {:induction false} LookupFinds(rows: seq<Record>, employee: nat, date: int)
    ensures var r := Lookup(rows, employee, date);
            && (r.Some? ==> r.value in rows && Matches(r.value, employee, date))
            && (r.None? ==> forall x :: x in rows ==> !Matches(x, employee, date))
            && (r.Some? ==> forall x :: x in rows && Matches(x, employee, date) ==> r.value.id <= x.id)
  {
    if rows != [] {
      var init, last := rows[..|rows| - 1], rows[|rows| - 1];
      LookupFinds(init, employee, date);
      assert rows == init + [last];
      assert forall x :: x in rows <==> x in init || x == last;
    }
  }

  /** Under the unique constraint the query is a function of the key: any matching row is the row it returns. */
  lemma LookupIsTheRow(rows: seq<Record>, r: Record)
    requires UniqueRecords(rows) && r in rows
    ensures Lookup(rows, r.employee, r.workDate) == Some(r)
  {
    LookupFinds(rows, r.employee, r.workDate);
    var found := Lookup(rows, r.employee, r.workDate).value;
    var i :| 0 <= i < |rows| && rows[i] == r;
    var j :| 0 <= j < |rows| && rows[j] == found;
  }

  lemma LookupNone(rows: seq<Record>, employee: nat, date: int)
    ensures Lookup(rows, employee, date).None? <==> !HasKey(rows, employee, date)
  {
    LookupFinds(rows, employee, date);
    if HasKey(rows, employee, date) {
      var i :| 0 <= i < |rows| && Matches(rows[i], employee, date);
      assert rows[i] in rows;
    }
  }

  lemma LookupAfterInsert(rows: seq<Record>, r: Record, employee: nat, date: int)
    requires InsertAllowed(rows, r)
    ensures Lookup(rows + [r], employee, date) ==
            if Matches(r, employee, date) then Some(r) else Lookup(rows, employee, date)
  {
    LookupNone(rows, r.employee, r.workDate);
    assert (rows + [r])[..|rows|] == rows;
  }

  lemma {:induction false} LookupAfterUpdate(rows: seq<Record>, id: nat, c: Change, employee: nat, date: int)
    ensures var before := Lookup(rows, employee, date);
            Lookup(Update(rows, id, c), employee, date) ==
            if before.Some? && before.value.id == id then Some(Changed(before.value, c)) else before
  {
    if rows != [] {
      LookupAfterUpdate(rows[..|rows| - 1], id, c, employee, date);
      assert Update(rows, id, c)[..|rows| - 1] == Update(rows[..|rows| - 1], id, c);
    }
  }

  // ---- attendance_breaks ----

  predicate IsOpen(b: Break, record: nat) {
    b.record == record && b.endAt.None?
  }

  /** SELECT ... WHERE attendance_record_id = ? AND break_end_at IS NULL ORDER BY id LIMIT 1 */
  function OpenBreak(rows: seq<Break>, record: nat): Option<Break> {
    if rows == [] then None else
      var rest := OpenBreak(rows[..|rows| - 1], record);
      var b := rows[|rows| - 1];
      if IsOpen(b, record) && (rest.None? || b.id < rest.value.id) then Some(b) else rest
  }

  /** UPDATE attendance_breaks SET break_end_at = ? WHERE attendance_record_id = ? AND break_end_at IS NULL */
  function EndOpen(rows: seq<Break>, record: nat, t: int): seq<Break> {
    seq(|rows|, i requires 0 <= i < |rows| =>
      if IsOpen(rows[i], record) then rows[i].(endAt := Some(t)) else rows[i])
  }

  /** SELECT SUM(break_end_at - break_start_at) WHERE attendance_record_id = ? AND break_end_at IS NOT NULL */
  function SumTicks(rows: seq<Break>, record: nat): int {
    if rows == [] then 0 else
      var b := rows[|rows| - 1];
      SumTicks(rows[..|rows| - 1], record) +
      if b.record == record && b.endAt.Some? then b.endAt.value - b.startAt else 0
  }

  predicate HasBreakId(rows: seq<Break>, id: nat) {
    exists i :: 0 <= i < |rows| && rows[i].id == id
  }

  /** A break as an interval of time, without identifiers. */
  datatype Span = Span(start: int, end: Option<int>)

  /** The breaks of one record, in insertion order. */
  function Spans(rows: seq<Break>, record: nat): seq<Span> {
    if rows == [] then [] else
      var b := rows[|rows| - 1];
      Spans(rows[..|rows| - 1], record) +
      if b.record == record then [Span(b.startAt, b.endAt)] else []
  }

  /** Every open span closed at `t`. */
  function CloseSpans(ss: seq<Span>, t: int): (r: seq<Span>)
    ensures |r| == |ss|
  {
    if ss == [] then [] else
      var s := ss[|ss| - 1];
      CloseSpans(ss[..|ss| - 1], t) + [if s.end.None? then Span(s.start, Some(t)) else s]
  }

  function OpenCount(ss: seq<Span>): nat {
    if ss == [] then 0 else OpenCount(ss[..|ss| - 1]) + if ss[|ss| - 1].end.None? then 1 else 0
  }

  function ClosedTicks(ss: seq<Span>): int {
    if ss == [] then 0 else
      var s := ss[|ss| - 1];
      ClosedTicks(ss[..|ss| - 1]) + if s.end.Some? then s.end.value - s.start else 0
  }

  lemma SpansAppend(rows: seq<Break>, b: Break, record: nat)
    ensures Spans(rows + [b], record) ==
            Spans(rows, record) + if b.record == record then [Span(b.startAt, b.endAt)] else []
  {
    assert (rows + [b])[..|rows|] == rows;
  }

  lemma {:induction false} CloseSpansAppend(ss: seq<Span>, s: Span, t: int)
    ensures CloseSpans(ss + [s], t) == CloseSpans(ss, t) + [if s.end.None? then Span(s.start, Some(t)) else s]
    ensures CloseSpans(ss + [], t) == CloseSpans(ss, t)
  {
    assert (ss + [s])[..|ss|] == ss;
    assert ss + [] == ss;
  }

  lemma {:induction false} SpansAfterEnd(rows: seq<Break>, ended: nat, t: int, record: nat)
    ensures Spans(EndOpen(rows, ended, t), record) ==
            if ended == record then CloseSpans(Spans(rows, record), t) else Spans(rows, record)
  {
    if rows != [] {
      var init, b := rows[..|rows| - 1], rows[|rows| - 1];
      SpansAfterEnd(init, ended, t, record);
      assert EndOpen(rows, ended, t)[..|rows| - 1] == EndOpen(init, ended, t);
      CloseSpansAppend(Spans(init, record), Span(b.startAt, b.endAt), t);
    }
  }

  /** The SQL sum is a fold over the record's spans. */
  lemma {:induction false} SumIsClosedTicks(rows: seq<Break>, record: nat)
    ensures SumTicks(rows, record) == ClosedTicks(Spans(rows, record))
  {
    if rows != [] {
      var init, b := rows[..|rows| - 1], rows[|rows| - 1];
      SumIsClosedTicks(init, record);
      var s := Span(b.startAt, b.endAt);
      assert (Spans(init, record) + [s])[..|Spans(init, record)|] == Spans(init, record);
      assert Spans(init, record) + [] == Spans(init, record);
    }
  }

  /** The open-break query finds a row exactly when some span is open, and its start is one of theirs. */
  lemma {:induction false} OpenBreakIsOpenSpan(rows: seq<Break>, record: nat)
    ensures OpenBreak(rows, record).None? <==> OpenCount(Spans(rows, record)) == 0
    ensures OpenBreak(rows, record).Some? ==> Span(OpenBreak(rows, record).value.startAt, None) in Spans(rows, record)
  {
    if rows != [] {
      var init, b := rows[..|rows| - 1], rows[|rows| - 1];
      OpenBreakIsOpenSpan(init, record);
      var s := Span(b.startAt, b.endAt);
      assert (Spans(init, record) + [s])[..|Spans(init, record)|] == Spans(init, record);
      assert Spans(init, record) + [] == Spans(init, record);
    }
  }

  /** The open-break query returns the open row with the least key. */
  lemma {:induction false} OpenBreakFinds(rows: seq<Break>, record: nat)
    ensures var b := OpenBreak(rows, record);
            && (b.Some? ==> b.value in rows && IsOpen(b.value, record))
            && (b.Some? ==> forall x :: x in rows && IsOpen(x, record) ==> b.value.id <= x.id)
            && (b.None? ==> forall x :: x in rows ==> !IsOpen(x, record))
  {
    if rows != [] {
      var init, last := rows[..|rows| - 1], rows[|rows| - 1];
      OpenBreakFinds(init, record);
      assert rows == init + [last];
      assert forall x :: x in rows <==> x in init || x == last;
    }
  }

  lemma {:induction false} ClosedHasNoOpen(ss: seq<Span>, t: int)
    ensures OpenCount(CloseSpans(ss, t)) == 0
    ensures OpenCount(ss) == 0 ==> CloseSpans(ss, t) == ss
  {
    if ss != [] {
      ClosedHasNoOpen(ss[..|ss| - 1], t);
      assert CloseSpans(ss, t)[..|ss| - 1] == CloseSpans(ss[..|ss| - 1], t);
    }
  }

  lemma OpenCountAppend(ss: seq<Span>, s: Span)
    ensures OpenCount(ss + [s]) == OpenCount(ss) + if s.end.None? then 1 else 0
    ensures ClosedTicks(ss + [s]) == ClosedTicks(ss) + if s.end.Some? then s.end.value - s.start else 0
  {
    assert (ss + [s])[..|ss|] == ss;
  }

  /** With one span open, closing it at `t` adds exactly its length to the total. */
  lemma {:induction false} CloseOneTicks(ss: seq<Span>, start: int, t: int)
    requires OpenCount(ss) <= 1 && Span(start, None) in ss
    ensures ClosedTicks(CloseSpans(ss, t)) == ClosedTicks(ss) + (t - start)
  {
    var init, last := ss[..|ss| - 1], ss[|ss| - 1];
    assert ss == init + [last];
    assert CloseSpans(ss, t)[..|ss| - 1] == CloseSpans(init, t);
    if last.end.None? {
      ClosedHasNoOpen(init, t);
      if Span(start, None) in init {
        NoOpenMember(init, Span(start, None));
      }
    } else {
      CloseOneTicks(init, start, t);
    }
  }

  lemma {:induction false} NoOpenMember(ss: seq<Span>, s: Span)
    requires s in ss && s.end.None?
    ensures OpenCount(ss) > 0
  {
    var init, last := ss[..|ss| - 1], ss[|ss| - 1];
    assert ss == init + [last];
    if s != last {
      NoOpenMember(init, s);
    }
  }
}
