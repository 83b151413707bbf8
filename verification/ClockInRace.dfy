/**
  Clock-ins that race: the look-up and the insert of each are separate steps, taken in any order and mixed with
  whole requests of any kind. Only the UNIQUE constraint stands between two clock-ins that both saw no record.
 */
module ClockInRace {
  import opened Prelude
  import opened Clock
  import opened Domain
  import opened Tables
  import opened Attendance
  import opened Safety

  /** One clock-in call: not begun, past its look-up with the row it will insert, or finished. */
  datatype Racer =
    | Waiting(q: Request, notes: Option<string>)
    | Holding(row: Record, write: Write)
    | Won(row: Record)
    | Lost(error: Error)

  /** `wins` logs the row of every clock-in that reported success. */
  datatype Race = Race(db: Db, racers: seq<Racer>, wins: seq<Record>)

  datatype Move = LookUp(racer: nat) | Insert(racer: nat) | Whole(q: Request)

  /** The first half of ClockIn: everything up to building the row. */
  function AfterLookUp(db: Db, q: Request, notes: Option<string>): Racer {
    match Seek(db, q.code, DateOf(q.now, db.offset), q.faults)
    case Failure(e) => Lost(e)
    case Success(Some(_)) => Lost(AlreadyClockedIn)
    case Success(None) =>
      if q.faults.schedule then Lost(StorageFailure)
      else Holding(NewRecord(db, db.employees[q.code], q.now, q.newId, notes), q.faults.insertRecord)
  }

  /** The second half: the insert, which the table may refuse. */
  function Inserts(db: Db, r: Racer): bool
    requires r.Holding?
  {
    r.write.Applied() && InsertAllowed(db.records, r.row)
  }

  function Play(s: Race, m: Move): Race {
    match m
    case LookUp(i) =>
      if i < |s.racers| && s.racers[i].Waiting? then
        s.(racers := s.racers[i := AfterLookUp(s.db, s.racers[i].q, s.racers[i].notes)])
      else s
    case Insert(i) =>
      if i < |s.racers| && s.racers[i].Holding? then
        var r := s.racers[i];
        var db' := if Inserts(s.db, r) then Patch(s.db, Born(r.row)) else s.db;
        if Inserts(s.db, r) && r.write.Done? then Race(db', s.racers[i := Won(r.row)], s.wins + [r.row])
        else Race(db', s.racers[i := Lost(StorageFailure)], s.wins)
      else s
    case Whole(q) => s.(db := Step(s.db, q), wins := s.wins + WinOf(s.db, q))
  }

  /** The row of a whole request that is a clock-in and reports success. */
  function WinOf(db: Db, q: Request): seq<Record> {
    match Decide(db, q)
    case (Born(r), ClockInReply(_, _, _)) => [r]
    case _ => []
  }

  function PlayAll(s: Race, ms: seq<Move>): Race {
    if ms == [] then s else Play(PlayAll(s, ms[..|ms| - 1]), ms[|ms| - 1])
  }

  /** The two halves in one go are the clock-in of the sequential engine. */
  lemma HalvesAreClockIn(db: Db, q: Request, notes: Option<string>)
    ensures var half := AfterLookUp(db, q, notes);
            var (d, reply) := DecideClockIn(db, q.now, q.code, q.newId, notes, q.faults);
            && (half.Lost? ==> d == Same && reply == Failed(half.error))
            && (half.Holding? ==> d == (if Inserts(db, half) then Born(half.row) else Same)
                                  && (reply.ClockInReply? <==> Inserts(db, half) && half.write.Done?))
  {
  }

  /** Played without anything in between they leave the tables, the answer and the log of the sequential engine. */
  lemma PlayedInOneGo(s: Race, i: nat)
    requires i < |s.racers| && s.racers[i].Waiting? && s.racers[i].q.call == ClockIn(s.racers[i].notes)
    ensures var q, t := s.racers[i].q, Play(Play(s, LookUp(i)), Insert(i));
            && t.db == Step(s.db, q) && t.wins == Play(s, Whole(q)).wins
            && |t.racers| == |s.racers| && (forall k :: 0 <= k < |s.racers| && k != i ==> t.racers[k] == s.racers[k])
            && match Answer(s.db, q)
               case ClockInReply(id, _, _) => t.racers[i].Won? && t.racers[i].row.id == id
               case Failed(e) => t.racers[i] == Lost(e)
               case _ => false
  {
    HalvesAreClockIn(s.db, s.racers[i].q, s.racers[i].notes);
    assert s.wins + [] == s.wins;
  }

  /** Later, the insert takes effect exactly when it is not refused and its identifier and day are still free. */
  lemma PlayedLater(s: Race, i: nat)
    requires i < |s.racers| && s.racers[i].Holding?
    ensures var r, t := s.racers[i], Play(s, Insert(i));
            var free := forall x :: x in s.db.records ==>
                          x.id != r.row.id && !(x.employee == r.row.employee && x.workDate == r.row.workDate);
            && t.db == (if !r.write.Refused? && free then s.db.(records := s.db.records + [r.row]) else s.db)
            && t.racers == s.racers[i := if r.write.Done? && free then Won(r.row) else Lost(StorageFailure)]
            && t.wins == if r.write.Done? && free then s.wins + [r.row] else s.wins
  {
    var r := s.racers[i];
    if HasId(s.db.records, r.row.id) {
      var k :| 0 <= k < |s.db.records| && s.db.records[k].id == r.row.id;
      assert s.db.records[k] in s.db.records;
    }
    if HasKey(s.db.records, r.row.employee, r.row.workDate) {
      var k :| 0 <= k < |s.db.records| && Matches(s.db.records[k], r.row.employee, r.row.workDate);
      assert s.db.records[k] in s.db.records;
    }
  }

  // ---- safety ----

  ghost predicate Fresh(r: Record) {
    r.status.ClockedIn? && WellFormed(r)
  }

  predicate SameDay(r: Record, x: Record) {
    Matches(r, x.employee, x.workDate)
  }

  /** Every success has its row in the table, and no two are of the same day of the same employee. */
  ghost predicate WinsInv(db: Db, wins: seq<Record>) {
    && (forall k :: 0 <= k < |wins| ==> Present(db, wins[k]))
    && (forall k, l :: 0 <= k < l < |wins| ==> !SameDay(wins[l], wins[k]))
  }

  ghost predicate RaceInv(s: Race) {
    && Wf(s.db) && WinsInv(s.db, s.wins)
    && (forall i :: 0 <= i < |s.racers| && s.racers[i].Holding? ==> Fresh(s.racers[i].row))
    && (forall i :: 0 <= i < |s.racers| && s.racers[i].Won? ==> s.racers[i].row in s.wins)
    && (forall i, j :: 0 <= i < j < |s.racers| && s.racers[i].Won? && s.racers[j].Won? ==>
          !SameDay(s.racers[j].row, s.racers[i].row))
  }

  /** The table holds a row born as `r`. */
  ghost predicate Present(db: Db, r: Record) {
    exists i :: 0 <= i < |db.records| && SameBirth(r, db.records[i])
  }

  lemma PresentLasts(db: Db, db': Db, r: Record)
    requires Present(db, r) && Evolves(db, db')
    ensures Present(db', r)
  {
    var i :| 0 <= i < |db.records| && SameBirth(r, db.records[i]);
    assert RowEvolves(db.records[i], db'.records[i]);
  }

  lemma InsertEvolves(db: Db, r: Record)
    requires Wf(db) && Fresh(r) && InsertAllowed(db.records, r)
    ensures Wf(Patch(db, Born(r))) && Evolves(db, Patch(db, Born(r))) && Present(Patch(db, Born(r)), r)
  {
    InsertKeepsIds(db.records, r);
    assert SameBirth(r, Patch(db, Born(r)).records[|db.records|]);
  }

  lemma WinsLast(db: Db, db': Db, wins: seq<Record>)
    requires WinsInv(db, wins) && Evolves(db, db')
    ensures WinsInv(db', wins)
  {
    forall k | 0 <= k < |wins| ensures Present(db', wins[k]) {
      PresentLasts(db, db', wins[k]);
    }
  }

  /** A row the table accepts is of a day nobody has won yet, and may be logged. */
  lemma OneMoreWin(db: Db, wins: seq<Record>, r: Record)
    requires Wf(db) && WinsInv(db, wins) && Fresh(r) && InsertAllowed(db.records, r)
    ensures WinsInv(Patch(db, Born(r)), wins + [r])
    ensures forall x :: x in wins ==> !SameDay(x, r)
  {
    InsertEvolves(db, r);
    WinsLast(db, Patch(db, Born(r)), wins);
    forall k | 0 <= k < |wins| ensures !SameDay(wins[k], r) {
      WinnersBlock(db, wins[k], r);
    }
  }

  lemma PlayKeepsInv(s: Race, m: Move)
    requires RaceInv(s)
    ensures RaceInv(Play(s, m))
  {
    match m
    case LookUp(i) =>
    case Whole(q) => WholeKeepsInv(s, q);
    case Insert(i) =>
      if i < |s.racers| && s.racers[i].Holding? && Inserts(s.db, s.racers[i]) {
        InsertKeepsInv(s, i);
      }
  }

  lemma WholeKeepsInv(s: Race, q: Request)
    requires RaceInv(s)
    ensures RaceInv(Play(s, Whole(q)))
  {
    StepEvolves(s.db, q);
    DecideFits(s.db, q);
    WinsLast(s.db, Step(s.db, q), s.wins);
    if WinOf(s.db, q) == [] {
      assert s.wins + [] == s.wins;
    } else {
      OneMoreWin(s.db, s.wins, Decide(s.db, q).0.record);
    }
  }

  lemma InsertKeepsInv(s: Race, i: nat)
    requires RaceInv(s) && i < |s.racers| && s.racers[i].Holding? && Inserts(s.db, s.racers[i])
    ensures RaceInv(Play(s, Insert(i)))
  {
    var r := s.racers[i].row;
    InsertEvolves(s.db, r);
    WinsLast(s.db, Patch(s.db, Born(r)), s.wins);
    OneMoreWin(s.db, s.wins, r);
    forall k | 0 <= k < |s.racers| && s.racers[k].Won?
      ensures s.racers[k].row in s.wins + [r] && !SameDay(s.racers[k].row, r)
    {
    }
  }

  /** A row that is present keeps every other row of its key out. */
  lemma WinnersBlock(db: Db, winner: Record, r: Record)
    requires Present(db, winner) && InsertAllowed(db.records, r)
    ensures !Matches(winner, r.employee, r.workDate)
  {
    var i :| 0 <= i < |db.records| && SameBirth(winner, db.records[i]);
    if Matches(winner, r.employee, r.workDate) {
      assert Matches(db.records[i], r.employee, r.workDate);
    }
  }

  lemma {:induction false} PlayAllKeepsInv(s: Race, ms: seq<Move>)
    requires RaceInv(s)
    ensures RaceInv(PlayAll(s, ms))
  {
    if ms != [] {
      PlayAllKeepsInv(s, ms[..|ms| - 1]);
      PlayKeepsInv(PlayAll(s, ms[..|ms| - 1]), ms[|ms| - 1]);
    }
  }

  ghost predicate AtTheStart(s: Race) {
    Wf(s.db) && s.wins == [] && forall i :: 0 <= i < |s.racers| ==> s.racers[i].Waiting?
  }

  /** The day of a success is recorded with the row it inserted. */
  ghost predicate Recorded(db: Db, r: Record) {
    var found := Lookup(db.records, r.employee, r.workDate);
    found.Some? && SameBirth(r, found.value)
  }

  /**
    One record per day: in every interleaving, the table never holds two records of one employee and date, so the
    look-up is a function of the key; and of all clock-ins for it, racing halves and whole ones together,
    at most one reports success.
   */
  lemma {:induction false} OneRecordPerDay(s: Race, ms: seq<Move>)
    requires AtTheStart(s)
    ensures var t := PlayAll(s, ms);
            && Wf(t.db)
            && (forall r :: r in t.db.records ==> Lookup(t.db.records, r.employee, r.workDate) == Some(r))
            && (forall k, l :: 0 <= k < l < |t.wins| ==> !SameDay(t.wins[l], t.wins[k]))
            && (forall k :: 0 <= k < |t.wins| ==> Recorded(t.db, t.wins[k]))
            && (forall i :: 0 <= i < |t.racers| && t.racers[i].Won? ==> t.racers[i].row in t.wins)
            && (forall i, j :: 0 <= i < j < |t.racers| && t.racers[i].Won? && t.racers[j].Won? ==>
                  !SameDay(t.racers[j].row, t.racers[i].row))
  {
    PlayAllKeepsInv(s, ms);
    var t := PlayAll(s, ms);
    forall r | r in t.db.records ensures Lookup(t.db.records, r.employee, r.workDate) == Some(r) {
      LookupIsTheRow(t.db.records, r);
    }
    forall k | 0 <= k < |t.wins| ensures Recorded(t.db, t.wins[k]) {
      assert Present(t.db, t.wins[k]);
      var i :| 0 <= i < |t.db.records| && SameBirth(t.wins[k], t.db.records[i]);
      assert t.db.records[i] in t.db.records;
    }
  }

  /**
    Nobody loses to nothing: a racer whose insert the table refuses, without a storage failure and with an unused
    identifier, finds its day already recorded.
   */
  lemma RefusedInsertMeansRecorded(s: Race, i: nat)
    requires i < |s.racers| && s.racers[i].Holding? && s.racers[i].write.Done?
    requires !HasId(s.db.records, s.racers[i].row.id)
    ensures var r := s.racers[i].row;
            Play(s, Insert(i)).racers[i].Won? <==> Lookup(s.db.records, r.employee, r.workDate).None?
  {
    LookupNone(s.db.records, s.racers[i].row.employee, s.racers[i].row.workDate);
  }
}
