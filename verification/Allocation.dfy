/**
  Registrations that interleave: each takes the next counter of its company and year, and later inserts the
  employee row that carries the printed ID. Nothing but the counter and the printer keeps the IDs apart.
 */
module Allocation {
  import opened Prelude
  import opened Domain
  import opened EmployeeIds

  datatype EmployeeRow = EmployeeRow(employeeId: string, company: nat, email: string, phone: string)

  datatype Stage = Held | Created | Dropped

  /** One registration that advanced a counter. A registration that fails keeps the number it burnt. */
  datatype Ticket = Ticket(code: string, company: nat, year: nat, number: nat, stage: Stage)

  /** `companies` is keyed by company_code, which is unique; `tickets` is the history of increments. */
  datatype Book = Book(
    companies: map<string, nat>,
    counters: map<(nat, nat), nat>,
    employees: seq<EmployeeRow>,
    tickets: seq<Ticket>)

  datatype Move =
    | Take(code: string, year: nat, write: Write)
    | Place(ticket: nat, email: string, phone: string, write: Write)
    | GiveUp(ticket: nat)

  function Counter(counters: map<(nat, nat), nat>, company: nat, year: nat): nat {
    if (company, year) in counters then counters[(company, year)] else 0
  }

  /** The upsert takes effect unless it is refused or the INT column would overflow. */
  predicate Increments(b: Book, company: nat, year: nat, w: Write) {
    w.Applied() && Counter(b.counters, company, year) < MAX_INT32
  }

  function IdOf(t: Ticket): string {
    EmployeeId(t.code, t.year, t.number)
  }

  /** The unique constraints of the employees table, in the order of its columns. */
  datatype Constraint = OnEmployeeId | OnEmail | OnPhone

  predicate HasEmployeeId(rows: seq<EmployeeRow>, id: string) {
    exists i :: 0 <= i < |rows| && rows[i].employeeId == id
  }

  predicate HasEmail(rows: seq<EmployeeRow>, email: string) {
    exists i :: 0 <= i < |rows| && rows[i].email == email
  }

  predicate HasPhone(rows: seq<EmployeeRow>, phone: string) {
    exists i :: 0 <= i < |rows| && rows[i].phone == phone
  }

  function Violated(rows: seq<EmployeeRow>, r: EmployeeRow): Option<Constraint> {
    if HasEmployeeId(rows, r.employeeId) then Some(OnEmployeeId)
    else if HasEmail(rows, r.email) then Some(OnEmail)
    else if HasPhone(rows, r.phone) then Some(OnPhone)
    else None
  }

  function RowFor(t: Ticket, email: string, phone: string): EmployeeRow {
    EmployeeRow(IdOf(t), t.company, email, phone)
  }

  function Play(b: Book, m: Move): Book {
    match m
    case Take(code, year, w) =>
      if code in b.companies && Increments(b, b.companies[code], year, w) then
        var company := b.companies[code];
        var number := Counter(b.counters, company, year) + 1;
        b.(counters := b.counters[(company, year) := number],
        tickets := b.tickets + [Ticket(code, company, year, number, if w.Done? then Held else Dropped)])
      else b
    case Place(i, email, phone, w) =>
      if i < |b.tickets| && b.tickets[i].stage.Held? then
        var t := b.tickets[i];
        if w.Applied() && Violated(b.employees, RowFor(t, email, phone)).None? then
          b.(employees := b.employees + [RowFor(t, email, phone)], tickets := b.tickets[i := t.(stage := Created)])
        else b.(tickets := b.tickets[i := t.(stage := Dropped)])
      else b
    case GiveUp(i) =>
      if i < |b.tickets| && b.tickets[i].stage.Held? then
        b.(tickets := b.tickets[i := b.tickets[i].(stage := Dropped)])
      else b
  }

  function PlayAll(b: Book, ms: seq<Move>): Book {
    if ms == [] then b else Play(PlayAll(b, ms[..|ms| - 1]), ms[|ms| - 1])
  }

  // ---- counting tickets ----

  predicate ForKey(t: Ticket, company: nat, year: nat) {
    t.company == company && t.year == year
  }

  function Issued(ts: seq<Ticket>, company: nat, year: nat): nat {
    if ts == [] then 0 else
      Issued(ts[..|ts| - 1], company, year) + if ForKey(ts[|ts| - 1], company, year) then 1 else 0
  }

  function AtStage(ts: seq<Ticket>, company: nat, year: nat, s: Stage): nat {
    if ts == [] then 0 else
      AtStage(ts[..|ts| - 1], company, year, s) +
      if ForKey(ts[|ts| - 1], company, year) && ts[|ts| - 1].stage == s then 1 else 0
  }

  lemma {:induction false} StagesAddUp(ts: seq<Ticket>, company: nat, year: nat)
    ensures Issued(ts, company, year) ==
            AtStage(ts, company, year, Created) + AtStage(ts, company, year, Dropped) + AtStage(ts, company, year, Held)
  {
    if ts != [] {
      StagesAddUp(ts[..|ts| - 1], company, year);
    }
  }

  lemma {:induction false} IssuedUpTo(ts: seq<Ticket>, i: nat, company: nat, year: nat)
    requires i < |ts|
    ensures Issued(ts[..i], company, year) + (if ForKey(ts[i], company, year) then 1 else 0) <= Issued(ts, company, year)
  {
    var init := ts[..|ts| - 1];
    if i < |ts| - 1 {
      IssuedUpTo(init, i, company, year);
      assert init[..i] == ts[..i];
    }
  }

  lemma {:induction false} IssuedIgnoresStage(ts: seq<Ticket>, i: nat, s: Stage, company: nat, year: nat)
    requires i < |ts|
    ensures Issued(ts[i := ts[i].(stage := s)], company, year) == Issued(ts, company, year)
  {
    var ts' := ts[i := ts[i].(stage := s)];
    if i < |ts| - 1 {
      IssuedIgnoresStage(ts[..|ts| - 1], i, s, company, year);
      assert ts'[..|ts| - 1] == ts[..|ts| - 1][i := ts[i].(stage := s)];
    } else {
      assert ts'[..|ts| - 1] == ts[..|ts| - 1];
    }
  }

  // ---- the protocol invariant ----

  /** Each ticket's number is the count of tickets of its company and year so far. */
  ghost predicate Numbered(ts: seq<Ticket>) {
    forall i :: 0 <= i < |ts| ==> ts[i].number == Issued(ts[..i], ts[i].company, ts[i].year) + 1
  }

  /** Every counter is the number of tickets of its company and year. */
  ghost predicate Counted(counters: map<(nat, nat), nat>, ts: seq<Ticket>) {
    forall company, year :: Counter(counters, company, year) == Issued(ts, company, year) <= MAX_INT32
  }

  /** Tickets carry the company their code names. */
  ghost predicate Coded(companies: map<string, nat>, ts: seq<Ticket>) {
    forall i :: 0 <= i < |ts| ==> ts[i].code in companies && companies[ts[i].code] == ts[i].company
  }

  ghost predicate CameFrom(ts: seq<Ticket>, r: EmployeeRow) {
    exists i :: 0 <= i < |ts| && ts[i].stage.Created? && IdOf(ts[i]) == r.employeeId && ts[i].company == r.company
  }

  ghost predicate Sourced(ts: seq<Ticket>, rows: seq<EmployeeRow>) {
    forall k :: 0 <= k < |rows| ==> CameFrom(ts, rows[k])
  }

  ghost predicate Recorded(ts: seq<Ticket>, rows: seq<EmployeeRow>) {
    forall i :: 0 <= i < |ts| && ts[i].stage.Created? ==> HasEmployeeId(rows, IdOf(ts[i]))
  }

  ghost predicate DistinctIds(rows: seq<EmployeeRow>) {
    forall i, j :: 0 <= i < j < |rows| ==> rows[i].employeeId != rows[j].employeeId
  }

  /** The counters, the history and the employees table agree. */
  ghost predicate BookInv(b: Book) {
    && Counted(b.counters, b.tickets) && Numbered(b.tickets) && Coded(b.companies, b.tickets)
    && Sourced(b.tickets, b.employees) && Recorded(b.tickets, b.employees) && DistinctIds(b.employees)
  }

  ghost predicate Opening(b: Book) {
    b.counters == map[] && b.employees == [] && b.tickets == []
  }

  lemma LaterNumberIsLarger(b: Book, i: nat, j: nat)
    requires BookInv(b) && i < j < |b.tickets|
    requires ForKey(b.tickets[i], b.tickets[j].company, b.tickets[j].year)
    ensures b.tickets[i].number < b.tickets[j].number
  {
    IssuedUpTo(b.tickets[..j], i, b.tickets[j].company, b.tickets[j].year);
    assert b.tickets[..j][..i] == b.tickets[..i];
  }

  /** IDs of different tickets differ: across companies and years by the printer, within one by the counter. */
  lemma TicketsDiffer(b: Book, i: nat, j: nat)
    requires BookInv(b) && i < |b.tickets| && j < |b.tickets| && i != j
    ensures IdOf(b.tickets[i]) != IdOf(b.tickets[j])
  {
    var t, u := b.tickets[i], b.tickets[j];
    if ForKey(t, u.company, u.year) {
      if i < j {
        LaterNumberIsLarger(b, i, j);
      } else {
        LaterNumberIsLarger(b, j, i);
      }
    }
    if IdOf(t) == IdOf(u) {
      IdsAreDistinct(t.code, t.year, t.number, u.code, u.year, u.number);
    }
  }

  /** The ticket a row came from. */
  lemma Origin(ts: seq<Ticket>, rows: seq<EmployeeRow>, k: nat) returns (j: nat)
    requires Sourced(ts, rows) && k < |rows|
    ensures j < |ts| && ts[j].stage.Created? && IdOf(ts[j]) == rows[k].employeeId && ts[j].company == rows[k].company
  {
    assert CameFrom(ts, rows[k]);
    j :| 0 <= j < |ts| && ts[j].stage.Created? && IdOf(ts[j]) == rows[k].employeeId && ts[j].company == rows[k].company;
  }

  /** An in-flight registration finds no row with its ID. */
  lemma HeldIdIsFree(b: Book, i: nat)
    requires BookInv(b) && i < |b.tickets| && b.tickets[i].stage.Held?
    ensures !HasEmployeeId(b.employees, IdOf(b.tickets[i]))
  {
    forall k | 0 <= k < |b.employees| ensures b.employees[k].employeeId != IdOf(b.tickets[i]) {
      var j := Origin(b.tickets, b.employees, k);
      TicketsDiffer(b, i, j);
    }
  }

  // ---- one more ticket ----

  lemma AppendKeepsNumbers(ts: seq<Ticket>, t: Ticket)
    requires Numbered(ts) && t.number == Issued(ts, t.company, t.year) + 1
    ensures Numbered(ts + [t])
  {
    var ts' := ts + [t];
    forall i | 0 <= i < |ts'| ensures ts'[i].number == Issued(ts'[..i], ts'[i].company, ts'[i].year) + 1 {
      assert ts'[..i] == ts[..i];
      if i == |ts| {
        assert ts[..i] == ts;
      }
    }
  }

  lemma AppendKeepsSources(ts: seq<Ticket>, t: Ticket, rows: seq<EmployeeRow>)
    requires Sourced(ts, rows)
    ensures Sourced(ts + [t], rows)
  {
    forall k | 0 <= k < |rows| ensures CameFrom(ts + [t], rows[k]) {
      var j := Origin(ts, rows, k);
      assert (ts + [t])[j] == ts[j];
    }
  }

  lemma TakeKeepsInv(b: Book, code: string, year: nat, w: Write)
    requires BookInv(b)
    ensures BookInv(Play(b, Take(code, year, w)))
  {
    var b' := Play(b, Take(code, year, w));
    if b' != b {
      var t := b'.tickets[|b.tickets|];
      assert b'.tickets[..|b.tickets|] == b.tickets;
      AppendKeepsNumbers(b.tickets, t);
      AppendKeepsSources(b.tickets, t, b.employees);
    }
  }

  // ---- a held ticket settles ----

  function Settle(ts: seq<Ticket>, i: nat, s: Stage): seq<Ticket>
    requires i < |ts|
  {
    ts[i := ts[i].(stage := s)]
  }

  lemma SettleKeepsNumbers(ts: seq<Ticket>, i: nat, s: Stage)
    requires Numbered(ts) && i < |ts|
    ensures Numbered(Settle(ts, i, s))
  {
    var ts' := Settle(ts, i, s);
    forall j | 0 <= j < |ts'| ensures ts'[j].number == Issued(ts'[..j], ts'[j].company, ts'[j].year) + 1 {
      if i < j {
        IssuedIgnoresStage(ts[..j], i, s, ts[j].company, ts[j].year);
        assert ts'[..j] == Settle(ts[..j], i, s);
      } else {
        assert ts'[..j] == ts[..j];
      }
    }
  }

  lemma SettleKeepsCounts(counters: map<(nat, nat), nat>, ts: seq<Ticket>, i: nat, s: Stage)
    requires Counted(counters, ts) && i < |ts|
    ensures Counted(counters, Settle(ts, i, s))
  {
    forall company, year ensures Counter(counters, company, year) == Issued(Settle(ts, i, s), company, year) <= MAX_INT32 {
      IssuedIgnoresStage(ts, i, s, company, year);
    }
  }

  lemma SettleKeepsSources(ts: seq<Ticket>, i: nat, s: Stage, rows: seq<EmployeeRow>)
    requires Sourced(ts, rows) && i < |ts| && ts[i].stage.Held?
    ensures Sourced(Settle(ts, i, s), rows)
  {
    forall k | 0 <= k < |rows| ensures CameFrom(Settle(ts, i, s), rows[k]) {
      var j := Origin(ts, rows, k);
      assert Settle(ts, i, s)[j] == ts[j];
    }
  }

  /** A ticket that is dropped leaves the table alone. */
  lemma DropKeepsInv(b: Book, i: nat)
    requires BookInv(b) && i < |b.tickets| && b.tickets[i].stage.Held?
    ensures BookInv(b.(tickets := Settle(b.tickets, i, Dropped)))
  {
    SettleKeepsNumbers(b.tickets, i, Dropped);
    SettleKeepsCounts(b.counters, b.tickets, i, Dropped);
    SettleKeepsSources(b.tickets, i, Dropped, b.employees);
  }

  lemma MoreRowsHaveIds(rows: seq<EmployeeRow>, r: EmployeeRow, id: string)
    ensures HasEmployeeId(rows + [r], id) <==> HasEmployeeId(rows, id) || r.employeeId == id
  {
    if HasEmployeeId(rows, id) {
      var i :| 0 <= i < |rows| && rows[i].employeeId == id;
      assert (rows + [r])[i].employeeId == id;
    }
    assert (rows + [r])[|rows|] == r;
  }

  lemma CreateKeepsRecorded(ts: seq<Ticket>, i: nat, rows: seq<EmployeeRow>, r: EmployeeRow)
    requires Recorded(ts, rows) && i < |ts| && r.employeeId == IdOf(ts[i])
    ensures Recorded(Settle(ts, i, Created), rows + [r])
  {
    var ts' := Settle(ts, i, Created);
    forall k | 0 <= k < |ts'| && ts'[k].stage.Created? ensures HasEmployeeId(rows + [r], IdOf(ts'[k])) {
      MoreRowsHaveIds(rows, r, IdOf(ts'[k]));
    }
  }

  lemma CreateKeepsSources(ts: seq<Ticket>, i: nat, rows: seq<EmployeeRow>, r: EmployeeRow)
    requires Sourced(ts, rows) && i < |ts| && ts[i].stage.Held?
    requires r.employeeId == IdOf(ts[i]) && r.company == ts[i].company
    ensures Sourced(Settle(ts, i, Created), rows + [r])
  {
    var ts' := Settle(ts, i, Created);
    SettleKeepsSources(ts, i, Created, rows);
    assert ts'[i].stage.Created? && IdOf(ts'[i]) == r.employeeId && ts'[i].company == r.company;
    assert CameFrom(ts', r);
  }

  /** A ticket that is created adds its row. */
  lemma CreateKeepsInv(b: Book, i: nat, r: EmployeeRow)
    requires BookInv(b) && i < |b.tickets| && b.tickets[i].stage.Held?
    requires r.employeeId == IdOf(b.tickets[i]) && r.company == b.tickets[i].company
    ensures BookInv(b.(employees := b.employees + [r], tickets := Settle(b.tickets, i, Created)))
  {
    SettleKeepsNumbers(b.tickets, i, Created);
    SettleKeepsCounts(b.counters, b.tickets, i, Created);
    CreateKeepsSources(b.tickets, i, b.employees, r);
    CreateKeepsRecorded(b.tickets, i, b.employees, r);
    HeldIdIsFree(b, i);
  }

  lemma {:induction false} PlayKeepsInv(b: Book, m: Move)
    requires BookInv(b)
    ensures BookInv(Play(b, m))
  {
    match m
    case Take(code, year, w) => TakeKeepsInv(b, code, year, w);
    case GiveUp(i) =>
      if i < |b.tickets| && b.tickets[i].stage.Held? {
        DropKeepsInv(b, i);
      }
    case Place(i, email, phone, w) =>
      if i < |b.tickets| && b.tickets[i].stage.Held? {
        DropKeepsInv(b, i);
        CreateKeepsInv(b, i, RowFor(b.tickets[i], email, phone));
      }
  }

  lemma {:induction false} PlayAllKeepsInv(b: Book, ms: seq<Move>)
    requires BookInv(b)
    ensures BookInv(PlayAll(b, ms))
  {
    if ms != [] {
      PlayAllKeepsInv(b, ms[..|ms| - 1]);
      PlayKeepsInv(PlayAll(b, ms[..|ms| - 1]), ms[|ms| - 1]);
    }
  }

  /** A ticket's ID is in the table exactly when that registration created its row. */
  lemma CreatedExactly(b: Book, i: nat)
    requires BookInv(b) && i < |b.tickets|
    ensures b.tickets[i].stage.Created? <==> HasEmployeeId(b.employees, IdOf(b.tickets[i]))
  {
    if HasEmployeeId(b.employees, IdOf(b.tickets[i])) {
      var k :| 0 <= k < |b.employees| && b.employees[k].employeeId == IdOf(b.tickets[i]);
      var j := Origin(b.tickets, b.employees, k);
      if i != j {
        TicketsDiffer(b, i, j);
      }
    }
  }

  // ---- the main results ----

  /**
    Over every interleaving of registrations, whichever of their steps fail: all IDs ever issued are distinct across
    companies and years, the employees table holds exactly those of the registrations that succeeded, and no insert meets
    the unique constraint on employee_id.
   */
  lemma {:induction false} IssuedIdsAreUnique(b: Book, ms: seq<Move>)
    requires BookInv(b)
    ensures var s := PlayAll(b, ms);
            && (forall i, j :: 0 <= i < j < |s.tickets| ==> IdOf(s.tickets[i]) != IdOf(s.tickets[j]))
            && (forall i :: 0 <= i < |s.tickets| ==>
                  (s.tickets[i].stage.Created? <==> HasEmployeeId(s.employees, IdOf(s.tickets[i]))))
            && (forall i, email, phone :: 0 <= i < |s.tickets| && s.tickets[i].stage.Held? ==>
                  Violated(s.employees, RowFor(s.tickets[i], email, phone)) != Some(OnEmployeeId))
  {
    PlayAllKeepsInv(b, ms);
    var s := PlayAll(b, ms);
    forall i, j | 0 <= i < j < |s.tickets| ensures IdOf(s.tickets[i]) != IdOf(s.tickets[j]) {
      TicketsDiffer(s, i, j);
    }
    forall i | 0 <= i < |s.tickets|
      ensures s.tickets[i].stage.Created? <==> HasEmployeeId(s.employees, IdOf(s.tickets[i]))
    {
      CreatedExactly(s, i);
    }
    forall i, email: string, phone: string | 0 <= i < |s.tickets| && s.tickets[i].stage.Held?
      ensures Violated(s.employees, RowFor(s.tickets[i], email, phone)) != Some(OnEmployeeId)
    {
      HeldIdIsFree(s, i);
    }
  }

  /** Conservation: a counter is the number of registrations it served: created, failed and still in flight. */
  lemma {:induction false} CounterIsConserved(b: Book, ms: seq<Move>, company: nat, year: nat)
    requires BookInv(b)
    ensures var s := PlayAll(b, ms);
            Counter(s.counters, company, year) ==
            AtStage(s.tickets, company, year, Created) + AtStage(s.tickets, company, year, Dropped)
            + AtStage(s.tickets, company, year, Held)
  {
    PlayAllKeepsInv(b, ms);
    StagesAddUp(PlayAll(b, ms).tickets, company, year);
  }

  lemma {:induction false} EveryNumberIssued(ts: seq<Ticket>, company: nat, year: nat, n: nat) returns (i: nat)
    requires Numbered(ts) && 1 <= n <= Issued(ts, company, year)
    ensures i < |ts| && ForKey(ts[i], company, year) && ts[i].number == n
  {
    var init := ts[..|ts| - 1];
    assert Numbered(init) by {
      assert forall k :: 0 <= k < |init| ==> init[..k] == ts[..k];
    }
    if n <= Issued(init, company, year) {
      i := EveryNumberIssued(init, company, year, n);
    } else {
      i := |ts| - 1;
    }
  }

  /** No number is skipped: 1 up to the counter have all been handed out, each to one registration. */
  lemma {:induction false} NumbersAreDense(b: Book, ms: seq<Move>, company: nat, year: nat, n: nat)
    requires BookInv(b) && 1 <= n <= Counter(PlayAll(b, ms).counters, company, year)
    ensures exists i :: 0 <= i < |PlayAll(b, ms).tickets| && ForKey(PlayAll(b, ms).tickets[i], company, year)
                        && PlayAll(b, ms).tickets[i].number == n
  {
    PlayAllKeepsInv(b, ms);
    var i := EveryNumberIssued(PlayAll(b, ms).tickets, company, year, n);
  }

  // ---- the administrator a migration registers ----

  const ADMIN_COMPANY := "GOTO"
  const ADMIN_EMAIL := "admin@hris.com"
  const ADMIN_PHONE := "+628000000000"

  function SeedNumber(b: Book, year: nat): nat
    requires ADMIN_COMPANY in b.companies
  {
    Counter(b.counters, b.companies[ADMIN_COMPANY], year) + 1
  }

  /** The migration in one transaction: nothing when the administrator exists, None when it fails and rolls back. */
  function Seed(b: Book, year: nat): Option<Book> {
    if ADMIN_COMPANY !in b.companies then None
    else if HasEmail(b.employees, ADMIN_EMAIL) then Some(b)
    else
      var company, number := b.companies[ADMIN_COMPANY], SeedNumber(b, year);
      var row := EmployeeRow(SeededId(ADMIN_COMPANY, year, number), company, ADMIN_EMAIL, ADMIN_PHONE);
      if number > MAX_INT32 || Violated(b.employees, row).Some? then None
      else Some(b.(counters := b.counters[(company, year) := number],
                employees := b.employees + [row],
                tickets := b.tickets + [Ticket(ADMIN_COMPANY, company, year, number, Created)]))
  }

  /** The migration's registration, as moves of the protocol. */
  function AdminMoves(b: Book, year: nat): seq<Move> {
    [Take(ADMIN_COMPANY, year, Done), Place(|b.tickets|, ADMIN_EMAIL, ADMIN_PHONE, Done)]
  }

  /** The book once the migration has its number and not yet its row. */
  lemma AdminTakes(b: Book, year: nat)
    requires BookInv(b) && ADMIN_COMPANY in b.companies && SeedNumber(b, year) <= MAX_INT32
    ensures var t := Ticket(ADMIN_COMPANY, b.companies[ADMIN_COMPANY], year, SeedNumber(b, year), Held);
            && PlayAll(b, AdminMoves(b, year)[..1]).tickets == b.tickets + [t]
            && !HasEmployeeId(b.employees, IdOf(t))
  {
    var ms := AdminMoves(b, year);
    assert ms[..1][..0] == [] && ms[..1][0] == ms[0];
    TakeKeepsInv(b, ADMIN_COMPANY, year, Done);
    HeldIdIsFree(Play(b, ms[0]), |b.tickets|);
  }

  /**
    Up to counter 9999 the migration is one registration of the protocol, and fails only on its phone number:
    no ID that the application issued or will issue is in its way.
   */
  lemma {:induction false} SeedIsARegistration(b: Book, year: nat)
    requires BookInv(b) && ADMIN_COMPANY in b.companies && SeedNumber(b, year) <= 9999
    requires !HasEmail(b.employees, ADMIN_EMAIL)
    ensures Seed(b, year) == if HasPhone(b.employees, ADMIN_PHONE) then None else Some(PlayAll(b, AdminMoves(b, year)))
  {
    var ms := AdminMoves(b, year);
    SeededAgrees(ADMIN_COMPANY, year, SeedNumber(b, year));
    AdminTakes(b, year);
    var held := Play(b, ms[0]);
    assert ms[..1][..0] == [] && ms[..1][0] == ms[0];
    assert PlayAll(b, ms) == Play(held, ms[1]);
    var t := held.tickets[|b.tickets|];
    assert held.tickets[|b.tickets| := t.(stage := Created)] == b.tickets + [t.(stage := Created)];
  }

  /** A migration that registers keeps counters, tickets and rows in agreement exactly up to counter 9999. */
  lemma {:induction false} SeedKeepsInvExactly(b: Book, year: nat)
    requires BookInv(b) && Seed(b, year).Some? && !HasEmail(b.employees, ADMIN_EMAIL)
    ensures BookInv(Seed(b, year).value) <==> SeedNumber(b, year) <= 9999
  {
    var number := SeedNumber(b, year);
    var t := Ticket(ADMIN_COMPANY, b.companies[ADMIN_COMPANY], year, number, Created);
    if number <= 9999 {
      SeedIsARegistration(b, year);
      PlayAllKeepsInv(b, AdminMoves(b, year));
    } else {
      var s := Seed(b, year).value;
      AdminTakes(b, year);
      SeededAgrees(ADMIN_COMPANY, year, number);
      MoreRowsHaveIds(b.employees, s.employees[|b.employees|], IdOf(t));
      assert s.tickets[|b.tickets|] == t && !HasEmployeeId(s.employees, IdOf(t));
    }
  }

  /** On empty tables the migration succeeds and leaves a book to which all results above apply. */
  lemma {:induction false} SeededBook(b: Book, year: nat)
    requires Opening(b) && ADMIN_COMPANY in b.companies
    ensures Seed(b, year).Some? && BookInv(Seed(b, year).value)
  {
    SeedIsARegistration(b, year);
    SeedKeepsInvExactly(b, year);
  }

  /** The migration adds the administrator: one row, with the printed ID, and one number taken. */
  ghost predicate AddsAdmin(b: Book, after: Book, year: nat)
    requires ADMIN_COMPANY in b.companies
  {
    && after.companies == b.companies
    && |after.employees| == |b.employees| + 1 && after.employees[..|b.employees|] == b.employees
    && after.employees[|b.employees|] ==
       EmployeeRow(SeededId("GOTO", year, SeedNumber(b, year)), b.companies["GOTO"], "admin@hris.com", "+628000000000")
    && forall company: nat, y: nat :: Counter(after.counters, company, y) ==
         Counter(b.counters, company, y) + if (company, y) == (b.companies["GOTO"], year) then 1 else 0
  }

  /** The row the migration would insert breaks no unique column, and its number fits the counter. */
  ghost predicate AdminFits(b: Book, year: nat)
    requires ADMIN_COMPANY in b.companies
  {
    && SeedNumber(b, year) <= 0x7FFF_FFFF
    && forall row :: row in b.employees ==>
         row.phone != "+628000000000" && row.employeeId != SeededId("GOTO", year, SeedNumber(b, year))
  }

  /**
    The migration, exactly, from any tables: it fails as a whole without the company, or when a new administrator would
    break a unique column or overflow the counter; it does nothing when there is one already; otherwise it adds that one row.
   */
  lemma SeedExactly(b: Book, year: nat)
    ensures var exist := exists row :: row in b.employees && row.email == "admin@hris.com";
            && (Seed(b, year).None? <==> "GOTO" !in b.companies || (!exist && !AdminFits(b, year)))
            && (Seed(b, year).Some? && exist ==> Seed(b, year).value == b)
            && (Seed(b, year).Some? && !exist ==> AddsAdmin(b, Seed(b, year).value, year))
  {
    if "GOTO" in b.companies {
      var id := SeededId("GOTO", year, SeedNumber(b, year));
      if HasEmail(b.employees, ADMIN_EMAIL) {
        var i :| 0 <= i < |b.employees| && b.employees[i].email == ADMIN_EMAIL;
        assert b.employees[i] in b.employees;
      }
      if HasPhone(b.employees, ADMIN_PHONE) {
        var i :| 0 <= i < |b.employees| && b.employees[i].phone == ADMIN_PHONE;
        assert b.employees[i] in b.employees;
      }
      if HasEmployeeId(b.employees, id) {
        var i :| 0 <= i < |b.employees| && b.employees[i].employeeId == id;
        assert b.employees[i] in b.employees;
      }
    }
  }
}
