/**
  Registration as the use case runs it, over the sequence table and the employees table.
  One call is proved to be a move or two of the allocation protocol.
 */
module EmployeeUsecase {
  import opened Prelude
  import opened Domain
  import opened EmployeeIds
  import opened Allocation

  datatype RegisterError =
    | InvalidEmailDomain
    | InvalidCompanyCode
    | SequenceFailure
    | HashFailure
    | EmailAlreadyRegistered
    | PhoneAlreadyRegistered
    | CreateFailure

  /** A request with what the environment decides: the clock's year, the blocklist's verdict, and each call's fate. */
  datatype Registration = Registration(
    code: string,
    email: string,
    phone: string,
    year: nat,
    blocked: bool,
    companyFails: bool,
    take: Write,
    hashFails: bool,
    create: Write)

  class EmployeeStore {
    const companies: map<string, nat>
    var counters: map<(nat, nat), nat>
    var employees: seq<EmployeeRow>
    ghost var tickets: seq<Ticket>

    ghost function View(): Book
      reads this
    {
      Book(companies, counters, employees, tickets)
    }

    constructor (companies: map<string, nat>)
      ensures View() == Book(companies, map[], [], [])
    {
      this.companies := companies;
      counters, employees, tickets := map[], [], [];
    }

    /** INSERT ... VALUES (?, ?, 1) ON CONFLICT DO UPDATE SET counter = counter + 1 RETURNING counter */
    method IncrementAndGetCounter(company: nat, year: nat, w: Write) returns (r: Option<nat>)
      modifies this`counters
      ensures var n := Counter(old(counters), company, year);
              if w.Applied() && n < MAX_INT32 then
                counters == old(counters)[(company, year) := n + 1] && r == if w.Done? then Some(n + 1) else None
              else counters == old(counters) && r == None
    {
      var key := (company, year);
      if !w.Applied() || (key in counters && counters[key] >= MAX_INT32) {
        return None;
      }
      if key in counters {
        counters := counters[key := counters[key] + 1];
      } else {
        counters := counters[key := 1];
      }
      return if w.Done? then Some(counters[key]) else None;
    }

    method Create(row: EmployeeRow, w: Write) returns (ok: bool, broken: Option<Constraint>)
      modifies this`employees
      ensures broken == if w.Applied() then Violated(old(employees), row) else None
      ensures ok == (w.Done? && broken.None?)
      ensures employees == old(employees) + if w.Applied() && broken.None? then [row] else []
    {
      if !w.Applied() {
        return false, None;
      }
      broken := Violated(employees, row);
      if broken.Some? {
        return false, broken;
      }
      employees := employees + [row];
      return w.Done?, None;
    }
  }

  /** The protocol moves one call makes. */
  function MovesOf(b: Book, g: Registration): seq<Move> {
    if g.blocked || g.companyFails || g.code !in b.companies then []
    else if !g.take.Done? || !Increments(b, b.companies[g.code], g.year, g.take) then [Take(g.code, g.year, g.take)]
    else if g.hashFails then [Take(g.code, g.year, g.take), GiveUp(|b.tickets|)]
    else [Take(g.code, g.year, g.take), Place(|b.tickets|, g.email, g.phone, g.create)]
  }

  function Outcome(b: Book, g: Registration): Result<(), RegisterError> {
    if g.blocked then Failure(InvalidEmailDomain)
    else if g.companyFails || g.code !in b.companies then Failure(InvalidCompanyCode)
    else if !g.take.Done? || !Increments(b, b.companies[g.code], g.year, g.take) then Failure(SequenceFailure)
    else if g.hashFails then Failure(HashFailure)
    else InsertOutcome(b.employees, g.email, g.phone, g.create)
  }

  function InsertOutcome(rows: seq<EmployeeRow>, email: string, phone: string, w: Write): Result<(), RegisterError> {
    if w.Applied() && HasEmail(rows, email) then Failure(EmailAlreadyRegistered)
    else if w.Applied() && HasPhone(rows, phone) then Failure(PhoneAlreadyRegistered)
    else if w.Done? then Success(())
    else Failure(CreateFailure)
  }

  // ---- what a registration answers and leaves behind, in rows and counters ----

  ghost predicate EmailFree(b: Book, email: string) {
    forall row :: row in b.employees ==> row.email != email
  }

  ghost predicate PhoneFree(b: Book, phone: string) {
    forall row :: row in b.employees ==> row.phone != phone
  }

  /** The checks before the counter: the mail domain and the company code. */
  ghost predicate Admitted(b: Book, g: Registration) {
    !g.blocked && !g.companyFails && g.code in b.companies
  }

  /** The counter was below its column's maximum and the increment took effect. */
  ghost predicate Numbers(b: Book, g: Registration) {
    Admitted(b, g) && g.take.Applied() && Counter(b.counters, b.companies[g.code], g.year) < 0x7FFF_FFFF
  }

  /** A number was taken and acknowledged and the password hashed: the row is about to be inserted. */
  ghost predicate Inserts(b: Book, g: Registration) {
    Numbers(b, g) && g.take.Done? && !g.hashFails
  }

  /** The row of a registration: what was asked for, the code's company, and an ID that reads back as its number. */
  ghost predicate RegisteredAs(b: Book, g: Registration, row: EmployeeRow)
    requires g.code in b.companies
  {
    && row.email == g.email && row.phone == g.phone && row.company == b.companies[g.code]
    && Decode(row.employeeId) == Some((g.code, g.year, Counter(b.counters, b.companies[g.code], g.year) + 1))
  }

  ghost predicate Errors(b: Book, g: Registration, r: Result<(), RegisterError>) {
    && (r.Success? <==> Inserts(b, g) && g.create.Done? && EmailFree(b, g.email) && PhoneFree(b, g.phone))
    && (r == Failure(InvalidEmailDomain) <==> g.blocked)
    && (r == Failure(InvalidCompanyCode) <==> !g.blocked && (g.companyFails || g.code !in b.companies))
    && (r == Failure(SequenceFailure) <==> Admitted(b, g) && !(Numbers(b, g) && g.take.Done?))
    && (r == Failure(HashFailure) <==> Numbers(b, g) && g.take.Done? && g.hashFails)
    && (r == Failure(EmailAlreadyRegistered) <==> Inserts(b, g) && g.create.Applied() && !EmailFree(b, g.email))
    && (r == Failure(PhoneAlreadyRegistered) <==>
        Inserts(b, g) && g.create.Applied() && EmailFree(b, g.email) && !PhoneFree(b, g.phone))
    && (r == Failure(CreateFailure) <==>
        Inserts(b, g) && (g.create.Refused? || (g.create.Unacknowledged? && EmailFree(b, g.email) && PhoneFree(b, g.phone))))
  }

  /** One row more exactly when the insert takes effect, acknowledged or not; one number more exactly when one is taken. */
  ghost predicate Effects(b: Book, g: Registration, after: Book) {
    && after.companies == b.companies
    && (if Inserts(b, g) && g.create.Applied() && EmailFree(b, g.email) && PhoneFree(b, g.phone)
        then |after.employees| == |b.employees| + 1 && after.employees[..|b.employees|] == b.employees
             && RegisteredAs(b, g, after.employees[|b.employees|])
        else after.employees == b.employees)
    && forall company: nat, year: nat :: Counter(after.counters, company, year) ==
         Counter(b.counters, company, year) +
         if Numbers(b, g) && (company, year) == (b.companies[g.code], g.year) then 1 else 0
  }

  /** A registration that has ended holds no number: the one it took is its row's, or dropped. */
  ghost predicate Settles(b: Book, g: Registration, after: Book) {
    if Numbers(b, g) then
      && |after.tickets| == |b.tickets| + 1 && after.tickets[..|b.tickets|] == b.tickets
      && after.tickets[|b.tickets|].stage == if |after.employees| > |b.employees| then Created else Dropped
    else after.tickets == b.tickets
  }

  lemma FreeColumns(b: Book, email: string, phone: string)
    ensures HasEmail(b.employees, email) <==> !EmailFree(b, email)
    ensures HasPhone(b.employees, phone) <==> !PhoneFree(b, phone)
  {
    if HasEmail(b.employees, email) {
      var i :| 0 <= i < |b.employees| && b.employees[i].email == email;
      assert b.employees[i] in b.employees;
    }
    if HasPhone(b.employees, phone) {
      var i :| 0 <= i < |b.employees| && b.employees[i].phone == phone;
      assert b.employees[i] in b.employees;
    }
  }

  /**
    Registration, exactly: a success adds one employee with the given email and phone, the company of the given code and
    the next number's ID, and advances one counter; each error answers its own cause; no row is added with an error except
    by an insert that took effect unacknowledged.
   */
  lemma RegistersExactly(b: Book, g: Registration)
    requires BookInv(b)
    ensures Errors(b, g, Outcome(b, g))
    ensures Effects(b, g, PlayAll(b, MovesOf(b, g))) && Settles(b, g, PlayAll(b, MovesOf(b, g)))
  {
    FreeColumns(b, g.email, g.phone);
    RegistrationEffects(b, g);
  }

  lemma RegistrationEffects(b: Book, g: Registration)
    requires BookInv(b)
    ensures Effects(b, g, PlayAll(b, MovesOf(b, g))) && Settles(b, g, PlayAll(b, MovesOf(b, g)))
  {
    var take, i := Take(g.code, g.year, g.take), |b.tickets|;
    PlayTwo(b, take, GiveUp(i));
    PlayTwo(b, take, Place(i, g.email, g.phone, g.create));
    if Numbers(b, g) {
      TakeCounts(b, g);
      if Inserts(b, g) {
        PlaceEffects(b, g, Play(b, take));
      }
    }
  }

  lemma TakeCounts(b: Book, g: Registration)
    requires Numbers(b, g)
    ensures var held := Play(b, Take(g.code, g.year, g.take));
            && held.companies == b.companies && held.employees == b.employees
            && |held.tickets| == |b.tickets| + 1 && held.tickets[..|b.tickets|] == b.tickets
            && held.tickets[|b.tickets|] ==
               Ticket(g.code, b.companies[g.code], g.year, Counter(b.counters, b.companies[g.code], g.year) + 1,
                      if g.take.Done? then Held else Dropped)
            && forall company: nat, year: nat :: Counter(held.counters, company, year) ==
                 Counter(b.counters, company, year) + if (company, year) == (b.companies[g.code], g.year) then 1 else 0
  {
  }

  /** The insert of a number just taken: it meets no other constraint than the email's and the phone's. */
  lemma PlaceEffects(b: Book, g: Registration, held: Book)
    requires BookInv(b) && Inserts(b, g) && held == Play(b, Take(g.code, g.year, g.take))
    ensures var after := Play(held, Place(|b.tickets|, g.email, g.phone, g.create));
            && after.companies == b.companies && after.counters == held.counters
            && (if g.create.Applied() && EmailFree(b, g.email) && PhoneFree(b, g.phone)
               then |after.employees| == |b.employees| + 1 && after.employees[..|b.employees|] == b.employees
                    && RegisteredAs(b, g, after.employees[|b.employees|])
               else after.employees == b.employees)
            && after.tickets == held.tickets[|b.tickets| := held.tickets[|b.tickets|].(
                 stage := if |after.employees| > |b.employees| then Created else Dropped)]
  {
    TakeCounts(b, g);
    FreeColumns(b, g.email, g.phone);
    PlayKeepsInv(b, Take(g.code, g.year, g.take));
    HeldIdIsFree(held, |b.tickets|);
    RoundTrip(g.code, g.year, held.tickets[|b.tickets|].number);
  }

  lemma PlayTwo(b: Book, m: Move, m': Move)
    ensures PlayAll(b, []) == b
    ensures PlayAll(b, [m]) == Play(b, m)
    ensures PlayAll(b, [m, m']) == Play(Play(b, m), m')
  {
    assert [m][..0] == [];
    assert [m, m'][..1] == [m];
  }

  class Usecase {
    const store: EmployeeStore

    constructor (store: EmployeeStore)
      ensures this.store == store
    {
      this.store := store;
    }

    method GenerateEmployeeID(company: nat, code: string, year: nat, w: Write) returns (id: Option<string>)
      requires code in store.companies && store.companies[code] == company
      modifies store
      ensures store.View() == Play(old(store.View()), Take(code, year, w))
      ensures id == if w.Done? && Increments(old(store.View()), company, year, w)
                    then Some(EmployeeId(code, year, Counter(old(store.counters), company, year) + 1)) else None
    {
      ghost var number := Counter(store.counters, company, year) + 1;
      ghost var applied := Increments(store.View(), company, year, w);
      var counter := store.IncrementAndGetCounter(company, year, w);
      if applied {
        store.tickets := store.tickets + [Ticket(code, company, year, number, if w.Done? then Held else Dropped)];
      }
      if counter.None? {
        return None;
      }
      return Some(code + "-" + Dec(year) + "-" + ZeroPad(counter.value, 4));
    }

    /** The insert of an in-flight registration, and the error it is reported as. */
    method Insert(employeeId: string, company: nat, email: string, phone: string, ghost i: nat, w: Write)
      returns (r: Result<(), RegisterError>)
      requires BookInv(store.View()) && i < |store.tickets| && store.tickets[i].stage.Held?
      requires IdOf(store.tickets[i]) == employeeId && store.tickets[i].company == company
      modifies store
      ensures store.View() == Play(old(store.View()), Place(i, email, phone, w))
      ensures r == InsertOutcome(old(store.employees), email, phone, w)
    {
      HeldIdIsFree(store.View(), i);
      var ok, broken := store.Create(EmployeeRow(employeeId, company, email, phone), w);
      store.tickets := store.tickets[i := store.tickets[i].(
        stage := if w.Applied() && broken.None? then Created else Dropped)];
      if !ok {
        match broken
        case Some(OnEmail) => return Failure(EmailAlreadyRegistered);
        case Some(OnPhone) => return Failure(PhoneAlreadyRegistered);
        case _ => return Failure(CreateFailure);
      }
      return Success(());
    }

    /** No registration is refused for its employee ID, so the error names the email or the phone. */
    method RegisterByMoves(g: Registration) returns (r: Result<(), RegisterError>)
      requires BookInv(store.View())
      modifies store
      ensures BookInv(store.View())
      ensures store.View() == PlayAll(old(store.View()), MovesOf(old(store.View()), g))
      ensures r == Outcome(old(store.View()), g)
    {
      ghost var before := store.View();
      ghost var take, i := Take(g.code, g.year, g.take), |before.tickets|;
      PlayTwo(before, take, GiveUp(i));
      PlayTwo(before, take, Place(i, g.email, g.phone, g.create));
      PlayKeepsInv(before, take);
      if g.blocked {
        return Failure(InvalidEmailDomain);
      }
      if g.companyFails || g.code !in store.companies {
        return Failure(InvalidCompanyCode);
      }
      var company := store.companies[g.code];
      var employeeId := GenerateEmployeeID(company, g.code, g.year, g.take);
      if employeeId.None? {
        return Failure(SequenceFailure);
      }
      PlayKeepsInv(store.View(), GiveUp(i));
      PlayKeepsInv(store.View(), Place(i, g.email, g.phone, g.create));
      if g.hashFails {
        store.tickets := store.tickets[i := store.tickets[i].(stage := Dropped)];
        return Failure(HashFailure);
      }
      r := Insert(employeeId.value, company, g.email, g.phone, i, g.create);
    }

    /** The same, with what it answers and leaves behind stated in rows and counters. */
    method Register(g: Registration) returns (r: Result<(), RegisterError>)
      requires BookInv(store.View())
      modifies store
      ensures BookInv(store.View())
      ensures Errors(old(store.View()), g, r) && Effects(old(store.View()), g, store.View())
      ensures Settles(old(store.View()), g, store.View())
    {
      RegistersExactly(store.View(), g);
      r := RegisterByMoves(g);
    }
  }
}
