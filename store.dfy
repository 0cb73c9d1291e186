/** The attendance database as the Tk callbacks see it: three tables, the
    AUTOINCREMENT counters behind the surrogate keys, and one method per callback.
    The clock (datetime.now() and its date) is passed in as `today` and `now`. */
module AttendanceStore {
  import opened Types
  import opened Text
  import opened Dates
  import opened Tables
  import opened Report

  /** What a callback reports back through its message box. */
  datatype Outcome =
    | Ok                // "Success", "Clock In", "Clock Out"
    | InputError        // a required entry was left empty, or the role was refused
    | NotFound          // "Employee not found."
    | Duplicate         // the INSERT hit a UNIQUE / PRIMARY KEY constraint
    | AlreadyClockedIn  // "Already clocked in for today."
    | NoOpenRecord      // "No clock-in record found for today."

  const ADMIN_NAME: string := "admin"
  const ADMIN_PASSWORD: string := "admin123"

  /** INSERT OR IGNORE of the default HR account: added when the username is free,
      and an existing row of that name is left alone. */
  function SeedAdmin(users: map<string, UserRow>): (r: map<string, UserRow>)
    ensures r.Keys == users.Keys + {ADMIN_NAME}
    ensures forall u :: u in users ==> r[u] == users[u]
    ensures ADMIN_NAME !in users ==> r[ADMIN_NAME] == UserRow(ADMIN_PASSWORD, HR)
  {
    if ADMIN_NAME in users then users else users[ADMIN_NAME := UserRow(ADMIN_PASSWORD, HR)]
  }

  /** Running setup_database again changes nothing. */
  lemma SeedAdminIdempotent(users: map<string, UserRow>)
    ensures SeedAdmin(SeedAdmin(users)) == SeedAdmin(users)
  {
  }

  /** SELECT role FROM users WHERE username = ? AND password = ?; the role picks the
      dashboard, no row means "Invalid username or password.". */
  function Login(users: map<string, UserRow>, username: string, password: string): (r: Option<Role>)
    ensures forall role :: r == Some(role) <==> (username, UserRow(password, role)) in users.Items
  {
    if username in users && users[username].password == password then Some(users[username].role) else None
  }

  /** On a database without an "admin" row, setup_database makes admin/admin123 an HR login. */
  lemma LoginAfterSeed(users: map<string, UserRow>)
    requires ADMIN_NAME !in users
    ensures Login(SeedAdmin(users), ADMIN_NAME, ADMIN_PASSWORD) == Some(HR)
  {
  }

  /** Every HR account is the seeded one: the create-user form cannot make another. */
  predicate OnlySeededHR(users: map<string, UserRow>)
  {
    forall u :: u in users && users[u].role == HR ==> u == ADMIN_NAME
  }

  /** Where only the seeded account is HR, an HR login is a login as "admin". */
  lemma HRLoginIsAdmin(users: map<string, UserRow>, username: string, password: string)
    requires OnlySeededHR(users)
    ensures Login(users, username, password) == Some(HR) ==> username == ADMIN_NAME
  {
  }

  /** The role text save_user accepts: capitalize() of it must be "HR" or "Employee",
      and since capitalize() lowers every letter after the first, only the spellings
      of "employee" pass. */
  lemma RoleAccepted(roleText: string)
    ensures ParseRole(Capitalize(roleText)).Some? <==> Lower(roleText) == "employee"
    ensures ParseRole(Capitalize(roleText)).Some? ==> ParseRole(Capitalize(roleText)).value == Employee
  {
    CapitalizeNeverHR(roleText);
    CapitalizeIsEmployee(roleText);
  }

  class Store {
    var employees: seq<EmployeeRow>
    var attendance: seq<AttendanceRow>
    var users: map<string, UserRow>
    /** The AUTOINCREMENT counters: the next id each table hands out. */
    var nextEmployeeId: nat
    var nextAttendanceId: nat

    /** The table constraints, the counters lying above every id handed out, at
        most one open record per employee and day, and no HR account but admin. */
    ghost predicate Valid()
      reads this
    {
      && UniqueEmployeeKeys(employees)
      && (forall e :: e in employees ==> e.id < nextEmployeeId)
      && UniqueAttendanceIds(attendance)
      && (forall a :: a in attendance ==> a.id < nextAttendanceId && a.employeeId < nextEmployeeId)
      && AtMostOneOpen(attendance)
      && OnlySeededHR(users)
    }

    /** A new, empty attendance.db. */
    constructor ()
      ensures Valid()
      ensures employees == [] && attendance == [] && users == map[]
      ensures nextEmployeeId == 1 && nextAttendanceId == 1
    {
      employees := [];
      attendance := [];
      users := map[];
      nextEmployeeId := 1;
      nextAttendanceId := 1;
    }

    /** setup_database: the CREATE TABLE IF NOT EXISTS statements leave existing
        tables alone; the default HR account is inserted or ignored. */
    method SetupDatabase()
      requires Valid()
      modifies this
      ensures Valid()
      ensures users == SeedAdmin(old(users))
      ensures employees == old(employees) && attendance == old(attendance)
      ensures nextEmployeeId == old(nextEmployeeId) && nextAttendanceId == old(nextAttendanceId)
    {
      users := SeedAdmin(users);
    }

    /** save_employee: name and code are required; a code already in use is
        refused by the UNIQUE constraint; otherwise the row is appended under the
        next AUTOINCREMENT id, which no attendance row refers to. */
    method SaveEmployee(name: string, position: string, department: string, code: string) returns (outcome: Outcome)
      requires Valid()
      modifies this
      ensures Valid()
      ensures outcome in {Ok, InputError, Duplicate}
      ensures outcome == InputError <==> name == "" || code == ""
      ensures outcome == Duplicate <==> name != "" && code != "" && exists e :: e in old(employees) && e.code == code
      ensures outcome == Ok ==>
        && employees == old(employees) + [EmployeeRow(old(nextEmployeeId), name, position, department, code)]
        && nextEmployeeId == old(nextEmployeeId) + 1
      ensures outcome != Ok ==> employees == old(employees) && nextEmployeeId == old(nextEmployeeId)
      ensures outcome == Ok ==> Join(employees, attendance) == Join(old(employees), old(attendance))
      ensures attendance == old(attendance) && users == old(users) && nextAttendanceId == old(nextAttendanceId)
    {
      if name == "" || code == "" {
        return InputError;
      }
      if FindByCode(employees, code).Some? {
        return Duplicate;
      }
      var row := EmployeeRow(nextEmployeeId, name, position, department, code);
      JoinUnreferencedEmployee(employees, attendance, row);
      employees := employees + [row];
      nextEmployeeId := nextEmployeeId + 1;
      outcome := Ok;
    }

    /** save_user: username and password are required and capitalize() of the
        role text must be "HR" or "Employee"; a username already present is
        refused by the PRIMARY KEY. The stored role is always Employee. */
    method SaveUser(username: string, password: string, roleText: string) returns (outcome: Outcome)
      requires Valid()
      modifies this
      ensures Valid()
      ensures outcome in {Ok, InputError, Duplicate}
      ensures outcome == InputError <==> username == "" || password == "" || Lower(roleText) != "employee"
      ensures outcome == Duplicate <==> outcome != InputError && username in old(users)
      ensures outcome == Ok ==> users == old(users)[username := UserRow(password, Employee)]
      ensures outcome == Ok ==> Login(users, username, password) == Some(Employee)
      ensures outcome != Ok ==> users == old(users)
      ensures employees == old(employees) && attendance == old(attendance)
      ensures nextEmployeeId == old(nextEmployeeId) && nextAttendanceId == old(nextAttendanceId)
    {
      var role := Capitalize(roleText);
      var parsed := ParseRole(role);
      RoleAccepted(roleText);
      if username == "" || password == "" || parsed.None? {
        return InputError;
      }
      if username in users {
        return Duplicate;
      }
      users := users[username := UserRow(password, parsed.value)];
      outcome := Ok;
    }

    /** delete_employee: the code is required and must name an employee; that
        employee's row is deleted by id. PRAGMA foreign_keys is never switched
        on, so ON DELETE CASCADE does not fire: the attendance rows stay, and the
        report's inner join no longer shows them. */
    method DeleteEmployee(code: string) returns (outcome: Outcome)
      requires Valid()
      modifies this
      ensures Valid()
      ensures outcome in {Ok, InputError, NotFound}
      ensures attendance == old(attendance) && users == old(users)
      ensures nextEmployeeId == old(nextEmployeeId) && nextAttendanceId == old(nextAttendanceId)
      ensures outcome == InputError <==> code == ""
      ensures outcome == NotFound <==> code != "" && FindByCode(old(employees), code).None?
      ensures outcome != Ok ==> employees == old(employees)
      ensures outcome == Ok ==>
        (exists k :: 0 <= k < |old(employees)| && old(employees)[k].code == code &&
           employees == old(employees)[..k] + old(employees)[k + 1..])
      ensures outcome == Ok ==> forall e :: e in employees <==> e in old(employees) && e.code != code
      ensures outcome == Ok ==>
        (var id := FindByCode(old(employees), code).value.id;
         Join(employees, attendance) == Join(old(employees), Filter(old(attendance), (a: AttendanceRow) => a.employeeId != id)))
    {
      if code == "" {
        return InputError;
      }
      var found := FindByCode(employees, code);
      if found.None? {
        return NotFound;
      }
      var k :| 0 <= k < |employees| && employees[k] == found.value;
      DeleteByIdRemovesOne(employees, k);
      DeleteByIdKeepsOtherCodes(employees, k);
      UniqueAfterRemoval(employees, k);
      DeletedEmployeeHidden(employees, attendance, found.value.id);
      employees := DeleteById(employees, found.value.id);
      outcome := Ok;
    }

    /** clock_in: the code is required and must name an employee; if that
        employee already has an open record dated today nothing is inserted,
        otherwise an open record stamped `now` and dated `today` is appended. */
    method ClockIn(code: string, today: Date, now: Timestamp) returns (outcome: Outcome)
      requires Valid()
      modifies this
      ensures Valid()
      ensures outcome in {Ok, InputError, NotFound, AlreadyClockedIn}
      ensures outcome == InputError <==> code == ""
      ensures outcome == NotFound <==> code != "" && FindByCode(old(employees), code).None?
      ensures employees == old(employees) && users == old(users) && nextEmployeeId == old(nextEmployeeId)
      ensures outcome == AlreadyClockedIn <==>
        (code != "" && FindByCode(old(employees), code).Some? &&
         FindOpen(old(attendance), FindByCode(old(employees), code).value.id, today).Some?)
      ensures outcome == Ok ==>
        && attendance == old(attendance) + [AttendanceRow(old(nextAttendanceId), FindByCode(old(employees), code).value.id, now, None, today)]
        && nextAttendanceId == old(nextAttendanceId) + 1
      ensures outcome != Ok ==> attendance == old(attendance) && nextAttendanceId == old(nextAttendanceId)
      ensures outcome in {Ok, AlreadyClockedIn} ==> FindOpen(attendance, FindByCode(employees, code).value.id, today).Some?
    {
      if code == "" {
        return InputError;
      }
      var found := FindByCode(employees, code);
      if found.None? {
        return NotFound;
      }
      var employeeId := found.value.id;
      if FindOpen(attendance, employeeId, today).Some? {
        return AlreadyClockedIn;
      }
      var row := AttendanceRow(nextAttendanceId, employeeId, now, None, today);
      ClockInKeepsOneOpen(attendance, row);
      attendance := attendance + [row];
      nextAttendanceId := nextAttendanceId + 1;
      assert row in attendance && IsOpenFor(row, employeeId, today);
      outcome := Ok;
    }

    /** clock_out: the code is required and must name an employee; the open
        record of that employee dated today gets `now` as its clock-out time.
        A closed record does not block a later clock-in the same day. */
    method ClockOut(code: string, today: Date, now: Timestamp) returns (outcome: Outcome)
      requires Valid()
      modifies this
      ensures Valid()
      ensures outcome in {Ok, InputError, NotFound, NoOpenRecord}
      ensures outcome == InputError <==> code == ""
      ensures outcome == NotFound <==> code != "" && FindByCode(old(employees), code).None?
      ensures employees == old(employees) && users == old(users)
      ensures outcome == NoOpenRecord <==>
        (code != "" && FindByCode(old(employees), code).Some? &&
         FindOpen(old(attendance), FindByCode(old(employees), code).value.id, today).None?)
      ensures outcome == Ok ==>
        (exists k :: 0 <= k < |old(attendance)| &&
           IsOpenFor(old(attendance)[k], FindByCode(old(employees), code).value.id, today) &&
           attendance == old(attendance)[k := old(attendance)[k].(clockOut := Some(now))])
      ensures outcome != Ok ==> attendance == old(attendance)
      ensures outcome in {Ok, NoOpenRecord} ==> FindOpen(attendance, FindByCode(employees, code).value.id, today).None?
      ensures nextEmployeeId == old(nextEmployeeId) && nextAttendanceId == old(nextAttendanceId)
    {
      if code == "" {
        return InputError;
      }
      var found := FindByCode(employees, code);
      if found.None? {
        return NotFound;
      }
      var employeeId := found.value.id;
      var record := FindOpen(attendance, employeeId, today);
      if record.None? {
        return NoOpenRecord;
      }
      var k :| 0 <= k < |attendance| && attendance[k] == record.value;
      CloseByIdClosesOne(attendance, k, now);
      ClockOutClosesDay(attendance, k, now);
      attendance := CloseById(attendance, record.value.id, now);
      outcome := Ok;
    }

    /** search_attendance: builds the query from the filters and runs it. The
        rows are those of the inner join the filters select, latest date first. */
    method SearchAttendance(filters: Filters) returns (r: Result<seq<ReportRow>, ReportError>)
      ensures r.Failure? <==> filters.month != "" && MonthNumber(filters.month).None?
      ensures r.Failure? ==> r.error == UnknownMonth(filters.month)
      ensures r.Success? ==> IsReportFor(r.value, filters, employees, attendance)
      ensures r.Success? ==> forall row :: row in r.value <==>
        Selected(filters, row) &&
        exists a, e :: a in attendance && e in employees && e.id == a.employeeId && row == RowOf(e, a)
    {
      var built := BuildQuery(filters);
      if built.Failure? {
        return Failure(built.error);
      }
      BuiltQueryFacts(filters, built.value);
      var rows := Execute(built.value, employees, attendance);
      ExecuteIsReport(built.value, filters, employees, attendance);
      forall row
        ensures row in rows <==> row in Select(filters, Join(employees, attendance))
      {
        assert row in rows <==> row in multiset(rows);
      }
      r := Success(rows);
    }
  }
}
