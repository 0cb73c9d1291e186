/** The rows of the three tables (employees, attendance, users), the single-table
    queries the callbacks issue, and the one-open-record-per-day invariant. */
module Tables {
  import opened Types

  /** A date as stored in attendance.date ("YYYY-MM-DD" text). */
  type Date = string

  /** A timestamp as stored in clock_in_time / clock_out_time. */
  type Timestamp = string

  /** The two values the users.role CHECK constraint admits. */
  datatype Role = HR | Employee

  datatype EmployeeRow = EmployeeRow(id: nat, name: string, position: string, department: string, code: string)

  /** clockOut == None is a NULL clock_out_time: the record is still open. */
  datatype AttendanceRow = AttendanceRow(id: nat, employeeId: nat, clockIn: Timestamp, clockOut: Option<Timestamp>, date: Date)

  datatype UserRow = UserRow(password: string, role: Role)

  function RoleText(r: Role): string
  {
    match r
    case HR => "HR"
    case Employee => "Employee"
  }

  /** The role check `role in ["HR", "Employee"]`, read as a parser. */
  function ParseRole(s: string): (r: Option<Role>)
    ensures r.Some? <==> s in ["HR", "Employee"]
    ensures r.Some? ==> RoleText(r.value) == s
  {
    if s == "HR" then Some(HR) else if s == "Employee" then Some(Employee) else None
  }

  // ---------------------------------------------------------------- employees

  /** SELECT id FROM employees WHERE employee_code = ?, then fetchone(): the first row with that code. */
  function FindByCode(employees: seq<EmployeeRow>, code: string): (r: Option<EmployeeRow>)
    ensures r.None? <==> forall e :: e in employees ==> e.code != code
    ensures r.Some? ==> r.value in employees && r.value.code == code
  {
    if employees == [] then None
    else if employees[0].code == code then Some(employees[0])
    else FindByCode(employees[1..], code)
  }

  /** The surrogate key and the UNIQUE employee_code column. */
  predicate UniqueEmployeeKeys(employees: seq<EmployeeRow>)
  {
    forall i, j :: 0 <= i < j < |employees| ==>
      employees[i].id != employees[j].id && employees[i].code != employees[j].code
  }

  /** DELETE FROM employees WHERE id = ?. */
  function DeleteById(employees: seq<EmployeeRow>, id: nat): seq<EmployeeRow>
  {
    Filter(employees, (e: EmployeeRow) => e.id != id)
  }

  /** With unique keys, deleting by the id of row k removes row k and nothing else. */
  lemma {:induction false} DeleteByIdRemovesOne(employees: seq<EmployeeRow>, k: nat)
    requires UniqueEmployeeKeys(employees) && k < |employees|
    ensures DeleteById(employees, employees[k].id) == employees[..k] + employees[k + 1..]
  {
    var id := employees[k].id;
    if k == 0 {
      KeepAllOthers(employees[1..], id);
      assert employees[1..][..] == employees[1..];
    } else {
      assert employees[0].id != id;
      DeleteByIdRemovesOne(employees[1..], k - 1);
      assert employees[1..][..k - 1] + employees[1..][k..] == (employees[..k] + employees[k + 1..])[1..];
    }
  }

  /** Deleting an id that no row carries changes nothing. */
  lemma {:induction false} KeepAllOthers(employees: seq<EmployeeRow>, id: nat)
    requires forall e :: e in employees ==> e.id != id
    ensures DeleteById(employees, id) == employees
  {
    if employees != [] {
      KeepAllOthers(employees[1..], id);
    }
  }

  /** Removing one row keeps the keys of the others unique. */
  lemma UniqueAfterRemoval(employees: seq<EmployeeRow>, k: nat)
    requires UniqueEmployeeKeys(employees) && k < |employees|
    ensures UniqueEmployeeKeys(employees[..k] + employees[k + 1..])
  {
    var r := employees[..k] + employees[k + 1..];
    forall i, j | 0 <= i < j < |r|
      ensures r[i].id != r[j].id && r[i].code != r[j].code
    {
      var i' := if i < k then i else i + 1;
      var j' := if j < k then j else j + 1;
      assert r[i] == employees[i'] && r[j] == employees[j'];
    }
  }

  /** Deleting by the id of row k removes exactly the row with row k's code. */
  lemma DeleteByIdKeepsOtherCodes(employees: seq<EmployeeRow>, k: nat)
    requires UniqueEmployeeKeys(employees) && k < |employees|
    ensures forall e :: e in DeleteById(employees, employees[k].id) <==> e in employees && e.code != employees[k].code
  {
    forall e | e in employees
      ensures e.id == employees[k].id <==> e.code == employees[k].code
    {
      var j :| 0 <= j < |employees| && employees[j] == e;
      if j < k {
        assert employees[j].id != employees[k].id && employees[j].code != employees[k].code;
      } else if j > k {
        assert employees[k].id != employees[j].id && employees[k].code != employees[j].code;
      }
    }
  }

  // --------------------------------------------------------------- attendance

  /** `a` is an open record (NULL clock_out_time) of that employee on that date. */
  predicate IsOpenFor(a: AttendanceRow, employeeId: nat, date: Date)
  {
    a.employeeId == employeeId && a.date == date && a.clockOut.None?
  }

  /** SELECT ... FROM attendance WHERE employee_id = ? AND date = ? AND clock_out_time IS NULL,
      then fetchone(): the first open record of that employee on that date. */
  function FindOpen(attendance: seq<AttendanceRow>, employeeId: nat, date: Date): (r: Option<AttendanceRow>)
    ensures r.None? <==> forall a :: a in attendance ==> !IsOpenFor(a, employeeId, date)
    ensures r.Some? ==> r.value in attendance && IsOpenFor(r.value, employeeId, date)
  {
    if attendance == [] then None
    else if IsOpenFor(attendance[0], employeeId, date) then Some(attendance[0])
    else FindOpen(attendance[1..], employeeId, date)
  }

  /** The attendance invariant: no two rows are open for the same (employee, date). */
  predicate AtMostOneOpen(attendance: seq<AttendanceRow>)
  {
    forall i, j :: 0 <= i < |attendance| && 0 <= j < |attendance| &&
      attendance[i].clockOut.None? && IsOpenFor(attendance[j], attendance[i].employeeId, attendance[i].date)
      ==> i == j
  }

  /** The INTEGER PRIMARY KEY of attendance. */
  predicate UniqueAttendanceIds(attendance: seq<AttendanceRow>)
  {
    forall i, j :: 0 <= i < j < |attendance| ==> attendance[i].id != attendance[j].id
  }

  /** UPDATE attendance SET clock_out_time = ? WHERE id = ?. */
  function CloseById(attendance: seq<AttendanceRow>, id: nat, now: Timestamp): seq<AttendanceRow>
  {
    seq(|attendance|, i requires 0 <= i < |attendance| =>
      if attendance[i].id == id then attendance[i].(clockOut := Some(now)) else attendance[i])
  }

  /** With unique ids, the update by the id of row k sets the clock-out of row k and of no other row. */
  lemma CloseByIdClosesOne(attendance: seq<AttendanceRow>, k: nat, now: Timestamp)
    requires UniqueAttendanceIds(attendance) && k < |attendance|
    ensures CloseById(attendance, attendance[k].id, now) == attendance[k := attendance[k].(clockOut := Some(now))]
  {
    var r := CloseById(attendance, attendance[k].id, now);
    var s := attendance[k := attendance[k].(clockOut := Some(now))];
    forall i | 0 <= i < |attendance|
      ensures r[i] == s[i]
    {
      if i < k {
        assert attendance[i].id != attendance[k].id;
      } else if i > k {
        assert attendance[k].id != attendance[i].id;
      }
    }
  }

  /** Clock-in: appending an open record for a (employee, date) that has none keeps the invariant. */
  lemma ClockInKeepsOneOpen(attendance: seq<AttendanceRow>, row: AttendanceRow)
    requires AtMostOneOpen(attendance)
    requires FindOpen(attendance, row.employeeId, row.date).None?
    ensures AtMostOneOpen(attendance + [row])
  {
    var r := attendance + [row];
    forall i, j | 0 <= i < |r| && 0 <= j < |r| && r[i].clockOut.None? && IsOpenFor(r[j], r[i].employeeId, r[i].date)
      ensures i == j
    {
      if i < |attendance| && j == |attendance| {
        assert attendance[i] in attendance;
        assert IsOpenFor(attendance[i], row.employeeId, row.date);
      }
    }
  }

  /** Clock-out: closing the open record at k keeps the invariant and leaves no open
      record for that (employee, date). */
  lemma ClockOutClosesDay(attendance: seq<AttendanceRow>, k: nat, now: Timestamp)
    requires AtMostOneOpen(attendance) && k < |attendance| && attendance[k].clockOut.None?
    ensures AtMostOneOpen(attendance[k := attendance[k].(clockOut := Some(now))])
    ensures FindOpen(attendance[k := attendance[k].(clockOut := Some(now))], attendance[k].employeeId, attendance[k].date).None?
  {
    var r := attendance[k := attendance[k].(clockOut := Some(now))];
    forall a | a in r
      ensures !IsOpenFor(a, attendance[k].employeeId, attendance[k].date)
    {
      var j :| 0 <= j < |r| && r[j] == a;
    }
  }
}
