/** Sequences of callbacks on a fresh database, with the outcomes the store's
    contracts force. */
module Scenarios {
  import opened Types
  import opened Tables
  import opened Report
  import opened Text
  import opened Dates
  import opened AttendanceStore

  /** A fresh database with one employee, clocked in twice on the same day: the
      second clock-in is refused while the first record is open. */
  method ClockInTwice() returns (store: Store, outcomes: seq<Outcome>)
    ensures fresh(store) && store.Valid()
    ensures outcomes == [Ok, Ok, AlreadyClockedIn]
    ensures store.employees == [EmployeeRow(1, "Ada", "Engineer", "Research", "E1")]
    ensures store.attendance == [AttendanceRow(1, 1, "09:00", None, "2024-03-05")]
    ensures store.nextAttendanceId == 2
  {
    store := new Store();
    var ada := EmployeeRow(1, "Ada", "Engineer", "Research", "E1");
    var registered := store.SaveEmployee("Ada", "Engineer", "Research", "E1");
    assert store.employees == [ada];
    assert FindByCode(store.employees, "E1") == Some(ada);
    var firstIn := store.ClockIn("E1", "2024-03-05", "09:00");
    var open := AttendanceRow(1, 1, "09:00", None, "2024-03-05");
    assert store.attendance == [open];
    var secondIn := store.ClockIn("E1", "2024-03-05", "09:05");
    outcomes := [registered, firstIn, secondIn];
  }

  /** One day at the clock, continued: the first clock-out closes the record, a
      second finds nothing open, and once the record is closed the employee can
      clock in again the same day, which opens a second record. */
  method ClockDay() returns (outcomes: seq<Outcome>, records: nat)
    ensures outcomes == [Ok, Ok, AlreadyClockedIn, Ok, NoOpenRecord, Ok]
    ensures records == 2
  {
    var store, morning := ClockInTwice();
    assert FindByCode(store.employees, "E1") == Some(store.employees[0]);
    var firstOut := store.ClockOut("E1", "2024-03-05", "17:00");
    var closed := AttendanceRow(1, 1, "09:00", Some("17:00"), "2024-03-05");
    assert store.attendance == [closed];
    var secondOut := store.ClockOut("E1", "2024-03-05", "17:05");
    assert store.attendance == [closed];
    var again := store.ClockIn("E1", "2024-03-05", "18:00");
    outcomes := morning + [firstOut, secondOut, again];
    records := |store.attendance|;
  }

  /** Unknown or missing employees: every attendance callback checks the code first. */
  method UnknownCodes() returns (outcomes: seq<Outcome>)
    ensures outcomes == [InputError, InputError, InputError, NotFound, NotFound, NotFound, InputError]
  {
    var store := new Store();
    var emptyIn := store.ClockIn("", "2024-03-05", "09:00");
    var emptyOut := store.ClockOut("", "2024-03-05", "17:00");
    var emptyDelete := store.DeleteEmployee("");
    var missingIn := store.ClockIn("E9", "2024-03-05", "09:00");
    var missingOut := store.ClockOut("E9", "2024-03-05", "17:00");
    var missingDelete := store.DeleteEmployee("E9");
    var nameless := store.SaveEmployee("", "Engineer", "Research", "E9");
    outcomes := [emptyIn, emptyOut, emptyDelete, missingIn, missingOut, missingDelete, nameless];
  }

  /** Register, clock in, delete: the delete succeeds and the clock-in row stays behind. */
  method RegisterClockDelete() returns (store: Store, outcomes: seq<Outcome>)
    ensures fresh(store) && store.Valid()
    ensures outcomes == [Ok, Ok, Ok]
    ensures store.employees == []
    ensures store.attendance == [AttendanceRow(1, 1, "09:00", None, "2024-03-05")]
    ensures store.nextEmployeeId == 2
  {
    store := new Store();
    var registered := store.SaveEmployee("Ada", "Engineer", "Research", "E1");
    assert store.employees == [EmployeeRow(1, "Ada", "Engineer", "Research", "E1")];
    var clocked := store.ClockIn("E1", "2024-03-05", "09:00");
    assert store.attendance == [AttendanceRow(1, 1, "09:00", None, "2024-03-05")];
    var deleted := store.DeleteEmployee("E1");
    outcomes := [registered, clocked, deleted];
  }

  /** Registering again after the delete: a code collision is refused, and the
      new employees get ids the orphaned row does not refer to. */
  method RegisterAgain(store: Store) returns (outcomes: seq<Outcome>)
    requires store.Valid()
    requires store.employees == [] && store.nextEmployeeId == 2
    modifies store
    ensures store.Valid()
    ensures outcomes == [Ok, Duplicate, Ok]
    ensures store.attendance == old(store.attendance)
    ensures store.employees == [EmployeeRow(2, "Bob", "Clerk", "Sales", "E2"), EmployeeRow(3, "Ada", "Engineer", "Research", "E1")]
  {
    var other := store.SaveEmployee("Bob", "Clerk", "Sales", "E2");
    assert store.employees == [EmployeeRow(2, "Bob", "Clerk", "Sales", "E2")];
    var reused := store.SaveEmployee("Carl", "Clerk", "Sales", "E2");
    var again := store.SaveEmployee("Ada", "Engineer", "Research", "E1");
    outcomes := [other, reused, again];
  }

  /** After that sequence the orphaned record is still stored, but the report,
      unfiltered, is empty: the record shows up neither for the deleted employee
      nor for the one registered again under the same code. */
  method DeleteHidesRecords() returns (outcomes: seq<Outcome>, records: nat, report: Result<seq<ReportRow>, ReportError>)
    ensures outcomes == [Ok, Ok, Ok, Ok, Duplicate, Ok]
    ensures records == 1
    ensures report == Success([])
  {
    var store, deleted := RegisterClockDelete();
    var registered := RegisterAgain(store);
    outcomes := deleted + registered;
    records := |store.attendance|;
    report := store.SearchAttendance(Filters("", "", "", ""));
  }

  /** The create-user form: "HR" in any spelling is refused, "employee" in any
      spelling is stored as Employee, and the seeded admin logs in as HR. */
  method CreateUsers() returns (outcomes: seq<Outcome>, admin: Option<Role>, clerk: Option<Role>)
    ensures outcomes == [InputError, InputError, Ok, Duplicate, InputError]
    ensures admin == Some(HR)
    ensures clerk == Some(Employee)
  {
    var store := new Store();
    store.SetupDatabase();
    var upper := store.SaveUser("boss", "secret", "HR");
    var lower := store.SaveUser("boss", "secret", "hr");
    assert Lower("EMPLOYEE") == "employee";
    var created := store.SaveUser("clerk", "secret", "EMPLOYEE");
    assert Lower("employee") == "employee";
    var twice := store.SaveUser("clerk", "other", "employee");
    var noPassword := store.SaveUser("temp", "", "employee");
    outcomes := [upper, lower, created, twice, noPassword];
    admin := Login(store.users, "admin", "admin123");
    clerk := Login(store.users, "clerk", "secret");
  }

  /** A case-insensitive name fragment and the record's month keep it in the report. */
  method SearchByNameAndMonth() returns (report: Result<seq<ReportRow>, ReportError>)
    ensures report.Success?
    ensures ReportRow("Ada", "Research", "2024-03-05", "09:00", None) in report.value
  {
    var store, _ := ClockInTwice();
    assert Lower("Ada") == "ada" && Lower("aD") == "ad";
    assert Contains("ada", "ad") by {
      assert "ad" <= "ada"[0..];
    }
    assert MonthNumber("March") == Some(3);
    assert MonthOf("2024-03-05") == Some(3);
    var row := RowOf(store.employees[0], store.attendance[0]);
    assert Selected(Filters("aD", "", "", "March"), row);
    report := store.SearchAttendance(Filters("aD", "", "", "March"));
  }

  /** A record from March is not in April's report. */
  method SearchOtherMonth() returns (report: Result<seq<ReportRow>, ReportError>)
    ensures report == Success([])
  {
    var store, _ := ClockInTwice();
    var april := Filters("", "", "", "April");
    assert MonthNumber("April") == Some(4);
    assert MonthOf("2024-03-05") == Some(3);
    var only := RowOf(store.employees[0], store.attendance[0]);
    assert store.employees[1..] == [] && store.attendance[1..] == [];
    assert JoinOne(store.employees, store.attendance[0]) == [only] + JoinOne([], store.attendance[0]);
    assert Join(store.employees, store.attendance) == [only] + Join(store.employees, []);
    assert !Selected(april, only);
    assert Select(april, [only]) == [];
    report := store.SearchAttendance(april);
    assert |multiset(report.value)| == 0;
  }

  /** A month name outside the list fails the search. */
  method SearchUnknownMonth() returns (report: Result<seq<ReportRow>, ReportError>)
    ensures report == Failure(UnknownMonth("Smarch"))
  {
    var store, _ := ClockInTwice();
    MonthNumberFinds("Smarch");
    report := store.SearchAttendance(Filters("", "", "", "Smarch"));
  }
}
