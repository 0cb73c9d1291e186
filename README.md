# Employee attendance store

A model of the record-keeping rules of the Tk employee attendance application
(`attendance_app.py`). The application keeps three SQLite tables:

- `employees`: surrogate id, name, position, department and a unique employee code;
- `attendance`: one row per clock-in, with the clock-out time NULL while the record is open;
- `users`: username, password and a role that is either HR or Employee.

Its callbacks register and delete employees, create users, clock employees in
and out, log users in, and search the attendance report.

The model keeps the three tables in a class, `AttendanceStore.Store`, with one
method per callback. Each method returns an `Outcome` where the application
would show a message box: `Ok`, `InputError`, `NotFound`, `Duplicate`,
`AlreadyClockedIn` or `NoOpenRecord`. Details of the representation:

- The AUTOINCREMENT keys are two counters, so an id is never handed out twice.
- `datetime.now()` and its date are the parameters `now` and `today`.
- The report is modelled twice. As the builder of the SQL text and its
  parameter list: `Report.BuildQuery`, one step per filter. And as what the
  statement means: an inner join of attendance with employees, filtered by
  the active conditions and sorted latest date first.

Modules:

- `Types`: `Option`, `Result`, order-preserving `Filter`.
- `Text`: ASCII `lower()` and `capitalize()`, substring containment, the text order SQLite sorts by.
- `Dates`: `strftime('%m', …)` on ISO dates, the month list and its lookup, `{n:02d}` formatting.
- `Tables`: the rows and the single-table queries the callbacks issue, plus the one-open-record-per-day invariant.
- `Report`: the query builder, the SQL text, and the join, filter and sort semantics.
- `AttendanceStore`: the store class, seeding and login.
- `Scenarios`: sequences of callbacks on a fresh database, with the outcomes the contracts force.

Where the code and what its schema or messages suggest disagree, the model follows the code:

- **No cascade on delete.** The schema declares `ON DELETE CASCADE`, but no
  connection enables foreign keys. Deleting an employee therefore leaves its
  attendance rows in place. The report's inner join hides them from then on
  (`Report.DeletedEmployeeHidden`, `AttendanceStore.Store.DeleteEmployee`).
  Ids are never reused, so a later registration does not bring them back
  (`Report.JoinUnreferencedEmployee`).
- **HR users cannot be created.** `save_user` applies `capitalize()` to the
  role text before checking it against "HR" and "Employee". `capitalize()`
  turns "HR" into "Hr", so only the spellings of "employee" are accepted, and
  every created user is an Employee (`Text.CapitalizeNeverHR`,
  `AttendanceStore.RoleAccepted`). The seeded `admin` stays the only HR account.
- **A closed record does not end the day.** `clock_in` only looks for an open
  record of today. After clocking out, the same employee can clock in again
  on the same day, and that opens a second record (`Scenarios.ClockDay`).

## Model

| member | source | states |
|---|---|---|
| AttendanceStore.Store.constructor | attendance_app.py:14-37 | a new database has three empty tables and both AUTOINCREMENT counters at 1, and satisfies the store invariant |
| AttendanceStore.SeedAdmin | attendance_app.py:40-41 | INSERT OR IGNORE adds "admin" with password "admin123" and role HR only when that username is free; every existing user row is kept unchanged |
| AttendanceStore.SeedAdminIdempotent | attendance_app.py:40-41 | seeding twice is the same as seeding once |
| AttendanceStore.Store.SetupDatabase | attendance_app.py:9-44 | the tables are left as they are apart from seeding the admin account; the store invariant is kept |
| AttendanceStore.Login | attendance_app.py:357-372 | the SELECT yields a role exactly when the table holds a row with that username, that password and that role |
| AttendanceStore.LoginAfterSeed | attendance_app.py:40-41 | on a database without an admin row, setup makes admin/admin123 log in as HR |
| AttendanceStore.HRLoginIsAdmin | attendance_app.py:365-370 | while only the seeded account is HR, any HR login is a login as "admin" |
| AttendanceStore.RoleAccepted | attendance_app.py:97-99 | capitalize() of the role text passes the role check exactly when the text lowercases to "employee", and the accepted role is always Employee |
| AttendanceStore.Store.SaveEmployee | attendance_app.py:53-74 | InputError exactly when the name or code is empty; Duplicate exactly when the code is already taken; otherwise exactly one row is appended under the next id. The report join is unchanged, other tables are untouched, and the invariant is kept |
| AttendanceStore.Store.SaveUser | attendance_app.py:94-114 | InputError exactly when the username or password is empty or the role text is not a spelling of "employee"; Duplicate exactly when the username exists; otherwise the user is stored as Employee and can log in with that password |
| AttendanceStore.Store.DeleteEmployee | attendance_app.py:131-152 | InputError for an empty code; NotFound when no employee has it; otherwise exactly the row with that code is removed. Attendance is never touched, and the join afterwards equals the old join with that employee's records dropped |
| AttendanceStore.Store.ClockIn | attendance_app.py:167-191 | InputError for an empty code; NotFound for an unknown one; AlreadyClockedIn exactly when the employee has an open record dated today; otherwise one open record stamped `now` and dated `today` is appended. Afterwards an open record for today exists, at most one record per employee and day is open, and nothing else changes |
| AttendanceStore.Store.ClockOut | attendance_app.py:193-218 | InputError, NotFound, or NoOpenRecord when there is no open record of today; otherwise exactly that record gets `now` as its clock-out and every other row is unchanged. Afterwards no record of that employee for today is open |
| AttendanceStore.Store.SearchAttendance | attendance_app.py:262-300 | fails exactly for a month name outside the list; otherwise returns the rows of the inner join that the filters select, each as often as the join yields it, in non-increasing date order |
| Tables.ParseRole | attendance_app.py:99 | the role check accepts exactly "HR" and "Employee" |
| Tables.FindByCode | attendance_app.py:140-141 | the lookup by code finds nothing exactly when no employee has the code, and otherwise finds a stored employee with that code |
| Tables.FindOpen | attendance_app.py:180-182 | the open-record lookup finds nothing exactly when that employee has no open record of that date, and otherwise finds a stored open one |
| Tables.DeleteByIdRemovesOne | attendance_app.py:143 | with unique keys, DELETE by the id of row k removes row k and keeps all others in order |
| Tables.DeleteByIdKeepsOtherCodes | attendance_app.py:140-143 | deleting by the id found for a code removes exactly the employee with that code |
| Tables.UniqueAfterRemoval | attendance_app.py:15-19 | removing a row keeps the PRIMARY KEY and UNIQUE code constraints |
| Tables.CloseByIdClosesOne | attendance_app.py:210-211 | with unique ids, the UPDATE by id closes exactly one row |
| Tables.ClockInKeepsOneOpen | attendance_app.py:180-184 | appending an open record for an employee and day without one keeps at most one open record per employee and day |
| Tables.ClockOutClosesDay | attendance_app.py:206-211 | closing the open record keeps the invariant and leaves that employee and day with no open record |
| Text.CapitalizeNeverHR | attendance_app.py:97-99 | capitalize() never yields "HR", so the HR role can never pass the check |
| Text.CapitalizeIsEmployee | attendance_app.py:97-99 | capitalize() yields "Employee" exactly for the spellings of "employee" |
| Text.TextLeTotal | attendance_app.py:297 | any two dates are ordered one way or the other |
| Text.TextLeTransitive | attendance_app.py:297 | the date order is transitive |
| Dates.MonthField | attendance_app.py:294 | strftime('%m', date) is defined exactly where the date has a calendar month, and is that month written with two digits |
| Dates.MonthOf | attendance_app.py:294 | the month of a date is defined exactly for ISO dates and lies in 1..12 |
| Dates.Pad2 | attendance_app.py:295 | `{n:02d}` for n below 100 is two digits that read back as n |
| Dates.MonthNumber | attendance_app.py:293 | a found month number lies in 1..12 |
| Dates.MonthNumberFinds | attendance_app.py:246-249 | the month lookup fails exactly for texts outside the month list, and otherwise returns the 1-based position of the name |
| Dates.MonthFieldMatchesPad2 | attendance_app.py:293-295 | a date's strftime('%m') equals the padded month number exactly when the date lies in that month |
| Report.LikeWrapped | attendance_app.py:281-286 | LIKE against "%" + lower(x) + "%" holds exactly when the value contains x, ignoring ASCII case |
| Report.HoldsIffWanted | attendance_app.py:280-295 | each condition, bound to the parameter the builder gives it, holds of a row exactly when its filter wants the row |
| Report.QueryMeansSelected | attendance_app.py:278-295 | a query with the conditions of exactly the non-empty filters, each with its parameter, keeps exactly the rows the filters select |
| Report.BuiltSnoc | attendance_app.py:280-295 | the step for a non-empty filter appends its condition and parameter, in builder order |
| Report.BuiltSkip | attendance_app.py:280-295 | the step for an empty filter leaves the query as it is |
| Report.AddCondition | attendance_app.py:280-295 | one builder step: append the condition and its parameter exactly when its filter is set |
| Report.BuiltComplete | attendance_app.py:280-295 | after all four steps, the conditions are exactly those of the non-empty filters |
| Report.BuiltQueryFacts | attendance_app.py:273-297 | a finished build has one condition per non-empty filter, in the order name, department, date, month, each with its fitting parameter; it has one placeholder per parameter, and keeps exactly the rows the filters select |
| Report.BuildQuery | attendance_app.py:264-297 | fails exactly for a month name outside the list, and otherwise yields the finished build for the filters |
| Report.SqlPlaceholders | attendance_app.py:273-297 | the statement has exactly one `?` per condition |
| Report.ClausesPlaceholders | attendance_app.py:280-295 | each appended condition contributes exactly one `?` |
| Report.FixedTextHasNoPlaceholders | attendance_app.py:273-276 | the fixed SELECT … WHERE 1=1 head and the ORDER BY tail contain no `?` |
| Report.EndsWithOrderBy | attendance_app.py:297 | every statement ends with ORDER BY a.date DESC |
| Report.JoinOne | attendance_app.py:275 | one attendance row joins with exactly the employees whose id it references |
| Report.Join | attendance_app.py:273-276 | a row is in the join exactly when it combines an attendance row with the employee it references |
| Report.InsertByDate | attendance_app.py:297 | inserting into a date-descending list keeps it date-descending and adds exactly that row |
| Report.SortByDateDesc | attendance_app.py:297 | the result is a permutation of the rows in non-increasing date order |
| Report.ExecuteIsReport | attendance_app.py:299-300 | running a query that keeps exactly the selected rows returns a correct report for the filters |
| Report.DeletedEmployeeHidden | attendance_app.py:143 | after deleting the employee with an id, the join equals the old join over the attendance rows that do not reference that id |
| Report.JoinOneAfterDelete | attendance_app.py:143 | the same, for one attendance row |
| Report.JoinUnreferencedEmployee | attendance_app.py:66-67 | registering an employee whose id no attendance row references leaves the join unchanged |
| Report.JoinOneUnreferenced | attendance_app.py:66-67 | the same, for one attendance row |
| Scenarios.ClockInTwice | attendance_app.py:167-191 | on a fresh database: register, clock in, clock in again gives Ok, Ok, AlreadyClockedIn and one open record |
| Scenarios.ClockDay | attendance_app.py:167-218 | continuing that day: clock out, clock out, clock in gives Ok, NoOpenRecord, Ok, leaving two records for the day |
| Scenarios.UnknownCodes | attendance_app.py:59-217 | an empty code is an input error and an unknown code is "not found" for clock-in, clock-out and delete; an empty name is an input error for save_employee |
| Scenarios.RegisterClockDelete | attendance_app.py:131-152 | register, clock in, delete succeed, and the clock-in row stays behind |
| Scenarios.RegisterAgain | attendance_app.py:53-74 | after the delete a taken code is refused and new employees get fresh ids |
| Scenarios.DeleteHidesRecords | attendance_app.py:262-300 | the orphaned record is still stored, but the unfiltered report is empty |
| Scenarios.CreateUsers | attendance_app.py:94-114 | "HR" and "hr" are refused, "EMPLOYEE" creates an Employee, and after setup admin logs in as HR |
| Scenarios.SearchByNameAndMonth | attendance_app.py:262-300 | a case-insensitive name fragment together with the record's month keeps the record |
| Scenarios.SearchOtherMonth | attendance_app.py:288-296 | a March record is not in April's report |
| Scenarios.SearchUnknownMonth | attendance_app.py:293 | a month name outside the list fails the search |

## Left out

- The Tk interface is not modelled. That covers the windows, `animate_frame`, the message box texts, filling the report Treeview and the dashboards `login` switches to. A callback's message is its `Outcome`.
- `export_to_excel` is pandas and openpyxl file output. It also uses `os` without importing it.
- Connections, commits and `conn.close()` are not modelled: every callback is one atomic step on the tables. The `sqlite3.Error` branch of `delete_employee` has no counterpart, because the model's delete cannot fail that way.
- A month name outside the list makes `months.index` raise ValueError, which Tk reports and otherwise ignores. The model turns it into the `UnknownMonth` failure of the search. The connection that stays open on that path is not modelled.
- `datetime.now()` becomes the parameters `today` and `now`. `clock_in` and `clock_out` read the clock separately for the date and for the timestamp, so the two are independent parameters. Timestamps are opaque text.
- `BuildQuery` looks the month name up before building the other conditions, while the source looks it up at the month step. No step before that point has an observable effect, so the outcome is the same.
- Case mapping is ASCII only. Python's `lower()` and `capitalize()` also fold non-ASCII letters; SQLite's built-in LIKE folds ASCII letters only.
- Report.LikeWrapped: case-insensitive only for ASCII letters. A filter with a non-ASCII capital is matched as typed in the model, but as its Python `lower()` form in the source. Filter "Æ": the source returns "æsa" and not "Æsa"; the model returns "Æsa" and not "æsa".
- Report.Like: the `%` and `_` wildcards are recognised only as the `%…%` wrapper the builder adds. A `%` or `_` typed into the name or department filter would act as a wildcard in SQLite, but is matched literally in the model.
- Dates.MonthField: covers only dates written as "YYYY-MM-DD" with month 01-12 and day 01-31. SQLite also parses other formats, and it carries an impossible day such as 2024-02-31 into the next month. The stored dates come from `datetime.now().date()`, so they are always real ISO dates.
- Report.SortByDateDesc: fixes the order of rows only by date. Rows with the same date may come back in any order, because ORDER BY leaves ties unspecified.
- Query whitespace: the line breaks and indentation of the source's SELECT are written as single spaces. The conditions, the parameters and the placeholders are unaffected.
- Passwords are compared as plain text, as in the source. Hashing and other security concerns are out of scope.
- AttendanceStore.Store.constructor: starts from an empty database file. A database written by another program, or edited by hand, can violate the store invariant, for example by holding a second HR user. The model does not cover that.
- Ids are unbounded naturals. SQLite's 64-bit rowid limit is not modelled.
