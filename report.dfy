/** The attendance report: the filtered query the search callback builds, and
    what SQLite returns for it (the join of attendance with employees, the
    active filters, descending date order). */
module Report {
  import opened Types
  import opened Text
  import opened Dates
  import opened Tables

  /** The four filter inputs of the report form; "" leaves a filter off. */
  datatype Filters = Filters(name: string, department: string, date: string, month: string)

  /** One result row: e.name, e.department, a.date, a.clock_in_time, a.clock_out_time. */
  datatype ReportRow = ReportRow(name: string, department: string, date: Date, clockIn: Timestamp, clockOut: Option<Timestamp>)

  /** The conditions the builder can append after WHERE 1=1, each with one `?`. */
  datatype Clause = NameLike | DepartmentLike | DateEquals | MonthEquals

  /** The conditions in the order appended, and the parameters bound to their placeholders. */
  datatype Query = Query(clauses: seq<Clause>, params: seq<string>)

  /** months.index raises ValueError for a month text that is not one of MONTHS. */
  datatype ReportError = UnknownMonth(month: string)

  // ----------------------------------------------------------------- SQL text

  const SELECT_LIST_SQL: string := "SELECT e.name, e.department, a.date, "
  const SELECT_TIMES_SQL: string := "a.clock_in_time, a.clock_out_time "
  const FROM_SQL: string := "FROM attendance a "
  const JOIN_SQL: string := "JOIN employees e ON a.employee_id = e.id "
  const WHERE_SQL: string := "WHERE 1=1"

  /** The fixed head of the statement, up to the always-true WHERE 1=1. It is kept
      as short pieces so that counting its `?` marks unfolds one short literal at a time. */
  const SELECT_SQL: string := SELECT_LIST_SQL + SELECT_TIMES_SQL + FROM_SQL + JOIN_SQL + WHERE_SQL

  const ORDER_BY_SQL: string := " ORDER BY a.date DESC"

  /** The text of a condition up to its placeholder. */
  function ConditionSql(c: Clause): string
  {
    match c
    case NameLike => " AND e.name LIKE "
    case DepartmentLike => " AND e.department LIKE "
    case DateEquals => " AND a.date = "
    case MonthEquals => " AND strftime('%m', a.date) = "
  }

  function ClausesSql(cs: seq<Clause>): string
  {
    if cs == [] then "" else ConditionSql(cs[0]) + "?" + ClausesSql(cs[1..])
  }

  /** The statement handed to cursor.execute. */
  function SqlText(q: Query): string
  {
    SELECT_SQL + ClausesSql(q.clauses) + ORDER_BY_SQL
  }

  /** The number of `?` placeholders in a statement. */
  function Placeholders(s: string): nat
  {
    if s == [] then 0 else (if s[0] == '?' then 1 else 0) + Placeholders(s[1..])
  }

  lemma {:induction false} PlaceholdersAppend(a: string, b: string)
    ensures Placeholders(a + b) == Placeholders(a) + Placeholders(b)
  {
    if a == [] {
      assert a + b == b;
    } else {
      assert (a + b)[0] == a[0];
      assert (a + b)[1..] == a[1..] + b;
      PlaceholdersAppend(a[1..], b);
    }
  }

  lemma {:induction false} NoPlaceholders(s: string)
    requires '?' !in s
    ensures Placeholders(s) == 0
  {
    if s != [] {
      NoPlaceholders(s[1..]);
    }
  }

  /** The statement has exactly one placeholder per condition. */
  lemma SqlPlaceholders(q: Query)
    ensures Placeholders(SqlText(q)) == |q.clauses|
  {
    var clauses := ClausesSql(q.clauses);
    ClausesPlaceholders(q.clauses);
    FixedTextHasNoPlaceholders();
    PlaceholdersAppend(SELECT_SQL, clauses);
    PlaceholdersAppend(SELECT_SQL + clauses, ORDER_BY_SQL);
  }

  lemma FixedTextHasNoPlaceholders()
    ensures Placeholders(SELECT_SQL) == 0 && Placeholders(ORDER_BY_SQL) == 0
  {
    ColumnsHaveNoMark();
    TablesHaveNoMark();
    assert '?' !in ORDER_BY_SQL;
    NoPlaceholders(SELECT_SQL);
    NoPlaceholders(ORDER_BY_SQL);
  }

  lemma ColumnsHaveNoMark()
    ensures '?' !in SELECT_LIST_SQL && '?' !in SELECT_TIMES_SQL
  {
  }

  lemma TablesHaveNoMark()
    ensures '?' !in FROM_SQL && '?' !in JOIN_SQL && '?' !in WHERE_SQL
  {
  }

  lemma {:induction false} ClausesPlaceholders(cs: seq<Clause>)
    ensures Placeholders(ClausesSql(cs)) == |cs|
  {
    if cs != [] {
      assert '?' !in ConditionSql(cs[0]);
      NoPlaceholders(ConditionSql(cs[0]));
      PlaceholdersAppend(ConditionSql(cs[0]), "?");
      PlaceholdersAppend(ConditionSql(cs[0]) + "?", ClausesSql(cs[1..]));
      ClausesPlaceholders(cs[1..]);
    }
  }

  /** Every statement ends with the descending date order. */
  lemma EndsWithOrderBy(q: Query)
    ensures |SqlText(q)| >= |ORDER_BY_SQL|
    ensures SqlText(q)[|SqlText(q)| - |ORDER_BY_SQL|..] == ORDER_BY_SQL
  {
  }

  // ------------------------------------------------------------ the semantics

  /** SQLite's LIKE for the patterns the builder produces: "%x%" matches a value
      that contains x, ignoring the case of ASCII letters; a pattern without
      the surrounding `%` must match the whole value. */
  predicate Like(value: string, pattern: string)
  {
    if |pattern| >= 2 && pattern[0] == '%' && pattern[|pattern| - 1] == '%'
    then Contains(Lower(value), Lower(pattern[1..|pattern| - 1]))
    else Lower(value) == Lower(pattern)
  }

  /** The value of one condition on a row, with `param` bound to its placeholder. */
  predicate Holds(c: Clause, param: string, row: ReportRow)
  {
    match c
    case NameLike => Like(row.name, param)
    case DepartmentLike => Like(row.department, param)
    case DateEquals => row.date == param
    case MonthEquals => MonthField(row.date) == Some(param)
  }

  /** The WHERE clause: 1=1 and every condition, the i-th bound to the i-th parameter. */
  predicate Satisfies(q: Query, row: ReportRow)
  {
    |q.clauses| == |q.params| &&
    forall i :: 0 <= i < |q.clauses| ==> Holds(q.clauses[i], q.params[i], row)
  }

  /** The report's meaning of the filters, stated without SQL. */
  predicate Selected(f: Filters, row: ReportRow)
  {
    && (f.name == "" || Contains(Lower(row.name), Lower(f.name)))
    && (f.department == "" || Contains(Lower(row.department), Lower(f.department)))
    && (f.date == "" || row.date == f.date)
    && (f.month == "" || (MonthNumber(f.month).Some? && MonthOf(row.date) == MonthNumber(f.month)))
  }

  /** The position of each condition in the builder. */
  function Rank(c: Clause): nat
  {
    match c
    case NameLike => 0
    case DepartmentLike => 1
    case DateEquals => 2
    case MonthEquals => 3
  }

  /** A LIKE against "%" + lower(x) + "%" is a case-insensitive containment test for x. */
  lemma LikeWrapped(value: string, x: string)
    ensures Like(value, "%" + Lower(x) + "%") <==> Contains(Lower(value), Lower(x))
  {
    var p := "%" + Lower(x) + "%";
    assert p[1..|p| - 1] == Lower(x);
    LowerIdempotent(x);
  }

  /** The parameter the builder binds to a condition of that kind. */
  predicate ParamFits(f: Filters, c: Clause, p: string)
  {
    match c
    case NameLike => p == "%" + Lower(f.name) + "%"
    case DepartmentLike => p == "%" + Lower(f.department) + "%"
    case DateEquals => p == f.date
    case MonthEquals => MonthNumber(f.month).Some? && p == Pad2(MonthNumber(f.month).value)
  }

  /** The filter behind a condition is non-empty. */
  predicate Active(f: Filters, c: Clause)
  {
    match c
    case NameLike => f.name != ""
    case DepartmentLike => f.department != ""
    case DateEquals => f.date != ""
    case MonthEquals => f.month != ""
  }

  /** What the filter behind a condition asks of a row, stated without SQL. */
  predicate Wanted(f: Filters, c: Clause, row: ReportRow)
  {
    match c
    case NameLike => Contains(Lower(row.name), Lower(f.name))
    case DepartmentLike => Contains(Lower(row.department), Lower(f.department))
    case DateEquals => row.date == f.date
    case MonthEquals => MonthNumber(f.month).Some? && MonthOf(row.date) == MonthNumber(f.month)
  }

  /** With its fitting parameter, a condition holds of a row exactly when its filter wants the row. */
  lemma HoldsIffWanted(f: Filters, c: Clause, p: string, row: ReportRow)
    requires ParamFits(f, c, p)
    ensures Holds(c, p, row) <==> Wanted(f, c, row)
  {
    match c
    case NameLike => LikeWrapped(row.name, f.name);
    case DepartmentLike => LikeWrapped(row.department, f.department);
    case DateEquals =>
    case MonthEquals => MonthFieldMatchesPad2(row.date, MonthNumber(f.month).value);
  }

  /** A query whose conditions are those of the non-empty filters, each bound to
      its fitting parameter, keeps exactly the rows the filters select. */
  lemma QueryMeansSelected(f: Filters, q: Query)
    requires |q.clauses| == |q.params|
    requires forall i :: 0 <= i < |q.clauses| ==> ParamFits(f, q.clauses[i], q.params[i])
    requires forall c :: c in q.clauses <==> Active(f, c)
    ensures forall row :: Satisfies(q, row) <==> Selected(f, row)
  {
    forall row
      ensures Satisfies(q, row) <==> Selected(f, row)
    {
      forall i | 0 <= i < |q.clauses|
        ensures Holds(q.clauses[i], q.params[i], row) <==> Wanted(f, q.clauses[i], row)
      {
        HoldsIffWanted(f, q.clauses[i], q.params[i], row);
      }
      if Satisfies(q, row) {
        forall c | Active(f, c)
          ensures Wanted(f, c, row)
        {
          var i :| 0 <= i < |q.clauses| && q.clauses[i] == c;
        }
        assert Active(f, NameLike) ==> Wanted(f, NameLike, row);
        assert Active(f, DepartmentLike) ==> Wanted(f, DepartmentLike, row);
        assert Active(f, DateEquals) ==> Wanted(f, DateEquals, row);
        assert Active(f, MonthEquals) ==> Wanted(f, MonthEquals, row);
      }
      if Selected(f, row) {
        forall i | 0 <= i < |q.clauses|
          ensures Wanted(f, q.clauses[i], row)
        {
          assert Active(f, q.clauses[i]);
        }
      }
    }
  }

  /** The builder's state once the steps for the conditions of rank below `stage`
      have run: exactly the active ones among them, in builder order, each with
      its fitting parameter. */
  ghost predicate BuiltUpTo(f: Filters, q: Query, stage: nat)
  {
    && |q.clauses| == |q.params|
    && (forall i, j :: 0 <= i < j < |q.clauses| ==> Rank(q.clauses[i]) < Rank(q.clauses[j]))
    && (forall i :: 0 <= i < |q.clauses| ==> ParamFits(f, q.clauses[i], q.params[i]))
    && Present(f, q, NameLike, stage)
    && Present(f, q, DepartmentLike, stage)
    && Present(f, q, DateEquals, stage)
    && Present(f, q, MonthEquals, stage)
  }

  /** The condition is in the query exactly when its step has run and its filter is active. */
  ghost predicate Present(f: Filters, q: Query, c: Clause, stage: nat)
  {
    c in q.clauses <==> Rank(c) < stage && Active(f, c)
  }

  /** The step for an active filter appends its condition and its parameter. */
  lemma BuiltSnoc(f: Filters, q: Query, c: Clause, p: string)
    requires BuiltUpTo(f, q, Rank(c)) && Active(f, c) && ParamFits(f, c, p)
    ensures BuiltUpTo(f, Query(q.clauses + [c], q.params + [p]), Rank(c) + 1)
  {
    var q' := Query(q.clauses + [c], q.params + [p]);
    forall i | 0 <= i < |q.clauses|
      ensures q'.clauses[i] == q.clauses[i] && q'.params[i] == q.params[i]
    {
    }
    assert forall d :: d in q'.clauses <==> d in q.clauses || d == c;
  }

  /** The step for an empty filter appends nothing. */
  lemma BuiltSkip(f: Filters, q: Query, c: Clause)
    requires BuiltUpTo(f, q, Rank(c)) && !Active(f, c)
    ensures BuiltUpTo(f, q, Rank(c) + 1)
  {
  }

  /** After the last step the conditions are exactly those of the active filters. */
  lemma BuiltComplete(f: Filters, q: Query)
    requires BuiltUpTo(f, q, 4)
    ensures forall c :: c in q.clauses <==> Active(f, c)
  {
    forall c
      ensures c in q.clauses <==> Active(f, c)
    {
      assert Present(f, q, c, 4);
    }
  }

  /** What a completed build guarantees: the conditions of exactly the non-empty
      filters, in builder order, each with its fitting parameter, one placeholder
      per parameter, and rows kept exactly when the filters select them. */
  lemma BuiltQueryFacts(f: Filters, q: Query)
    requires BuiltUpTo(f, q, 4)
    ensures |q.clauses| == |q.params|
    ensures && (NameLike in q.clauses <==> f.name != "")
            && (DepartmentLike in q.clauses <==> f.department != "")
            && (DateEquals in q.clauses <==> f.date != "")
            && (MonthEquals in q.clauses <==> f.month != "")
    ensures forall i, j :: 0 <= i < j < |q.clauses| ==> Rank(q.clauses[i]) < Rank(q.clauses[j])
    ensures forall i :: 0 <= i < |q.clauses| ==> ParamFits(f, q.clauses[i], q.params[i])
    ensures Placeholders(SqlText(q)) == |q.params|
    ensures forall row :: Satisfies(q, row) <==> Selected(f, row)
  {
    BuiltComplete(f, q);
    assert Active(f, NameLike) <==> f.name != "";
    assert Active(f, DepartmentLike) <==> f.department != "";
    assert Active(f, DateEquals) <==> f.date != "";
    assert Active(f, MonthEquals) <==> f.month != "";
    QueryMeansSelected(f, q);
    SqlPlaceholders(q);
  }

  /** One step of the builder: when its filter is set, the condition's SQL and
      its parameter are appended; otherwise the query is left as it is. */
  method AddCondition(ghost f: Filters, q: Query, c: Clause, active: bool, p: string) returns (q': Query)
    requires BuiltUpTo(f, q, Rank(c))
    requires active <==> Active(f, c)
    requires active ==> ParamFits(f, c, p)
    ensures active ==> q' == Query(q.clauses + [c], q.params + [p])
    ensures !active ==> q' == q
    ensures BuiltUpTo(f, q', Rank(c) + 1)
  {
    if active {
      BuiltSnoc(f, q, c, p);
      q' := Query(q.clauses + [c], q.params + [p]);
    } else {
      BuiltSkip(f, q, c);
      q' := q;
    }
  }

  /** search_attendance's query construction: one condition and one parameter per
      non-empty filter, in the order name, department, date, month (BuiltUpTo at
      the last stage; BuiltQueryFacts spells out what that means). A month name
      outside the list fails, as the list lookup raises; nothing is observable
      before that point, so the name is looked up first. */
  method BuildQuery(f: Filters) returns (r: Result<Query, ReportError>)
    ensures r.Failure? <==> f.month != "" && MonthNumber(f.month).None?
    ensures r.Failure? ==> r.error == UnknownMonth(f.month)
    ensures r.Success? ==> BuiltUpTo(f, r.value, 4)
  {
    var number := MonthNumber(f.month);
    if f.month != "" && number.None? {
      return Failure(UnknownMonth(f.month));
    }
    var q := Query([], []);
    q := AddCondition(f, q, NameLike, f.name != "", "%" + Lower(f.name) + "%");
    q := AddCondition(f, q, DepartmentLike, f.department != "", "%" + Lower(f.department) + "%");
    q := AddCondition(f, q, DateEquals, f.date != "", f.date);
    var monthParam := if number.Some? then Pad2(number.value) else "";
    q := AddCondition(f, q, MonthEquals, f.month != "", monthParam);
    r := Success(q);
  }

  // --------------------------------------------------------- join, filter, sort

  function RowOf(e: EmployeeRow, a: AttendanceRow): ReportRow
  {
    ReportRow(e.name, e.department, a.date, a.clockIn, a.clockOut)
  }

  /** The employees matching one attendance row on a.employee_id = e.id, as result rows. */
  function JoinOne(employees: seq<EmployeeRow>, a: AttendanceRow): (r: seq<ReportRow>)
    ensures forall row :: row in r <==> exists e :: e in employees && e.id == a.employeeId && row == RowOf(e, a)
  {
    if employees == [] then []
    else (if employees[0].id == a.employeeId then [RowOf(employees[0], a)] else []) + JoinOne(employees[1..], a)
  }

  /** FROM attendance a JOIN employees e ON a.employee_id = e.id: an inner join, so
      attendance rows whose employee no longer exists produce nothing. */
  function Join(employees: seq<EmployeeRow>, attendance: seq<AttendanceRow>): (r: seq<ReportRow>)
    ensures forall row :: row in r <==>
      exists a, e :: a in attendance && e in employees && e.id == a.employeeId && row == RowOf(e, a)
  {
    if attendance == [] then []
    else JoinOne(employees, attendance[0]) + Join(employees, attendance[1..])
  }

  /** The rows the WHERE clause keeps. */
  function Where(q: Query, rows: seq<ReportRow>): seq<ReportRow>
  {
    Filter(rows, (row: ReportRow) => Satisfies(q, row))
  }

  /** The rows the filters select. */
  function Select(f: Filters, rows: seq<ReportRow>): seq<ReportRow>
  {
    Filter(rows, (row: ReportRow) => Selected(f, row))
  }

  /** ORDER BY a.date DESC. */
  predicate DateDescending(rows: seq<ReportRow>)
  {
    forall i, j :: 0 <= i < j < |rows| ==> TextLe(rows[j].date, rows[i].date)
  }

  function InsertByDate(row: ReportRow, sorted: seq<ReportRow>): (r: seq<ReportRow>)
    requires DateDescending(sorted)
    ensures multiset(r) == multiset(sorted) + multiset{row}
    ensures DateDescending(r)
  {
    if sorted == [] then [row]
    else if TextLe(sorted[0].date, row.date) then
      assert forall k :: 0 <= k < |sorted| ==> TextLe(sorted[k].date, row.date) by {
        forall k | 0 <= k < |sorted|
          ensures TextLe(sorted[k].date, row.date)
        {
          if k > 0 {
            TextLeTransitive(sorted[k].date, sorted[0].date, row.date);
          }
        }
      }
      [row] + sorted
    else
      TextLeTotal(sorted[0].date, row.date);
      assert sorted == [sorted[0]] + sorted[1..];
      var rest := InsertByDate(row, sorted[1..]);
      assert forall x :: x in rest ==> TextLe(x.date, sorted[0].date) by {
        forall x | x in rest
          ensures TextLe(x.date, sorted[0].date)
        {
          assert x in multiset(rest);
          if x != row {
            assert x in multiset(sorted[1..]);
            assert x in sorted[1..];
          }
        }
      }
      [sorted[0]] + rest
  }

  /** Sorts by date, latest first; rows with equal dates may come in any order. */
  function SortByDateDesc(rows: seq<ReportRow>): (r: seq<ReportRow>)
    ensures multiset(r) == multiset(rows)
    ensures DateDescending(r)
  {
    if rows == [] then []
    else
      assert rows == [rows[0]] + rows[1..];
      InsertByDate(rows[0], SortByDateDesc(rows[1..]))
  }

  /** cursor.execute(query, params) followed by fetchall(). */
  function Execute(q: Query, employees: seq<EmployeeRow>, attendance: seq<AttendanceRow>): seq<ReportRow>
  {
    SortByDateDesc(Where(q, Join(employees, attendance)))
  }

  /** `rows` is a correct report for the filters over these tables: the selected
      rows of the join, each as often as the join yields it, latest date first. */
  predicate IsReportFor(rows: seq<ReportRow>, f: Filters, employees: seq<EmployeeRow>, attendance: seq<AttendanceRow>)
  {
    multiset(rows) == multiset(Select(f, Join(employees, attendance))) && DateDescending(rows)
  }

  /** Running the built query yields exactly the report the filters describe. */
  lemma ExecuteIsReport(q: Query, f: Filters, employees: seq<EmployeeRow>, attendance: seq<AttendanceRow>)
    requires forall row :: Satisfies(q, row) <==> Selected(f, row)
    ensures IsReportFor(Execute(q, employees, attendance), f, employees, attendance)
  {
    FilterAgrees(Join(employees, attendance), (row: ReportRow) => Satisfies(q, row), (row: ReportRow) => Selected(f, row));
  }

  /** No cascade: after the employee row with `id` is deleted its attendance rows stay,
      but the inner join drops them, exactly as if they had been deleted too. */
  lemma {:induction false} DeletedEmployeeHidden(employees: seq<EmployeeRow>, attendance: seq<AttendanceRow>, id: nat)
    ensures Join(DeleteById(employees, id), attendance) ==
            Join(employees, Filter(attendance, (a: AttendanceRow) => a.employeeId != id))
  {
    if attendance != [] {
      var a := attendance[0];
      var p := (a: AttendanceRow) => a.employeeId != id;
      var kept := Filter(attendance[1..], p);
      DeletedEmployeeHidden(employees, attendance[1..], id);
      JoinOneAfterDelete(employees, a, id);
      if a.employeeId != id {
        assert Filter(attendance, p) == [a] + kept;
        assert ([a] + kept)[0] == a && ([a] + kept)[1..] == kept;
      } else {
        assert Filter(attendance, p) == kept;
      }
    }
  }

  lemma {:induction false} JoinOneAfterDelete(employees: seq<EmployeeRow>, a: AttendanceRow, id: nat)
    ensures JoinOne(DeleteById(employees, id), a) == if a.employeeId == id then [] else JoinOne(employees, a)
  {
    if employees != [] {
      var e := employees[0];
      var kept := DeleteById(employees[1..], id);
      JoinOneAfterDelete(employees[1..], a, id);
      if e.id != id {
        assert DeleteById(employees, id) == [e] + kept;
        assert ([e] + kept)[0] == e && ([e] + kept)[1..] == kept;
      } else {
        assert DeleteById(employees, id) == kept;
      }
    }
  }

  /** AUTOINCREMENT never hands out an id twice, so a newly registered employee's id
      is referenced by no attendance row, and registering it leaves the join as it was:
      orphaned records never reattach to a new employee. */
  lemma {:induction false} JoinUnreferencedEmployee(employees: seq<EmployeeRow>, attendance: seq<AttendanceRow>, e: EmployeeRow)
    requires forall a :: a in attendance ==> a.employeeId != e.id
    ensures Join(employees + [e], attendance) == Join(employees, attendance)
  {
    if attendance != [] {
      JoinUnreferencedEmployee(employees, attendance[1..], e);
      JoinOneUnreferenced(employees, attendance[0], e);
    }
  }

  lemma {:induction false} JoinOneUnreferenced(employees: seq<EmployeeRow>, a: AttendanceRow, e: EmployeeRow)
    requires a.employeeId != e.id
    ensures JoinOne(employees + [e], a) == JoinOne(employees, a)
  {
    if employees == [] {
      assert JoinOne([e], a) == [] + JoinOne([], a);
    } else {
      assert (employees + [e])[0] == employees[0];
      assert (employees + [e])[1..] == employees[1..] + [e];
      JoinOneUnreferenced(employees[1..], a, e);
    }
  }
}
