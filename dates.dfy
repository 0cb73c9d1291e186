/** Calendar text: the ISO dates the application stores, SQLite's
    strftime('%m', ...) on them, the month names of the report form and
    Python's two-digit month formatting. */
module Dates {
  import opened Types

  /** The month names offered by the report form, January first. */
  const MONTHS: seq<string> := [
    "January", "February", "March", "April", "May", "June",
    "July", "August", "September", "October", "November", "December"
  ]

  predicate IsDigit(c: char)
  {
    '0' <= c <= '9'
  }

  function DigitValue(c: char): nat
    requires IsDigit(c)
  {
    c as int - '0' as int
  }

  function TwoDigitValue(hi: char, lo: char): nat
    requires IsDigit(hi) && IsDigit(lo)
  {
    10 * DigitValue(hi) + DigitValue(lo)
  }

  /** "YYYY-MM-DD", the text the sqlite3 module stores for a datetime.date, with
      the field ranges SQLite's date parser accepts (month 01-12, day 01-31). */
  predicate IsIsoDate(d: string)
  {
    && |d| == 10
    && IsDigit(d[0]) && IsDigit(d[1]) && IsDigit(d[2]) && IsDigit(d[3])
    && d[4] == '-'
    && IsDigit(d[5]) && IsDigit(d[6])
    && d[7] == '-'
    && IsDigit(d[8]) && IsDigit(d[9])
    && 1 <= TwoDigitValue(d[5], d[6]) <= 12
    && 1 <= TwoDigitValue(d[8], d[9]) <= 31
  }

  /** strftime('%m', d): the two month characters of a date, NULL (None) for text that is not one. */
  function MonthField(d: string): (r: Option<string>)
    ensures r.Some? <==> MonthOf(d).Some?
    ensures r.Some? ==> r.value == Pad2(MonthOf(d).value)
  {
    if IsIsoDate(d) then Some(d[5..7]) else None
  }

  /** The calendar month (1-12) of a date, None for text that is not a date. */
  function MonthOf(d: string): (r: Option<nat>)
    ensures r.Some? <==> IsIsoDate(d)
    ensures r.Some? ==> 1 <= r.value <= 12
  {
    if IsIsoDate(d) then Some(TwoDigitValue(d[5], d[6])) else None
  }

  /** f"{n:02d}" for 0 <= n < 100: two decimal digits that read back as n. */
  function Pad2(n: nat): (r: string)
    requires n < 100
    ensures |r| == 2 && IsDigit(r[0]) && IsDigit(r[1]) && TwoDigitValue(r[0], r[1]) == n
  {
    [('0' as int + n / 10) as char, ('0' as int + n % 10) as char]
  }

  /** The 1-based position of a month name in MONTHS, as months.index(name) + 1;
      None where Python raises ValueError. */
  function MonthNumber(name: string): (r: Option<nat>)
    ensures r.Some? ==> 1 <= r.value <= 12
  {
    MonthNumberFrom(name, 0)
  }

  function MonthNumberFrom(name: string, k: nat): (r: Option<nat>)
    requires k <= 12
    ensures r.Some? ==> k < r.value <= 12
    decreases 12 - k
  {
    if k == 12 then None
    else if MONTHS[k] == name then Some(k + 1)
    else MonthNumberFrom(name, k + 1)
  }

  /** MonthNumber fails exactly for texts that are not month names, and otherwise
      names the first position of that month, as months.index does. */
  lemma MonthNumberFinds(name: string)
    ensures MonthNumber(name).None? <==> name !in MONTHS
    ensures MonthNumber(name).Some? ==> MONTHS[MonthNumber(name).value - 1] == name
  {
    MonthNumberFromFinds(name, 0);
  }

  lemma {:induction false} MonthNumberFromFinds(name: string, k: nat)
    requires k <= 12
    ensures MonthNumberFrom(name, k).None? <==> name !in MONTHS[k..]
    ensures MonthNumberFrom(name, k).Some? ==> MONTHS[MonthNumberFrom(name, k).value - 1] == name
    decreases 12 - k
  {
    if k < 12 {
      MonthNumberFromFinds(name, k + 1);
      assert MONTHS[k..] == [MONTHS[k]] + MONTHS[k + 1..];
    }
  }


  /** Comparing strftime('%m', d) with the padded month number selects exactly
      the dates that fall in that month. */
  lemma MonthFieldMatchesPad2(d: string, n: nat)
    requires 1 <= n <= 12
    ensures MonthField(d) == Some(Pad2(n)) <==> MonthOf(d) == Some(n)
  {
    if IsIsoDate(d) {
      var p := Pad2(n);
      if d[5..7] == p {
        assert d[5] == p[0] && d[6] == p[1];
      }
      if TwoDigitValue(d[5], d[6]) == n {
        assert DigitValue(d[5]) == n / 10 && DigitValue(d[6]) == n % 10;
        assert d[5..7] == p;
      }
    }
  }
}
