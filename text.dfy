/** Text operations the application depends on: Python's str.lower and
    str.capitalize on user input, SQLite's case-insensitive LIKE, and SQLite's
    BINARY ordering of TEXT values. Case mapping covers ASCII letters only. */
module Text {

  function LowerChar(c: char): char
  {
    if 'A' <= c <= 'Z' then (c as int + 32) as char else c
  }

  function UpperChar(c: char): char
  {
    if 'a' <= c <= 'z' then (c as int - 32) as char else c
  }

  /** str.lower() on ASCII letters. */
  function Lower(s: string): string
  {
    seq(|s|, i requires 0 <= i < |s| => LowerChar(s[i]))
  }

  /** str.capitalize(): the first character upper-cased, every other one lower-cased. */
  function Capitalize(s: string): string
  {
    if s == [] then [] else [UpperChar(s[0])] + Lower(s[1..])
  }

  /** `needle` occurs as a contiguous run of `hay`. */
  predicate Contains(hay: string, needle: string)
  {
    exists k :: 0 <= k <= |hay| - |needle| && needle <= hay[k..]
  }

  /** SQLite's BINARY collation on TEXT: lexicographic by code point, a proper
      prefix ordered first (for UTF-8 text this is the byte-wise order SQLite uses). */
  predicate TextLe(a: string, b: string)
    decreases |a|
  {
    a == [] || (b != [] && (a[0] < b[0] || (a[0] == b[0] && TextLe(a[1..], b[1..]))))
  }

  lemma LowerIdempotent(s: string)
    ensures Lower(Lower(s)) == Lower(s)
  {
  }

  /** No input capitalizes to "HR": every character after the first comes out in lower case. */
  lemma CapitalizeNeverHR(s: string)
    ensures Capitalize(s) != "HR"
  {
    if |s| == 2 {
      assert Capitalize(s)[1] == LowerChar(s[1]);
    }
  }

  /** The inputs that capitalize to "Employee" are exactly the case variants of "employee". */
  lemma CapitalizeIsEmployee(s: string)
    ensures Capitalize(s) == "Employee" <==> Lower(s) == "employee"
  {
    if Capitalize(s) == "Employee" {
      assert Capitalize(s)[0] == UpperChar(s[0]) == 'E';
      assert Lower(s)[0] == LowerChar(s[0]) == 'e';
      forall i | 1 <= i < |s|
        ensures Lower(s)[i] == "employee"[i]
      {
        assert Capitalize(s)[i] == Lower(s[1..])[i - 1] == LowerChar(s[i]);
      }
    }
    if Lower(s) == "employee" {
      assert Lower(s)[0] == LowerChar(s[0]) == 'e';
      assert Capitalize(s)[0] == UpperChar(s[0]) == 'E';
      forall i | 1 <= i < |s|
        ensures Capitalize(s)[i] == "Employee"[i]
      {
        assert Capitalize(s)[i] == Lower(s[1..])[i - 1] == LowerChar(s[i]) == Lower(s)[i];
      }
    }
  }

  lemma {:induction false} TextLeTotal(a: string, b: string)
    ensures TextLe(a, b) || TextLe(b, a)
    decreases |a|
  {
    if a != [] && b != [] && a[0] == b[0] {
      TextLeTotal(a[1..], b[1..]);
    }
  }

  lemma {:induction false} TextLeTransitive(a: string, b: string, c: string)
    requires TextLe(a, b) && TextLe(b, c)
    ensures TextLe(a, c)
    decreases |a|
  {
    if a != [] && a[0] == b[0] && b[0] == c[0] {
      TextLeTransitive(a[1..], b[1..], c[1..]);
    }
  }
}
