/** String-level behaviour the handlers rely on: JavaScript truthiness,
    SQLite's `date()` on ISO-8601 timestamps, and SQLite's BINARY collation
    used by every `ORDER BY` over a TEXT column. */
module Text {
  import opened Wrappers

  /** `x` is truthy in JavaScript: present and not the empty string. */
  predicate Truthy(x: Option<string>) {
    x.Some? && x.value != ""
  }

  /** A numeric id is truthy in JavaScript: present and not zero. */
  predicate TruthyId(x: Option<int>) {
    x.Some? && x.value != 0
  }

  /** JavaScript `x || fallback` for a string field and a non-null fallback. */
  function OrText(x: Option<string>, fallback: string): string {
    if Truthy(x) then x.value else fallback
  }

  /** JavaScript `x || fallback` when the fallback is itself a nullable column. */
  function OrNullable(x: Option<string>, fallback: Option<string>): Option<string> {
    if Truthy(x) then x else fallback
  }

  /** JavaScript `s.slice(0, 10)`. */
  function Prefix10(s: string): string {
    if |s| <= 10 then s else s[..10]
  }

  predicate IsDigit(c: char) {
    '0' <= c <= '9'
  }

  /** SQLite `date(ts)`: the calendar date `YYYY-MM-DD` of a timestamp that
      starts with one, followed by nothing or by a time part; NULL otherwise. */
  function DateOf(ts: string): (d: Option<string>)
    ensures d.Some? ==> |d.value| == 10 && d.value <= ts
  {
    if && |ts| >= 10
       && IsDigit(ts[0]) && IsDigit(ts[1]) && IsDigit(ts[2]) && IsDigit(ts[3])
       && ts[4] == '-' && IsDigit(ts[5]) && IsDigit(ts[6])
       && ts[7] == '-' && IsDigit(ts[8]) && IsDigit(ts[9])
       && (|ts| == 10 || ts[10] == 'T' || ts[10] == ' ')
    then Some(ts[..10])
    else None
  }

  /** A calendar date is its own date: `date(date(x)) = date(x)`. */
  lemma DateOfIdempotent(ts: string)
    requires DateOf(ts).Some?
    ensures DateOf(DateOf(ts).value) == DateOf(ts)
  {
    var d := ts[..10];
    assert forall i :: 0 <= i < 10 ==> d[i] == ts[i];
    assert d[..10] == d;
  }

  /** For a well-formed ISO timestamp such as `new Date().toISOString()`,
      the 10-character prefix the handlers slice off is its SQLite date. */
  lemma SliceIsDate(ts: string)
    requires DateOf(ts).Some?
    ensures DateOf(ts) == Some(Prefix10(ts))
  {
    if |ts| == 10 {
      assert ts[..10] == ts;
    }
  }

  /** Lexicographic order on code points, which for UTF-8 text is the order
      of SQLite's BINARY collation. */
  predicate LexLe(a: string, b: string)
    decreases |a|
  {
    |a| == 0 || (|b| > 0 && (a[0] < b[0] || (a[0] == b[0] && LexLe(a[1..], b[1..]))))
  }

  lemma {:induction false} LexLeReflexive(a: string)
    ensures LexLe(a, a)
    decreases |a|
  {
    if |a| > 0 {
      LexLeReflexive(a[1..]);
    }
  }

  lemma {:induction false} LexLeTotal(a: string, b: string)
    ensures LexLe(a, b) || LexLe(b, a)
    decreases |a|
  {
    if |a| > 0 && |b| > 0 && a[0] == b[0] {
      LexLeTotal(a[1..], b[1..]);
    }
  }

  lemma {:induction false} LexLeTransitive(a: string, b: string, c: string)
    requires LexLe(a, b) && LexLe(b, c)
    ensures LexLe(a, c)
    decreases |a|
  {
    if |a| > 0 && a[0] == b[0] && b[0] == c[0] {
      LexLeTransitive(a[1..], b[1..], c[1..]);
    }
  }

  lemma {:induction false} LexLeAntisymmetric(a: string, b: string)
    requires LexLe(a, b) && LexLe(b, a)
    ensures a == b
    decreases |a|
  {
    if |a| > 0 {
      LexLeAntisymmetric(a[1..], b[1..]);
      assert a == [a[0]] + a[1..];
      assert b == [b[0]] + b[1..];
    }
  }
}
