/** Row selection (`WHERE`) and ordering (`ORDER BY <text column>`) over
    sequences of rows. */
module Seqs {
  import opened Text

  /** The rows of `s` that satisfy `keep(_, arg)`, in their original order. */
  function Select<T(==, !new), A>(s: seq<T>, keep: (T, A) -> bool, arg: A): (r: seq<T>)
    ensures |r| <= |s|
    ensures forall x :: x in r <==> x in s && keep(x, arg)
    ensures multiset(r) <= multiset(s)
  {
    if |s| == 0 then []
    else
      assert s == [s[0]] + s[1..];
      (if keep(s[0], arg) then [s[0]] else []) + Select(s[1..], keep, arg)
  }

  lemma {:induction false} SelectAppend<T(!new), A>(a: seq<T>, b: seq<T>, keep: (T, A) -> bool, arg: A)
    ensures Select(a + b, keep, arg) == Select(a, keep, arg) + Select(b, keep, arg)
  {
    if |a| > 0 {
      assert (a + b)[0] == a[0];
      assert (a + b)[1..] == a[1..] + b;
      SelectAppend(a[1..], b, keep, arg);
    } else {
      assert a + b == b;
    }
  }

  lemma {:induction false} SelectNone<T(!new), A>(a: seq<T>, keep: (T, A) -> bool, arg: A)
    requires forall x :: x in a ==> !keep(x, arg)
    ensures Select(a, keep, arg) == []
  {
    if |a| > 0 {
      assert a[0] in a;
      assert forall x :: x in a[1..] ==> x in a;
      SelectNone(a[1..], keep, arg);
    }
  }

  /** Key `x` may come before key `y`: `ASC` or `DESC` under BINARY collation. */
  predicate Precedes(x: string, y: string, descending: bool) {
    if descending then LexLe(y, x) else LexLe(x, y)
  }

  lemma PrecedesTotal(x: string, y: string, descending: bool)
    ensures Precedes(x, y, descending) || Precedes(y, x, descending)
  {
    LexLeTotal(x, y);
  }

  lemma PrecedesTransitive(x: string, y: string, z: string, descending: bool)
    requires Precedes(x, y, descending) && Precedes(y, z, descending)
    ensures Precedes(x, z, descending)
  {
    if descending {
      LexLeTransitive(z, y, x);
    } else {
      LexLeTransitive(x, y, z);
    }
  }

  ghost predicate SortedBy<T>(s: seq<T>, key: T -> string, descending: bool) {
    forall i, j :: 0 <= i < j < |s| ==> Precedes(key(s[i]), key(s[j]), descending)
  }

  /** Every row of `s` may follow a row whose key is `k`. */
  ghost predicate AllFollow<T>(k: string, s: seq<T>, key: T -> string, descending: bool) {
    forall x :: x in s ==> Precedes(k, key(x), descending)
  }

  lemma SortedCons<T>(x: T, s: seq<T>, key: T -> string, descending: bool)
    requires SortedBy(s, key, descending)
    requires AllFollow(key(x), s, key, descending)
    ensures SortedBy([x] + s, key, descending)
  {
    var r := [x] + s;
    forall i, j | 0 <= i < j < |r|
      ensures Precedes(key(r[i]), key(r[j]), descending)
    {
      if i == 0 {
        assert r[j] == s[j - 1];
        assert r[j] in s;
      } else {
        assert r[i] == s[i - 1] && r[j] == s[j - 1];
      }
    }
  }

  /** Insert `x` into the sorted `s`, after every row that must precede it. */
  function Insert<T(==)>(x: T, s: seq<T>, key: T -> string, descending: bool): (r: seq<T>)
    requires SortedBy(s, key, descending)
    ensures SortedBy(r, key, descending)
    ensures multiset(r) == multiset(s) + multiset{x}
  {
    if |s| == 0 then [x]
    else if Precedes(key(x), key(s[0]), descending) then
      assert AllFollow(key(x), s, key, descending) by {
        forall y | y in s
          ensures Precedes(key(x), key(y), descending)
        {
          var j :| 0 <= j < |s| && s[j] == y;
          if j > 0 {
            PrecedesTransitive(key(x), key(s[0]), key(y), descending);
          }
        }
      }
      SortedCons(x, s, key, descending);
      [x] + s
    else
      assert s == [s[0]] + s[1..];
      var rest := Insert(x, s[1..], key, descending);
      assert AllFollow(key(s[0]), rest, key, descending) by {
        PrecedesTotal(key(x), key(s[0]), descending);
        forall y | y in rest
          ensures Precedes(key(s[0]), key(y), descending)
        {
          assert y in multiset(rest);
          if y != x {
            assert y in multiset(s[1..]);
            var j :| 0 <= j < |s[1..]| && s[1..][j] == y;
            assert s[j + 1] == y;
          }
        }
      }
      SortedCons(s[0], rest, key, descending);
      [s[0]] + rest
  }

  /** Insertion sort: a permutation of `s` ordered by `key`. */
  function Sort<T(==)>(s: seq<T>, key: T -> string, descending: bool): (r: seq<T>)
    ensures SortedBy(r, key, descending)
    ensures multiset(r) == multiset(s)
  {
    if |s| == 0 then []
    else
      assert s == [s[0]] + s[1..];
      Insert(s[0], Sort(s[1..], key, descending), key, descending)
  }

  /** Sorting keeps exactly the rows it was given. */
  lemma SortSameRows<T>(s: seq<T>, key: T -> string, descending: bool)
    ensures forall x :: x in Sort(s, key, descending) <==> x in s
    ensures |Sort(s, key, descending)| == |s|
  {
    var r := Sort(s, key, descending);
    assert |multiset(r)| == |multiset(s)|;
    forall x
      ensures x in r <==> x in s
    {
      assert x in r <==> x in multiset(r);
      assert x in s <==> x in multiset(s);
    }
  }
}
