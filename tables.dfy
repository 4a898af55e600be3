/**
 * Row filters shared by the in-memory tables: a `WHERE` clause as a
 * predicate over rows, kept in table order.
 */
module Tables {
  import opened Wrappers

  /** `WHERE p`: the rows satisfying `p`, in table order. */
  function Where<T(!new)>(rows: seq<T>, p: T -> bool): (r: seq<T>)
    ensures forall x :: x in r <==> x in rows && p(x)
    ensures multiset(r) <= multiset(rows)
    ensures |r| <= |rows|
    ensures forall i :: 0 <= i < |r| ==> p(r[i])
  {
    if rows == [] then []
    else
      var rest := Where(rows[1..], p);
      assert rows == [rows[0]] + rows[1..];
      if p(rows[0]) then [rows[0]] + rest else rest
  }

  /** The first row, in table order, satisfying `p` (a SELECT read with `rows[0] || null`). */
  function First<T(!new)>(rows: seq<T>, p: T -> bool): (r: Option<T>)
    ensures r.Some? ==> r.value in rows && p(r.value)
    ensures r.None? <==> forall x :: x in rows ==> !p(x)
  {
    if rows == [] then None
    else if p(rows[0]) then Some(rows[0])
    else
      var r := First(rows[1..], p);
      assert rows == [rows[0]] + rows[1..];
      r
  }

  /** A filter keeps the order of the rows: filtering two parts is filtering the whole. */
  lemma {:induction false} WhereConcat<T(!new)>(x: seq<T>, y: seq<T>, p: T -> bool)
    ensures Where(x + y, p) == Where(x, p) + Where(y, p)
  {
    if x == [] {
      assert x + y == y;
      assert Where(x, p) == [];
    } else {
      var a, t := x[0], x[1..];
      assert x == [a] + t;
      assert x + y == [a] + (t + y);
      WhereConcat(t, y, p);
      WhereCons(a, t + y, p);
      WhereCons(a, t, p);
      var head := if p(a) then [a] else [];
      var wt, wy := Where(t, p), Where(y, p);
      assert Where(x + y, p) == head + (wt + wy);
      ConcatAssoc(head, wt, wy);
    }
  }

  /** Concatenation of sequences is associative. */
  lemma ConcatAssoc<T>(a: seq<T>, b: seq<T>, c: seq<T>)
    ensures a + (b + c) == (a + b) + c
  {
  }

  /** Filtering a row in front of others. */
  lemma WhereCons<T(!new)>(a: T, rows: seq<T>, p: T -> bool)
    ensures Where([a] + rows, p) == (if p(a) then [a] else []) + Where(rows, p)
  {
    assert ([a] + rows)[1..] == rows;
  }

  /** A filter drops a row exactly when some row fails it. */
  lemma {:induction false} WhereShrinks<T(!new)>(rows: seq<T>, p: T -> bool)
    ensures |Where(rows, p)| < |rows| <==> exists x :: x in rows && !p(x)
  {
    if rows != [] {
      WhereShrinks(rows[1..], p);
      assert rows == [rows[0]] + rows[1..];
      assert forall x :: x in rows <==> x == rows[0] || x in rows[1..];
      assert Where(rows, p) == (if p(rows[0]) then [rows[0]] else []) + Where(rows[1..], p);
    }
  }
}
