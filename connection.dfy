/**
 * The SQL shaping of `PostgresConnection` (src/config/connection.ts): the
 * rewriting of `?` placeholders into PostgreSQL's `$1, $2, ...` and the
 * result header `query` builds from the driver's answer. The driver itself
 * is not modelled; its answer (row count, returned rows, `lastval()`) is
 * given as parameters.
 */
module Connection {
  import opened Wrappers
  import opened Text

  // ---------------------------------------------------------------------------
  // Decimal numerals

  function Digit(d: nat): (c: char)
    requires d < 10
    ensures '0' <= c <= '9' && c as int - '0' as int == d
  {
    (d + '0' as int) as char
  }

  predicate IsDigits(s: string) {
    forall i :: 0 <= i < |s| ==> '0' <= s[i] <= '9'
  }

  /** The decimal numeral of `n`, as a template literal prints it. */
  function NatToString(n: nat): (s: string)
    ensures |s| >= 1 && IsDigits(s)
    ensures s[0] == '0' ==> n == 0
  {
    if n < 10 then [Digit(n)] else NatToString(n / 10) + [Digit(n % 10)]
  }

  /** The number a string of decimal digits denotes. */
  function DecimalValue(s: string): nat
    requires IsDigits(s)
  {
    if s == [] then 0
    else 10 * DecimalValue(s[..|s| - 1]) + (s[|s| - 1] as int - '0' as int)
  }

  /** Reading a numeral back gives the number: `$k` names parameter `k`. */
  lemma {:induction false} NatToStringValue(n: nat)
    ensures DecimalValue(NatToString(n)) == n
  {
    if n >= 10 {
      NatToStringValue(n / 10);
      var s := NatToString(n);
      assert s[..|s| - 1] == NatToString(n / 10);
    }
  }

  /** The k-th placeholder in PostgreSQL's syntax. */
  function Placeholder(k: nat): string {
    "$" + NatToString(k)
  }

  // ---------------------------------------------------------------------------
  // `?` to `$k`

  /** `sql` with each `?`, left to right, replaced by `$k`, `$(k+1)`, ... */
  function Rewrite(s: string, k: nat): (r: string)
    ensures '?' !in r
  {
    if s == [] then []
    else if s[0] == '?' then Placeholder(k) + Rewrite(s[1..], k + 1)
    else [s[0]] + Rewrite(s[1..], k)
  }

  /** The pieces between the `?`s, joined by consecutive placeholders from `$k`. */
  function Numbered(pieces: seq<string>, k: nat): string
    requires |pieces| >= 1
    decreases |pieces|
  {
    if |pieces| == 1 then pieces[0] else pieces[0] + Placeholder(k) + Numbered(pieces[1..], k + 1)
  }

  /**
   * The rewrite keeps every other character in order and puts `$k`, `$(k+1)`,
   * ... exactly where the `?`s were, however many there are.
   */
  lemma {:induction false} RewriteNumbersPieces(s: string, k: nat)
    ensures Rewrite(s, k) == Numbered(Split(s, '?'), k)
    decreases |s|
  {
    if s != [] {
      var c, t := s[0], s[1..];
      assert s == [c] + t;
      SplitCons(c, t, '?');
      var rest := Split(t, '?');
      if c == '?' {
        RewriteNumbersPieces(t, k + 1);
        NumberedEmptyHead(rest, k);
      } else {
        RewriteNumbersPieces(t, k);
        NumberedLongerHead(c, rest, k);
      }
    }
  }

  /** A leading `?` is an empty first piece followed by the first placeholder. */
  lemma NumberedEmptyHead(rest: seq<string>, k: nat)
    requires |rest| >= 1
    ensures Numbered([""] + rest, k) == Placeholder(k) + Numbered(rest, k + 1)
  {
    var pieces := [""] + rest;
    assert pieces[1..] == rest;
    assert "" + Placeholder(k) == Placeholder(k);
  }

  /** A leading ordinary character belongs to the first piece. */
  lemma NumberedLongerHead(c: char, rest: seq<string>, k: nat)
    requires |rest| >= 1
    ensures Numbered([[c] + rest[0]] + rest[1..], k) == [c] + Numbered(rest, k)
  {
    var pieces := [[c] + rest[0]] + rest[1..];
    if |rest| > 1 {
      assert pieces[1..] == rest[1..];
      assert ([c] + rest[0]) + Placeholder(k) + Numbered(rest[1..], k + 1)
          == [c] + (rest[0] + Placeholder(k) + Numbered(rest[1..], k + 1));
    }
  }

  /** Text without `?` is left as it is. */
  lemma {:induction false} RewriteWithoutPlaceholders(s: string, k: nat)
    requires '?' !in s
    ensures Rewrite(s, k) == s
  {
    if s != [] {
      assert forall c :: c in s[1..] ==> c in s;
      RewriteWithoutPlaceholders(s[1..], k);
      assert [s[0]] + s[1..] == s;
    }
  }

  /**
   * `convertPlaceholders`: without parameters the text is returned as it is;
   * otherwise a counter starting at 1 numbers the `?`s.
   */
  method ConvertPlaceholders<P>(sql: string, params: Option<seq<P>>) returns (r: string)
    ensures params.None? || |params.value| == 0 ==> r == sql
    ensures params.Some? && |params.value| > 0 ==> r == Rewrite(sql, 1) && '?' !in r
  {
    if params.None? || |params.value| == 0 {
      return sql;
    }
    var paramIndex := 1;
    r := [];
    var i := 0;
    while i < |sql|
      invariant 0 <= i <= |sql|
      invariant paramIndex >= 1
      invariant r + Rewrite(sql[i..], paramIndex) == Rewrite(sql, 1)
    {
      assert sql[i..][1..] == sql[i + 1..];
      if sql[i] == '?' {
        r := r + Placeholder(paramIndex);
        paramIndex := paramIndex + 1;
      } else {
        r := r + [sql[i]];
      }
      i := i + 1;
    }
    assert sql[i..] == [];
  }

  // ---------------------------------------------------------------------------
  // The result header

  /** The `id` and `ID` columns of the first row a query returned, when numeric. */
  datatype ReturnedRow = ReturnedRow(id: Option<int>, upperId: Option<int>)

  /** `PostgresResultSetHeader`. */
  datatype Header = Header(insertId: Option<int>, affectedRows: nat, rowCount: nat)

  /** The statement, trimmed and upper-cased, begins with `INSERT`. */
  predicate IsInsert(sql: string) {
    StartsWith(ToUpper(Trim(sql)), "INSERT")
  }

  /** The statement, upper-cased, mentions `RETURNING` anywhere. */
  predicate HasReturning(sql: string) {
    Includes(ToUpper(Trim(sql)), "RETURNING")
  }

  /**
   * The id of the inserted row: read from the first returned row for
   * `INSERT ... RETURNING` (its `id`, else a non-zero `ID`), from
   * `lastval()` for any other INSERT, and never for other statements.
   */
  function InsertId(sql: string, rows: seq<ReturnedRow>, lastval: Option<int>): (id: Option<int>)
    ensures id.Some? ==> IsInsert(sql)
    ensures IsInsert(sql) && HasReturning(sql) ==>
      (rows == [] ==> id.None?) &&
      (rows != [] && rows[0].id.Some? ==> id == rows[0].id)
    ensures IsInsert(sql) && !HasReturning(sql) ==> id == lastval
  {
    if !IsInsert(sql) then None
    else if !HasReturning(sql) then lastval
    else if rows == [] then None
    else if rows[0].id.Some? then rows[0].id
    else if rows[0].upperId.Some? && rows[0].upperId.value != 0 then rows[0].upperId
    else None
  }

  /** The header `query` returns: counts from the driver, then the insert id written over it. */
  method BuildHeader(sql: string, rowCount: Option<nat>, rows: seq<ReturnedRow>, lastval: Option<int>) returns (header: Header)
    ensures header.affectedRows == header.rowCount == rowCount.GetOr(0)
    ensures header.insertId == InsertId(sql, rows, lastval)
    ensures !IsInsert(sql) ==> header.insertId.None?
  {
    var count := if rowCount.Some? then rowCount.value else 0;
    header := Header(None, count, count);
    var sqlUpper := ToUpper(Trim(sql));
    if StartsWith(sqlUpper, "INSERT") {
      if Includes(sqlUpper, "RETURNING") {
        if |rows| > 0 {
          var firstRow := rows[0];
          if firstRow.id.Some? {
            header := header.(insertId := firstRow.id);
          } else if firstRow.upperId.Some? && firstRow.upperId.value != 0 {
            header := header.(insertId := firstRow.upperId);
          }
        }
      } else if lastval.Some? {
        header := header.(insertId := lastval);
      }
    }
  }
}
