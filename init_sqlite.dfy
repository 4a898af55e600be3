/**
 * Schema bootstrap for SQLite (src/utils/initSQLite.ts): the script is cut
 * at every `;`, the pieces are trimmed, comments and SELECTs are dropped,
 * and the remaining statements run one at a time. A failure whose message
 * says the object already exists is ignored; any other failure is logged
 * as a warning and the run goes on.
 *
 * The schema file is given as an optional text (absent when the file does
 * not exist), and the driver's answer to the i-th statement is the i-th
 * entry of `outcomes`: `None` for success, else the error message.
 */
module InitSqlite {
  import opened Wrappers
  import opened Text
  import opened Tables

  // ---------------------------------------------------------------------------
  // Cutting the script into statements

  /** The filter on a trimmed piece: not empty, not a `--` comment, not a SELECT. */
  predicate IsStatement(piece: string) {
    |piece| > 0 && !StartsWith(piece, "--") && !StartsWith(ToUpper(piece), "SELECT")
  }

  /** `.map(s => s.trim())`. */
  function TrimAll(pieces: seq<string>): (r: seq<string>)
    ensures |r| == |pieces|
    ensures forall i :: 0 <= i < |r| ==> r[i] == Trim(pieces[i])
  {
    seq(|pieces|, i requires 0 <= i < |pieces| => Trim(pieces[i]))
  }

  /** The statements of a script, in script order. */
  function Statements(schemaSql: string): (r: seq<string>)
    ensures forall t :: t in r <==> t in TrimAll(Split(schemaSql, ';')) && IsStatement(t)
  {
    Where(TrimAll(Split(schemaSql, ';')), IsStatement)
  }

  /**
   * Every statement is a non-empty trimmed piece of the script between two
   * `;`s that is neither a `--` comment nor a SELECT.
   */
  lemma StatementsAreClean(schemaSql: string)
    ensures forall t :: t in Statements(schemaSql) ==>
      && |t| > 0 && Trim(t) == t && ';' !in t
      && !StartsWith(t, "--") && !StartsWith(ToUpper(t), "SELECT")
  {
    var pieces := Split(schemaSql, ';');
    var trimmed := TrimAll(pieces);
    forall t | t in Statements(schemaSql)
      ensures |t| > 0 && Trim(t) == t && ';' !in t
    {
      assert t in trimmed;
      var i :| 0 <= i < |trimmed| && trimmed[i] == t;
      TrimIdempotent(pieces[i]);
      assert ';' !in pieces[i];
    }
  }

  /** A piece between two `;`s is kept exactly when, trimmed, it passes the filter. */
  lemma SinglePiece(piece: string)
    requires ';' !in piece
    ensures Statements(piece) == if IsStatement(Trim(piece)) then [Trim(piece)] else []
  {
    SplitNoSeparator(piece, ';');
    var t := Trim(piece);
    var trimmed := TrimAll([piece]);
    assert trimmed == [t];
    WhereCons(t, [], IsStatement);
    assert [t] + [] == [t];
    assert Where([t], IsStatement) == if IsStatement(t) then [t] else [];
  }

  /**
   * Statements keep script order: the statements of `a;b` are those of `a`
   * followed by those of `b`.
   */
  lemma StatementsConcat(a: string, b: string)
    ensures Statements(a + ";" + b) == Statements(a) + Statements(b)
  {
    assert a + ";" + b == a + [';'] + b;
    SplitConcat(a, b, ';');
    var pa, pb := Split(a, ';'), Split(b, ';');
    assert TrimAll(pa + pb) == TrimAll(pa) + TrimAll(pb);
    WhereConcat(TrimAll(pa), TrimAll(pb), IsStatement);
  }

  // ---------------------------------------------------------------------------
  // Running the statements

  /** `statement.trim()` is truthy. */
  predicate NonBlank(statement: string) {
    |Trim(statement)| > 0
  }

  /** A failure the bootstrap ignores: the object is already there. */
  predicate Tolerated(message: string) {
    Includes(message, "already exists") || Includes(message, "duplicate")
  }

  /** A logged warning: the head of the statement and the driver's message. */
  datatype Warning = Warning(preview: string, message: string)

  /** `statement.substring(0, 50)`. */
  function Preview(statement: string): (p: string)
    ensures p <= statement
    ensures |p| == if |statement| < 50 then |statement| else 50
  {
    if |statement| <= 50 then statement else statement[..50]
  }

  /** A statement that was run and failed in a way that is not tolerated. */
  predicate Failed(statement: string, outcome: Option<string>) {
    NonBlank(statement) && outcome.Some? && !Tolerated(outcome.value)
  }

  /** The warning, if any, one statement with its outcome gives. */
  function WarningFor(statement: string, outcome: Option<string>): seq<Warning> {
    if Failed(statement, outcome) then [Warning(Preview(statement), outcome.value)] else []
  }

  /** The warnings of a run, in statement order. */
  function Warnings(statements: seq<string>, outcomes: seq<Option<string>>): seq<Warning>
    requires |outcomes| == |statements|
    decreases |statements|
  {
    if statements == [] then []
    else
      var n := |statements| - 1;
      Warnings(statements[..n], outcomes[..n]) + WarningFor(statements[n], outcomes[n])
  }

  /** The warnings of the first i + 1 statements: those of the first i, then the i-th's. */
  lemma WarningsStep(statements: seq<string>, outcomes: seq<Option<string>>, i: nat)
    requires |outcomes| == |statements| && i < |statements|
    ensures Warnings(statements[..i + 1], outcomes[..i + 1])
      == Warnings(statements[..i], outcomes[..i]) + WarningFor(statements[i], outcomes[i])
  {
    assert statements[..i + 1][..i] == statements[..i];
    assert outcomes[..i + 1][..i] == outcomes[..i];
  }

  /**
   * Each warning reports a statement that was run and failed with a message
   * that is not tolerated: the statement's head and that message.
   */
  lemma {:induction false} WarningsReportFailures(statements: seq<string>, outcomes: seq<Option<string>>)
    requires |outcomes| == |statements|
    ensures |Warnings(statements, outcomes)| <= |statements|
    ensures forall w :: w in Warnings(statements, outcomes) ==>
      exists i :: 0 <= i < |statements| && Failed(statements[i], outcomes[i]) &&
                  w == Warning(Preview(statements[i]), outcomes[i].value)
    decreases |statements|
  {
    if statements != [] {
      var n := |statements| - 1;
      var st, oc := statements[..n], outcomes[..n];
      WarningsReportFailures(st, oc);
      var last := WarningFor(statements[n], outcomes[n]);
      assert Warnings(statements, outcomes) == Warnings(st, oc) + last;
      forall w | w in Warnings(statements, outcomes)
        ensures exists i :: 0 <= i < |statements| && Failed(statements[i], outcomes[i]) &&
                            w == Warning(Preview(statements[i]), outcomes[i].value)
      {
        if w in Warnings(st, oc) {
          var i :| 0 <= i < n && Failed(st[i], oc[i]) && w == Warning(Preview(st[i]), oc[i].value);
          assert outcomes[i] == oc[i] && statements[i] == st[i];
        } else {
          assert w in last;
        }
      }
    }
  }

  /** A run logs no warning iff no statement that was run failed in a way that is not tolerated. */
  lemma {:induction false} NoWarningsIff(statements: seq<string>, outcomes: seq<Option<string>>)
    requires |outcomes| == |statements|
    ensures Warnings(statements, outcomes) == [] <==>
      forall i :: 0 <= i < |statements| ==> !Failed(statements[i], outcomes[i])
    decreases |statements|
  {
    if statements != [] {
      var n := |statements| - 1;
      var st, oc := statements[..n], outcomes[..n];
      NoWarningsIff(st, oc);
      var last := WarningFor(statements[n], outcomes[n]);
      assert Warnings(statements, outcomes) == Warnings(st, oc) + last;
      assert forall i :: 0 <= i < n ==> st[i] == statements[i] && oc[i] == outcomes[i];
    }
  }

  /** Every statement of a script passes the `statement.trim()` test, so every one is run. */
  lemma AllStatementsRun(schemaSql: string)
    ensures Where(Statements(schemaSql), NonBlank) == Statements(schemaSql)
  {
    StatementsAreClean(schemaSql);
    WhereShrinks(Statements(schemaSql), NonBlank);
    var r := Where(Statements(schemaSql), NonBlank);
    assert |r| == |Statements(schemaSql)|;
    WhereKeepsAll(Statements(schemaSql), NonBlank);
  }

  /** A filter every row passes keeps the sequence as it is. */
  lemma {:induction false} WhereKeepsAll(rows: seq<string>, p: string -> bool)
    requires forall x :: x in rows ==> p(x)
    ensures Where(rows, p) == rows
  {
    if rows != [] {
      WhereKeepsAll(rows[1..], p);
      WhereCons(rows[0], rows[1..], p);
      assert [rows[0]] + rows[1..] == rows;
    }
  }

  /** The rows of the first i + 1 kept by a filter: those of the first i, then the i-th if it passes. */
  lemma WhereStep(rows: seq<string>, i: nat, p: string -> bool)
    requires i < |rows|
    ensures Where(rows[..i + 1], p) == Where(rows[..i], p) + (if p(rows[i]) then [rows[i]] else [])
  {
    assert rows[..i + 1] == rows[..i] + [rows[i]];
    WhereConcat(rows[..i], [rows[i]], p);
    WhereCons(rows[i], [], p);
    assert [rows[i]] + [] == [rows[i]];
  }

  /** The loop over the statements: the statements it runs and the warnings it logs. */
  method RunStatements(statements: seq<string>, outcomes: seq<Option<string>>)
    returns (executed: seq<string>, warnings: seq<Warning>)
    requires |outcomes| == |statements|
    ensures executed == Where(statements, NonBlank)
    ensures warnings == Warnings(statements, outcomes)
  {
    executed, warnings := [], [];
    for i := 0 to |statements|
      invariant executed == Where(statements[..i], NonBlank)
      invariant warnings == Warnings(statements[..i], outcomes[..i])
    {
      var statement := statements[i];
      WhereStep(statements, i, NonBlank);
      WarningsStep(statements, outcomes, i);
      if |Trim(statement)| > 0 {
        executed := executed + [statement];
        var outcome := outcomes[i];
        if outcome.Some? {
          var message := outcome.value;
          if !Includes(message, "already exists") && !Includes(message, "duplicate") {
            warnings := warnings + [Warning(Preview(statement), message)];
          }
        }
      }
    }
    assert statements[..|statements|] == statements;
    assert outcomes[..|outcomes|] == outcomes;
  }

  // ---------------------------------------------------------------------------
  // The whole bootstrap

  datatype SqliteRun =
    | NoSchema                                             // the schema file does not exist
    | Ran(executed: seq<string>, warnings: seq<Warning>)   // the statements run and the warnings logged

  /** `initializeSQLiteDatabase`: nothing without a schema file, else every statement in order. */
  method InitializeSqlite(schemaSql: Option<string>, outcomes: seq<Option<string>>) returns (run: SqliteRun)
    requires schemaSql.Some? ==> |outcomes| == |Statements(schemaSql.value)|
    ensures schemaSql.None? <==> run == NoSchema
    ensures schemaSql.Some? ==>
      run == Ran(Statements(schemaSql.value), Warnings(Statements(schemaSql.value), outcomes))
  {
    if schemaSql.None? {
      return NoSchema;
    }
    var statements := Where(TrimAll(Split(schemaSql.value, ';')), IsStatement);
    var executed, warnings := RunStatements(statements, outcomes);
    AllStatementsRun(schemaSql.value);
    run := Ran(executed, warnings);
  }
}
