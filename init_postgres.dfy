/**
 * Schema bootstrap for PostgreSQL (src/utils/initPostgres.ts): the
 * "already initialised" test, the search for the schema file, and the
 * stripping of comments from the script before it runs as one batch.
 *
 * The file system is given as parameters: `exists` says whether a path
 * exists and `read` gives a file's text.
 */
module InitPostgres {
  import opened Wrappers
  import opened Text

  const SchemaNotFoundMessage := "Schema file not found"

  /** Schema creation is skipped iff both tables are already listed. */
  function AlreadyInitialised(tables: seq<string>): (skip: bool)
    ensures skip <==>
      (exists i :: 0 <= i < |tables| && tables[i] == "users") &&
      (exists j :: 0 <= j < |tables| && tables[j] == "attendance")
  {
    "users" in tables && "attendance" in tables
  }

  /** The schema file: the first candidate, in list order, that exists. */
  method FindSchemaPath(possiblePaths: seq<string>, exists_: string -> bool) returns (schemaPath: Option<string>)
    ensures schemaPath.None? <==> forall i :: 0 <= i < |possiblePaths| ==> !exists_(possiblePaths[i])
    ensures schemaPath.Some? ==>
      exists k :: 0 <= k < |possiblePaths| && schemaPath.value == possiblePaths[k] &&
        exists_(possiblePaths[k]) && forall i :: 0 <= i < k ==> !exists_(possiblePaths[i])
  {
    schemaPath := None;
    for n := 0 to |possiblePaths|
      invariant schemaPath.None?
      invariant forall i :: 0 <= i < n ==> !exists_(possiblePaths[i])
    {
      if exists_(possiblePaths[n]) {
        schemaPath := Some(possiblePaths[n]);
        return;
      }
    }
  }

  // ---------------------------------------------------------------------------
  // Line comments

  /** One line cut at its first `--`; a line without `--` is kept whole. */
  function CutLineComment(line: string): (r: string)
    ensures r <= line
    ensures forall k: nat :: 0 <= k < |r| ==> !OccursAt(line, "--", k)
    ensures forall k: nat :: !OccursAt(r, "--", k)
    ensures r == line || OccursAt(line, "--", |r|)
    ensures (forall k: nat :: !OccursAt(line, "--", k)) ==> r == line
  {
    match IndexOf(line, "--", 0)
    case None => line
    case Some(i) =>
      var r := line[..i];
      assert forall k: nat :: OccursAt(r, "--", k) ==> OccursAt(line, "--", k) by {
        forall k: nat | OccursAt(r, "--", k) ensures OccursAt(line, "--", k) {
          assert r[k..k + 2] == line[k..k + 2];
        }
      }
      r
  }

  /** `CutLineComment` applied to every line. */
  function CutLines(lines: seq<string>): (r: seq<string>)
    ensures |r| == |lines|
    ensures forall i :: 0 <= i < |r| ==> r[i] == CutLineComment(lines[i])
  {
    seq(|lines|, i requires 0 <= i < |lines| => CutLineComment(lines[i]))
  }

  /** `split('\n').map(...).join('\n')`: no `--` is left anywhere. */
  function StripLineComments(sql: string): (r: string)
    ensures forall k: nat :: !OccursAt(r, "--", k)
  {
    var cut := CutLines(Split(sql, '\n'));
    JoinWithoutDashes(cut, '\n');
    Join(cut, '\n')
  }

  /** Pieces without `--`, joined by a character other than `-`, hold no `--`. */
  lemma {:induction false} JoinWithoutDashes(pieces: seq<string>, sep: char)
    requires |pieces| >= 1 && sep != '-'
    requires forall i, k: nat :: 0 <= i < |pieces| ==> !OccursAt(pieces[i], "--", k)
    ensures forall k: nat :: !OccursAt(Join(pieces, sep), "--", k)
    decreases |pieces|
  {
    if |pieces| > 1 {
      var head, tail := pieces[0], Join(pieces[1..], sep);
      JoinWithoutDashes(pieces[1..], sep);
      assert forall k: nat :: !OccursAt(head, "--", k) by {
        forall k: nat ensures !OccursAt(head, "--", k) {
          assert !OccursAt(pieces[0], "--", k);
        }
      }
      assert Join(pieces, sep) == head + [sep] + tail;
      forall k: nat ensures !OccursAt(head + [sep] + tail, "--", k) {
        SeparatedNoDashes(head, sep, tail, k);
      }
    }
  }

  /** A `--` cannot straddle a separator other than `-`. */
  lemma SeparatedNoDashes(head: string, sep: char, tail: string, k: nat)
    requires sep != '-'
    requires forall k: nat :: !OccursAt(head, "--", k)
    requires forall k: nat :: !OccursAt(tail, "--", k)
    ensures !OccursAt(head + [sep] + tail, "--", k)
  {
    var joined := head + [sep] + tail;
    if k + 2 <= |head| {
      assert !OccursAt(head, "--", k);
      assert joined[k..k + 2] == head[k..k + 2];
    } else if k + 1 == |head| {
      assert joined[k + 1] == sep;
    } else if k == |head| {
      assert joined[k] == sep;
    } else if k + 2 <= |joined| {
      var m := k - |head| - 1;
      assert !OccursAt(tail, "--", m);
      assert joined[k..k + 2] == tail[m..m + 2];
    }
  }

  /** Line stripping keeps the number of lines, and line i becomes line i cut at its first `--`. */
  lemma StripLineCommentsByLine(sql: string)
    ensures |Split(StripLineComments(sql), '\n')| == |Split(sql, '\n')|
    ensures forall i :: 0 <= i < |Split(sql, '\n')| ==>
      Split(StripLineComments(sql), '\n')[i] == CutLineComment(Split(sql, '\n')[i])
  {
    var lines := Split(sql, '\n');
    var cut := CutLines(lines);
    forall i | 0 <= i < |cut| ensures '\n' !in cut[i] {
      assert cut[i] <= lines[i];
    }
    SplitJoin(cut, '\n');
  }

  /** Text without `--` comes through line stripping unchanged. */
  lemma StripLineCommentsNoDashes(sql: string)
    requires forall k: nat :: !OccursAt(sql, "--", k)
    ensures StripLineComments(sql) == sql
  {
    var lines := Split(sql, '\n');
    forall i | 0 <= i < |lines| ensures CutLineComment(lines[i]) == lines[i] {
      forall k: nat ensures !OccursAt(lines[i], "--", k) {
        if OccursAt(lines[i], "--", k) {
          LineOccurrenceInText(sql, i, k);
        }
      }
    }
    assert CutLines(lines) == lines;
    JoinSplit(sql, '\n');
  }

  /** A `--` inside a line is a `--` of the whole text. */
  lemma LineOccurrenceInText(sql: string, i: nat, k: nat)
    requires i < |Split(sql, '\n')|
    requires OccursAt(Split(sql, '\n')[i], "--", k)
    ensures exists m: nat :: OccursAt(sql, "--", m)
  {
    var lines := Split(sql, '\n');
    JoinSplit(sql, '\n');
    PieceOccurrence(lines, '\n', i, k);
  }

  /** An occurrence inside one piece is an occurrence in the joined text. */
  lemma {:induction false} PieceOccurrence(pieces: seq<string>, sep: char, i: nat, k: nat)
    requires |pieces| >= 1 && i < |pieces|
    requires OccursAt(pieces[i], "--", k)
    ensures exists m: nat :: OccursAt(Join(pieces, sep), "--", m)
    decreases |pieces|
  {
    var joined := Join(pieces, sep);
    if i == 0 {
      assert pieces[0] <= joined;
      assert joined[k..k + 2] == pieces[0][k..k + 2];
      assert OccursAt(joined, "--", k);
    } else {
      PieceOccurrence(pieces[1..], sep, i - 1, k);
      var tail := Join(pieces[1..], sep);
      var m: nat :| OccursAt(tail, "--", m);
      var off := |pieces[0]| + 1;
      assert joined == pieces[0] + [sep] + tail;
      assert joined[off + m..off + m + 2] == tail[m..m + 2];
      assert OccursAt(joined, "--", off + m);
    }
  }

  // ---------------------------------------------------------------------------
  // Block comments

  // `replace(/\/\*[\s\S]*?\*\//g, '')`: scanning left to right, each `/*`
  // that has a later `*/` is removed up to and including the nearest such
  // `*/`; a `/*` without one stays in place.
  function StripBlockComments(s: string): (r: string)
    ensures |r| <= |s|
    decreases |s|
  {
    if |s| < 2 then s
    else if s[..2] == "/*" then
      match IndexOf(s, "*/", 2)
      case Some(j) => StripBlockComments(s[j + 2..])
      case None => [s[0]] + StripBlockComments(s[1..])
    else [s[0]] + StripBlockComments(s[1..])
  }

  // Text without `/*` comes through block stripping unchanged.
  lemma {:induction false} StripBlockCommentsNoOpeners(s: string)
    requires forall k: nat :: !OccursAt(s, "/*", k)
    ensures StripBlockComments(s) == s
    decreases |s|
  {
    if |s| >= 2 {
      assert !OccursAt(s, "/*", 0);
      forall k: nat ensures !OccursAt(s[1..], "/*", k) {
        if OccursAt(s[1..], "/*", k) {
          assert s[k + 1..k + 3] == s[1..][k..k + 2];
          assert OccursAt(s, "/*", k + 1);
        }
      }
      StripBlockCommentsNoOpeners(s[1..]);
      assert [s[0]] + s[1..] == s;
    }
  }

  // Text without any `*/` keeps every `/*`: there is nothing to close it.
  lemma {:induction false} StripBlockCommentsUnclosed(s: string)
    requires forall k: nat :: !OccursAt(s, "*/", k)
    ensures StripBlockComments(s) == s
    decreases |s|
  {
    if |s| >= 2 {
      assert IndexOf(s, "*/", 2).None?;
      forall k: nat ensures !OccursAt(s[1..], "*/", k) {
        assert !OccursAt(s, "*/", k + 1);
      }
      StripBlockCommentsUnclosed(s[1..]);
      assert [s[0]] + s[1..] == s;
    }
  }

  // A leading block comment goes up to the nearest `*/`, not the last one.
  lemma NearestCloserEndsComment(body: string, rest: string)
    requires forall k: nat :: !OccursAt("/*" + body, "*/", k)
    ensures StripBlockComments("/*" + body + "*/" + rest) == StripBlockComments(rest)
  {
    var s := "/*" + body + "*/" + rest;
    var j := |body| + 2;
    assert s[..2] == "/*";
    assert OccursAt(s, "*/", j) by { assert s[j..j + 2] == "*/"; }
    forall k: nat | 2 <= k < j ensures !OccursAt(s, "*/", k) {
      var t := "/*" + body;
      if k + 2 <= j {
        assert s[k..k + 2] == t[k..k + 2];
        assert !OccursAt(t, "*/", k);
        assert !OccursAt(s, "*/", k);
      } else {
        assert s[k + 1] == '*';
        assert s[k..k + 2][1] == '*';
        assert !OccursAt(s, "*/", k);
      }
    }
    assert IndexOf(s, "*/", 2) == Some(j);
    assert s[j + 2..] == rest;
  }

  // The script as it is sent to the server: line comments cut, then block
  // comments removed; a script with neither `--` nor `/*` is sent as read.
  function CleanedSql(schemaSql: string): (r: string)
    ensures |r| <= |StripLineComments(schemaSql)|
    ensures (forall k: nat :: !OccursAt(schemaSql, "--", k)) && (forall k: nat :: !OccursAt(schemaSql, "/*", k))
      ==> r == schemaSql
  {
    CleanedSqlWithoutComments(schemaSql);
    StripBlockComments(StripLineComments(schemaSql))
  }

  // Both strippings leave a script with neither `--` nor `/*` as it is.
  lemma CleanedSqlWithoutComments(schemaSql: string)
    ensures (forall k: nat :: !OccursAt(schemaSql, "--", k)) && (forall k: nat :: !OccursAt(schemaSql, "/*", k))
      ==> StripBlockComments(StripLineComments(schemaSql)) == schemaSql
  {
    if (forall k: nat :: !OccursAt(schemaSql, "--", k)) && (forall k: nat :: !OccursAt(schemaSql, "/*", k)) {
      StripLineCommentsNoDashes(schemaSql);
      StripBlockCommentsNoOpeners(schemaSql);
    }
  }

  // ---------------------------------------------------------------------------
  // The whole bootstrap

  datatype InitOutcome =
    | Skipped                                  // both tables were there
    | SchemaMissing(message: string)           // no candidate path exists
    | Executed(schemaPath: string, sql: string) // the cleaned script, run as one batch

  /** `initializePostgresDatabase` up to the batch it runs. */
  method InitializePostgres(tables: seq<string>, possiblePaths: seq<string>, exists_: string -> bool, read: string -> string)
    returns (outcome: InitOutcome)
    ensures outcome.Skipped? <==> AlreadyInitialised(tables)
    ensures !AlreadyInitialised(tables) && (forall i :: 0 <= i < |possiblePaths| ==> !exists_(possiblePaths[i])) ==>
      outcome == SchemaMissing(SchemaNotFoundMessage)
    ensures outcome.Executed? ==>
      && outcome.sql == CleanedSql(read(outcome.schemaPath))
      && exists k :: 0 <= k < |possiblePaths| && outcome.schemaPath == possiblePaths[k]
           && exists_(possiblePaths[k]) && forall i :: 0 <= i < k ==> !exists_(possiblePaths[i])
  {
    var hasUsersTable := "users" in tables;
    var hasAttendanceTable := "attendance" in tables;
    if hasUsersTable && hasAttendanceTable {
      return Skipped;
    }
    var schemaPath := FindSchemaPath(possiblePaths, exists_);
    if schemaPath.None? {
      return SchemaMissing(SchemaNotFoundMessage);
    }
    var schemaSql := read(schemaPath.value);
    outcome := Executed(schemaPath.value, CleanedSql(schemaSql));
  }
}
