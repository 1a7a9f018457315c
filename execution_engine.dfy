/**
 * The `SqliteExecutionEngine` of engine/SqliteExecutionEngine.js: one
 * SQLite database per question, opened by `init`, fed statements by
 * `execute`, closed and deleted by `destroy`.
 *
 * SQLite itself is an oracle over an abstract database state `S`: opening
 * a fresh file gives `open`, and `exec`/`all` run one piece of SQL, either
 * failing with a message and no effect or giving the next state (and, for
 * `all`, the rows read).
 */
module ExecutionEngine {
  import opened Wrappers
  import opened JsStrings
  import opened JsValues

  /** The database library as far as the engine uses it. */
  datatype Sqlite<!S> = Sqlite(
    open: S,
    exec: (S, string) -> Result<S>,
    all: (S, string) -> Result<(S, seq<Row>)>)

  const AlreadyInitializedMessage: string := "Engine already initialized"
  const NotInitializedMessage: string := "Engine not initialized or already destroyed"

  /** The pragmas `init` runs before the seed, as one script. */
  const PragmaSql: string :=
    "\n      PRAGMA foreign_keys = ON;\n      PRAGMA journal_mode = WAL;\n      PRAGMA synchronous = NORMAL;\n    "

  /** `path.join(cwd, "tmp", `question_${questionId}_${id}.db`)`, without path normalisation. */
  function DbPath(cwd: string, questionId: string, id: string): (p: string)
    ensures |cwd + "/tmp/question_"| <= |p| && p[..|cwd + "/tmp/question_"|] == cwd + "/tmp/question_"
    ensures 3 <= |p| && p[|p| - 3..] == ".db"
  {
    cwd + "/tmp/" + "question_" + questionId + "_" + id + ".db"
  }

  /**
   * Within one directory and one question, identifiers of one length (as
   * `randomUUID`'s are) name the same file exactly when they are equal.
   */
  lemma DbPathDistinct(cwd: string, questionId: string, id1: string, id2: string)
    requires |id1| == |id2|
    ensures DbPath(cwd, questionId, id1) == DbPath(cwd, questionId, id2) <==> id1 == id2
  {
    var a := |cwd + "/tmp/question_" + questionId + "_"|;
    if DbPath(cwd, questionId, id1) == DbPath(cwd, questionId, id2) {
      assert DbPath(cwd, questionId, id1)[a..a + |id1|] == id1;
      assert DbPath(cwd, questionId, id2)[a..a + |id2|] == id2;
    }
  }

  /** What `execute` resolves to: `{success, output, error}`. */
  datatype ExecutionResult = ExecutionResult(success: bool, output: Option<seq<Row>>, error: Option<string>)

  // ---------------------------------------------------------------------
  // Classifying a statement

  predicate StartsWith(s: string, prefix: string) {
    |prefix| <= |s| && s[..|prefix|] == prefix
  }

  /** A statement is read with `all` when, trimmed and lower-cased, it starts with `select` or `with`. */
  predicate IsQuery(stmt: string) {
    var trimmed := Lower(Trim(stmt));
    StartsWith(trimmed, "select") || StartsWith(trimmed, "with")
  }

  /** The classification ignores letter case. */
  lemma IsQueryCaseInsensitive(stmt: string)
    ensures IsQuery(Lower(stmt)) == IsQuery(stmt)
  {
    LowerTrim(stmt);
    LowerIdempotent(Trim(stmt));
  }

  /** The classification ignores surrounding whitespace. */
  lemma IsQueryIgnoresPadding(stmt: string)
    ensures IsQuery(Trim(stmt)) == IsQuery(stmt)
  {
    TrimIdempotent(stmt);
  }

  /**
   * After leading whitespace, a word `k` whose lower-case form is `w` begins
   * the trimmed, lower-cased statement, whatever follows it.
   */
  lemma KeywordLeads(p: string, k: string, t: string, w: string)
    requires AllSpace(p) && Lower(k) == w && w != []
    requires !IsSpace(w[0]) && !IsSpace(w[|w| - 1])
    ensures StartsWith(Lower(Trim(p + k + t)), w)
  {
    LowerCharKeepsClasses(k[0]);
    LowerCharKeepsClasses(k[|k| - 1]);
    TrimKeepsLead(p, k, t);
    LowerSlice(Trim(p + k + t), 0, |k|);
  }

  /** A statement whose first word is `select` or `with`, in any case, is a query. */
  lemma KeywordIsQuery(p: string, k: string, t: string)
    requires AllSpace(p) && (Lower(k) == "select" || Lower(k) == "with")
    ensures IsQuery(p + k + t)
  {
    if Lower(k) == "select" {
      KeywordLeads(p, k, t, "select");
    } else {
      KeywordLeads(p, k, t, "with");
    }
  }

  /** A statement whose first non-space character is not `s` or `w`, in any case, is run with `exec`. */
  lemma OtherLeadIsNotQuery(p: string, ch: char, t: string)
    requires AllSpace(p) && !IsSpace(ch) && LowerChar(ch) != 's' && LowerChar(ch) != 'w'
    ensures !IsQuery(p + [ch] + t)
  {
    TrimKeepsLead(p, [ch], t);
    var lowered := Lower(Trim(p + [ch] + t));
    assert lowered[0] == LowerChar(ch);
  }

  // ---------------------------------------------------------------------
  // The statement loop of `execute`, as a function

  /** One statement run against the database: a query gives its rows, anything else none. */
  function Step<S>(sqlite: Sqlite<S>, state: S, stmt: string): Result<(S, Option<seq<Row>>)> {
    if IsQuery(stmt) then
      match sqlite.all(state, stmt)
      case Err(message) => Err(message)
      case Ok(read) => Ok((read.0, Some(read.1)))
    else
      match sqlite.exec(state, stmt)
      case Err(message) => Err(message)
      case Ok(next) => Ok((next, None))
  }

  /** Where the loop ends: all statements run, or stopped at a failing one. */
  datatype Run<S> =
    | Finished(state: S, last: Option<seq<Row>>)
    | Aborted(state: S, last: Option<seq<Row>>, message: string)

  /**
   * The statements run in order from `state`, with `last` the rows of the
   * last query so far; the first failure stops the run, and the effects of
   * the statements before it stay.
   */
  function RunStatements<S>(sqlite: Sqlite<S>, state: S, last: Option<seq<Row>>, statements: seq<string>): Run<S>
    decreases |statements|
  {
    if statements == [] then Finished(state, last)
    else
      match Step(sqlite, state, statements[0])
      case Err(message) => Aborted(state, last, message)
      case Ok(next) =>
        RunStatements(sqlite, next.0, if next.1.Some? then next.1 else last, statements[1..])
  }

  /** Running `a + b` is running `a`, then, unless it stopped, running `b` from where `a` ended. */
  lemma {:induction false} RunAppend<S>(sqlite: Sqlite<S>, state: S, last: Option<seq<Row>>, a: seq<string>, b: seq<string>)
    ensures RunStatements(sqlite, state, last, a + b) ==
              match RunStatements(sqlite, state, last, a)
              case Finished(s, l) => RunStatements(sqlite, s, l, b)
              case Aborted(s, l, m) => Aborted(s, l, m)
    decreases |a|
  {
    if a == [] {
      assert a + b == b;
    } else {
      assert (a + b)[0] == a[0];
      assert (a + b)[1..] == a[1..] + b;
      match Step(sqlite, state, a[0])
      case Err(_) =>
      case Ok(next) =>
        RunAppend(sqlite, next.0, if next.1.Some? then next.1 else last, a[1..], b);
    }
  }

  /** Once a statement fails, nothing after it runs: the outcome is the same whatever follows. */
  lemma FailureStopsRun<S>(sqlite: Sqlite<S>, state: S, last: Option<seq<Row>>, a: seq<string>, b: seq<string>)
    requires RunStatements(sqlite, state, last, a).Aborted?
    ensures RunStatements(sqlite, state, last, a + b) == RunStatements(sqlite, state, last, a)
  {
    RunAppend(sqlite, state, last, a, b);
  }

  /** Statements none of which is a query leave the last query's rows as they were. */
  lemma {:induction false} RunWithoutQueries<S>(sqlite: Sqlite<S>, state: S, last: Option<seq<Row>>, statements: seq<string>)
    requires forall i | 0 <= i < |statements| :: !IsQuery(statements[i])
    ensures RunStatements(sqlite, state, last, statements).last == last
    decreases |statements|
  {
    if statements != [] {
      match Step(sqlite, state, statements[0])
      case Err(_) =>
      case Ok(next) =>
        RunWithoutQueries(sqlite, next.0, last, statements[1..]);
    }
  }

  /** When the final statement is a query that succeeds, its rows are the output. */
  lemma RunEndingInQuery<S>(sqlite: Sqlite<S>, state: S, last: Option<seq<Row>>, front: seq<string>, query: string)
    requires IsQuery(query)
    requires RunStatements(sqlite, state, last, front).Finished?
    requires sqlite.all(RunStatements(sqlite, state, last, front).state, query).Ok?
    ensures RunStatements(sqlite, state, last, front + [query]) ==
              var read := sqlite.all(RunStatements(sqlite, state, last, front).state, query).value;
              Finished(read.0, Some(read.1))
  {
    RunAppend(sqlite, state, last, front, [query]);
  }

  /** The result `execute` builds from the run. */
  function ResultOf<S>(run: Run<S>): (r: ExecutionResult)
    ensures r.success <==> run.Finished?
    ensures run.Finished? ==> r.output == Some(run.last.GetOr([])) && r.error.None?
    ensures run.Aborted? ==> r.output.None? && r.error == Some(run.message)
  {
    match run
    case Finished(_, last) => ExecutionResult(true, Some(last.GetOr([])), None)
    case Aborted(_, _, message) => ExecutionResult(false, None, Some(message))
  }

  // ---------------------------------------------------------------------
  // The engine

  class SqliteExecutionEngine<S> {
    const questionId: string
    /** The seed script; the empty string stands for a falsy `seedSql`. */
    const seedSql: string
    const sqlite: Sqlite<S>

    /** The open connection's database, or `null`. */
    var db: Option<S>
    var dbPath: Option<string>
    var lastSelectResult: Option<seq<Row>>
    var active: bool
    /** Whether the database file at `dbPath` is on disk. */
    var storeExists: bool

    /** A path and a file exactly while a connection is open; active only with one. */
    predicate Valid()
      reads this
    {
      && (db.Some? <==> dbPath.Some?)
      && (db.Some? <==> storeExists)
      && (active ==> db.Some?)
    }

    constructor (questionId: string, seedSql: string, sqlite: Sqlite<S>)
      ensures Valid()
      ensures this.questionId == questionId && this.seedSql == seedSql && this.sqlite == sqlite
      ensures db.None? && dbPath.None? && lastSelectResult.None? && !active && !storeExists
    {
      this.questionId := questionId;
      this.seedSql := seedSql;
      this.sqlite := sqlite;
      db := None;
      dbPath := None;
      lastSelectResult := None;
      active := false;
      storeExists := false;
    }

    /**
     * `init`: refuse when active; otherwise open a fresh database file under
     * `cwd` named with `id`, run the pragmas and then the seed, and become
     * active only when both succeeded.
     */
    method Init(cwd: string, id: string) returns (r: Result<()>)
      requires Valid()
      modifies this
      ensures Valid()
      ensures lastSelectResult == old(lastSelectResult)
      ensures old(active) ==> r == Err(AlreadyInitializedMessage) && unchanged(this)
      ensures !old(active) ==>
                && dbPath == Some(DbPath(cwd, questionId, id)) && storeExists
                && (active <==> r.Ok?)
                && db == Some(InitState(sqlite, seedSql))
                && r == InitOutcome(sqlite, seedSql)
    {
      if active {
        return Err(AlreadyInitializedMessage);
      }
      dbPath := Some(DbPath(cwd, questionId, id));
      db := Some(sqlite.open);
      storeExists := true;
      var pragmas := sqlite.exec(sqlite.open, PragmaSql);
      if pragmas.Err? {
        return Err(pragmas.message);
      }
      db := Some(pragmas.value);
      if seedSql != [] {
        var seeded := sqlite.exec(pragmas.value, seedSql);
        if seeded.Err? {
          return Err(seeded.message);
        }
        db := Some(seeded.value);
      }
      active := true;
      r := Ok(());
    }

    /** `execute`: refuse when inactive; otherwise run the statements and report the run. */
    method Execute(statements: seq<string>) returns (r: Result<ExecutionResult>)
      requires Valid()
      modifies this
      ensures Valid()
      ensures !old(active) ==> r == Err(NotInitializedMessage) && unchanged(this)
      ensures old(active) ==>
                var run := RunStatements(sqlite, old(db).value, None, statements);
                && r == Ok(ResultOf(run))
                && db == Some(run.state)
                && lastSelectResult == run.last
                && active && dbPath == old(dbPath) && storeExists
    {
      if !active {
        return Err(NotInitializedMessage);
      }
      ghost var run := RunStatements(sqlite, db.value, None, statements);
      lastSelectResult := None;
      var i := 0;
      while i < |statements|
        invariant 0 <= i <= |statements|
        invariant Valid() && active && dbPath == old(dbPath) && storeExists
        invariant run == RunStatements(sqlite, db.value, lastSelectResult, statements[i..])
        decreases |statements| - i
      {
        var stmt := statements[i];
        assert statements[i..][0] == stmt && statements[i..][1..] == statements[i + 1..];
        if IsQuery(stmt) {
          var read := sqlite.all(db.value, stmt);
          if read.Err? {
            return Ok(ExecutionResult(false, None, Some(read.message)));
          }
          db := Some(read.value.0);
          lastSelectResult := Some(read.value.1);
        } else {
          var next := sqlite.exec(db.value, stmt);
          if next.Err? {
            return Ok(ExecutionResult(false, None, Some(next.message)));
          }
          db := Some(next.value);
        }
        i := i + 1;
      }
      var output := if lastSelectResult.Some? then lastSelectResult.value else [];
      r := Ok(ExecutionResult(true, Some(output), None));
    }

    /** `destroy`: nothing without a connection; otherwise close it, delete the file, and deactivate. */
    method Destroy()
      requires Valid()
      modifies this
      ensures Valid()
      ensures old(db).None? ==> unchanged(this)
      ensures old(db).Some? ==> db.None? && dbPath.None? && !active && !storeExists
      ensures lastSelectResult == old(lastSelectResult)
    {
      if db.None? {
        return;
      }
      if dbPath.Some? && storeExists {
        storeExists := false;
      }
      db := None;
      dbPath := None;
      active := false;
    }
  }

  /**
   * `destroy` followed by `init`: only `active` guards `init`, so a destroyed
   * engine can be initialized again, on a new file.
   */
  method DestroyThenInit<S>(engine: SqliteExecutionEngine<S>, cwd: string, id: string) returns (r: Result<()>)
    requires engine.Valid()
    modifies engine
    ensures engine.Valid()
    ensures r == InitOutcome(engine.sqlite, engine.seedSql)
    ensures engine.active <==> r.Ok?
    ensures engine.dbPath == Some(DbPath(cwd, engine.questionId, id))
  {
    engine.Destroy();
    r := engine.Init(cwd, id);
  }

  /** The database state a fresh `init` ends in: after the pragmas and, when given, the seed, up to the first failure. */
  function InitState<S>(sqlite: Sqlite<S>, seedSql: string): S {
    match sqlite.exec(sqlite.open, PragmaSql)
    case Err(_) => sqlite.open
    case Ok(s) =>
      if seedSql == [] then s
      else
        match sqlite.exec(s, seedSql)
        case Err(_) => s
        case Ok(t) => t
  }

  /** How a fresh `init` ends: the pragma error, the seed error, or success. */
  function InitOutcome<S>(sqlite: Sqlite<S>, seedSql: string): Result<()> {
    match sqlite.exec(sqlite.open, PragmaSql)
    case Err(m) => Err(m)
    case Ok(s) =>
      if seedSql == [] then Ok(())
      else
        match sqlite.exec(s, seedSql)
        case Err(m) => Err(m)
        case Ok(_) => Ok(())
  }
}
