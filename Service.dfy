/**
 * `generateAndExecuteSQL`: validate the request, generate the script, run it
 * against the database, drop everything it created, and return the script;
 * on any exception drop the request's tables and return an error text.
 */
module Service {
  import opened Results
  import opened JavaStrings
  import opened Schema
  import opened Validation
  import opened OneToOne
  import opened ManyToMany
  import opened Generator
  import opened ScriptSplit
  import opened GeneratedScript
  import opened Jdbc
  import opened Execution

  /** The text put before the exception message on the error path. */
  const ErrorPrefix: string := "Błąd podczas wykonywania skryptu:\n"

  /**
   * How the public method ends: it returns the script, it returns the
   * error text for an exception it caught, or an exception escapes it.
   */
  datatype Response = Script(sql: string) | Reported(message: string) | Raised(message: string)
  {
    /** The string the method returns; `None` when an exception escapes. */
    function Returned(): Option<string>
    {
      match this
      case Script(sql) => Some(sql)
      case Reported(message) => Some(ErrorPrefix + message)
      case Raised(_) => None
    }
  }

  /** The text returned for a caught exception is the fixed prefix and then its message. */
  lemma ReportedText(message: string)
    ensures Reported(message).Returned() == Some(ErrorPrefix + message)
  {
  }

  /** The response together with every statement submitted to the database, in order. */
  datatype Outcome = Outcome(response: Response, executed: seq<string>)

  /** Statements submitted before the rest of an outcome. */
  function After(earlier: seq<string>, o: Outcome): (r: Outcome)
    ensures r.response == o.response && r.executed == earlier + o.executed
  {
    Outcome(o.response, earlier + o.executed)
  }

  /**
   * The catch block: `dropTables` with an empty join-table set, so only the
   * request's own tables are dropped, last to first; if one of those drops
   * throws, that exception leaves the method, otherwise the error text is
   * returned.
   */
  function CatchPath(tables: seq<Table>, message: string, verdict: string -> Option<string>): Outcome
  {
    var drops := RunAll(BaseDrops(tables), verdict);
    match drops.failure
    case Some(m) => Outcome(Raised(m), drops.executed)
    case None => Outcome(Reported(message), drops.executed)
  }

  /** The join-table names the generator records for a request that gets that far. */
  function JoinNames(tables: seq<Table>): set<string>
  {
    if FirstViolation(tables).None? && GenerateScript(tables, {}).Ok? then GenerateScript(tables, {}).value.1
    else {}
  }

  /** The end of the try block: drop everything and return the script. */
  function DropThenReturn(tables: seq<Table>, script: string, verdict: string -> Option<string>, order: seq<string>): Outcome
  {
    var drops := RunAll(DropStatements(order, tables), verdict);
    match drops.failure
    case Some(m) => After(drops.executed, CatchPath(tables, m, verdict))
    case None => Outcome(Script(script), drops.executed)
  }

  /**
   * The try block once the script exists: run it, then drop everything; the
   * first exception on the way hands over to the catch block.
   */
  function RunThenDrop(tables: seq<Table>, script: string, verdict: string -> Option<string>, order: seq<string>): Outcome
  {
    var run := RunAll(Statements(script), verdict);
    match run.failure
    case Some(m) => After(run.executed, CatchPath(tables, m, verdict))
    case None => After(run.executed, DropThenReturn(tables, script, verdict, order))
  }

  /**
   * The whole flow for a request with tables `tables`, against a database
   * with verdict `verdict`, when the join-table set is iterated in `order`.
   */
  function Pipeline(tables: seq<Table>, verdict: string -> Option<string>, order: seq<string>): Outcome
  {
    match FirstViolation(tables)
    case Some(m) => CatchPath(tables, m, verdict)
    case None =>
      match GenerateScript(tables, {})
      case Err(m) => CatchPath(OneToOnePass(tables), m, verdict)
      case Ok((script, _)) => RunThenDrop(OneToOnePass(tables), script, verdict, order)
  }

  /** The log after a script that went through and the drops that followed it. */
  lemma AcceptedScriptLog(tables: seq<Table>, script: string, verdict: string -> Option<string>, order: seq<string>,
                          log0: seq<string>, ran: seq<string>, log1: seq<string>, response: Response)
    requires RunAll(Statements(script), verdict).failure.None?
    requires ran == log0 + RunAll(Statements(script), verdict).executed
    requires log1 == ran + DropThenReturn(tables, script, verdict, order).executed
    requires response == DropThenReturn(tables, script, verdict, order).response
    ensures log1 == log0 + RunThenDrop(tables, script, verdict, order).executed
    ensures response == RunThenDrop(tables, script, verdict, order).response
  {
  }

  /** A request that passes validation and generation goes on to run its script. */
  lemma PipelineGenerated(tables: seq<Table>, verdict: string -> Option<string>, order: seq<string>)
    requires FirstViolation(tables).None? && GenerateScript(tables, {}).Ok?
    ensures Pipeline(tables, verdict, order)
      == RunThenDrop(OneToOnePass(tables), GenerateScript(tables, {}).value.0, verdict, order)
  {
  }

  /** Dropping uses only table names, which the one-to-one pass leaves alone. */
  lemma PassKeepsDrops(tables: seq<Table>)
    ensures BaseDrops(OneToOnePass(tables)) == BaseDrops(tables)
  {
    PassKeepsNamesAndRelationships(tables);
  }

  /** A request that fails validation goes straight to the catch block. */
  lemma PipelineRejects(tables: seq<Table>, verdict: string -> Option<string>, order: seq<string>)
    requires FirstViolation(tables).Some?
    ensures Pipeline(tables, verdict, order) == CatchPath(tables, FirstViolation(tables).value, verdict)
  {
  }

  /** A request that passes validation but not generation goes straight to the catch block. */
  lemma PipelineGenerationFails(tables: seq<Table>, verdict: string -> Option<string>, order: seq<string>)
    requires FirstViolation(tables).None? && GenerateScript(tables, {}).Err?
    ensures Pipeline(tables, verdict, order) == CatchPath(tables, GenerateScript(tables, {}).message, verdict)
  {
    PassKeepsDrops(tables);
  }

  /** A script and drops the database accepts end with the script returned. */
  lemma RunThenDropAccepted(tables: seq<Table>, script: string, verdict: string -> Option<string>, order: seq<string>)
    requires AllAccepted(Statements(script), verdict)
    requires AllAccepted(DropStatements(order, tables), verdict)
    ensures RunThenDrop(tables, script, verdict, order)
      == Outcome(Script(script), Statements(script) + DropStatements(order, tables))
  {
    RunAllAccepted(Statements(script), verdict);
    RunAllAccepted(DropStatements(order, tables), verdict);
  }

  /** The only enumeration of the empty set is empty. */
  lemma EmptyEnumeration(order: seq<string>)
    requires IsEnumeration(order, {})
    ensures order == []
  {
    EnumerationMeaning(order, {});
  }

  /** The catch block, as a method on the request and the database. */
  method Catch(req: SchemaRequest, db: Database, message: string) returns (response: Response)
    modifies db
    ensures var o := CatchPath(req.tables, message, db.verdict);
      db.log == old(db.log) + o.executed && response == o.response
  {
    var failure, order := DropTables(req, db, {});
    EmptyEnumeration(order);
    assert DropStatements(order, req.tables) == BaseDrops(req.tables);
    if failure.Some? {
      response := Raised(failure.value);
    } else {
      response := Reported(message);
    }
  }

  /** `dropTables(schemaRequest, manyToManyTables)` and `return sqlScript` of the try block. */
  method DropAndReturn(req: SchemaRequest, db: Database, sqlScript: string, manyToManyTables: set<string>)
    returns (response: Response, ghost order: seq<string>)
    modifies db
    ensures IsEnumeration(order, manyToManyTables)
    ensures var o := DropThenReturn(req.tables, sqlScript, db.verdict, order);
      db.log == old(db.log) + o.executed && response == o.response
  {
    var dropFailure, dropOrder := DropTables(req, db, manyToManyTables);
    order := dropOrder;
    if dropFailure.Some? {
      ghost var ran := db.log;
      response := Catch(req, db, dropFailure.value);
      ghost var c := CatchPath(req.tables, dropFailure.value, db.verdict);
      assert db.log == ran + c.executed;
      return;
    }
    response := Script(sqlScript);
  }

  /** The part of the try block after generation succeeded: run the script, then drop. */
  method RunAndDrop(req: SchemaRequest, db: Database, sqlScript: string, manyToManyTables: set<string>)
    returns (response: Response, ghost order: seq<string>)
    modifies db
    ensures IsEnumeration(order, manyToManyTables)
    ensures var o := RunThenDrop(req.tables, sqlScript, db.verdict, order);
      db.log == old(db.log) + o.executed && response == o.response
  {
    var failure := ExecuteSQLScript(db, sqlScript);
    ghost var ran := db.log;
    if failure.Some? {
      EnumerationExists(manyToManyTables);
      order :| IsEnumeration(order, manyToManyTables);
      response := Catch(req, db, failure.value);
      ghost var c := CatchPath(req.tables, failure.value, db.verdict);
      assert db.log == ran + c.executed;
      return;
    }
    response, order := DropAndReturn(req, db, sqlScript, manyToManyTables);
    AcceptedScriptLog(req.tables, sqlScript, db.verdict, order, old(db.log), ran, db.log, response);
  }

  /**
   * `generateAndExecuteSQL`. Validation leaves the request as it is; from
   * generation on, its one-to-one fields are marked unique in place. The
   * join-table set's iteration order is left open.
   */
  method GenerateAndExecuteSQL(req: SchemaRequest, db: Database) returns (response: Response)
    modifies req, db
    ensures req.tables ==
      if FirstViolation(old(req.tables)).None? then OneToOnePass(old(req.tables)) else old(req.tables)
    ensures exists order ::
      IsEnumeration(order, JoinNames(old(req.tables))) &&
      var o := Pipeline(old(req.tables), db.verdict, order);
      db.log == old(db.log) + o.executed && response == o.response
  {
    ghost var tables := req.tables;
    var validation := ValidateSchemaRequest(req);
    if validation.Err? {
      response := Catch(req, db, validation.message);
      EnumerationExists({});
      ghost var order :| IsEnumeration(order, {});
      assert IsEnumeration(order, JoinNames(tables));
      return;
    }
    var generated := GenerateSQLScript(req, {});
    if generated.Err? {
      response := Catch(req, db, generated.message);
      EnumerationExists({});
      ghost var order :| IsEnumeration(order, {});
      assert IsEnumeration(order, JoinNames(tables));
      return;
    }
    var (sqlScript, manyToManyTables) := generated.value;
    ghost var order;
    response, order := RunAndDrop(req, db, sqlScript, manyToManyTables);
    assert IsEnumeration(order, JoinNames(tables));
  }

  /**
   * The catch block submits only drops of request tables, never a join
   * table's: join tables created before the failure are left in place.
   */
  lemma CatchDropsOnlyRequestTables(tables: seq<Table>, message: string, verdict: string -> Option<string>)
    ensures forall s | s in CatchPath(tables, message, verdict).executed ::
      exists i :: 0 <= i < |tables| && s == DropSQL(tables[i].name)
  {
    var all := BaseDrops(tables);
    var executed := RunAll(all, verdict).executed;
    assert CatchPath(tables, message, verdict).executed == executed;
    RunAllPrefix(all, verdict);
    forall s | s in executed ensures exists i :: 0 <= i < |tables| && s == DropSQL(tables[i].name) {
      var k :| 0 <= k < |executed| && executed[k] == s;
      assert s == all[k];
      assert s == DropSQL(tables[|tables| - 1 - k].name);
    }
  }

  /** Drops the database accepts end the catch block with the error text returned. */
  lemma CatchAccepted(tables: seq<Table>, message: string, verdict: string -> Option<string>)
    requires AllAccepted(BaseDrops(tables), verdict)
    ensures CatchPath(tables, message, verdict) == Outcome(Reported(message), BaseDrops(tables))
    ensures CatchPath(tables, message, verdict).response.Returned() == Some(ErrorPrefix + message)
  {
    RunAllAccepted(BaseDrops(tables), verdict);
    ReportedText(message);
  }

  /**
   * A reserved table or field name stops the request before anything is
   * generated: only drops of the request's tables reach the database, and if
   * they all go through the caller gets the validation message.
   */
  lemma ReservedNameRejected(tables: seq<Table>, verdict: string -> Option<string>, order: seq<string>)
    requires exists i :: 0 <= i < |tables| && Offending(tables[i])
    ensures FirstViolation(tables).Some?
    ensures var o := Pipeline(tables, verdict, order);
      (forall s | s in o.executed :: exists i :: 0 <= i < |tables| && s == DropSQL(tables[i].name)) &&
      (AllAccepted(BaseDrops(tables), verdict) ==>
        o.executed == BaseDrops(tables) && o.response == Reported(FirstViolation(tables).value) &&
        o.response.Returned() == Some(ErrorPrefix + FirstViolation(tables).value))
  {
    ValidationFailsIff(tables);
    PipelineRejects(tables, verdict, order);
    CatchDropsOnlyRequestTables(tables, FirstViolation(tables).value, verdict);
    if AllAccepted(BaseDrops(tables), verdict) {
      CatchAccepted(tables, FirstViolation(tables).value, verdict);
    }
  }

  /**
   * A many-to-many relationship whose referenced table declares none back, in
   * a valid request, makes generation throw: nothing is created, and if the
   * drops go through the caller gets the missing-inverse message.
   */
  lemma MissingInverseRejected(tables: seq<Table>, verdict: string -> Option<string>, order: seq<string>)
    requires FirstViolation(tables).None?
    requires exists k :: 0 <= k < |Declared(tables)| && MissingInverseAt(tables, {}, Declared(tables), k)
    ensures var o := Pipeline(tables, verdict, order);
      (forall s | s in o.executed :: exists i :: 0 <= i < |tables| && s == DropSQL(tables[i].name)) &&
      (AllAccepted(BaseDrops(tables), verdict) ==>
        o.executed == BaseDrops(tables) && o.response == Reported(MissingInverseMessage) &&
        o.response.Returned() == Some(ErrorPrefix + MissingInverseMessage))
  {
    GenerateScriptErrIff(tables, {});
    PipelineGenerationFails(tables, verdict, order);
    CatchDropsOnlyRequestTables(tables, MissingInverseMessage, verdict);
    if AllAccepted(BaseDrops(tables), verdict) {
      CatchAccepted(tables, MissingInverseMessage, verdict);
    }
  }

  /**
   * When the database accepts everything, the caller gets the script back,
   * and the database has seen every statement of the script and then one
   * drop per join table and one per request table, last to first.
   */
  lemma Succeeds(tables: seq<Table>, verdict: string -> Option<string>, order: seq<string>)
    requires FirstViolation(tables).None? && GenerateScript(tables, {}).Ok?
    requires AllAccepted(Statements(GenerateScript(tables, {}).value.0), verdict)
    requires AllAccepted(DropStatements(order, tables), verdict)
    ensures var o := Pipeline(tables, verdict, order);
      o.response == Script(GenerateScript(tables, {}).value.0) &&
      o.executed == Statements(GenerateScript(tables, {}).value.0) + JoinDrops(order) + BaseDrops(tables)
  {
    var script := GenerateScript(tables, {}).value.0;
    var marked := OneToOnePass(tables);
    PipelineGenerated(tables, verdict, order);
    PassKeepsDrops(tables);
    assert DropStatements(order, marked) == DropStatements(order, tables);
    RunThenDropAccepted(marked, script, verdict, order);
  }

  /**
   * Under the same conditions, and when no name, type or reference contains
   * `;`, what reaches the database is one `CREATE TABLE` per request table
   * in order, one per emitted join table, then the drops.
   */
  lemma SucceedsStatementByStatement(tables: seq<Table>, verdict: string -> Option<string>, order: seq<string>)
    requires FreeOfSemicolons(tables)
    requires FirstViolation(tables).None? && GenerateScript(tables, {}).Ok?
    requires AllAccepted(Statements(GenerateScript(tables, {}).value.0), verdict)
    requires AllAccepted(DropStatements(order, tables), verdict)
    ensures JoinFold(tables, {}, Declared(tables)).Ok?
    ensures var es := JoinFold(tables, {}, Declared(tables)).value.emitted;
      Pipeline(tables, verdict, order).executed ==
        Terminate(TableStatements(OneToOnePass(tables)) + JoinStatements(es)) + JoinDrops(order) + BaseDrops(tables)
  {
    Succeeds(tables, verdict, order);
    GeneratedStatements(tables, {});
  }

  /**
   * A statement of the script that the database rejects ends the run: the
   * statements before it and it are submitted, then the catch block's drops,
   * and no join table is dropped.
   */
  lemma ScriptFailureStopsRun(tables: seq<Table>, verdict: string -> Option<string>, order: seq<string>)
    requires FirstViolation(tables).None? && GenerateScript(tables, {}).Ok?
    requires !AllAccepted(Statements(GenerateScript(tables, {}).value.0), verdict)
    ensures var stmts := Statements(GenerateScript(tables, {}).value.0);
      var o := Pipeline(tables, verdict, order);
      exists n :: 0 <= n < |stmts| && verdict(stmts[n]).Some? && AllAccepted(stmts[..n], verdict) &&
        o.executed == stmts[..n + 1] + CatchPath(tables, verdict(stmts[n]).value, verdict).executed
  {
    var script := GenerateScript(tables, {}).value.0;
    var stmts := Statements(script);
    PipelineGenerated(tables, verdict, order);
    PassKeepsDrops(tables);
    RunAllSpec(stmts, verdict);
    var n :| 0 <= n < |stmts| && RunAll(stmts, verdict).executed == stmts[..n + 1] &&
      AllAccepted(stmts[..n], verdict) && verdict(stmts[n]) == RunAll(stmts, verdict).failure;
    assert Pipeline(tables, verdict, order).executed
      == stmts[..n + 1] + CatchPath(tables, verdict(stmts[n]).value, verdict).executed;
  }
}
