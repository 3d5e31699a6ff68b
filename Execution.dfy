/**
 * `executeSQLScript` and `dropTables`: the generated script is submitted one
 * statement at a time, and afterwards every table it created is dropped
 * again, join tables first, then the request's tables last to first.
 */
module Execution {
  import opened Results
  import opened JavaStrings
  import opened Schema
  import opened ScriptSplit
  import opened Jdbc

  /** A rejected statement in the script loop ends the run of the whole script. */
  lemma ScriptStops(pieces: seq<string>, i: int, statement: string, verdict: string -> Option<string>)
    requires 0 <= i < |pieces|
    requires AllAccepted(StatementsOf(pieces[..i]), verdict)
    requires PieceStatement(pieces[i]) == [statement] && verdict(statement).Some?
    ensures RunAll(StatementsOf(pieces), verdict) == Run(StatementsOf(pieces[..i]) + [statement], verdict(statement))
  {
    StatementsAround(pieces, i);
    RunAllReject(StatementsOf(pieces[..i]), statement, StatementsOf(pieces[i + 1..]), verdict);
  }

  /** The loop of `executeSQLScript`: one `execute` per non-blank piece; the first exception ends it. */
  method ExecuteSQLScript(db: Database, script: string) returns (failure: Option<string>)
    modifies db
    ensures var r := RunAll(Statements(script), db.verdict);
      db.log == old(db.log) + r.executed && failure == r.failure
  {
    var sqlStatements := Split(script, ';');
    var i := 0;
    while i < |sqlStatements|
      invariant 0 <= i <= |sqlStatements|
      invariant AllAccepted(StatementsOf(sqlStatements[..i]), db.verdict)
      invariant db.log == old(db.log) + StatementsOf(sqlStatements[..i])
    {
      var sql := sqlStatements[i];
      StatementsOfPrefix(sqlStatements, i);
      if Trim(sql) != [] {
        failure := db.Execute(Trim(sql) + ";");
        if failure.Some? {
          ScriptStops(sqlStatements, i, Trim(sql) + ";", db.verdict);
          return;
        }
      }
      i := i + 1;
    }
    assert sqlStatements[..i] == sqlStatements;
    RunAllAccepted(StatementsOf(sqlStatements), db.verdict);
    failure := None;
  }

  function DropSQL(tableName: string): string
  {
    "DROP TABLE IF EXISTS " + tableName + " CASCADE;"
  }

  /** One drop per join-table name, in the order the set is iterated. */
  function JoinDrops(order: seq<string>): (drops: seq<string>)
    ensures |drops| == |order|
  {
    seq(|order|, k requires 0 <= k < |order| => DropSQL(order[k]))
  }

  /** One drop per table of the request, the last table first. */
  function BaseDrops(tables: seq<Table>): (drops: seq<string>)
    ensures |drops| == |tables|
  {
    seq(|tables|, k requires 0 <= k < |tables| => DropSQL(tables[|tables| - 1 - k].name))
  }

  /** Everything `dropTables` submits when no drop fails. */
  function DropStatements(order: seq<string>, tables: seq<Table>): seq<string>
  {
    JoinDrops(order) + BaseDrops(tables)
  }

  /** `order` lists every element of `names` exactly once. */
  predicate IsEnumeration(order: seq<string>, names: set<string>)
  {
    multiset(order) == multiset(names)
  }

  /** The iteration order of a `HashSet`, which Java leaves unspecified: any order will do. */
  method IterationOrder(names: set<string>) returns (order: seq<string>)
    ensures IsEnumeration(order, names)
  {
    order := [];
    var left := names;
    while left != {}
      invariant left <= names
      invariant multiset(order) + multiset(left) == multiset(names)
      decreases |left|
    {
      var x :| x in left;
      assert multiset(left) == multiset(left - {x}) + multiset{x};
      order := order + [x];
      left := left - {x};
    }
  }

  /** Every finite set of names has an enumeration. */
  lemma {:induction false} EnumerationExists(names: set<string>)
    ensures exists order :: IsEnumeration(order, names)
    decreases |names|
  {
    if names == {} {
      assert IsEnumeration([], names);
    } else {
      var x :| x in names;
      EnumerationExists(names - {x});
      var order :| IsEnumeration(order, names - {x});
      assert multiset(names) == multiset(names - {x}) + multiset{x};
      assert IsEnumeration(order + [x], names);
    }
  }

  /**
   * What an enumeration is: the same names, none of them twice, and as many
   * entries as the set has elements, so each join table is dropped once.
   */
  lemma EnumerationMeaning(order: seq<string>, names: set<string>)
    requires IsEnumeration(order, names)
    ensures forall x :: x in order <==> x in names
    ensures forall a, b :: 0 <= a < b < |order| ==> order[a] != order[b]
    ensures |order| == |names|
  {
    forall x ensures x in order <==> x in names {
      assert x in order <==> x in multiset(order);
    }
    forall a, b | 0 <= a < b < |order| ensures order[a] != order[b] {
      var y := order[b];
      assert order == order[..b] + [y] + order[b + 1..];
      assert multiset(order)[y] == multiset(order[..b])[y] + 1 + multiset(order[b + 1..])[y];
      assert multiset(names)[y] <= 1;
      assert y !in multiset(order[..b]);
      assert order[..b][a] == order[a];
    }
    assert |multiset(order)| == |order|;
    assert |multiset(names)| == |names|;
  }

  /**
   * Tables declared later are dropped before tables declared earlier: the
   * drops of a concatenation are those of the second part, then the first.
   */
  lemma BaseDropsReverse(a: seq<Table>, b: seq<Table>)
    ensures BaseDrops(a + b) == BaseDrops(b) + BaseDrops(a)
  {
    var ab := a + b;
    forall k | 0 <= k < |ab|
      ensures BaseDrops(ab)[k] == (BaseDrops(b) + BaseDrops(a))[k]
    {
      if k < |b| {
        assert ab[|ab| - 1 - k] == b[|b| - 1 - k];
      } else {
        assert ab[|ab| - 1 - k] == a[|a| - 1 - (k - |b|)];
      }
    }
  }

  /** A rejected drop ends the run of all the drops. */
  lemma DropsStop(all: seq<string>, n: int, verdict: string -> Option<string>)
    requires 0 <= n < |all|
    requires AllAccepted(all[..n], verdict) && verdict(all[n]).Some?
    ensures RunAll(all, verdict) == Run(all[..n + 1], verdict(all[n]))
  {
    assert all == all[..n] + [all[n]] + all[n + 1..];
    assert all[..n + 1] == all[..n] + [all[n]];
    RunAllReject(all[..n], all[n], all[n + 1..], verdict);
  }

  /** The first loop of `dropTables`: one drop per join-table name, in `order`. */
  method DropJoinTables(db: Database, order: seq<string>) returns (failure: Option<string>)
    modifies db
    ensures var r := RunAll(JoinDrops(order), db.verdict);
      db.log == old(db.log) + r.executed && failure == r.failure
  {
    ghost var all := JoinDrops(order);
    for j := 0 to |order|
      invariant AllAccepted(all[..j], db.verdict)
      invariant db.log == old(db.log) + all[..j]
    {
      var dropSQL := DropSQL(order[j]);
      failure := db.Execute(dropSQL);
      if failure.Some? {
        DropsStop(all, j, db.verdict);
        return;
      }
      AcceptedPrefix(all, j, db.verdict);
      assert all[..j + 1] == all[..j] + [dropSQL];
    }
    assert all[..|order|] == all;
    RunAllAccepted(all, db.verdict);
    failure := None;
  }

  /** The second loop of `dropTables`: one drop per request table, from the last to the first. */
  method DropBaseTables(db: Database, tables: seq<Table>) returns (failure: Option<string>)
    modifies db
    ensures var r := RunAll(BaseDrops(tables), db.verdict);
      db.log == old(db.log) + r.executed && failure == r.failure
  {
    ghost var all := BaseDrops(tables);
    var i := |tables| - 1;
    ghost var n := 0;
    while i >= 0
      invariant -1 <= i < |tables|
      invariant n == |tables| - 1 - i
      invariant AllAccepted(all[..n], db.verdict)
      invariant db.log == old(db.log) + all[..n]
    {
      var dropSQL := DropSQL(tables[i].name);
      assert all[n] == dropSQL;
      failure := db.Execute(dropSQL);
      if failure.Some? {
        DropsStop(all, n, db.verdict);
        return;
      }
      AcceptedPrefix(all, n, db.verdict);
      assert all[..n + 1] == all[..n] + [dropSQL];
      n := n + 1;
      i := i - 1;
    }
    assert all[..n] == all;
    RunAllAccepted(all, db.verdict);
    failure := None;
  }

  /**
   * The log of the two drop loops, one after the other, is that of a single
   * run of all the drops, and so is the way it ends.
   */
  lemma DropsLog(order: seq<string>, tables: seq<Table>, verdict: string -> Option<string>,
                 log0: seq<string>, joined: seq<string>, log1: seq<string>, failure: Option<string>)
    requires var r := RunAll(JoinDrops(order), verdict);
      joined == log0 + r.executed &&
      if r.failure.Some? then log1 == joined && failure == r.failure
      else var b := RunAll(BaseDrops(tables), verdict); log1 == joined + b.executed && failure == b.failure
    ensures var r := RunAll(DropStatements(order, tables), verdict);
      log1 == log0 + r.executed && failure == r.failure
  {
    RunAllAppend(JoinDrops(order), BaseDrops(tables), verdict);
    RunAllSpec(JoinDrops(order), verdict);
  }

  /**
   * `dropTables(schemaRequest, manyToManyTables)`: one drop per join-table
   * name in the set's iteration order, then one per request table from the
   * last to the first; the first exception ends it.
   */
  method DropTables(req: SchemaRequest, db: Database, joinNames: set<string>)
    returns (failure: Option<string>, order: seq<string>)
    modifies db
    ensures IsEnumeration(order, joinNames)
    ensures var r := RunAll(DropStatements(order, req.tables), db.verdict);
      db.log == old(db.log) + r.executed && failure == r.failure
  {
    order := IterationOrder(joinNames);
    failure := DropJoinTables(db, order);
    ghost var joined := db.log;
    if failure.None? {
      failure := DropBaseTables(db, req.tables);
    }
    DropsLog(order, req.tables, db.verdict, old(db.log), joined, db.log, failure);
  }
}
