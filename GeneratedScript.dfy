/**
 * What `executeSQLScript` makes of a generated script: as long as no name,
 * type or reference in the request contains `;`, splitting it gives back one
 * statement per table, in request order, followed by one per join table.
 */
module GeneratedScript {
  import opened Results
  import opened JavaStrings
  import opened Schema
  import opened OneToOne
  import opened TableSql
  import opened ManyToMany
  import opened ScriptSplit
  import opened Generator

  predicate TableFreeOfSemicolons(t: Table)
  {
    ';' !in t.name &&
    (forall f | f in t.fields :: ';' !in f.name && ';' !in f.sqlType) &&
    (forall r | r in t.relationships :: ';' !in r.fieldName && ';' !in r.referencedTable && ';' !in r.referencedField)
  }

  /** No name, type or reference in the request contains the statement separator. */
  predicate FreeOfSemicolons(tables: seq<Table>)
  {
    forall i :: 0 <= i < |tables| ==> TableFreeOfSemicolons(tables[i])
  }

  /** The statement text of a join table, up to its closing parenthesis. */
  function JoinStatement(e: JoinTable): string
  {
    var c := JoinColumns(e.tableA, e.tableB, e.relA, e.relB);
    JoinTableHead(e.name, c.0, c.1, c.2, c.3) + ")"
  }

  function TableStatements(tables: seq<Table>): (bodies: seq<string>)
    ensures |bodies| == |tables|
  {
    seq(|tables|, i requires 0 <= i < |tables| => TableStatement(tables[i]))
  }

  function JoinStatements(es: seq<JoinTable>): (bodies: seq<string>)
    ensures |bodies| == |es|
  {
    seq(|es|, i requires 0 <= i < |es| => JoinStatement(es[i]))
  }

  /** Each statement text terminated by `;`, as the script loop submits it. */
  function Terminate(bodies: seq<string>): seq<string>
  {
    seq(|bodies|, i requires 0 <= i < |bodies| => bodies[i] + ";")
  }

  lemma CloseAndTerminate(head: string)
    ensures head + ");\n\n" == (head + ")") + ";\n\n"
  {
  }

  lemma JoinBlockIsStatement(e: JoinTable)
    ensures JoinTableBlock(e) == JoinStatement(e) + ";\n\n"
  {
    var c := JoinColumns(e.tableA, e.tableB, e.relA, e.relB);
    CloseAndTerminate(JoinTableHead(e.name, c.0, c.1, c.2, c.3));
  }

  /** The generated text is the statement texts, each followed by its terminator and a blank line. */
  lemma BlocksAreTerminated(tables: seq<Table>, es: seq<JoinTable>)
    ensures BaseTablesSQL(tables) + JoinScript(es) == Terminated(TableStatements(tables) + JoinStatements(es))
  {
    var tb := TableStatements(tables);
    var jb := JoinStatements(es);
    forall i | 0 <= i < |tables| ensures TableBlocks(tables)[i] == tb[i] + ";\n\n" {
      TableBlockIsStatement(tables[i]);
    }
    assert TableBlocks(tables) == seq(|tb|, i requires 0 <= i < |tb| => tb[i] + ";\n\n");
    forall i | 0 <= i < |es| ensures JoinBlocks(es)[i] == jb[i] + ";\n\n" {
      JoinBlockIsStatement(es[i]);
    }
    assert JoinBlocks(es) == seq(|jb|, i requires 0 <= i < |jb| => jb[i] + ";\n\n");
    TerminatedAppend(tb, jb);
  }

  lemma {:induction false} JoinFreeOfSemicolons(sep: string, parts: seq<string>)
    requires ';' !in sep
    requires forall i :: 0 <= i < |parts| ==> ';' !in parts[i]
    ensures ';' !in Join(sep, parts)
    decreases |parts|
  {
    if |parts| > 1 {
      JoinFreeOfSemicolons(sep, parts[1..]);
    }
  }

  /** Every foreign-key line renders one of the relationships. */
  lemma {:induction false} ForeignKeyLinesFrom(rels: seq<Relationship>)
    ensures forall l | l in ForeignKeyLines(rels) :: exists r | r in rels :: l == ForeignKeyLine(r)
    decreases |rels|
  {
    if rels != [] {
      var front := rels[..|rels| - 1];
      ForeignKeyLinesFrom(front);
      assert forall r | r in front :: r in rels;
    }
  }

  lemma FieldSQLFreeOfSemicolons(t: Table, hasRelationships: bool)
    requires TableFreeOfSemicolons(t)
    ensures ';' !in FieldSQL(t.fields, hasRelationships)
  {
    var lines := FieldLines(t.fields) + PrimaryKeyClause(t.fields);
    var keys := PrimaryKeyNames(t.fields);
    forall k | 0 <= k < |keys| ensures ';' !in keys[k] {
      PrimaryKeyNamesMembers(t.fields, keys[k]);
      var j :| 0 <= j < |t.fields| && t.fields[j].primaryKey && t.fields[j].name == keys[k];
      assert t.fields[j] in t.fields;
    }
    JoinFreeOfSemicolons(", ", keys);
    forall k | 0 <= k < |lines| ensures ';' !in lines[k] {
      if k < |t.fields| {
        assert t.fields[k] in t.fields;
      }
    }
    JoinFreeOfSemicolons(",\n", lines);
  }

  lemma RelationshipSQLFreeOfSemicolons(t: Table)
    requires TableFreeOfSemicolons(t)
    ensures ';' !in RelationshipSQL(t.relationships)
  {
    var lines := ForeignKeyLines(t.relationships);
    ForeignKeyLinesFrom(t.relationships);
    forall k | 0 <= k < |lines| ensures ';' !in lines[k] {
      assert lines[k] in lines;
    }
    JoinFreeOfSemicolons(",\n", lines);
  }

  /** A table's statement text survives the split and the trim unchanged. */
  lemma TableStatementSplittable(t: Table)
    requires TableFreeOfSemicolons(t)
    ensures Splittable(TableStatement(t)) && Trim(TableStatement(t)) == TableStatement(t)
  {
    FieldSQLFreeOfSemicolons(t, HasNonManyToMany(t.relationships));
    RelationshipSQLFreeOfSemicolons(t);
    var open := CreateTableSQL(t.name);
    assert ';' !in open && open[0] == 'C';
    var head := open + FieldSQL(t.fields, HasNonManyToMany(t.relationships)) + RelationshipSQL(t.relationships);
    assert head[0] == 'C';
    StatementSplittable(head);
  }

  /** The fixed text of a join table's statement holds no `;`. */
  lemma HeadLiteralsFreeOfSemicolons()
    ensures ';' !in "CREATE TABLE " && ';' !in " (\n" && ';' !in "    " && ';' !in "_"
    ensures ';' !in " BIGINT NOT NULL,\n" && ';' !in "    PRIMARY KEY (" && ';' !in ", " && ';' !in "),\n"
    ensures ';' !in "    FOREIGN KEY (" && ';' !in ") REFERENCES " && ';' !in "(" && ';' !in ")\n"
  {
  }

  lemma HeadFreeOfSemicolons(tableName: string, sortedTableA: string, fieldA: string,
                             sortedTableB: string, fieldB: string)
    requires ';' !in tableName && ';' !in sortedTableA && ';' !in fieldA && ';' !in sortedTableB && ';' !in fieldB
    ensures ';' !in JoinTableHead(tableName, sortedTableA, fieldA, sortedTableB, fieldB)
  {
    HeadLiteralsFreeOfSemicolons();
  }

  lemma HeadStartsWithCreate(tableName: string, sortedTableA: string, fieldA: string,
                             sortedTableB: string, fieldB: string)
    ensures |JoinTableHead(tableName, sortedTableA, fieldA, sortedTableB, fieldB)| > 0
    ensures JoinTableHead(tableName, sortedTableA, fieldA, sortedTableB, fieldB)[0] == 'C'
    ensures "CREATE TABLE " + tableName + " (\n" <= JoinTableHead(tableName, sortedTableA, fieldA, sortedTableB, fieldB)
  {
  }

  /** A declaration of the request belongs to one of its tables. */
  lemma {:induction false} DeclaredFrom(tables: seq<Table>, d: Declaration)
    requires d in Declared(tables)
    ensures exists i :: 0 <= i < |tables| && tables[i].name == d.owner && d.rel in tables[i].relationships
    decreases |tables|
  {
    var n := |tables| - 1;
    var front := tables[..n];
    if d in Declared(front) {
      DeclaredFrom(front, d);
      var i :| 0 <= i < |front| && front[i].name == d.owner && d.rel in front[i].relationships;
      assert tables[i] == front[i];
    } else {
      assert d in Owned(tables[n]);
      var j :| 0 <= j < |tables[n].relationships| && Owned(tables[n])[j] == d;
    }
  }

  /** The names and columns a join table emitted for this request is written from hold no `;`. */
  lemma JoinPartsFreeOfSemicolons(tables: seq<Table>, e: JoinTable)
    requires FreeOfSemicolons(tables)
    requires WellFormed(tables, e)
    requires exists d | d in Declared(tables) :: d.owner == e.tableA && d.rel == e.relA
    ensures var c := JoinColumns(e.tableA, e.tableB, e.relA, e.relB);
      ';' !in e.name && ';' !in c.0 && ';' !in c.1 && ';' !in c.2 && ';' !in c.3
  {
    var d :| d in Declared(tables) && d.owner == e.tableA && d.rel == e.relA;
    DeclaredFrom(tables, d);
    var i :| 0 <= i < |tables| && tables[i].name == d.owner && d.rel in tables[i].relationships;
    var k :| 0 <= k < |tables| && tables[k].name == e.tableB && e.relB in tables[k].relationships;
    assert TableFreeOfSemicolons(tables[i]) && TableFreeOfSemicolons(tables[k]);
    var sorted := SortIgnoreCase(e.tableA, e.tableB);
    assert e.name == sorted.0 + "_" + sorted.1;
    JoinColumnsFollowDeclarer(e.tableA, e.tableB, e.relA, e.relB);
  }

  /** A join table emitted for this request survives the split and the trim unchanged. */
  lemma JoinStatementSplittable(tables: seq<Table>, e: JoinTable)
    requires FreeOfSemicolons(tables)
    requires WellFormed(tables, e)
    requires exists d | d in Declared(tables) :: d.owner == e.tableA && d.rel == e.relA
    ensures Splittable(JoinStatement(e)) && Trim(JoinStatement(e)) == JoinStatement(e)
  {
    var c := JoinColumns(e.tableA, e.tableB, e.relA, e.relB);
    JoinPartsFreeOfSemicolons(tables, e);
    HeadFreeOfSemicolons(e.name, c.0, c.1, c.2, c.3);
    HeadStartsWithCreate(e.name, c.0, c.1, c.2, c.3);
    StatementSplittable(JoinTableHead(e.name, c.0, c.1, c.2, c.3));
  }

  /** A head free of `;` that starts with `CREATE`, closed by `)`, is its own trim and survives the split. */
  lemma StatementSplittable(head: string)
    requires ';' !in head && |head| > 0 && head[0] == 'C'
    ensures Splittable(head + ")") && Trim(head + ")") == head + ")"
  {
    var body := head + ")";
    assert body[0] == 'C' && body[|body| - 1] == ')';
    TrimKeeps(body);
  }

  lemma PassFreeOfSemicolons(tables: seq<Table>)
    requires FreeOfSemicolons(tables)
    ensures FreeOfSemicolons(OneToOnePass(tables))
  {
    var marked := OneToOnePass(tables);
    forall i | 0 <= i < |tables| ensures TableFreeOfSemicolons(marked[i]) {
      assert TableFreeOfSemicolons(tables[i]);
      forall f | f in marked[i].fields ensures ';' !in f.name && ';' !in f.sqlType {
        var k :| 0 <= k < |marked[i].fields| && marked[i].fields[k] == f;
        assert tables[i].fields[k] in tables[i].fields;
      }
    }
  }

  /** Every join table the fold emits for a request free of `;` survives the split unchanged. */
  lemma EmittedSplittable(tables: seq<Table>, seen: set<string>)
    requires FreeOfSemicolons(tables)
    requires JoinFold(tables, seen, Declared(tables)).Ok?
    ensures var es := JoinFold(tables, seen, Declared(tables)).value.emitted;
      forall e | e in es :: Splittable(JoinStatement(e)) && Trim(JoinStatement(e)) == JoinStatement(e)
  {
    JoinFoldOk(tables, seen, Declared(tables));
    var es := JoinFold(tables, seen, Declared(tables)).value.emitted;
    forall e | e in es ensures Splittable(JoinStatement(e)) && Trim(JoinStatement(e)) == JoinStatement(e) {
      JoinStatementSplittable(tables, e);
    }
  }

  lemma TablesSplittable(marked: seq<Table>)
    requires FreeOfSemicolons(marked)
    ensures var bodies := TableStatements(marked);
      forall i :: 0 <= i < |bodies| ==> Splittable(bodies[i]) && Trim(bodies[i]) == bodies[i]
  {
    forall i | 0 <= i < |marked|
      ensures Splittable(TableStatements(marked)[i]) && Trim(TableStatements(marked)[i]) == TableStatements(marked)[i]
    {
      TableStatementSplittable(marked[i]);
    }
  }

  lemma BodiesSplittable(marked: seq<Table>, es: seq<JoinTable>)
    requires FreeOfSemicolons(marked)
    requires forall e | e in es :: Splittable(JoinStatement(e)) && Trim(JoinStatement(e)) == JoinStatement(e)
    ensures var bodies := TableStatements(marked) + JoinStatements(es);
      forall i :: 0 <= i < |bodies| ==> Splittable(bodies[i]) && Trim(bodies[i]) == bodies[i]
  {
    var tb := TableStatements(marked);
    var jb := JoinStatements(es);
    TablesSplittable(marked);
    forall i | 0 <= i < |jb| ensures Splittable(jb[i]) && Trim(jb[i]) == jb[i] {
      assert es[i] in es;
    }
    forall i | 0 <= i < |tb + jb| ensures Splittable((tb + jb)[i]) && Trim((tb + jb)[i]) == (tb + jb)[i] {
      if i >= |tb| {
        assert (tb + jb)[i] == jb[i - |tb|];
      }
    }
  }

  /** Statement texts that survive the split come back one each, terminated by `;`. */
  lemma TerminatedStatements(bodies: seq<string>)
    requires forall i :: 0 <= i < |bodies| ==> Splittable(bodies[i]) && Trim(bodies[i]) == bodies[i]
    ensures Statements(Terminated(bodies)) == Terminate(bodies)
  {
    StatementsOfTerminated(bodies);
  }

  /** A generated script is the tables' statement texts, then the emitted join tables', each terminated. */
  lemma GeneratedText(tables: seq<Table>, seen: set<string>)
    requires GenerateScript(tables, seen).Ok?
    ensures JoinFold(tables, seen, Declared(tables)).Ok?
    ensures var st := JoinFold(tables, seen, Declared(tables)).value;
      GenerateScript(tables, seen).value.0
        == Terminated(TableStatements(OneToOnePass(tables)) + JoinStatements(st.emitted))
  {
    PassKeepsJoinTables(tables, seen);
    var marked := OneToOnePass(tables);
    var st := JoinFold(tables, seen, Declared(tables)).value;
    assert GenerateScript(tables, seen).value.0 == BaseTablesSQL(marked) + JoinScript(st.emitted);
    BlocksAreTerminated(marked, st.emitted);
  }

  /**
   * The statements `executeSQLScript` submits for a generated script are each
   * table's `CREATE TABLE` text in request order and then each emitted join
   * table's, each terminated by `;`: nothing is split apart, merged or lost.
   */
  lemma GeneratedStatements(tables: seq<Table>, seen: set<string>)
    requires FreeOfSemicolons(tables)
    requires GenerateScript(tables, seen).Ok?
    ensures JoinFold(tables, seen, Declared(tables)).Ok?
    ensures var st := JoinFold(tables, seen, Declared(tables)).value;
      Statements(GenerateScript(tables, seen).value.0)
        == Terminate(TableStatements(OneToOnePass(tables)) + JoinStatements(st.emitted))
  {
    GeneratedText(tables, seen);
    var st := JoinFold(tables, seen, Declared(tables)).value;
    var bodies := TableStatements(OneToOnePass(tables)) + JoinStatements(st.emitted);
    PassFreeOfSemicolons(tables);
    EmittedSplittable(tables, seen);
    BodiesSplittable(OneToOnePass(tables), st.emitted);
    TerminatedStatements(bodies);
  }
}
