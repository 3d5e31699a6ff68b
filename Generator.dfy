/**
 * `generateSQLScript`: the one-to-one pass, then one block per table, then one
 * join table per many-to-many pair not yet in the caller's set.
 */
module Generator {
  import opened Results
  import opened JavaStrings
  import opened Schema
  import opened OneToOne
  import opened TableSql
  import opened ManyToMany

  function TableBlocks(tables: seq<Table>): (blocks: seq<string>)
    ensures |blocks| == |tables|
  {
    seq(|tables|, i requires 0 <= i < |tables| => TableBlock(tables[i]))
  }

  /** The text the table loop appends: the tables' blocks in request order. */
  function BaseTablesSQL(tables: seq<Table>): string
  {
    Concat(TableBlocks(tables))
  }

  /**
   * What `generateSQLScript(schemaRequest, manyToManyTables)` returns for a
   * request whose tables are `tables` and a set holding `seen`, together with
   * the set's contents afterwards; `Err` stands for the exception it throws.
   */
  function GenerateScript(tables: seq<Table>, seen: set<string>): Result<(string, set<string>)>
  {
    var marked := OneToOnePass(tables);
    match JoinFold(marked, seen, Declared(marked))
    case Err(m) => Err(m)
    case Ok(st) => Ok((BaseTablesSQL(marked) + JoinScript(st.emitted), st.seen))
  }

  lemma {:induction false} DeclaredAppend(a: seq<Table>, b: seq<Table>)
    ensures Declared(a + b) == Declared(a) + Declared(b)
    decreases |b|
  {
    if b == [] {
      assert a + b == a;
    } else {
      var front, last := b[..|b| - 1], b[|b| - 1];
      assert (a + b)[..|a + b| - 1] == a + front;
      assert (a + b)[|a + b| - 1] == last;
      calc {
        Declared(a + b);
        Declared(a + front) + Owned(last);
        { DeclaredAppend(a, front); }
        Declared(a) + Declared(front) + Owned(last);
        Declared(a) + (Declared(front) + Owned(last));
      }
    }
  }

  lemma DeclaredPrefix(tables: seq<Table>, i: int)
    requires 0 <= i < |tables|
    ensures Declared(tables[..i + 1]) == Declared(tables[..i]) + Owned(tables[i])
  {
    assert tables[..i + 1][..i] == tables[..i];
  }

  lemma JoinFoldSnoc(tables: seq<Table>, seen: set<string>, ds: seq<Declaration>, d: Declaration)
    ensures JoinFold(tables, seen, ds + [d]) == Step(tables, JoinFold(tables, seen, ds), d)
  {
    assert (ds + [d])[..|ds|] == ds;
  }

  /** Once the loop has thrown, the rest of the declarations do not matter. */
  lemma {:induction false} JoinFoldErrSticks(tables: seq<Table>, seen: set<string>, ds: seq<Declaration>, n: int)
    requires 0 <= n <= |ds|
    requires JoinFold(tables, seen, ds[..n]).Err?
    ensures JoinFold(tables, seen, ds) == JoinFold(tables, seen, ds[..n])
    decreases |ds|
  {
    if n < |ds| {
      var front := ds[..|ds| - 1];
      assert front[..n] == ds[..n];
      JoinFoldErrSticks(tables, seen, front, n);
    } else {
      assert ds[..n] == ds;
    }
  }

  /**
   * The declarations up to relationship `j` of table `i` are a prefix of all
   * the declarations of the request.
   */
  lemma DeclaredUpTo(tables: seq<Table>, i: int, j: int)
    requires 0 <= i < |tables| && 0 <= j <= |tables[i].relationships|
    ensures var p := Declared(tables[..i]) + Owned(tables[i])[..j];
      |p| <= |Declared(tables)| && Declared(tables)[..|p|] == p
  {
    var own := Owned(tables[i]);
    calc {
      Declared(tables);
      { assert tables == tables[..i + 1] + tables[i + 1..];
        DeclaredAppend(tables[..i + 1], tables[i + 1..]); }
      Declared(tables[..i + 1]) + Declared(tables[i + 1..]);
      { DeclaredPrefix(tables, i); }
      Declared(tables[..i]) + own + Declared(tables[i + 1..]);
    }
    MiddlePrefix(Declared(tables[..i]), own, Declared(tables[i + 1..]), j);
  }

  /** Cutting `a + m + b` inside `m` leaves `a` and the front of `m`. */
  lemma MiddlePrefix(a: seq<Declaration>, m: seq<Declaration>, b: seq<Declaration>, j: int)
    requires 0 <= j <= |m|
    ensures (a + m + b)[..|a| + j] == a + m[..j]
  {
    assert a + m + b == (a + m[..j]) + (m[j..] + b);
  }

  lemma OwnedPrefix(tables: seq<Table>, i: int, j: int)
    requires 0 <= i < |tables| && 0 <= j < |tables[i].relationships|
    ensures Declared(tables[..i]) + Owned(tables[i])[..j + 1]
      == (Declared(tables[..i]) + Owned(tables[i])[..j]) + [Declaration(tables[i].name, tables[i].relationships[j])]
  {
    assert Owned(tables[i])[..j + 1] == Owned(tables[i])[..j] + [Declaration(tables[i].name, tables[i].relationships[j])];
  }

  /** A declaration that is not many-to-many, or whose name is already recorded, changes nothing. */
  lemma StepSkips(tables: seq<Table>, seen: set<string>, done: seq<Declaration>, d: Declaration)
    requires JoinFold(tables, seen, done).Ok?
    requires !d.rel.manyToMany || DeclaredJoinName(d) in JoinFold(tables, seen, done).value.seen
    ensures JoinFold(tables, seen, done + [d]) == JoinFold(tables, seen, done)
  {
    JoinFoldSnoc(tables, seen, done, d);
  }

  /** A new many-to-many pair with an inverse records its name and emits its join table. */
  lemma StepEmits(tables: seq<Table>, seen: set<string>, done: seq<Declaration>, d: Declaration, st: JoinState)
    requires JoinFold(tables, seen, done) == Ok(st)
    requires d.rel.manyToMany && DeclaredJoinName(d) !in st.seen
    requires FindInverse(tables, d.owner, d.rel.referencedTable).Some?
    ensures JoinFold(tables, seen, done + [d]) == Ok(JoinState(st.seen + {DeclaredJoinName(d)},
      st.emitted + [JoinTable(DeclaredJoinName(d), d.owner, d.rel.referencedTable, d.rel,
                              FindInverse(tables, d.owner, d.rel.referencedTable).value)]))
  {
    JoinFoldSnoc(tables, seen, done, d);
  }

  /** A new many-to-many pair without an inverse makes the whole loop throw. */
  lemma StepThrows(tables: seq<Table>, seen: set<string>, i: int, j: int)
    requires 0 <= i < |tables| && 0 <= j < |tables[i].relationships|
    requires var done := Declared(tables[..i]) + Owned(tables[i])[..j];
      var d := Declaration(tables[i].name, tables[i].relationships[j]);
      JoinFold(tables, seen, done).Ok? && d.rel.manyToMany &&
      DeclaredJoinName(d) !in JoinFold(tables, seen, done).value.seen &&
      FindInverse(tables, d.owner, d.rel.referencedTable).None?
    ensures JoinFold(tables, seen, Declared(tables)) == Err(MissingInverseMessage)
  {
    var done := Declared(tables[..i]) + Owned(tables[i])[..j];
    var d := Declaration(tables[i].name, tables[i].relationships[j]);
    OwnedPrefix(tables, i, j);
    JoinFoldSnoc(tables, seen, done, d);
    DeclaredUpTo(tables, i, j + 1);
    JoinFoldErrSticks(tables, seen, Declared(tables), |done + [d]|);
  }

  /** One more part at the end of a concatenation is appended to it. */
  lemma ConcatSnoc(parts: seq<string>, last: string)
    ensures Concat(parts + [last]) == Concat(parts) + last
  {
    assert (parts + [last])[..|parts|] == parts;
  }

  lemma BaseTablesPrefix(tables: seq<Table>, i: int)
    requires 0 <= i < |tables|
    ensures BaseTablesSQL(tables[..i + 1]) == BaseTablesSQL(tables[..i]) + TableBlock(tables[i])
  {
    var front := TableBlocks(tables[..i]);
    forall k | 0 <= k < i + 1
      ensures TableBlocks(tables[..i + 1])[k] == (front + [TableBlock(tables[i])])[k]
    {
      if k < i {
        assert tables[..i + 1][k] == tables[..i][k];
      }
    }
    assert TableBlocks(tables[..i + 1]) == front + [TableBlock(tables[i])];
    ConcatSnoc(front, TableBlock(tables[i]));
  }

  lemma JoinScriptSnoc(es: seq<JoinTable>, e: JoinTable)
    ensures JoinScript(es + [e]) == JoinScript(es) + JoinTableBlock(e)
  {
    var front := JoinBlocks(es);
    forall k | 0 <= k < |es| + 1
      ensures JoinBlocks(es + [e])[k] == (front + [JoinTableBlock(e)])[k]
    {
      if k < |es| {
        assert (es + [e])[k] == es[k];
      }
    }
    assert JoinBlocks(es + [e]) == front + [JoinTableBlock(e)];
    ConcatSnoc(front, JoinTableBlock(e));
  }

  /** Appending the four pieces of a table one after another appends its block. */
  lemma AppendBlock(sql: string, a: string, b: string, c: string, d: string)
    ensures sql + a + b + c + d == sql + (a + b + c + d)
  {
  }

  /** The table loop of `generateSQLScript`: one block per table, in request order. */
  method AppendTables(tables: seq<Table>) returns (sqlScript: string)
    ensures sqlScript == BaseTablesSQL(tables)
  {
    sqlScript := "";
    for i := 0 to |tables|
      invariant sqlScript == BaseTablesSQL(tables[..i])
    {
      var table := tables[i];
      var hasNonManyToManyRelationships := HasNonManyToMany(table.relationships);
      var fieldSQL := GenerateFieldSQL(table.fields, hasNonManyToManyRelationships);
      var relationshipSQL := GenerateRelationshipSQL(table.relationships);
      BaseTablesPrefix(tables, i);
      AppendBlock(sqlScript, CreateTableSQL(table.name), fieldSQL, relationshipSQL, EndTableSQL());
      sqlScript := sqlScript + CreateTableSQL(table.name);
      sqlScript := sqlScript + fieldSQL;
      sqlScript := sqlScript + relationshipSQL;
      sqlScript := sqlScript + EndTableSQL();
    }
    assert tables[..|tables|] == tables;
  }

  /**
   * The join-table loop of `generateSQLScript`: the text it appends and the
   * set afterwards, or the exception for a missing inverse.
   */
  method AppendJoinTables(tables: seq<Table>, seen: set<string>) returns (result: Result<(string, set<string>)>)
    ensures match JoinFold(tables, seen, Declared(tables))
      case Err(m) => result == Err(m)
      case Ok(st) => result == Ok((JoinScript(st.emitted), st.seen))
  {
    var sqlScript := "";
    var manyToManyTables := seen;
    ghost var emitted: seq<JoinTable> := [];
    assert Declared(tables[..0]) == [];
    for i := 0 to |tables|
      invariant JoinFold(tables, seen, Declared(tables[..i])) == Ok(JoinState(manyToManyTables, emitted))
      invariant sqlScript == JoinScript(emitted)
    {
      var failed;
      failed, sqlScript, manyToManyTables, emitted := AppendOwnJoinTables(tables, seen, i, sqlScript, manyToManyTables, emitted);
      if failed {
        return Err(MissingInverseMessage);
      }
    }
    assert tables[..|tables|] == tables;
    result := Ok((sqlScript, manyToManyTables));
  }

  /**
   * One pass of the outer join-table loop: the relationships of table `i`,
   * continuing from the text, set and join tables of the tables before it.
   */
  method AppendOwnJoinTables(tables: seq<Table>, seen: set<string>, i: int,
                             sqlScript0: string, manyToManyTables0: set<string>, ghost emitted0: seq<JoinTable>)
    returns (failed: bool, sqlScript: string, manyToManyTables: set<string>, ghost emitted: seq<JoinTable>)
    requires 0 <= i < |tables|
    requires JoinFold(tables, seen, Declared(tables[..i])) == Ok(JoinState(manyToManyTables0, emitted0))
    requires sqlScript0 == JoinScript(emitted0)
    ensures failed ==> JoinFold(tables, seen, Declared(tables)) == Err(MissingInverseMessage)
    ensures !failed ==> JoinFold(tables, seen, Declared(tables[..i + 1])) == Ok(JoinState(manyToManyTables, emitted))
    ensures !failed ==> sqlScript == JoinScript(emitted)
  {
    sqlScript, manyToManyTables, emitted := sqlScript0, manyToManyTables0, emitted0;
    var table := tables[i];
    var rels := table.relationships;
    assert Declared(tables[..i]) + Owned(table)[..0] == Declared(tables[..i]);
    for j := 0 to |rels|
      invariant JoinFold(tables, seen, Declared(tables[..i]) + Owned(table)[..j])
        == Ok(JoinState(manyToManyTables, emitted))
      invariant sqlScript == JoinScript(emitted)
    {
      var rel := rels[j];
      ghost var done := Declared(tables[..i]) + Owned(table)[..j];
      OwnedPrefix(tables, i, j);
      if rel.manyToMany {
        var intermediateTableName := JoinTableName(table.name, rel.referencedTable);
        if intermediateTableName !in manyToManyTables {
          var rel2 := FindInverse(tables, table.name, rel.referencedTable);
          if rel2.None? {
            StepThrows(tables, seen, i, j);
            return true, sqlScript, manyToManyTables, emitted;
          }
          var e := JoinTable(intermediateTableName, table.name, rel.referencedTable, rel, rel2.value);
          StepEmits(tables, seen, done, Declaration(table.name, rel), JoinState(manyToManyTables, emitted));
          JoinScriptSnoc(emitted, e);
          sqlScript := sqlScript + JoinTableSQL(intermediateTableName, table.name, rel.referencedTable, rel, rel2.value);
          manyToManyTables := manyToManyTables + {intermediateTableName};
          emitted := emitted + [e];
        } else {
          StepSkips(tables, seen, done, Declaration(table.name, rel));
        }
      } else {
        StepSkips(tables, seen, done, Declaration(table.name, rel));
      }
    }
    assert Owned(table)[..|rels|] == Owned(table);
    DeclaredPrefix(tables, i);
    failed := false;
  }

  /**
   * `generateSQLScript(schemaRequest, manyToManyTables)`, with the set passed
   * in as `seen` and handed back with the script; the request's fields are
   * updated in place by the one-to-one pass first.
   */
  method GenerateSQLScript(req: SchemaRequest, seen: set<string>) returns (result: Result<(string, set<string>)>)
    modifies req
    ensures req.tables == OneToOnePass(old(req.tables))
    ensures result == GenerateScript(old(req.tables), seen)
  {
    MarkOneToOneFields(req);
    var sqlScript := AppendTables(req.tables);
    var joins := AppendJoinTables(req.tables, seen);
    if joins.Err? {
      return Err(joins.message);
    }
    result := Ok((sqlScript + joins.value.0, joins.value.1));
  }

  /** The two requests have the same tables up to their fields. */
  predicate SameShape(a: seq<Table>, b: seq<Table>)
  {
    |a| == |b| &&
    forall i :: 0 <= i < |a| ==> a[i].name == b[i].name && a[i].relationships == b[i].relationships
  }

  lemma {:induction false} SameShapeDeclared(a: seq<Table>, b: seq<Table>)
    requires SameShape(a, b)
    ensures Declared(a) == Declared(b)
    decreases |a|
  {
    if a != [] {
      var n := |a| - 1;
      assert SameShape(a[..n], b[..n]);
      SameShapeDeclared(a[..n], b[..n]);
      assert Owned(a[n]) == Owned(b[n]);
    }
  }

  lemma {:induction false} SameShapeFindInverse(a: seq<Table>, b: seq<Table>, owner: string, target: string)
    requires SameShape(a, b)
    ensures FindInverse(a, owner, target) == FindInverse(b, owner, target)
    decreases |a|
  {
    if a != [] {
      assert SameShape(a[1..], b[1..]);
      SameShapeFindInverse(a[1..], b[1..], owner, target);
      assert a[0].relationships == b[0].relationships;
    }
  }

  lemma {:induction false} SameShapeJoinFold(a: seq<Table>, b: seq<Table>, seen: set<string>, ds: seq<Declaration>)
    requires SameShape(a, b)
    ensures JoinFold(a, seen, ds) == JoinFold(b, seen, ds)
    decreases |ds|
  {
    if ds != [] {
      var d := ds[|ds| - 1];
      SameShapeJoinFold(a, b, seen, ds[..|ds| - 1]);
      SameShapeFindInverse(a, b, d.owner, d.rel.referencedTable);
    }
  }

  /**
   * The one-to-one pass has no effect on the join tables: the loop over the
   * marked tables is the loop over the tables as sent.
   */
  lemma PassKeepsJoinTables(tables: seq<Table>, seen: set<string>)
    ensures var marked := OneToOnePass(tables);
      JoinFold(marked, seen, Declared(marked)) == JoinFold(tables, seen, Declared(tables))
  {
    var marked := OneToOnePass(tables);
    assert SameShape(marked, tables);
    SameShapeDeclared(marked, tables);
    SameShapeJoinFold(marked, tables, seen, Declared(tables));
  }

  /**
   * On success the script is the marked tables' blocks followed by one join
   * table for each requested many-to-many name not already in the set, each
   * once and rendered from a declaration and its inverse; the set then holds
   * its old names plus every requested one.
   */
  lemma GenerateScriptOk(tables: seq<Table>, seen: set<string>)
    requires GenerateScript(tables, seen).Ok?
    ensures var (script, names) := GenerateScript(tables, seen).value;
      names == seen + RequestedNames(Declared(tables)) &&
      exists es: seq<JoinTable> ::
        script == BaseTablesSQL(OneToOnePass(tables)) + JoinScript(es) &&
        DistinctNames(es) && EmittedNames(es) == RequestedNames(Declared(tables)) - seen &&
        forall e | e in es :: WellFormed(tables, e)
  {
    PassKeepsJoinTables(tables, seen);
    JoinFoldOk(tables, seen, Declared(tables));
    var st := JoinFold(tables, seen, Declared(tables)).value;
    assert GenerateScript(tables, seen).value.0 == BaseTablesSQL(OneToOnePass(tables)) + JoinScript(st.emitted);
  }

  /**
   * A generated script lists its join tables in the order their names are first
   * asked for, each rendered from that first declaration and the inverse that
   * `findFirst` returns for it.
   */
  lemma GenerateScriptOrder(tables: seq<Table>, seen: set<string>)
    requires GenerateScript(tables, seen).Ok?
    ensures exists es: seq<JoinTable>, ks: seq<int> ::
      GenerateScript(tables, seen).value.0 == BaseTablesSQL(OneToOnePass(tables)) + JoinScript(es) &&
      OrderedBy(tables, Declared(tables), es, ks)
  {
    PassKeepsJoinTables(tables, seen);
    JoinFoldOrder(tables, seen, Declared(tables));
    var es := JoinFold(tables, seen, Declared(tables)).value.emitted;
    var ks: seq<int> :| OrderedBy(tables, Declared(tables), es, ks);
    assert GenerateScript(tables, seen).value.0 == BaseTablesSQL(OneToOnePass(tables)) + JoinScript(es);
  }

  /**
   * Generation throws exactly when some many-to-many declaration asks, as the
   * loop reaches it, for a name not yet recorded and no table it references
   * declares the inverse; the message is then the fixed "missing inverse" text.
   */
  lemma GenerateScriptErrIff(tables: seq<Table>, seen: set<string>)
    ensures GenerateScript(tables, seen).Err? <==>
      exists k :: 0 <= k < |Declared(tables)| && MissingInverseAt(tables, seen, Declared(tables), k)
    ensures GenerateScript(tables, seen).Err? ==> GenerateScript(tables, seen).message == MissingInverseMessage
  {
    PassKeepsJoinTables(tables, seen);
    JoinFoldErrIff(tables, seen, Declared(tables));
  }

  /** A request in which `a_b` and `c` relate both ways and `a` relates to a table `b_c` that does not exist. */
  function CollidingRequest(): seq<Table>
  {
    [Table("a_b", [], [Relationship("c_id", "c", "id", true, false)]),
     Table("c", [], [Relationship("a_b_id", "a_b", "id", true, false)]),
     Table("a", [], [Relationship("b_c_id", "b_c", "id", true, false)])]
  }

  /** Both pairs of the colliding request ask for the one name `a_b_c`. */
  lemma CollidingNames()
    ensures JoinTableName("a_b", "c") == "a_b_c" && JoinTableName("c", "a_b") == "a_b_c"
    ensures JoinTableName("a", "b_c") == "a_b_c"
  {
    assert CompareIgnoreCase("a_b", "c") < 0;
    assert CompareIgnoreCase("a", "b_c") < 0;
    JoinTableNameSymmetric("a_b", "c");
  }

  /** The colliding request has no fields, so the one-to-one pass leaves it as it is. */
  lemma CollidingRequestUnmarked()
    ensures OneToOnePass(CollidingRequest()) == CollidingRequest()
  {
    var tables := CollidingRequest();
    assert forall i | 0 <= i < |tables| :: MarkedTable(tables[i]) == tables[i];
  }

  /** The declarations of the colliding request, in order. */
  lemma CollidingDeclared()
    ensures Declared(CollidingRequest()) ==
      [Declaration("a_b", Relationship("c_id", "c", "id", true, false)),
       Declaration("c", Relationship("a_b_id", "a_b", "id", true, false)),
       Declaration("a", Relationship("b_c_id", "b_c", "id", true, false))]
  {
    var tables := CollidingRequest();
    assert Declared(tables[..0]) == [];
    assert Declared(tables[..1]) == Owned(tables[0]);
    assert Declared(tables[..2]) == Owned(tables[0]) + Owned(tables[1]);
  }

  /**
   * Join-table names can collide: `a_b` with `c` and `a` with `b_c` both ask for
   * `a_b_c`. Once the first pair has recorded the name, a many-to-many
   * declaration from `a` to a table `b_c` that does not exist is skipped, and
   * generation succeeds instead of throwing.
   */
  lemma JoinNameCollisionSkipsMissingInverse()
    ensures JoinTableName("a", "b_c") == JoinTableName("a_b", "c")
    ensures FindInverse(CollidingRequest(), "a", "b_c").None?
    ensures GenerateScript(CollidingRequest(), {}).Ok?
  {
    var tables := CollidingRequest();
    var r1 := Relationship("c_id", "c", "id", true, false);
    var r2 := Relationship("a_b_id", "a_b", "id", true, false);
    var r3 := Relationship("b_c_id", "b_c", "id", true, false);
    var d1, d2, d3 := Declaration("a_b", r1), Declaration("c", r2), Declaration("a", r3);
    CollidingNames();
    CollidingRequestUnmarked();
    CollidingDeclared();
    var e := JoinTable("a_b_c", "a_b", "c", r1, r2);
    var st := JoinState({"a_b_c"}, [e]);
    assert FindInverse(tables, d1.owner, d1.rel.referencedTable) == Some(r2);
    assert {} + {"a_b_c"} == {"a_b_c"};
    assert [] + [e] == [e];
    assert Step(tables, Ok(JoinState({}, [])), d1) == Ok(st);
    assert [d1][..0] == [];
    assert JoinFold(tables, {}, [d1]) == Ok(st);
    assert [d1, d2][..1] == [d1];
    assert JoinFold(tables, {}, [d1, d2]) == Ok(st);
    assert [d1, d2, d3][..2] == [d1, d2];
  }
}
