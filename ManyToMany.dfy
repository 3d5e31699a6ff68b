/**
 * Join tables for many-to-many relationships: `generateManyToManyTableName`,
 * `generateManyToManyTableSQL`, the inverse lookup and the third loop of
 * `generateSQLScript`, which emits each join table at most once.
 */
module ManyToMany {
  import opened Results
  import opened JavaStrings
  import opened Schema

  const MissingInverseMessage: string := "Brak drugiej relacji many-to-many"

  /** The two names sorted case-insensitively, joined by an underscore. */
  function JoinTableName(tableA: string, tableB: string): string
  {
    var sorted := SortIgnoreCase(tableA, tableB);
    sorted.0 + "_" + sorted.1
  }

  /**
   * The name is the case-insensitive minimum, `_`, then the maximum; names
   * that are equal once folded keep the order they were given in.
   */
  lemma JoinTableNameOrder(a: string, b: string)
    ensures CompareIgnoreCase(a, b) < 0 ==> JoinTableName(a, b) == a + "_" + b
    ensures CompareIgnoreCase(a, b) > 0 ==> JoinTableName(a, b) == b + "_" + a
    ensures ToLower(a) == ToLower(b) ==> JoinTableName(a, b) == a + "_" + b
  {
    CompareIgnoreCaseZero(a, b);
  }

  /** Declaring the pair from either side gives one name, when the names differ once folded. */
  lemma JoinTableNameSymmetric(a: string, b: string)
    requires ToLower(a) != ToLower(b)
    ensures JoinTableName(a, b) == JoinTableName(b, a)
  {
    SortIgnoreCaseSymmetric(a, b);
  }

  /** Names that differ only in case give a different name from each side. */
  lemma JoinTableNameTieDependsOnOrder()
    ensures JoinTableName("Book", "book") == "Book_book"
    ensures JoinTableName("book", "Book") == "book_Book"
  {
    assert ToLower("Book") == ToLower("book");
    JoinTableNameOrder("Book", "book");
    JoinTableNameOrder("book", "Book");
  }

  /**
   * Lines 190-197: the two tables sorted case-insensitively, each with the
   * referenced field the two conditionals pick for it:
   * (sortedTableA, fieldA, sortedTableB, fieldB).
   */
  function JoinColumns(tableA: string, tableB: string, relA: Relationship, relB: Relationship)
    : (string, string, string, string)
  {
    var sorted := SortIgnoreCase(tableA, tableB);
    var fieldA := if sorted.0 == tableA then relA.referencedField else relB.referencedField;
    var fieldB := if sorted.1 == tableB then relB.referencedField else relA.referencedField;
    (sorted.0, fieldA, sorted.1, fieldB)
  }

  /**
   * Whichever order the two tables sort in, the column of each table is
   * paired with the `referencedField` of the relationship that table declares.
   */
  lemma JoinColumnsFollowDeclarer(tableA: string, tableB: string, relA: Relationship, relB: Relationship)
    ensures JoinColumns(tableA, tableB, relA, relB) ==
      if CompareIgnoreCase(tableA, tableB) <= 0
      then (tableA, relA.referencedField, tableB, relB.referencedField)
      else (tableB, relB.referencedField, tableA, relA.referencedField)
  {
    CompareIgnoreCaseAntisymmetric(tableA, tableB);
    CompareIgnoreCaseZero(tableA, tableB);
  }

  /** The columns do not depend on the side the pair is declared from, when the names differ once folded. */
  lemma JoinColumnsSymmetric(tableA: string, tableB: string, relA: Relationship, relB: Relationship)
    requires ToLower(tableA) != ToLower(tableB)
    ensures JoinColumns(tableA, tableB, relA, relB) == JoinColumns(tableB, tableA, relB, relA)
  {
    JoinColumnsFollowDeclarer(tableA, tableB, relA, relB);
    JoinColumnsFollowDeclarer(tableB, tableA, relB, relA);
    CompareIgnoreCaseAntisymmetric(tableA, tableB);
    CompareIgnoreCaseZero(tableA, tableB);
  }

  /** Lines 199-204: the statement up to its closing `);`, opening line first. */
  function JoinTableHead(tableName: string, sortedTableA: string, fieldA: string,
                         sortedTableB: string, fieldB: string): string
  {
    "CREATE TABLE " + tableName + " (\n" + JoinTableColumns(sortedTableA, fieldA, sortedTableB, fieldB)
  }

  /**
   * Lines 200-204: two `BIGINT NOT NULL` columns `<table>_<field>`, a
   * composite key over both and a foreign key per column.
   */
  function JoinTableColumns(sortedTableA: string, fieldA: string, sortedTableB: string, fieldB: string): string
  {
    "    " + sortedTableA + "_" + fieldA + " BIGINT NOT NULL,\n" +
    "    " + sortedTableB + "_" + fieldB + " BIGINT NOT NULL,\n" +
    "    PRIMARY KEY (" + sortedTableA + "_" + fieldA + ", " + sortedTableB + "_" + fieldB + "),\n" +
    "    FOREIGN KEY (" + sortedTableA + "_" + fieldA + ") REFERENCES " + sortedTableA + "(" + fieldA + "),\n" +
    "    FOREIGN KEY (" + sortedTableB + "_" + fieldB + ") REFERENCES " + sortedTableB + "(" + fieldB + ")\n"
  }

  /** `generateManyToManyTableSQL`. */
  function JoinTableSQL(tableName: string, tableA: string, tableB: string,
                        relA: Relationship, relB: Relationship): string
  {
    var c := JoinColumns(tableA, tableB, relA, relB);
    JoinTableHead(tableName, c.0, c.1, c.2, c.3) + ");\n\n"
  }

  /** The join table does not depend on the side it is declared from, when the names differ once folded. */
  lemma JoinTableSQLSymmetric(tableName: string, tableA: string, tableB: string,
                              relA: Relationship, relB: Relationship)
    requires ToLower(tableA) != ToLower(tableB)
    ensures JoinTableSQL(tableName, tableA, tableB, relA, relB)
      == JoinTableSQL(tableName, tableB, tableA, relB, relA)
  {
    JoinColumnsSymmetric(tableA, tableB, relA, relB);
  }

  /** The first many-to-many relationship in `rels` that references `owner`. */
  function FirstManyToManyTo(rels: seq<Relationship>, owner: string): Option<Relationship>
    decreases |rels|
  {
    if rels == [] then None
    else if rels[0].manyToMany && rels[0].referencedTable == owner then Some(rels[0])
    else FirstManyToManyTo(rels[1..], owner)
  }

  /**
   * The stream of lines 85-90: the relationships of every table named `target`,
   * in order, and the first of them that is many-to-many back to `owner`.
   */
  function FindInverse(tables: seq<Table>, owner: string, target: string): Option<Relationship>
    decreases |tables|
  {
    if tables == [] then None
    else if tables[0].name == target && FirstManyToManyTo(tables[0].relationships, owner).Some?
    then FirstManyToManyTo(tables[0].relationships, owner)
    else FindInverse(tables[1..], owner, target)
  }

  /** Table `i` is named `target` and declares a many-to-many relationship back to `owner`. */
  predicate DeclaresInverse(tables: seq<Table>, i: int, owner: string, target: string)
    requires 0 <= i < |tables|
  {
    tables[i].name == target &&
    exists r | r in tables[i].relationships :: r.manyToMany && r.referencedTable == owner
  }

  /** `r` is many-to-many and references `owner`. */
  predicate PointsBack(r: Relationship, owner: string)
  {
    r.manyToMany && r.referencedTable == owner
  }

  /**
   * A relationship back to `owner` is found exactly when there is one, and
   * what is found is the first of them in `rels`.
   */
  lemma {:induction false} FirstManyToManyToSpec(rels: seq<Relationship>, owner: string)
    ensures FirstManyToManyTo(rels, owner).None? <==>
      !exists r | r in rels :: r.manyToMany && r.referencedTable == owner
    ensures FirstManyToManyTo(rels, owner).Some? ==>
      var r := FirstManyToManyTo(rels, owner).value;
      r in rels && r.manyToMany && r.referencedTable == owner
    ensures FirstManyToManyTo(rels, owner).Some? ==>
      exists j :: 0 <= j < |rels| && rels[j] == FirstManyToManyTo(rels, owner).value &&
        forall j' :: 0 <= j' < j ==> !PointsBack(rels[j'], owner)
    decreases |rels|
  {
    if rels != [] {
      FirstManyToManyToSpec(rels[1..], owner);
      assert rels == [rels[0]] + rels[1..];
      if !PointsBack(rels[0], owner) && FirstManyToManyTo(rels[1..], owner).Some? {
        var j :| 0 <= j < |rels[1..]| && rels[1..][j] == FirstManyToManyTo(rels[1..], owner).value &&
          forall j' :: 0 <= j' < j ==> !PointsBack(rels[1..][j'], owner);
        assert rels[j + 1] == rels[1..][j];
        assert forall j' :: 1 <= j' < j + 1 ==> rels[j'] == rels[1..][j' - 1];
      }
    }
  }

  /**
   * The lookup fails exactly when no table named `target` declares a
   * many-to-many relationship back to `owner`; what it finds is such a relationship.
   */
  lemma {:induction false} FindInverseIff(tables: seq<Table>, owner: string, target: string)
    ensures FindInverse(tables, owner, target).None? <==>
      !exists i :: 0 <= i < |tables| && DeclaresInverse(tables, i, owner, target)
    ensures FindInverse(tables, owner, target).Some? ==>
      var r := FindInverse(tables, owner, target).value;
      r.manyToMany && r.referencedTable == owner &&
      exists i :: 0 <= i < |tables| && tables[i].name == target && r in tables[i].relationships
    decreases |tables|
  {
    if tables != [] {
      var rest := tables[1..];
      FirstManyToManyToSpec(tables[0].relationships, owner);
      FindInverseIff(rest, owner, target);
      var here := tables[0].name == target && FirstManyToManyTo(tables[0].relationships, owner).Some?;
      assert here <==> DeclaresInverse(tables, 0, owner, target);
      assert forall i :: 0 <= i < |rest| ==>
        (DeclaresInverse(rest, i, owner, target) <==> DeclaresInverse(tables, i + 1, owner, target));
      if !here {
        assert FindInverse(tables, owner, target) == FindInverse(rest, owner, target);
        if exists i :: 0 <= i < |tables| && DeclaresInverse(tables, i, owner, target) {
          var i :| 0 <= i < |tables| && DeclaresInverse(tables, i, owner, target);
          assert i > 0;
          assert DeclaresInverse(rest, i - 1, owner, target);
        }
        if FindInverse(rest, owner, target).Some? {
          var r := FindInverse(rest, owner, target).value;
          var i :| 0 <= i < |rest| && rest[i].name == target && r in rest[i].relationships;
          assert tables[i + 1] == rest[i];
        }
      }
    }
  }

  /** A successful lookup returns what the first table named `target` that points back declares first. */
  lemma {:induction false} FindInverseFirst(tables: seq<Table>, owner: string, target: string)
    requires FindInverse(tables, owner, target).Some?
    ensures
      exists i :: 0 <= i < |tables| && DeclaresInverse(tables, i, owner, target) &&
        FindInverse(tables, owner, target) == FirstManyToManyTo(tables[i].relationships, owner) &&
        forall i' :: 0 <= i' < i ==> !DeclaresInverse(tables, i', owner, target)
    decreases |tables|
  {
    var rest := tables[1..];
    FirstManyToManyToSpec(tables[0].relationships, owner);
    if tables[0].name == target && FirstManyToManyTo(tables[0].relationships, owner).Some? {
      assert DeclaresInverse(tables, 0, owner, target);
    } else {
      FindInverseFirst(rest, owner, target);
      var k :| 0 <= k < |rest| && DeclaresInverse(rest, k, owner, target) &&
        FindInverse(rest, owner, target) == FirstManyToManyTo(rest[k].relationships, owner) &&
        forall i' :: 0 <= i' < k ==> !DeclaresInverse(rest, i', owner, target);
      assert tables[k + 1] == rest[k];
      assert !DeclaresInverse(tables, 0, owner, target);
      assert forall i' :: 1 <= i' < k + 1 ==>
        (DeclaresInverse(tables, i', owner, target) <==> DeclaresInverse(rest, i' - 1, owner, target));
    }
  }

  /**
   * The inverse lookup in full: it fails exactly when no table named `target`
   * points back to `owner`, and otherwise returns the first relationship back
   * of the first such table, as `findFirst` on the stream does.
   */
  lemma FindInverseSpec(tables: seq<Table>, owner: string, target: string)
    ensures FindInverse(tables, owner, target).None? <==>
      !exists i :: 0 <= i < |tables| && DeclaresInverse(tables, i, owner, target)
    ensures FindInverse(tables, owner, target).Some? ==>
      exists i :: 0 <= i < |tables| && DeclaresInverse(tables, i, owner, target) &&
        FindInverse(tables, owner, target) == FirstManyToManyTo(tables[i].relationships, owner) &&
        forall i' :: 0 <= i' < i ==> !DeclaresInverse(tables, i', owner, target)
  {
    FindInverseIff(tables, owner, target);
    if FindInverse(tables, owner, target).Some? {
      FindInverseFirst(tables, owner, target);
    }
  }

  /** A relationship together with the name of the table that declares it. */
  datatype Declaration = Declaration(owner: string, rel: Relationship)

  function Owned(t: Table): (ds: seq<Declaration>)
    ensures |ds| == |t.relationships|
  {
    seq(|t.relationships|, j requires 0 <= j < |t.relationships| => Declaration(t.name, t.relationships[j]))
  }

  /** Every relationship of every table, tables in order and each table's relationships in order. */
  function Declared(tables: seq<Table>): seq<Declaration>
    decreases |tables|
  {
    if tables == [] then []
    else Declared(tables[..|tables| - 1]) + Owned(tables[|tables| - 1])
  }

  /** The join-table name a declaration asks for. */
  function DeclaredJoinName(d: Declaration): string
  {
    JoinTableName(d.owner, d.rel.referencedTable)
  }

  /** One emitted join table and the arguments it was rendered from. */
  datatype JoinTable = JoinTable(name: string, tableA: string, tableB: string, relA: Relationship, relB: Relationship)

  /** The caller's set of join-table names so far, and the join tables emitted so far. */
  datatype JoinState = JoinState(seen: set<string>, emitted: seq<JoinTable>)

  /** One iteration of the join-table loop. */
  function Step(tables: seq<Table>, acc: Result<JoinState>, d: Declaration): Result<JoinState>
  {
    if acc.Err? || !d.rel.manyToMany then acc
    else
      var name := DeclaredJoinName(d);
      if name in acc.value.seen then acc
      else
        match FindInverse(tables, d.owner, d.rel.referencedTable)
        case None => Err(MissingInverseMessage)
        case Some(inverse) =>
          Ok(JoinState(acc.value.seen + {name},
                       acc.value.emitted + [JoinTable(name, d.owner, d.rel.referencedTable, d.rel, inverse)]))
  }

  /** The join-table loop over `ds`, starting from the caller's set `seen`. */
  function JoinFold(tables: seq<Table>, seen: set<string>, ds: seq<Declaration>): Result<JoinState>
    decreases |ds|
  {
    if ds == [] then Ok(JoinState(seen, []))
    else Step(tables, JoinFold(tables, seen, ds[..|ds| - 1]), ds[|ds| - 1])
  }

  function JoinTableBlock(e: JoinTable): string
  {
    JoinTableSQL(e.name, e.tableA, e.tableB, e.relA, e.relB)
  }

  function JoinBlocks(es: seq<JoinTable>): (blocks: seq<string>)
    ensures |blocks| == |es|
  {
    seq(|es|, i requires 0 <= i < |es| => JoinTableBlock(es[i]))
  }

  /** The text the loop appends for the emitted join tables. */
  function JoinScript(es: seq<JoinTable>): string
  {
    Concat(JoinBlocks(es))
  }

  /** The join-table names that the many-to-many declarations in `ds` ask for. */
  function RequestedNames(ds: seq<Declaration>): set<string>
    decreases |ds|
  {
    if ds == [] then {}
    else
      var last := ds[|ds| - 1];
      RequestedNames(ds[..|ds| - 1]) + (if last.rel.manyToMany then {DeclaredJoinName(last)} else {})
  }

  function EmittedNames(es: seq<JoinTable>): set<string>
  {
    set e | e in es :: e.name
  }

  /** An emitted join table was rendered from a declaration and its inverse. */
  predicate WellFormed(tables: seq<Table>, e: JoinTable)
  {
    e.name == JoinTableName(e.tableA, e.tableB) &&
    e.relA.manyToMany && e.relA.referencedTable == e.tableB &&
    e.relB.manyToMany && e.relB.referencedTable == e.tableA &&
    exists i :: 0 <= i < |tables| && tables[i].name == e.tableB && e.relB in tables[i].relationships
  }

  /** No join-table name is emitted twice. */
  predicate DistinctNames(es: seq<JoinTable>)
  {
    forall a, b :: 0 <= a < b < |es| ==> es[a].name != es[b].name
  }

  /**
   * A successful loop records in the set exactly the caller's names plus the
   * requested ones, emits each new name once and only new names, and renders
   * each from a declaration and its inverse.
   */
  lemma {:induction false} JoinFoldOk(tables: seq<Table>, seen: set<string>, ds: seq<Declaration>)
    requires JoinFold(tables, seen, ds).Ok?
    ensures var st := JoinFold(tables, seen, ds).value;
      st.seen == seen + RequestedNames(ds) &&
      st.seen == seen + EmittedNames(st.emitted) &&
      EmittedNames(st.emitted) == RequestedNames(ds) - seen &&
      DistinctNames(st.emitted) &&
      (forall e | e in st.emitted :: e.name !in seen && WellFormed(tables, e) &&
        exists d | d in ds :: d.owner == e.tableA && d.rel == e.relA)
    decreases |ds|
  {
    if ds != [] {
      var front := ds[..|ds| - 1];
      var d := ds[|ds| - 1];
      JoinFoldOk(tables, seen, front);
      var st0 := JoinFold(tables, seen, front).value;
      var st := JoinFold(tables, seen, ds).value;
      forall e | e in st0.emitted
        ensures exists d' | d' in ds :: d'.owner == e.tableA && d'.rel == e.relA
      {
        var d' :| d' in front && d'.owner == e.tableA && d'.rel == e.relA;
        assert d' in ds;
      }
      if d.rel.manyToMany && DeclaredJoinName(d) !in st0.seen {
        var inverse := FindInverse(tables, d.owner, d.rel.referencedTable).value;
        FindInverseIff(tables, d.owner, d.rel.referencedTable);
        var e := JoinTable(DeclaredJoinName(d), d.owner, d.rel.referencedTable, d.rel, inverse);
        assert st.emitted == st0.emitted + [e];
        assert EmittedNames(st.emitted) == EmittedNames(st0.emitted) + {e.name};
        assert WellFormed(tables, e);
      }
    }
  }

  /**
   * Declaration `k` is the first to ask for `e`'s name, `e` renders it, and
   * `e`'s second relationship is the one the inverse lookup returns.
   */
  predicate FirstRequestOf(tables: seq<Table>, ds: seq<Declaration>, k: int, e: JoinTable)
    requires 0 <= k < |ds|
  {
    ds[k].rel.manyToMany && ds[k].owner == e.tableA && ds[k].rel == e.relA &&
    ds[k].rel.referencedTable == e.tableB && e.name == DeclaredJoinName(ds[k]) &&
    e.name !in RequestedNames(ds[..k]) &&
    FindInverse(tables, e.tableA, e.tableB) == Some(e.relB)
  }

  /**
   * `ks` gives, for each join table of `es`, the declaration of `ds` that first
   * asked for it, and those declarations come in the order of `es`.
   */
  predicate OrderedBy(tables: seq<Table>, ds: seq<Declaration>, es: seq<JoinTable>, ks: seq<int>)
  {
    |ks| == |es| &&
    (forall a, b :: 0 <= a < b < |ks| ==> ks[a] < ks[b]) &&
    forall a :: 0 <= a < |ks| ==> 0 <= ks[a] < |ds| && FirstRequestOf(tables, ds, ks[a], es[a])
  }

  lemma OrderedByLift(tables: seq<Table>, ds: seq<Declaration>, es: seq<JoinTable>, ks: seq<int>)
    requires ds != [] && OrderedBy(tables, ds[..|ds| - 1], es, ks)
    ensures OrderedBy(tables, ds, es, ks)
    ensures forall a :: 0 <= a < |ks| ==> ks[a] < |ds| - 1
  {
    var front := ds[..|ds| - 1];
    forall a | 0 <= a < |ks|
      ensures FirstRequestOf(tables, ds, ks[a], es[a])
    {
      assert ds[..ks[a]] == front[..ks[a]];
    }
  }

  lemma OrderedBySnoc(tables: seq<Table>, ds: seq<Declaration>, es: seq<JoinTable>, ks: seq<int>, e: JoinTable)
    requires ds != [] && OrderedBy(tables, ds, es, ks) && FirstRequestOf(tables, ds, |ds| - 1, e)
    requires forall a :: 0 <= a < |ks| ==> ks[a] < |ds| - 1
    ensures OrderedBy(tables, ds, es + [e], ks + [|ds| - 1])
  {
  }

  /** The set after a successful loop: the caller's names plus the requested ones. */
  lemma JoinFoldSeen(tables: seq<Table>, seen: set<string>, ds: seq<Declaration>)
    requires JoinFold(tables, seen, ds).Ok?
    ensures JoinFold(tables, seen, ds).value.seen == seen + RequestedNames(ds)
  {
  }

  /** The last declaration either emits a join table that it is the first to ask for, or nothing. */
  lemma JoinFoldLast(tables: seq<Table>, seen: set<string>, ds: seq<Declaration>)
    requires ds != [] && JoinFold(tables, seen, ds).Ok?
    ensures JoinFold(tables, seen, ds[..|ds| - 1]).Ok?
    ensures var es0 := JoinFold(tables, seen, ds[..|ds| - 1]).value.emitted;
      var es := JoinFold(tables, seen, ds).value.emitted;
      es == es0 || (|es| == |es0| + 1 && es == es0 + [es[|es0|]] && FirstRequestOf(tables, ds, |ds| - 1, es[|es0|]))
  {
    var front := ds[..|ds| - 1];
    var d := ds[|ds| - 1];
    var st0 := JoinFold(tables, seen, front).value;
    if d.rel.manyToMany && DeclaredJoinName(d) !in st0.seen {
      JoinFoldSeen(tables, seen, front);
      assert ds[..|ds| - 1] == front;
    }
  }

  /**
   * A successful loop emits its join tables in the order their names are first
   * asked for, each rendered from that first declaration and the inverse the
   * lookup finds for it.
   */
  lemma {:induction false} JoinFoldOrder(tables: seq<Table>, seen: set<string>, ds: seq<Declaration>)
    requires JoinFold(tables, seen, ds).Ok?
    ensures exists ks: seq<int> :: OrderedBy(tables, ds, JoinFold(tables, seen, ds).value.emitted, ks)
    decreases |ds|
  {
    if ds == [] {
      assert OrderedBy(tables, ds, [], []);
    } else {
      var front := ds[..|ds| - 1];
      JoinFoldLast(tables, seen, ds);
      JoinFoldOrder(tables, seen, front);
      var es0 := JoinFold(tables, seen, front).value.emitted;
      var es := JoinFold(tables, seen, ds).value.emitted;
      var ks0: seq<int> :| OrderedBy(tables, front, es0, ks0);
      OrderedByLift(tables, ds, es0, ks0);
      if es != es0 {
        OrderedBySnoc(tables, ds, es0, ks0, es[|es0|]);
      }
    }
  }

  /** The name a declaration asks for is not yet in the set when the loop reaches it. */
  predicate MissingInverseAt(tables: seq<Table>, seen: set<string>, ds: seq<Declaration>, k: int)
    requires 0 <= k < |ds|
  {
    ds[k].rel.manyToMany &&
    DeclaredJoinName(ds[k]) !in seen + RequestedNames(ds[..k]) &&
    FindInverse(tables, ds[k].owner, ds[k].rel.referencedTable).None?
  }

  /**
   * The loop fails exactly when some many-to-many declaration asks for a name
   * not yet recorded and no table it references declares the inverse; the
   * message is then the fixed "missing inverse" text.
   */
  lemma {:induction false} JoinFoldErrIff(tables: seq<Table>, seen: set<string>, ds: seq<Declaration>)
    ensures JoinFold(tables, seen, ds).Err? <==> exists k :: 0 <= k < |ds| && MissingInverseAt(tables, seen, ds, k)
    ensures JoinFold(tables, seen, ds).Err? ==> JoinFold(tables, seen, ds).message == MissingInverseMessage
    decreases |ds|
  {
    if ds != [] {
      var n := |ds| - 1;
      var front := ds[..n];
      JoinFoldErrIff(tables, seen, front);
      forall k | 0 <= k < n
        ensures MissingInverseAt(tables, seen, ds, k) <==> MissingInverseAt(tables, seen, front, k)
      {
        assert ds[..k] == front[..k] && ds[k] == front[k];
      }
      if JoinFold(tables, seen, front).Err? {
        var k :| 0 <= k < n && MissingInverseAt(tables, seen, front, k);
        assert MissingInverseAt(tables, seen, ds, k);
      } else {
        JoinFoldOk(tables, seen, front);
        assert !exists k :: 0 <= k < n && MissingInverseAt(tables, seen, ds, k);
        if JoinFold(tables, seen, ds).Err? {
          assert MissingInverseAt(tables, seen, ds, n);
        }
      }
    }
  }
}
