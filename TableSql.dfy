/**
 * Rendering of one base table: `generateCreateTableSQL`, `generateFieldSQL`,
 * `generateRelationshipSQL` and `generateEndTableSQL`.
 */
module TableSql {
  import opened Results
  import opened JavaStrings
  import opened Schema

  function CreateTableSQL(tableName: string): string
  {
    "CREATE TABLE " + tableName + " (\n"
  }

  function EndTableSQL(): string
  {
    ");\n\n"
  }

  /** The fixed part of a field line: indentation, name and type. */
  function FieldHead(f: Field): string
  {
    "    " + f.name + " " + f.sqlType
  }

  /** One line per field; the auto-increment and primary-key flags are not rendered here. */
  function FieldLine(f: Field): string
  {
    FieldHead(f) + (if f.unique then " UNIQUE" else "") + (if !f.nullable then " NOT NULL" else "")
  }

  function FieldLines(fields: seq<Field>): (lines: seq<string>)
    ensures |lines| == |fields|
  {
    seq(|fields|, k requires 0 <= k < |fields| => FieldLine(fields[k]))
  }

  /** Names of the primary-key fields, in declaration order. */
  function PrimaryKeyNames(fields: seq<Field>): seq<string>
    decreases |fields|
  {
    if fields == [] then []
    else
      var last := fields[|fields| - 1];
      PrimaryKeyNames(fields[..|fields| - 1]) + (if last.primaryKey then [last.name] else [])
  }

  /** The composite primary-key line, present only when some field is a key. */
  function PrimaryKeyClause(fields: seq<Field>): seq<string>
  {
    var keys := PrimaryKeyNames(fields);
    if keys == [] then [] else ["    PRIMARY KEY (" + Join(", ", keys) + ")"]
  }

  /** What `generateFieldSQL(fields, hasRelationships)` returns. */
  function FieldSQL(fields: seq<Field>, hasRelationships: bool): string
  {
    Join(",\n", FieldLines(fields) + PrimaryKeyClause(fields)) + (if hasRelationships then ",\n" else "\n")
  }

  function ForeignKeyLine(r: Relationship): string
  {
    "    FOREIGN KEY (" + r.fieldName + ") REFERENCES " + r.referencedTable + "(" + r.referencedField + ")"
  }

  /** One foreign-key line per relationship that is not many-to-many, in order. */
  function ForeignKeyLines(rels: seq<Relationship>): seq<string>
    decreases |rels|
  {
    if rels == [] then []
    else
      var last := rels[|rels| - 1];
      ForeignKeyLines(rels[..|rels| - 1]) + (if last.manyToMany then [] else [ForeignKeyLine(last)])
  }

  /** What `generateRelationshipSQL(relationships)` returns. */
  function RelationshipSQL(rels: seq<Relationship>): string
  {
    var lines := ForeignKeyLines(rels);
    Join(",\n", lines) + (if lines == [] then "" else "\n")
  }

  /** The `anyMatch(rel -> !rel.isManyToMany())` of the table loop. */
  predicate HasNonManyToMany(rels: seq<Relationship>)
  {
    exists r | r in rels :: !r.manyToMany
  }

  /** The statement text of a base table, up to its closing parenthesis. */
  function TableStatement(t: Table): string
  {
    CreateTableSQL(t.name) + FieldSQL(t.fields, HasNonManyToMany(t.relationships))
      + RelationshipSQL(t.relationships) + ")"
  }

  /** The block the table loop appends for one table. */
  function TableBlock(t: Table): string
  {
    CreateTableSQL(t.name) + FieldSQL(t.fields, HasNonManyToMany(t.relationships))
      + RelationshipSQL(t.relationships) + EndTableSQL()
  }

  /** The loop of `generateFieldSQL`: field lines and key names collected in two lists. */
  method GenerateFieldSQL(fields: seq<Field>, hasRelationships: bool) returns (sql: string)
    ensures sql == FieldSQL(fields, hasRelationships)
  {
    var primaryKeys: seq<string> := [];
    var fieldLines: seq<string> := [];
    var i := 0;
    while i < |fields|
      invariant 0 <= i <= |fields|
      invariant |fieldLines| == i
      invariant forall k :: 0 <= k < i ==> fieldLines[k] == FieldLine(fields[k])
      invariant primaryKeys == PrimaryKeyNames(fields[..i])
    {
      var field := fields[i];
      var line := "    " + field.name + " " + field.sqlType;
      if field.unique {
        line := line + " UNIQUE";
      }
      if !field.nullable {
        line := line + " NOT NULL";
      }
      fieldLines := fieldLines + [line];
      if field.primaryKey {
        primaryKeys := primaryKeys + [field.name];
      }
      assert fields[..i + 1][..i] == fields[..i];
      i := i + 1;
    }
    assert fields[..i] == fields;
    assert fieldLines == FieldLines(fields);
    if primaryKeys != [] {
      fieldLines := fieldLines + ["    PRIMARY KEY (" + Join(", ", primaryKeys) + ")"];
    }
    assert fieldLines == FieldLines(fields) + PrimaryKeyClause(fields);
    sql := Join(",\n", fieldLines);
    if hasRelationships {
      sql := sql + ",\n";
    } else {
      sql := sql + "\n";
    }
  }

  /** The loop of `generateRelationshipSQL`, which skips many-to-many relationships. */
  method GenerateRelationshipSQL(rels: seq<Relationship>) returns (sql: string)
    ensures sql == RelationshipSQL(rels)
  {
    var lines: seq<string> := [];
    var i := 0;
    while i < |rels|
      invariant 0 <= i <= |rels|
      invariant lines == ForeignKeyLines(rels[..i])
    {
      var relationship := rels[i];
      assert rels[..i + 1][..i] == rels[..i];
      if !relationship.manyToMany {
        lines := lines + ["    FOREIGN KEY (" + relationship.fieldName + ") REFERENCES " +
          relationship.referencedTable + "(" + relationship.referencedField + ")"];
      }
      i := i + 1;
    }
    assert rels[..i] == rels;
    sql := Join(",\n", lines) + (if lines == [] then "" else "\n");
  }

  /** Reads back the constraints a field line ends with: (UNIQUE, NOT NULL). */
  function ParseConstraints(suffix: string): Option<(bool, bool)>
  {
    if suffix == "" then Some((false, false))
    else if suffix == " UNIQUE" then Some((true, false))
    else if suffix == " NOT NULL" then Some((false, true))
    else if suffix == " UNIQUE NOT NULL" then Some((true, true))
    else None
  }

  /**
   * A field line is its name and type followed by exactly the constraints the
   * flags ask for: ` UNIQUE` iff the field is unique, ` NOT NULL` iff it is not
   * nullable, and `UNIQUE` before `NOT NULL`.
   */
  lemma FieldLineRoundTrip(f: Field)
    ensures var head, line := FieldHead(f), FieldLine(f);
      |head| <= |line| && line[..|head|] == head &&
      ParseConstraints(line[|head|..]) == Some((f.unique, !f.nullable))
  {
    var head := FieldHead(f);
    var suffix := (if f.unique then " UNIQUE" else "") + (if !f.nullable then " NOT NULL" else "");
    assert FieldLine(f) == head + suffix;
    assert FieldLine(f)[|head|..] == suffix;
  }

  /** Auto-increment and primary-key flags never reach the field line. */
  lemma FieldLineIgnoresKeyFlags(f: Field, autoIncrement: bool, primaryKey: bool)
    ensures FieldLine(f.(autoIncrement := autoIncrement, primaryKey := primaryKey)) == FieldLine(f)
  {
  }

  /** A name is listed in the key clause exactly when some field of that name is a key. */
  lemma {:induction false} PrimaryKeyNamesMembers(fields: seq<Field>, x: string)
    ensures x in PrimaryKeyNames(fields) <==>
      exists k :: 0 <= k < |fields| && fields[k].primaryKey && fields[k].name == x
    decreases |fields|
  {
    if fields != [] {
      var front := fields[..|fields| - 1];
      PrimaryKeyNamesMembers(front, x);
      if exists k :: 0 <= k < |fields| && fields[k].primaryKey && fields[k].name == x {
        var k :| 0 <= k < |fields| && fields[k].primaryKey && fields[k].name == x;
        if k < |front| {
          assert front[k] == fields[k];
        }
      }
      if exists k :: 0 <= k < |front| && front[k].primaryKey && front[k].name == x {
        var k :| 0 <= k < |front| && front[k].primaryKey && front[k].name == x;
        assert fields[k] == front[k];
      }
    }
  }

  /** Key names of a concatenation are those of the parts in order: declaration order is kept. */
  lemma {:induction false} PrimaryKeyNamesAppend(a: seq<Field>, b: seq<Field>)
    ensures PrimaryKeyNames(a + b) == PrimaryKeyNames(a) + PrimaryKeyNames(b)
    decreases |b|
  {
    if b == [] {
      assert a + b == a;
    } else {
      var front := b[..|b| - 1];
      assert (a + b)[..|a + b| - 1] == a + front;
      PrimaryKeyNamesAppend(a, front);
    }
  }

  /** The key clause is there exactly when at least one field is a primary key. */
  lemma PrimaryKeyClausePresentIff(fields: seq<Field>)
    ensures PrimaryKeyClause(fields) != [] <==> exists k :: 0 <= k < |fields| && fields[k].primaryKey
  {
    if exists k :: 0 <= k < |fields| && fields[k].primaryKey {
      var k :| 0 <= k < |fields| && fields[k].primaryKey;
      PrimaryKeyNamesMembers(fields, fields[k].name);
    }
    if PrimaryKeyNames(fields) != [] {
      PrimaryKeyNamesMembers(fields, PrimaryKeyNames(fields)[0]);
    }
  }

  /** There is a foreign-key line exactly when the `anyMatch` of the table loop holds. */
  lemma {:induction false} ForeignKeyLinesEmptyIff(rels: seq<Relationship>)
    ensures ForeignKeyLines(rels) == [] <==> !HasNonManyToMany(rels)
    decreases |rels|
  {
    if rels != [] {
      var front := rels[..|rels| - 1];
      ForeignKeyLinesEmptyIff(front);
      assert rels == front + [rels[|rels| - 1]];
      if HasNonManyToMany(front) {
        var r :| r in front && !r.manyToMany;
        assert r in rels;
      }
    }
  }

  /** The relationship section is empty exactly when there is no foreign-key line. */
  lemma RelationshipSQLEmptyIff(rels: seq<Relationship>)
    ensures RelationshipSQL(rels) == "" <==> ForeignKeyLines(rels) == []
  {
  }

  /**
   * The whole block of a table with at least one field: every element line
   * (fields, the key clause, the foreign keys, in that order) is followed by a
   * comma except the last, so no table body has a dangling comma.
   */
  lemma TableBlockLayout(t: Table)
    requires |t.fields| > 0
    ensures TableBlock(t) ==
      CreateTableSQL(t.name)
        + CommaLines(FieldLines(t.fields) + PrimaryKeyClause(t.fields) + ForeignKeyLines(t.relationships))
        + EndTableSQL()
  {
    var own := FieldLines(t.fields) + PrimaryKeyClause(t.fields);
    var fks := ForeignKeyLines(t.relationships);
    ForeignKeyLinesEmptyIff(t.relationships);
    if fks == [] {
      JoinThenNewline(own);
      assert own + fks == own;
    } else {
      JoinThenNewline(fks);
      JoinThenCommaLines(own, fks);
    }
  }

  /**
   * As written, a table without fields but with a foreign key opens its body
   * with a lone comma.
   */
  lemma EmptyFieldsLeadingComma(t: Table)
    requires t.fields == [] && HasNonManyToMany(t.relationships)
    ensures TableBlock(t) == CreateTableSQL(t.name) + ",\n" + RelationshipSQL(t.relationships) + EndTableSQL()
  {
    assert PrimaryKeyNames(t.fields) == [];
    assert FieldLines(t.fields) + PrimaryKeyClause(t.fields) == [];
  }

  /** The block is the statement text followed by the terminator `;` and a blank line. */
  lemma TableBlockIsStatement(t: Table)
    ensures TableBlock(t) == TableStatement(t) + ";\n\n"
  {
  }
}
