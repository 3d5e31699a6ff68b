/**
 * `validateSchemaRequest`: every table name and every field name, lower-cased,
 * is checked against a fixed set of reserved words; the first one found aborts
 * the request.
 */
module Validation {
  import opened Results
  import opened JavaStrings
  import opened Schema

  const ReservedKeywords: set<string> := {
    "select", "insert", "delete", "update", "from", "where", "user",
    "group", "table", "order", "by", "limit", "drop"
  }

  predicate IsReserved(name: string)
  {
    ToLower(name) in ReservedKeywords
  }

  function TableNameMessage(lowered: string): string
  {
    "Table name '" + lowered + "' is a reserved keyword."
  }

  function FieldNameMessage(lowered: string): string
  {
    "Field name '" + lowered + "' is a reserved keyword."
  }

  /** The message for the first reserved field name in `fields`, if any. */
  function FieldViolation(fields: seq<Field>): Option<string>
    decreases |fields|
  {
    if fields == [] then None
    else if IsReserved(fields[0].name) then Some(FieldNameMessage(ToLower(fields[0].name)))
    else FieldViolation(fields[1..])
  }

  /**
   * The message of the exception validation throws, if any: tables in order,
   * each table's own name before its fields.
   */
  function FirstViolation(tables: seq<Table>): Option<string>
    decreases |tables|
  {
    if tables == [] then None
    else if IsReserved(tables[0].name) then Some(TableNameMessage(ToLower(tables[0].name)))
    else if FieldViolation(tables[0].fields).Some? then FieldViolation(tables[0].fields)
    else FirstViolation(tables[1..])
  }

  /** A table's own name or one of its field names is a reserved word. */
  predicate Offending(t: Table)
  {
    IsReserved(t.name) || exists k :: 0 <= k < |t.fields| && IsReserved(t.fields[k].name)
  }

  /** Loops with an early throw: the model of `validateSchemaRequest`. */
  method ValidateSchemaRequest(req: SchemaRequest) returns (r: Result<()>)
    ensures r.Err? <==> FirstViolation(req.tables).Some?
    ensures r.Err? ==> r.message == FirstViolation(req.tables).value
  {
    var tables := req.tables;
    var i := 0;
    while i < |tables|
      invariant 0 <= i <= |tables|
      invariant FirstViolation(tables[i..]) == FirstViolation(tables)
    {
      var table := tables[i];
      assert tables[i..][0] == table && tables[i..][1..] == tables[i + 1..];
      var tableName := ToLower(table.name);
      if tableName in ReservedKeywords {
        return Err(TableNameMessage(tableName));
      }
      var fields := table.fields;
      var k := 0;
      while k < |fields|
        invariant 0 <= k <= |fields|
        invariant FieldViolation(fields[k..]) == FieldViolation(fields)
      {
        assert fields[k..][0] == fields[k] && fields[k..][1..] == fields[k + 1..];
        var fieldName := ToLower(fields[k].name);
        if fieldName in ReservedKeywords {
          return Err(FieldNameMessage(fieldName));
        }
        k := k + 1;
      }
      assert fields[k..] == [];
      i := i + 1;
    }
    assert tables[i..] == [];
    return Ok(());
  }

  lemma {:induction false} FieldViolationIff(fields: seq<Field>)
    ensures FieldViolation(fields).Some? <==> exists k :: 0 <= k < |fields| && IsReserved(fields[k].name)
    ensures FieldViolation(fields).Some? ==>
      exists k :: 0 <= k < |fields| && IsReserved(fields[k].name) &&
        FieldViolation(fields).value == FieldNameMessage(ToLower(fields[k].name))
    decreases |fields|
  {
    if fields != [] {
      FieldViolationIff(fields[1..]);
      if FieldViolation(fields[1..]).Some? && !IsReserved(fields[0].name) {
        var k :| 0 <= k < |fields[1..]| && IsReserved(fields[1..][k].name) &&
          FieldViolation(fields[1..]).value == FieldNameMessage(ToLower(fields[1..][k].name));
        assert fields[k + 1] == fields[1..][k];
      }
      if exists k :: 0 <= k < |fields| && IsReserved(fields[k].name) {
        var k :| 0 <= k < |fields| && IsReserved(fields[k].name);
        if k > 0 {
          assert fields[1..][k - 1] == fields[k];
        }
      }
    }
  }

  /**
   * Validation fails exactly when some table name or field name is reserved,
   * and the message names one of the offending identifiers, lower-cased.
   */
  lemma {:induction false} ValidationFailsIff(tables: seq<Table>)
    ensures FirstViolation(tables).Some? <==> exists i :: 0 <= i < |tables| && Offending(tables[i])
    ensures FirstViolation(tables).Some? ==>
      exists i :: 0 <= i < |tables| && Offending(tables[i]) &&
        ((IsReserved(tables[i].name) && FirstViolation(tables).value == TableNameMessage(ToLower(tables[i].name))) ||
         exists k :: 0 <= k < |tables[i].fields| && IsReserved(tables[i].fields[k].name) &&
           FirstViolation(tables).value == FieldNameMessage(ToLower(tables[i].fields[k].name)))
    decreases |tables|
  {
    if tables != [] {
      FieldViolationIff(tables[0].fields);
      if !Offending(tables[0]) {
        FirstViolationTail(tables);
      }
      ValidationFailsIff(tables[1..]);
      if FirstViolation(tables).Some? && !Offending(tables[0]) {
        var i :| 0 <= i < |tables[1..]| && Offending(tables[1..][i]) &&
          ((IsReserved(tables[1..][i].name) &&
            FirstViolation(tables[1..]).value == TableNameMessage(ToLower(tables[1..][i].name))) ||
           exists k :: 0 <= k < |tables[1..][i].fields| && IsReserved(tables[1..][i].fields[k].name) &&
             FirstViolation(tables[1..]).value == FieldNameMessage(ToLower(tables[1..][i].fields[k].name)));
        assert tables[i + 1] == tables[1..][i];
      }
      if exists i :: 0 <= i < |tables| && Offending(tables[i]) {
        var i :| 0 <= i < |tables| && Offending(tables[i]);
        if i > 0 {
          assert tables[1..][i - 1] == tables[i];
        }
      }
    }
  }

  /** Validation of a table free of reserved words moves on to the next table. */
  lemma FirstViolationTail(tables: seq<Table>)
    requires tables != [] && !Offending(tables[0])
    ensures FirstViolation(tables) == FirstViolation(tables[1..])
  {
    FieldViolationIff(tables[0].fields);
  }
  /**
   * The message validation throws comes from the first offending table: its
   * own name when that is reserved, and otherwise its first reserved field.
   */
  lemma {:induction false} FirstViolationFromFirstOffender(tables: seq<Table>)
    requires FirstViolation(tables).Some?
    ensures
      exists i :: 0 <= i < |tables| && Offending(tables[i]) &&
        (forall i' :: 0 <= i' < i ==> !Offending(tables[i'])) &&
        FirstViolation(tables) ==
          (if IsReserved(tables[i].name) then Some(TableNameMessage(ToLower(tables[i].name)))
           else FieldViolation(tables[i].fields))
    decreases |tables|
  {
    FieldViolationIff(tables[0].fields);
    if !Offending(tables[0]) {
      FirstViolationTail(tables);
      var rest := tables[1..];
      FirstViolationFromFirstOffender(rest);
      var i :| 0 <= i < |rest| && Offending(rest[i]) &&
        (forall i' :: 0 <= i' < i ==> !Offending(rest[i'])) &&
        FirstViolation(rest) ==
          (if IsReserved(rest[i].name) then Some(TableNameMessage(ToLower(rest[i].name)))
           else FieldViolation(rest[i].fields));
      assert tables[i + 1] == rest[i];
      assert forall i' :: 1 <= i' < i + 1 ==> tables[i'] == rest[i' - 1];
    }
  }


  /**
   * Nothing rejects duplicates: two tables of one name with two fields of one
   * name pass validation.
   */
  lemma DuplicateNamesAreAccepted()
    ensures
      var f := Field("id", "BIGINT", true, false, false, false);
      var t := Table("book", [f, f], []);
      FirstViolation([t, t]) == None
  {
    var f := Field("id", "BIGINT", true, false, false, false);
    var t := Table("book", [f, f], []);
    assert ToLower("id") == "id";
    assert ToLower("book") == "book";
    assert !IsReserved("id") && !IsReserved("book");
    assert [f, f][1..] == [f] && [f][1..] == [];
    assert FieldViolation([f]) == None;
    assert FieldViolation([f, f]) == None;
    assert [t, t][1..] == [t] && [t][1..] == [];
    assert FirstViolation([t]) == None;
  }
}
