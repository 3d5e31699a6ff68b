/**
 * The first loop of `generateSQLScript`: every field whose name is the
 * `fieldName` of a one-to-one relationship declared by its own table is set
 * unique, in place on the request.
 */
module OneToOne {
  import opened Schema

  /** Some one-to-one relationship in `rels` names the field `name`. */
  predicate NamedByOneToOne(rels: seq<Relationship>, name: string)
  {
    exists r | r in rels :: r.oneToOne && r.fieldName == name
  }

  function MarkedField(rels: seq<Relationship>, f: Field): Field
  {
    if NamedByOneToOne(rels, f.name) then f.WithUnique(true) else f
  }

  function MarkedFields(rels: seq<Relationship>, fields: seq<Field>): (r: seq<Field>)
    ensures |r| == |fields|
  {
    seq(|fields|, k requires 0 <= k < |fields| => MarkedField(rels, fields[k]))
  }

  function MarkedTable(t: Table): Table
  {
    t.(fields := MarkedFields(t.relationships, t.fields))
  }

  /** The request's tables after the pass. */
  function OneToOnePass(tables: seq<Table>): (r: seq<Table>)
    ensures |r| == |tables|
  {
    seq(|tables|, i requires 0 <= i < |tables| => MarkedTable(tables[i]))
  }

  /** The fields after one one-to-one relationship naming `name` has been applied. */
  function UniqueWhereNamed(fields: seq<Field>, name: string): (r: seq<Field>)
    ensures |r| == |fields|
  {
    seq(|fields|, k requires 0 <= k < |fields| => if fields[k].name == name then fields[k].WithUnique(true) else fields[k])
  }

  /**
   * One more relationship applied: a one-to-one relationship marks the
   * fields it names, any other relationship changes nothing.
   */
  lemma MarkedFieldsSnoc(rels: seq<Relationship>, j: int, fields: seq<Field>)
    requires 0 <= j < |rels|
    ensures MarkedFields(rels[..j + 1], fields) ==
      if rels[j].oneToOne then UniqueWhereNamed(MarkedFields(rels[..j], fields), rels[j].fieldName)
      else MarkedFields(rels[..j], fields)
  {
    assert rels[..j + 1] == rels[..j] + [rels[j]];
  }

  /** The innermost loop of the pass: every field of table `i` named `fieldName` is set unique. */
  method MarkFieldsNamed(req: SchemaRequest, i: int, fieldName: string)
    requires 0 <= i < |req.tables|
    modifies req
    ensures req.tables == old(req.tables)[i := old(req.tables[i]).(fields := UniqueWhereNamed(old(req.tables[i].fields), fieldName))]
  {
    ghost var before := req.tables;
    var k := 0;
    while k < |req.tables[i].fields|
      invariant |req.tables| == |before|
      invariant 0 <= k <= |req.tables[i].fields| == |before[i].fields|
      invariant req.tables[i].name == before[i].name
      invariant req.tables[i].relationships == before[i].relationships
      invariant forall k' :: 0 <= k' < k ==>
        req.tables[i].fields[k'] == UniqueWhereNamed(before[i].fields, fieldName)[k']
      invariant forall k' :: k <= k' < |before[i].fields| ==> req.tables[i].fields[k'] == before[i].fields[k']
      invariant forall i' :: 0 <= i' < |before| && i' != i ==> req.tables[i'] == before[i']
    {
      var field := req.tables[i].fields[k];
      if field.name == fieldName {
        var table := req.tables[i];
        req.tables := req.tables[i := table.(fields := table.fields[k := field.WithUnique(true)])];
      }
      k := k + 1;
    }
    assert req.tables[i].fields == UniqueWhereNamed(before[i].fields, fieldName);
  }

  /** The nested loops of the pass, updating `req.tables` field by field. */
  method MarkOneToOneFields(req: SchemaRequest)
    modifies req
    ensures req.tables == OneToOnePass(old(req.tables))
  {
    ghost var before := req.tables;
    var i := 0;
    while i < |req.tables|
      invariant 0 <= i <= |req.tables| == |before|
      invariant forall i' :: 0 <= i' < i ==> req.tables[i'] == MarkedTable(before[i'])
      invariant forall i' :: i <= i' < |before| ==> req.tables[i'] == before[i']
    {
      var rels := req.tables[i].relationships;
      var j := 0;
      while j < |rels|
        invariant 0 <= j <= |rels|
        invariant |req.tables| == |before|
        invariant req.tables[i] == before[i].(fields := MarkedFields(rels[..j], before[i].fields))
        invariant forall i' :: 0 <= i' < |before| && i' != i ==> req.tables[i'] == (if i' < i then MarkedTable(before[i']) else before[i'])
      {
        var relationship := rels[j];
        MarkedFieldsSnoc(rels, j, before[i].fields);
        if relationship.oneToOne {
          MarkFieldsNamed(req, i, relationship.fieldName);
        }
        j := j + 1;
      }
      assert rels[..j] == rels;
      i := i + 1;
    }
    assert req.tables == OneToOnePass(before);
  }

  /**
   * What the pass does to one field: it becomes unique exactly when its table
   * declares a one-to-one relationship naming it, and nothing else changes,
   * neither in the field nor in the table.
   */
  lemma PassMarksField(tables: seq<Table>, i: nat, k: nat)
    requires i < |tables| && k < |tables[i].fields|
    ensures var t := OneToOnePass(tables)[i];
      t.name == tables[i].name && t.relationships == tables[i].relationships &&
      |t.fields| == |tables[i].fields| &&
      t.fields[k] == tables[i].fields[k].(unique := tables[i].fields[k].unique ||
        NamedByOneToOne(tables[i].relationships, tables[i].fields[k].name))
  {
  }

  /** Running the pass twice gives the same request as running it once. */
  lemma PassIdempotent(tables: seq<Table>)
    ensures OneToOnePass(OneToOnePass(tables)) == OneToOnePass(tables)
  {
    var once := OneToOnePass(tables);
    forall i | 0 <= i < |tables|
      ensures MarkedTable(once[i]) == once[i]
    {
      assert MarkedFields(once[i].relationships, once[i].fields) == once[i].fields;
    }
  }

  /** The pass keeps table names and relationships, so only constraint rendering can differ. */
  lemma PassKeepsNamesAndRelationships(tables: seq<Table>)
    ensures forall i :: 0 <= i < |tables| ==>
      OneToOnePass(tables)[i].name == tables[i].name &&
      OneToOnePass(tables)[i].relationships == tables[i].relationships
  {
  }
}
