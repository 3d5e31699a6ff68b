/**
 * The request the generator works on: a list of tables, each owning an
 * ordered list of fields and the relationships it declares.
 */
module Schema {

  /**
   * A column: its name, its SQL type as an opaque string, and four flags.
   * Nothing in the type forbids two fields of one table sharing a name.
   */
  datatype Field = Field(
    name: string,
    sqlType: string,
    primaryKey: bool,
    autoIncrement: bool,
    unique: bool,
    nullable: bool)
  {
    /** The generated setter `setUnique`: it changes the unique flag and nothing else. */
    function WithUnique(u: bool): (f: Field)
      ensures f.unique == u
      ensures f.name == name && f.sqlType == sqlType
      ensures f.primaryKey == primaryKey && f.autoIncrement == autoIncrement && f.nullable == nullable
    {
      this.(unique := u)
    }
  }

  /**
   * A relationship declared by a table: the local field, the referenced table
   * (by name) and the referenced column. `manyToMany` is the only kind flag of
   * the record; `oneToOne` stands for the `isOneToOne()` the service queries,
   * which the record does not define, and carries no meaning of its own.
   */
  datatype Relationship = Relationship(
    fieldName: string,
    referencedTable: string,
    referencedField: string,
    manyToMany: bool,
    oneToOne: bool)

  /** A table: a name plus its fields and its relationships, both in declaration order. */
  datatype Table = Table(name: string, fields: seq<Field>, relationships: seq<Relationship>)

  /** The mutable request object; the generator updates its tables in place. */
  class SchemaRequest {
    var tables: seq<Table>

    constructor (tables: seq<Table>)
      ensures this.tables == tables
    {
      this.tables := tables;
    }
  }
}
