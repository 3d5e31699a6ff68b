# Schema-to-DDL generator: a Dafny model

This project models the core of the database-schema designer's back end: the
`SQLGeneratorService` that turns a `SchemaRequest` into a SQL script, runs the
script, and drops everything again. `SchemaRequest` is a list of tables. Each
table has fields and the relationships it declares. The model follows the
service step by step:

- **Validation.** Every table name and field name, lower-cased, is checked
  against the 13 reserved words. The first one found throws.
- **One-to-one pass.** A field named by a one-to-one relationship of its own
  table is set `UNIQUE`, in place on the request.
- **`CREATE TABLE` blocks.** There is one per table, in request order. Each
  has field lines, an optional composite `PRIMARY KEY`, and inline
  `FOREIGN KEY` lines.
- **Join-table blocks.** Each many-to-many relationship gets a join table,
  named from the case-insensitively sorted pair of table names. Each name is
  emitted at most once, and the caller's set records it. A many-to-many
  declaration whose join-table name is not yet recorded, and whose target
  declares nothing back, throws "Brak drugiej relacji many-to-many".
- **Script execution.** The script is split on `;`, and each non-blank piece
  is trimmed and submitted with `;` re-appended.
- **Drops.** Every join table in the set is dropped, then every request table
  from the last to the first.
- **The catch block.** It drops the request tables only, and returns
  "Błąd podczas wykonywania skryptu:\n" followed by the exception message.

Modules, in dependency order:

| module | what it holds |
|---|---|
| `Results` | `Option` and `Result`; `Err` carries the message of a thrown exception |
| `JavaStrings` | `toLowerCase`, `CASE_INSENSITIVE_ORDER`, `String.join`, `trim`, `split` |
| `Schema` | `Field`, `Relationship` and `Table` as datatypes; `SchemaRequest` as a class whose `tables` the pass updates |
| `Validation` | `validateSchemaRequest` |
| `OneToOne` | the first loop of `generateSQLScript` |
| `TableSql` | `generateCreateTableSQL`, `generateFieldSQL`, `generateRelationshipSQL`, `generateEndTableSQL` |
| `ManyToMany` | `generateManyToManyTableName`, `generateManyToManyTableSQL`, the inverse lookup and the join-table loop as a fold |
| `Generator` | `generateSQLScript` as methods with loops, proved equal to the function `GenerateScript` |
| `ScriptSplit` | what the split-and-trim loop of `executeSQLScript` submits |
| `GeneratedScript` | the statements a generated script splits into |
| `Jdbc` | the database as a log of submitted statements and a fixed verdict per statement |
| `Execution` | `executeSQLScript` and `dropTables` |
| `Service` | `generateAndExecuteSQL`, and the outcome of a whole request as the function `Pipeline` |

How the external world is treated:

- **The database.** `jdbcTemplate.execute` is a `Database` object. It appends
  each statement to `log`. A fixed function `verdict` says whether that
  statement throws, and with what message.
- **`HashSet` iteration order.** Java does not specify it. The model takes an
  arbitrary enumeration (`IsEnumeration`): `GenerateAndExecuteSQL` promises
  its outcome for *some* enumeration of the recorded join-table names.
- **An escaping exception.** A drop in the catch block can throw too, and that
  exception leaves the method. The response `Raised` stands for this case.

Where the code departs from what a reader might expect, the model follows the
code:

- A join table's columns are `BIGINT NOT NULL`, named `<table>_<referencedField>`. They do not take the participants' primary-key types.
- On failure, join tables that were already created are not dropped: the catch block passes an empty set.
- A rejected request is not free of database traffic: the catch block still submits one `DROP TABLE IF EXISTS` per request table.
- Table and field names need not be unique. Validation accepts duplicates.
- Two table names equal up to case give a join-table name that depends on the argument order.
- Different pairs can ask for one join-table name: `a_b` with `c` and `a` with `b_c` both give `a_b_c`. Once that name is recorded, a declaration without an inverse is skipped silently (`Generator.JoinNameCollisionSkipsMissingInverse`).
- A table with no fields but a non-many-to-many relationship renders a comma right after its `CREATE TABLE` head, which is not valid SQL (`TableSql.EmptyFieldsLeadingComma`).

## Model

| member | source | states |
|---|---|---|
| Schema.Field.WithUnique | src/main/java/com/wcpk/db_schema_designer/dto/SchemaRequest.java:21-30 | the Lombok setter `setUnique` sets the unique flag and leaves name, type and the other three flags unchanged |
| Schema.SchemaRequest.constructor | src/main/java/com/wcpk/db_schema_designer/dto/SchemaRequest.java:10-11 | a request holds exactly the tables it is given |
| Validation.ValidateSchemaRequest | src/main/java/com/wcpk/db_schema_designer/service/SQLGeneratorService.java:35-49 | the nested loops throw exactly when some table or field name is reserved, and the message is that of the first such name, each table's own name before its fields |
| Validation.FirstViolation | src/main/java/com/wcpk/db_schema_designer/service/SQLGeneratorService.java:35-49 | definition of what validation throws; its meaning is stated by `ValidationFailsIff` |
| Validation.FieldViolationIff | src/main/java/com/wcpk/db_schema_designer/service/SQLGeneratorService.java:42-47 | the field loop throws iff some field name lower-cased is reserved, with the message naming such a field's lower-cased name |
| Validation.ValidationFailsIff | src/main/java/com/wcpk/db_schema_designer/service/SQLGeneratorService.java:35-49 | validation fails iff some table has a reserved name or a reserved field name (both directions), and the message names a reserved table name or a reserved field name of such a table, lower-cased |
| Validation.FirstViolationTail | src/main/java/com/wcpk/db_schema_designer/service/SQLGeneratorService.java:36-48 | a table with no reserved name lets validation continue with the next tables unchanged |
| Validation.FirstViolationFromFirstOffender | src/main/java/com/wcpk/db_schema_designer/service/SQLGeneratorService.java:36-48 | the message thrown comes from the first offending table in request order: its own name if reserved, otherwise its first reserved field |
| Validation.DuplicateNamesAreAccepted | src/main/java/com/wcpk/db_schema_designer/dto/SchemaRequest.java:10-19 | two tables of the same name, each with two fields of the same name, pass validation: nothing enforces unique names |
| JavaStrings.ToLower | src/main/java/com/wcpk/db_schema_designer/service/SQLGeneratorService.java:37 | lower-casing keeps the length, leaves no upper-case ASCII letter, maps each upper-case letter to its lower-case one and keeps every other character |
| JavaStrings.ToLowerIdempotent | src/main/java/com/wcpk/db_schema_designer/service/SQLGeneratorService.java:37 | lower-casing a lower-cased name changes nothing |
| JavaStrings.CompareIgnoreCase | src/main/java/com/wcpk/db_schema_designer/service/SQLGeneratorService.java:191 | definition of `CASE_INSENSITIVE_ORDER`: the first difference once folded, else the length difference; its meaning is stated by `CompareIgnoreCaseAntisymmetric` and `CompareIgnoreCaseZero` |
| JavaStrings.CompareIgnoreCaseAntisymmetric | src/main/java/com/wcpk/db_schema_designer/service/SQLGeneratorService.java:191 | the case-insensitive comparator is antisymmetric |
| JavaStrings.CompareIgnoreCaseZero | src/main/java/com/wcpk/db_schema_designer/service/SQLGeneratorService.java:191 | the comparator returns 0 iff the two names are equal after lower-casing |
| JavaStrings.SortIgnoreCase | src/main/java/com/wcpk/db_schema_designer/service/SQLGeneratorService.java:190-194 | sorting two names gives back the same two names, in comparator order, and keeps the given order on a tie |
| JavaStrings.SortIgnoreCaseSymmetric | src/main/java/com/wcpk/db_schema_designer/service/SQLGeneratorService.java:209-210 | for names that differ case-insensitively, the sorted pair does not depend on the argument order |
| JavaStrings.JoinThenNewline | src/main/java/com/wcpk/db_schema_designer/service/SQLGeneratorService.java:182 | joining lines with ",\n" and appending "\n" puts a comma after every line but the last |
| JavaStrings.JoinThenCommaLines | src/main/java/com/wcpk/db_schema_designer/service/SQLGeneratorService.java:162-164 | the field section, ",\n", then the relationship section form one comma-separated list of lines |
| JavaStrings.ConcatAppend | src/main/java/com/wcpk/db_schema_designer/service/SQLGeneratorService.java:52-105 | appending blocks to the StringBuilder in two runs gives the concatenation of both runs |
| JavaStrings.Trim | src/main/java/com/wcpk/db_schema_designer/service/SQLGeneratorService.java:111 | definition of `trim`; its meaning is stated by `TrimSpec` |
| JavaStrings.Split | src/main/java/com/wcpk/db_schema_designer/service/SQLGeneratorService.java:109 | definition of `split(";")`; its meaning is stated by `PiecesWithoutSep`, `PiecesThroughSep` and `DropTrailingEmptySpec` |
| JavaStrings.TrimLeftSpec | src/main/java/com/wcpk/db_schema_designer/service/SQLGeneratorService.java:111 | trimming the front removes exactly the leading characters up to U+0020, and the result starts with another character or is empty |
| JavaStrings.TrimRightSpec | src/main/java/com/wcpk/db_schema_designer/service/SQLGeneratorService.java:111 | trimming the back removes exactly the trailing characters up to U+0020 |
| JavaStrings.TrimSpec | src/main/java/com/wcpk/db_schema_designer/service/SQLGeneratorService.java:111 | `trim` gives the slice between the leading and the trailing blank characters, and that slice neither starts nor ends with one |
| JavaStrings.TrimSkipsBlankPrefix | src/main/java/com/wcpk/db_schema_designer/service/SQLGeneratorService.java:111 | blank characters in front of a piece do not change its trim |
| JavaStrings.TrimBlank | src/main/java/com/wcpk/db_schema_designer/service/SQLGeneratorService.java:111 | a piece of blank characters only trims to the empty string, so it is skipped |
| JavaStrings.TrimKeeps | src/main/java/com/wcpk/db_schema_designer/service/SQLGeneratorService.java:111 | a string that neither starts nor ends with a blank is its own trim |
| JavaStrings.PiecesWithoutSep | src/main/java/com/wcpk/db_schema_designer/service/SQLGeneratorService.java:109 | a string without `;` splits into itself alone |
| JavaStrings.PiecesThroughSep | src/main/java/com/wcpk/db_schema_designer/service/SQLGeneratorService.java:109 | the text up to the first `;` is the first piece, and the rest splits on its own |
| JavaStrings.DropTrailingEmptySpec | src/main/java/com/wcpk/db_schema_designer/service/SQLGeneratorService.java:109 | `split` drops only empty pieces, only from the end, and all of those: what is kept is a prefix that is empty or ends with a non-empty piece |
| OneToOne.MarkOneToOneFields | src/main/java/com/wcpk/db_schema_designer/service/SQLGeneratorService.java:54-64 | the nested loops leave the request's tables equal to the one-to-one pass applied to the old tables |
| OneToOne.OneToOnePass | src/main/java/com/wcpk/db_schema_designer/service/SQLGeneratorService.java:54-64 | definition of the one-to-one pass on values; its meaning is stated by `PassMarksField` |
| OneToOne.MarkFieldsNamed | src/main/java/com/wcpk/db_schema_designer/service/SQLGeneratorService.java:57-61 | the field loop for one relationship sets unique every field of that table bearing the relationship's field name, and changes nothing else |
| OneToOne.MarkedFieldsSnoc | src/main/java/com/wcpk/db_schema_designer/service/SQLGeneratorService.java:55-62 | one more relationship marks the fields it names when it is one-to-one, and changes nothing otherwise |
| OneToOne.PassMarksField | src/main/java/com/wcpk/db_schema_designer/service/SQLGeneratorService.java:54-64 | after the pass a field is unique iff it was unique before or a one-to-one relationship of its own table names it; its other attributes and the table's name and relationships stay as they were |
| OneToOne.PassIdempotent | src/main/java/com/wcpk/db_schema_designer/service/SQLGeneratorService.java:54-64 | running the pass twice gives the same tables as running it once |
| OneToOne.PassKeepsNamesAndRelationships | src/main/java/com/wcpk/db_schema_designer/service/SQLGeneratorService.java:54-64 | the pass keeps every table's name and relationships |
| TableSql.GenerateFieldSQL | src/main/java/com/wcpk/db_schema_designer/service/SQLGeneratorService.java:136-170 | the loop builds one line per field, then the primary-key clause, joined by ",\n", then ",\n" or "\n" depending on the flag |
| TableSql.GenerateRelationshipSQL | src/main/java/com/wcpk/db_schema_designer/service/SQLGeneratorService.java:172-183 | the loop builds one foreign-key line per non-many-to-many relationship, in order, joined by ",\n", with "\n" after a non-empty list |
| TableSql.CreateTableSQL | src/main/java/com/wcpk/db_schema_designer/service/SQLGeneratorService.java:130-134 | definition of the `CREATE TABLE` head; see `TableBlockLayout` |
| TableSql.FieldSQL | src/main/java/com/wcpk/db_schema_designer/service/SQLGeneratorService.java:136-170 | definition of the field section; see `FieldLineRoundTrip`, `PrimaryKeyClausePresentIff` and `TableBlockLayout` |
| TableSql.RelationshipSQL | src/main/java/com/wcpk/db_schema_designer/service/SQLGeneratorService.java:172-183 | definition of the foreign-key section; see `RelationshipSQLEmptyIff` and `TableBlockLayout` |
| TableSql.EndTableSQL | src/main/java/com/wcpk/db_schema_designer/service/SQLGeneratorService.java:214-216 | definition of the closing `);` and blank line; see `TableBlockIsStatement` |
| TableSql.TableBlock | src/main/java/com/wcpk/db_schema_designer/service/SQLGeneratorService.java:66-74 | definition of one table's block; see `TableBlockLayout` and `EmptyFieldsLeadingComma` |
| TableSql.FieldLineRoundTrip | src/main/java/com/wcpk/db_schema_designer/service/SQLGeneratorService.java:141-151 | a field line is "    name type" followed by a suffix that parses back to exactly the unique and not-null flags, UNIQUE before NOT NULL |
| TableSql.FieldLineIgnoresKeyFlags | src/main/java/com/wcpk/db_schema_designer/service/SQLGeneratorService.java:141-151 | the auto-increment and primary-key flags do not change a field's line |
| TableSql.PrimaryKeyNamesMembers | src/main/java/com/wcpk/db_schema_designer/service/SQLGeneratorService.java:153-155 | a name is among the primary keys iff some primary-key field has it |
| TableSql.PrimaryKeyNamesAppend | src/main/java/com/wcpk/db_schema_designer/service/SQLGeneratorService.java:141-156 | primary-key names are collected in field-declaration order |
| TableSql.PrimaryKeyClausePresentIff | src/main/java/com/wcpk/db_schema_designer/service/SQLGeneratorService.java:158-160 | the PRIMARY KEY line is present iff some field is a primary key |
| TableSql.ForeignKeyLinesEmptyIff | src/main/java/com/wcpk/db_schema_designer/service/SQLGeneratorService.java:175-180 | there are no foreign-key lines iff every relationship is many-to-many |
| TableSql.RelationshipSQLEmptyIff | src/main/java/com/wcpk/db_schema_designer/service/SQLGeneratorService.java:182 | the relationship section is empty iff there are no foreign-key lines |
| TableSql.TableBlockLayout | src/main/java/com/wcpk/db_schema_designer/service/SQLGeneratorService.java:66-74 | a table with fields renders as the CREATE head, then field lines, primary-key line and foreign-key lines with a comma after every line but the last, then ");\n\n": no dangling comma |
| TableSql.EmptyFieldsLeadingComma | src/main/java/com/wcpk/db_schema_designer/service/SQLGeneratorService.java:162-167 | a table with no fields but a foreign key renders a comma right after the CREATE head |
| TableSql.TableBlockIsStatement | src/main/java/com/wcpk/db_schema_designer/service/SQLGeneratorService.java:70-73 | a table's block is its statement text followed by ";\n\n" |
| ManyToMany.JoinTableNameOrder | src/main/java/com/wcpk/db_schema_designer/service/SQLGeneratorService.java:208-212 | the join-table name is the case-insensitively smaller name, "_", then the larger, and on a tie the given order |
| ManyToMany.JoinTableNameSymmetric | src/main/java/com/wcpk/db_schema_designer/service/SQLGeneratorService.java:208-212 | for names that differ case-insensitively, the join-table name does not depend on the argument order |
| ManyToMany.JoinTableNameTieDependsOnOrder | src/main/java/com/wcpk/db_schema_designer/service/SQLGeneratorService.java:208-212 | for "Book" and "book" the name does depend on the argument order |
| ManyToMany.JoinTableName | src/main/java/com/wcpk/db_schema_designer/service/SQLGeneratorService.java:208-212 | definition of the join-table name; see `JoinTableNameOrder` |
| ManyToMany.JoinColumns | src/main/java/com/wcpk/db_schema_designer/service/SQLGeneratorService.java:190-197 | definition of the sorted tables and their fields; see `JoinColumnsFollowDeclarer` |
| ManyToMany.JoinTableSQL | src/main/java/com/wcpk/db_schema_designer/service/SQLGeneratorService.java:185-206 | definition of the join-table statement; see `JoinTableSQLSymmetric` and `GeneratedScript.JoinStatementSplittable` |
| ManyToMany.JoinColumnsFollowDeclarer | src/main/java/com/wcpk/db_schema_designer/service/SQLGeneratorService.java:193-197 | each join column pairs a table with the referenced field of the relationship that table declares, the smaller table first |
| ManyToMany.JoinColumnsSymmetric | src/main/java/com/wcpk/db_schema_designer/service/SQLGeneratorService.java:190-197 | for table names that differ case-insensitively, swapping both the tables and the relationships gives the same columns |
| ManyToMany.JoinTableSQLSymmetric | src/main/java/com/wcpk/db_schema_designer/service/SQLGeneratorService.java:185-206 | for table names that differ case-insensitively, the join-table statement is the same whichever side declared the relationship |
| ManyToMany.FirstManyToManyToSpec | src/main/java/com/wcpk/db_schema_designer/service/SQLGeneratorService.java:87-89 | a many-to-many relationship back to the owner is found iff one exists, and what is found is the first of them in declaration order |
| ManyToMany.FindInverse | src/main/java/com/wcpk/db_schema_designer/service/SQLGeneratorService.java:85-90 | definition of the inverse lookup; its meaning is stated by `FindInverseSpec` |
| ManyToMany.FindInverseSpec | src/main/java/com/wcpk/db_schema_designer/service/SQLGeneratorService.java:85-90 | the inverse lookup fails iff no table of the target's name declares a many-to-many relationship back, and otherwise returns the first such relationship of the first such table, as `findFirst` does |
| ManyToMany.FindInverseIff | src/main/java/com/wcpk/db_schema_designer/service/SQLGeneratorService.java:85-90 | the lookup fails iff no table of the target's name points back, and what it finds points back and belongs to such a table |
| ManyToMany.FindInverseFirst | src/main/java/com/wcpk/db_schema_designer/service/SQLGeneratorService.java:85-90 | a successful lookup returns the first relationship back of the first table of the target's name that declares one, skipping every earlier table |
| ManyToMany.Step | src/main/java/com/wcpk/db_schema_designer/service/SQLGeneratorService.java:78-100 | definition of one iteration of the join-table loop; see `Generator.StepSkips`, `StepEmits` and `StepThrows` |
| ManyToMany.JoinFold | src/main/java/com/wcpk/db_schema_designer/service/SQLGeneratorService.java:76-103 | definition of the join-table loop as a fold; its meaning is stated by `JoinFoldOk` and `JoinFoldErrIff` |
| ManyToMany.JoinFoldOk | src/main/java/com/wcpk/db_schema_designer/service/SQLGeneratorService.java:76-103 | after the loop the set is the old set plus every requested join-table name, and also the old set plus the emitted names; each name is emitted at most once and never when already in the set; each emitted table is well formed and comes from a declaration |
| ManyToMany.JoinFoldErrIff | src/main/java/com/wcpk/db_schema_designer/service/SQLGeneratorService.java:84-90 | the loop throws iff it reaches a new many-to-many declaration without an inverse, and then with the missing-inverse message |
| ManyToMany.JoinFoldSeen | src/main/java/com/wcpk/db_schema_designer/service/SQLGeneratorService.java:84-99 | after a successful loop the set holds the caller's names plus every requested one |
| ManyToMany.JoinFoldLast | src/main/java/com/wcpk/db_schema_designer/service/SQLGeneratorService.java:78-100 | the last declaration either emits nothing or emits one join table, rendered from it, with the inverse the lookup finds, and for a name no earlier declaration asked for |
| ManyToMany.JoinFoldOrder | src/main/java/com/wcpk/db_schema_designer/service/SQLGeneratorService.java:76-103 | the join tables are emitted in the order their names are first asked for, each rendered from that first declaration together with the inverse `findFirst` returns |
| Generator.StepSkips | src/main/java/com/wcpk/db_schema_designer/service/SQLGeneratorService.java:78-84 | a relationship that is not many-to-many, or whose join-table name is already in the set, changes nothing |
| Generator.StepEmits | src/main/java/com/wcpk/db_schema_designer/service/SQLGeneratorService.java:84-99 | a new many-to-many relationship with an inverse adds its name to the set and emits its join table |
| Generator.StepThrows | src/main/java/com/wcpk/db_schema_designer/service/SQLGeneratorService.java:85-90 | a new many-to-many relationship without an inverse makes the whole loop throw the missing-inverse message |
| Generator.JoinFoldErrSticks | src/main/java/com/wcpk/db_schema_designer/service/SQLGeneratorService.java:90 | once the loop has thrown, later relationships change nothing |
| Generator.AppendTables | src/main/java/com/wcpk/db_schema_designer/service/SQLGeneratorService.java:66-74 | the table loop appends every table's block, in request order |
| Generator.AppendJoinTables | src/main/java/com/wcpk/db_schema_designer/service/SQLGeneratorService.java:76-103 | the join-table loop throws as the fold does, and otherwise yields the emitted blocks and the fold's final set |
| Generator.AppendOwnJoinTables | src/main/java/com/wcpk/db_schema_designer/service/SQLGeneratorService.java:77-102 | the inner loop over one table's relationships advances the fold by exactly that table's declarations, or reports that the whole loop throws |
| Generator.GenerateSQLScript | src/main/java/com/wcpk/db_schema_designer/service/SQLGeneratorService.java:51-106 | the method applies the one-to-one pass to the request in place and returns the script and set the function `GenerateScript` gives for the old tables |
| Generator.GenerateScript | src/main/java/com/wcpk/db_schema_designer/service/SQLGeneratorService.java:51-106 | definition of what generation returns; its meaning is stated by `GenerateScriptOk` and `GenerateScriptErrIff` |
| Generator.PassKeepsJoinTables | src/main/java/com/wcpk/db_schema_designer/service/SQLGeneratorService.java:54-103 | the one-to-one pass does not change which join tables are emitted |
| Generator.GenerateScriptOk | src/main/java/com/wcpk/db_schema_designer/service/SQLGeneratorService.java:51-106 | a script that is generated is the marked tables' blocks, then blocks of distinct, well-formed join tables whose names are the requested ones not yet in the set, and the set ends as the old set plus every requested name |
| Generator.GenerateScriptOrder | src/main/java/com/wcpk/db_schema_designer/service/SQLGeneratorService.java:51-106 | the join-table blocks of a generated script follow the order in which their names are first asked for, each rendered from that declaration and its first inverse |
| Generator.GenerateScriptErrIff | src/main/java/com/wcpk/db_schema_designer/service/SQLGeneratorService.java:84-90 | generation throws iff some new many-to-many declaration has no inverse, and then with the missing-inverse message |
| Generator.JoinNameCollisionSkipsMissingInverse | src/main/java/com/wcpk/db_schema_designer/service/SQLGeneratorService.java:79-90 | `a` with `b_c` asks for the name `a_b_c` that `a_b` with `c` already recorded, so its missing inverse goes unnoticed and generation succeeds |
| ScriptSplit.StatementsOfAllPieces | src/main/java/com/wcpk/db_schema_designer/service/SQLGeneratorService.java:109-114 | dropping the trailing empty pieces of the split does not change the submitted statements |
| ScriptSplit.Statements | src/main/java/com/wcpk/db_schema_designer/service/SQLGeneratorService.java:108-114 | definition of the statements the loop submits; see `StatementsOfTerminated` |
| ScriptSplit.StatementsOfAppend | src/main/java/com/wcpk/db_schema_designer/service/SQLGeneratorService.java:110-114 | the statements of pieces in two runs are those of the first run, then the second |
| ScriptSplit.PieceStatementNonBlank | src/main/java/com/wcpk/db_schema_designer/service/SQLGeneratorService.java:111-112 | a non-blank piece is submitted as its trim followed by `;` |
| ScriptSplit.PiecesOfTerminated | src/main/java/com/wcpk/db_schema_designer/service/SQLGeneratorService.java:109-114 | statement texts free of `;`, each terminated by ";\n\n", split back into their trims, each followed by `;`, after any blank lead |
| ScriptSplit.StatementsOfTerminated | src/main/java/com/wcpk/db_schema_designer/service/SQLGeneratorService.java:108-114 | such a script is submitted as exactly one statement per text, in order |
| Jdbc.Database.Execute | src/main/java/com/wcpk/db_schema_designer/service/SQLGeneratorService.java:112 | `execute` submits the statement and throws as the database's verdict says |
| Jdbc.RunAll | src/main/java/com/wcpk/db_schema_designer/service/SQLGeneratorService.java:110-114 | definition of submitting statements until the first exception; its meaning is stated by `RunAllSpec` |
| Jdbc.RunAllSpec | src/main/java/com/wcpk/db_schema_designer/service/SQLGeneratorService.java:108-115 | running statements until the first exception ends normally iff all are accepted, then submitting all; otherwise it submits exactly the prefix up to and including the first rejected one, with its message |
| Jdbc.RunAllAppend | src/main/java/com/wcpk/db_schema_designer/service/SQLGeneratorService.java:26-27 | running two lists one after the other runs the second only when the first went through |
| Execution.ScriptStops | src/main/java/com/wcpk/db_schema_designer/service/SQLGeneratorService.java:110-113 | a rejected piece ends the script at that piece |
| Execution.ExecuteSQLScript | src/main/java/com/wcpk/db_schema_designer/service/SQLGeneratorService.java:108-115 | the loop submits the script's statements in order until the first exception, and reports it |
| Execution.IterationOrder | src/main/java/com/wcpk/db_schema_designer/service/SQLGeneratorService.java:118 | the set is iterated in some order that lists each of its names once |
| Execution.EnumerationExists | src/main/java/com/wcpk/db_schema_designer/service/SQLGeneratorService.java:118 | every finite set has such an order |
| Execution.EnumerationMeaning | src/main/java/com/wcpk/db_schema_designer/service/SQLGeneratorService.java:118-121 | such an order holds exactly the set's names, none twice, so each join table is dropped once |
| Execution.BaseDropsReverse | src/main/java/com/wcpk/db_schema_designer/service/SQLGeneratorService.java:123-127 | tables declared later are dropped first |
| Execution.DropSQL | src/main/java/com/wcpk/db_schema_designer/service/SQLGeneratorService.java:119-125 | definition of a drop statement; see `DropTables` |
| Execution.DropJoinTables | src/main/java/com/wcpk/db_schema_designer/service/SQLGeneratorService.java:118-121 | the first drop loop submits one drop per join-table name in the iteration order, until the first exception |
| Execution.DropBaseTables | src/main/java/com/wcpk/db_schema_designer/service/SQLGeneratorService.java:123-127 | the second drop loop submits one drop per request table, last to first, until the first exception |
| Execution.DropsLog | src/main/java/com/wcpk/db_schema_designer/service/SQLGeneratorService.java:117-128 | the two drop loops together submit and end as one run of all the drops |
| Execution.DropTables | src/main/java/com/wcpk/db_schema_designer/service/SQLGeneratorService.java:117-128 | `dropTables` drops the join tables in some enumeration of the set, then the request tables last to first, stopping at the first exception |
| GeneratedScript.BlocksAreTerminated | src/main/java/com/wcpk/db_schema_designer/service/SQLGeneratorService.java:66-103 | the generated text is the table statements, then the join-table statements, each followed by ";\n\n" |
| GeneratedScript.JoinBlockIsStatement | src/main/java/com/wcpk/db_schema_designer/service/SQLGeneratorService.java:199-205 | a join table's block is its statement text followed by ";\n\n" |
| GeneratedScript.FieldSQLFreeOfSemicolons | src/main/java/com/wcpk/db_schema_designer/service/SQLGeneratorService.java:136-170 | fields whose names and types hold no `;` render without one |
| GeneratedScript.RelationshipSQLFreeOfSemicolons | src/main/java/com/wcpk/db_schema_designer/service/SQLGeneratorService.java:172-183 | relationships without `;` render without one |
| GeneratedScript.ForeignKeyLinesFrom | src/main/java/com/wcpk/db_schema_designer/service/SQLGeneratorService.java:175-180 | every foreign-key line renders one of the table's relationships |
| GeneratedScript.TableStatementSplittable | src/main/java/com/wcpk/db_schema_designer/service/SQLGeneratorService.java:66-74 | a table without `;` in its names renders a statement that the split gives back unchanged |
| GeneratedScript.HeadFreeOfSemicolons | src/main/java/com/wcpk/db_schema_designer/service/SQLGeneratorService.java:199-204 | a join-table statement built from names without `;` holds none |
| GeneratedScript.HeadStartsWithCreate | src/main/java/com/wcpk/db_schema_designer/service/SQLGeneratorService.java:199 | a join-table statement begins with the line `CREATE TABLE <name> (`, so its first character is 'C' and it is not blank |
| GeneratedScript.DeclaredFrom | src/main/java/com/wcpk/db_schema_designer/dto/SchemaRequest.java:15-19 | every declaration the loop visits is a relationship of a request table of the declarer's name |
| GeneratedScript.JoinStatementSplittable | src/main/java/com/wcpk/db_schema_designer/service/SQLGeneratorService.java:185-206 | a join table emitted for a request without `;` renders a statement that the split gives back unchanged |
| GeneratedScript.PassFreeOfSemicolons | src/main/java/com/wcpk/db_schema_designer/service/SQLGeneratorService.java:54-64 | the one-to-one pass introduces no `;` |
| GeneratedScript.EmittedSplittable | src/main/java/com/wcpk/db_schema_designer/service/SQLGeneratorService.java:76-103 | every emitted join table survives the split unchanged |
| GeneratedScript.GeneratedText | src/main/java/com/wcpk/db_schema_designer/service/SQLGeneratorService.java:51-106 | a generated script is the marked tables' statements, then the emitted join tables', each terminated |
| GeneratedScript.GeneratedStatements | src/main/java/com/wcpk/db_schema_designer/service/SQLGeneratorService.java:108-114 | for a request whose names hold no `;`, the statements submitted are exactly one per table, in request order, then one per emitted join table, each with its `;` |
| Service.Catch | src/main/java/com/wcpk/db_schema_designer/service/SQLGeneratorService.java:29-31 | the catch block drops only the request tables, last to first, and returns the error text unless a drop throws |
| Service.CatchPath | src/main/java/com/wcpk/db_schema_designer/service/SQLGeneratorService.java:29-31 | definition of the catch block's outcome; see `CatchAccepted` |
| Service.DropAndReturn | src/main/java/com/wcpk/db_schema_designer/service/SQLGeneratorService.java:27-28 | the end of the try block drops everything and returns the script, or goes to the catch block |
| Service.RunAndDrop | src/main/java/com/wcpk/db_schema_designer/service/SQLGeneratorService.java:26-28 | the script runs, then the drops follow; the first exception hands over to the catch block |
| Service.GenerateAndExecuteSQL | src/main/java/com/wcpk/db_schema_designer/service/SQLGeneratorService.java:20-33 | the request's tables end marked by the pass when validation passed, and the log and response are those of `Pipeline` for some enumeration of the recorded join-table names |
| Service.Pipeline | src/main/java/com/wcpk/db_schema_designer/service/SQLGeneratorService.java:20-33 | definition of the outcome of a whole request; see `PipelineRejects`, `PipelineGenerationFails` and `PipelineGenerated` |
| Service.PipelineRejects | src/main/java/com/wcpk/db_schema_designer/service/SQLGeneratorService.java:21-22 | a request that fails validation goes straight to the catch block with the validation message |
| Service.PipelineGenerationFails | src/main/java/com/wcpk/db_schema_designer/service/SQLGeneratorService.java:25 | a request that fails generation goes straight to the catch block with the generation message; the marked tables drop as the original ones |
| Service.PipelineGenerated | src/main/java/com/wcpk/db_schema_designer/service/SQLGeneratorService.java:21-28 | a request that passes both runs its script and then drops its tables |
| Service.RunThenDropAccepted | src/main/java/com/wcpk/db_schema_designer/service/SQLGeneratorService.java:26-28 | when the database accepts everything, the script is returned after its statements and all the drops |
| Service.CatchAccepted | src/main/java/com/wcpk/db_schema_designer/service/SQLGeneratorService.java:29-31 | when the drops go through, the catch block returns "Błąd podczas wykonywania skryptu:\n" and then the message |
| Service.CatchDropsOnlyRequestTables | src/main/java/com/wcpk/db_schema_designer/service/SQLGeneratorService.java:30 | the catch block submits only drops of request tables, never a join table's |
| Service.ReservedNameRejected | src/main/java/com/wcpk/db_schema_designer/service/SQLGeneratorService.java:20-31 | a reserved name means nothing is generated: only request-table drops reach the database, and when those go through the caller gets the prefix and the validation message |
| Service.MissingInverseRejected | src/main/java/com/wcpk/db_schema_designer/service/SQLGeneratorService.java:20-31 | a many-to-many declaration whose join-table name is not yet recorded and that has no inverse means only request-table drops reach the database, and when those go through the caller gets the prefix and "Brak drugiej relacji many-to-many" |
| Service.Succeeds | src/main/java/com/wcpk/db_schema_designer/service/SQLGeneratorService.java:20-28 | when the database accepts everything, the caller gets the script, after its statements, the join-table drops and the request-table drops, last to first |
| Service.SucceedsStatementByStatement | src/main/java/com/wcpk/db_schema_designer/service/SQLGeneratorService.java:24-28 | for names without `;`, that means one CREATE statement per table, one per join table, then the drops |
| Service.ScriptFailureStopsRun | src/main/java/com/wcpk/db_schema_designer/service/SQLGeneratorService.java:26-31 | a rejected statement ends the script there and is followed only by the catch block's drops of request tables |

## Left out

- The Spring controller, the `@Service` wiring, JSON deserialization and Lombok's annotation processing are transport. Only the setter's effect is modelled.
- `jdbcTemplate.execute` against a live database is I/O. The model has a statement log and a fixed verdict per statement, so a statement's effect on later verdicts (a table that exists now) is not modelled.
- The iteration order of `HashSet` is unspecified in Java. The model quantifies over every enumeration, not over the order a particular JVM would use.
- `toLowerCase` and `CASE_INSENSITIVE_ORDER` fold ASCII letters only. Full Unicode case folding and locale-dependent lower-casing are not modelled.
- `trim` treats every character up to U+0020 as blank, as Java's does. Other whitespace is not involved.
- `null` names, lists or exception messages, and the `NullPointerException`s they would raise, are not modelled. Every string and list is present.
- `Relationship` declares no one-to-one flag, but the service calls `isOneToOne()`. The model gives the record an uninterpreted `oneToOne` field.
- The loops of `generateSQLScript` and `dropTables` are split into separate methods (`AppendTables`, `AppendJoinTables`, `AppendOwnJoinTables`, `MarkFieldsNamed`, `DropJoinTables`, `DropBaseTables`). Their order of effects is unchanged.
- The caller's `manyToManyTables` set is passed in and returned as a value. The service discards it when generation throws, so the partly filled set after an exception is not modelled.
- Service.GenerateAndExecuteSQL: the error reply is the response `Reported(message)`, and the returned string is `Reported(message).Returned()`, i.e. the fixed prefix followed by the message. The concatenated text is stated by `Service.CatchAccepted`, not spelled out in every contract.
- Jdbc.RunAllSpec: the exception message of `execute` is the verdict's message. Spring wrapping it in a `DataAccessException` with its own message is not modelled.
