# jdbcTemplateHelper in Dafny

This is a model of the statement-building core of the `jdbcTemplateHelper` Java
library. The library has three parts:

- `WhereClause` is a parameterised filter builder.
- `SQLhelper` is a generator of SELECT, INSERT, UPDATE, DELETE and id
  queries for one entity table.
- `ColumnFieldHelper` is the record that binds a column to an entity field.

Every operation is a pure function from the column list and the entity to a
`Statement` (SQL text plus the ordered bound values) or to an `Error`. An
entity is modelled as a map from field name to value. The database is a
parameter of the operations that touch it:
- `exec` answers the number of rows a mutating statement affected;
- `fetch` answers the rows a query returned.

Modules (one per file):

- `Results` (`results.dfy`): `Option`, `Result` and the `Error` kinds the library
  throws. These are illegal argument, illegal state, incorrect result size
  (with its expected and actual counts), and a data-access failure of the driver.
- `Text` (`text.dfy`): joining with a separator, counting `?`, ASCII
  case-insensitive equality, blankness, decimal rendering.
- `Values` (`values.dfy`): the boxed values the library moves around. These are
  `null`, a 32-bit `Integer`, a 64-bit `Long` and a `String`. It also has Java
  `int` increment with explicit two's-complement wrap-around.
- `Seqs` (`seqs.dfy`): order-preserving filtering, and its characterisation
  as selection at ascending positions.
- `WhereClauses` (`where_clause.dfy`): the token datatype, the padding rule,
  rendering, value collection, the `add` family, and the library's own example
  clause.
- `ColumnFieldHelpers` (`column_field_helper.dfy`): construction with its
  validation and insert-rule default, and `map`.
- `SqlHelpers` (`sql_helper.dfy`): the generator's column list, SELECT text and
  row mapping. It also has insert, update, delete, readById, getIDs,
  getEntitiesByIDs and the query/query1 family, together with the findings below.
- `SqlHelperBuilders` (`sql_builder.dfy`): the builder and its validation gates.

The loops of `getText`, `getQuestionMarkValues`, `createSelectAll`, `insert`,
`updateById`, `getEntitiesByIDs` and `tooManyQuery1` each have both:
- a `method` that follows the loop;
- a functional definition of what the loop computes.

The method's contract is equality with that definition. The lemmas state the
properties of the definitions. The column loop of `mapRow` has only its
recursive definition, `SqlHelpers.MapColumns`.

The two defects listed under Findings are modelled both ways:
- `SqlHelpers.ReadById` and `SqlHelpers.GetIdsStatement` (and through it
  `SqlHelpers.GetIds`) run the statements as written. Lemmas exhibit the
  defect in each.
- `SqlHelpers.CorrectedReadById` and `SqlHelpers.CorrectedGetIdsStatement`
  are the intended versions, with their intended properties proved.

Two behaviours of the code are easy to misread. The model follows the code:

- `addUnpadded(String)` does no mapping: "and", "or", "(" and ")" become
  plain unpadded text, not the shared connector and paren entries
  (`WhereClauses.AddUnpadded`, `WhereClauses.UnpaddedParenIsPlainText`).
- The shared "(" never lets the entry after it be padded, so `add("(")`
  followed by `add("x")` renders "(x" (`WhereClauses.OpenParenHugsNext`).

## Model

| member | source | states |
|---|---|---|
| `WhereClauses.GetText` | src/main/java/org/litesoft/jdbctemplatehelper/WhereClause.java:112-115 | a clause renders to the empty text exactly when it has no entries |
| `WhereClauses.IsEmpty` | src/main/java/org/litesoft/jdbctemplatehelper/WhereClause.java:62-64 | a clause is empty iff it renders to nothing; an empty clause binds nothing; a non-empty one renders as " WHERE " followed by its entries |
| `WhereClauses.PaddingRule` | src/main/java/org/litesoft/jdbctemplatehelper/WhereClause.java:15-27 | an entry gets a leading space iff the previous entry is not the shared "(", the entry is not the shared ")", and the entry is "(" or either of the two wants padding |
| `WhereClauses.GetTextAppend` | src/main/java/org/litesoft/jdbctemplatehelper/WhereClause.java:170-180 | appending an entry leaves the earlier text unchanged and adds the entry's text, with a space exactly when the padding rule against the previous entry says so (none for the first entry, after " WHERE ") |
| `WhereClauses.BodyPrefix` | src/main/java/org/litesoft/jdbctemplatehelper/WhereClause.java:116-121 | entries added later never change how the earlier entries render |
| `WhereClauses.RenderText` | src/main/java/org/litesoft/jdbctemplatehelper/WhereClause.java:112-123 | the single pass that remembers the last entry computes exactly the rendering defined entry by entry |
| `WhereClauses.OpenParenHugsNext` | src/main/java/org/litesoft/jdbctemplatehelper/WhereClause.java:15-20 | whatever follows the shared "(" is appended with no space, whatever its padding wish |
| `WhereClauses.UnpaddedParenIsPlainText` | src/main/java/org/litesoft/jdbctemplatehelper/WhereClause.java:89-92 | a "(" added unpadded is ordinary text: a padded entry after it still gets its space |
| `WhereClauses.QuestionMarkValuesInTokenOrder` | src/main/java/org/litesoft/jdbctemplatehelper/WhereClause.java:102-110 | there are as many values as parameterised entries, and value k is the one bound by the k-th parameterised entry |
| `WhereClauses.QuestionMarkValues` | src/main/java/org/litesoft/jdbctemplatehelper/WhereClause.java:102-110 | there is at most one bound value per entry |
| `WhereClauses.QuestionMarkValuesAppend` | src/main/java/org/litesoft/jdbctemplatehelper/WhereClause.java:104-108 | appending an entry appends its value exactly when it is parameterised |
| `WhereClauses.CollectQuestionMarkValues` | src/main/java/org/litesoft/jdbctemplatehelper/WhereClause.java:102-110 | the collecting loop returns exactly the values of the parameterised entries in entry order |
| `WhereClauses.QuestionMarksMatchValues` | src/main/java/org/litesoft/jdbctemplatehelper/WhereClause.java:112-123 | when each parameterised text holds one `?` and no other text holds any, the rendered text holds exactly as many `?` as there are bound values |
| `WhereClauses.AddEntry` | src/main/java/org/litesoft/jdbctemplatehelper/WhereClause.java:66-71 | a null entry leaves the clause as it was; a present one is appended at the end and nothing before it moves |
| `WhereClauses.Add` | src/main/java/org/litesoft/jdbctemplatehelper/WhereClause.java:73-87 | the new last entry is AND iff the text equals "AND" ignoring case, OR likewise, the shared parens iff the text is exactly "(" or ")", and otherwise a padded literal of the text |
| `WhereClauses.AddUnpadded` | src/main/java/org/litesoft/jdbctemplatehelper/WhereClause.java:89-92 | always one new unpadded, unparameterised literal with exactly the given text, never a shared entry |
| `WhereClauses.AddParam` | src/main/java/org/litesoft/jdbctemplatehelper/WhereClause.java:94-96 | appends one padded entry with the text, and its value becomes the last bound value |
| `WhereClauses.AddParamUnpadded` | src/main/java/org/litesoft/jdbctemplatehelper/WhereClause.java:98-100 | appends one unpadded entry with the text, and its value becomes the last bound value |
| `WhereClauses.DeNull` | src/main/java/org/litesoft/jdbctemplatehelper/WhereClause.java:183-185 | an absent clause is replaced by one that renders to nothing and binds nothing; a present one is kept |
| `WhereClauses.TestClauseTokens` | src/test/java/org/litesoft/jdbctemplatehelper/WhereClauseTest.java:13-21 | the example's chain of padded and unpadded adds builds the expected entry list, with "(", "or", "and" and ")" mapped to the shared entries |
| `WhereClauses.TestClauseText` | src/test/java/org/litesoft/jdbctemplatehelper/WhereClauseTest.java:22 | the example clause renders as " WHERE ((id = oid OR v != ?) AND x IN (?,?,?))" |
| `WhereClauses.TestClauseValues` | src/test/java/org/litesoft/jdbctemplatehelper/WhereClauseTest.java:23-24 | the example clause binds 10, 3, 2, 1 in that order |
| `ColumnFieldHelpers.Produce` | src/main/java/org/litesoft/jdbctemplatehelper/support/ColumnTypeProducer.java:6-9 | a typed read succeeds iff the 1-based index is within the row and the value has the getter's type (or is null), and then yields exactly that value; otherwise it is a data-access failure |
| `ColumnFieldHelpers.NewColumn` | src/main/java/org/litesoft/jdbctemplatehelper/support/ColumnFieldHelper.java:20-26 | construction succeeds iff the result-set getter, setter and getter are present and the name is not blank; a missing getter is reported first, a blank name next; a missing insert rule becomes Regular; the parts are kept as given |
| `ColumnFieldHelpers.NewRegularColumn` | src/main/java/org/litesoft/jdbctemplatehelper/support/ColumnFieldHelper.java:28-30 | the four-argument constructor is the five-argument one with the Regular rule: the same validity condition and errors, and on success exactly the given producer, name, setter and getter with rule Regular |
| `ColumnFieldHelpers.MapColumn` | src/main/java/org/litesoft/jdbctemplatehelper/support/ColumnFieldHelper.java:32-36 | mapping succeeds iff the value at the index can be read; the setter's field then holds exactly that value and every other field is unchanged |
| `ColumnFieldHelpers.MapColumnKeys` | src/main/java/org/litesoft/jdbctemplatehelper/support/ColumnFieldHelper.java:34-35 | mapping adds exactly the setter's field to the entity's fields |
| `SqlHelpers.AllColumnsOrder` | src/main/java/org/litesoft/jdbctemplatehelper/SQLhelper.java:58-62 | the column list is the id column (if any), then the version column (if any), then the regular columns in registration order |
| `SqlHelpers.InsertColumnsAreSubsequence` | src/main/java/org/litesoft/jdbctemplatehelper/SQLhelper.java:68-77 | the insert list holds exactly the columns whose rule is not No, and it is the column list's subsequence at the ascending positions of those columns |
| `SqlHelpers.CreateSelectAll` | src/main/java/org/litesoft/jdbctemplatehelper/SQLhelper.java:79-87 | the prefix-and-space loop yields "SELECT" then the column names comma-separated in column order, then " FROM " and the table |
| `SqlHelpers.MapColumns` | src/main/java/org/litesoft/jdbctemplatehelper/SQLhelper.java:92-96 | mapping the first n columns succeeds iff the row has at least n values and the value at index j+1 fits column j, for each j |
| `SqlHelpers.MapColumnsWrites` | src/main/java/org/litesoft/jdbctemplatehelper/SQLhelper.java:93-96 | after mapping, a field holds the value read for the last column that sets it, and a field no column sets keeps the factory entity's value |
| `SqlHelpers.MapRow` | src/main/java/org/litesoft/jdbctemplatehelper/SQLhelper.java:89-98 | a row that cannot be mapped is a data-access failure |
| `SqlHelpers.MapRowFields` | src/main/java/org/litesoft/jdbctemplatehelper/SQLhelper.java:89-98 | mapping a row succeeds iff every column's ordinal holds a value of its type; then each column's field holds the value at its ordinal (the later column wins a shared field) and every other field is the factory entity's |
| `SqlHelpers.MapColumnsRoundTrip` | src/main/java/org/litesoft/jdbctemplatehelper/SQLhelper.java:89-98 | mapping back a row made of an entity's own column values, in column order, restores every mapped field, when each column's setter and getter address one field and every value has its column's type |
| `SqlHelpers.MapRowRoundTrip` | src/main/java/org/litesoft/jdbctemplatehelper/SQLhelper.java:79-98 | a row in SELECT order, made of an entity's column values, maps to an entity equal to it on every column's field |
| `SqlHelpers.InsertedColumnsChoice` | src/main/java/org/litesoft/jdbctemplatehelper/SQLhelper.java:106-114 | a column is named by the INSERT iff it is on the column list, its rule is not No, and its value is not null or its rule is Regular |
| `SqlHelpers.BuildInsertStatement` | src/main/java/org/litesoft/jdbctemplatehelper/SQLhelper.java:102-115 | the statement `insert` builds is "INSERT INTO t (cols) VALUES (?, ...)" over the chosen columns in column order, binding their values in that order |
| `SqlHelpers.BuildInsert` | src/main/java/org/litesoft/jdbctemplatehelper/SQLhelper.java:104-114 | the single pass that fills the column text, the placeholder text and the values together equals the statement over the filtered insert list |
| `SqlHelpers.InsertPlaceholders` | src/main/java/org/litesoft/jdbctemplatehelper/SQLhelper.java:102-115 | the INSERT names as many columns as it binds values, and holds exactly as many `?` as values when no name holds a `?` |
| `SqlHelpers.Insert` | src/main/java/org/litesoft/jdbctemplatehelper/SQLhelper.java:100-122 | a null entity is an illegal argument; no chosen column is an illegal state raised before execution; otherwise it succeeds iff the executed INSERT affected a row; a failed execution reports expected 1, actual 0 |
| `SqlHelpers.SetColumnsFollowId` | src/main/java/org/litesoft/jdbctemplatehelper/SQLhelper.java:134-135 | the SET clause assigns exactly the columns after the id column, in column order |
| `SqlHelpers.BuildSet` | src/main/java/org/litesoft/jdbctemplatehelper/SQLhelper.java:133-143 | the SET loop that skips the id yields " a = ?, b = ?" over the remaining columns and binds the bumped version to the first one (the version, when there is one) and getter values to the rest |
| `SqlHelpers.BuildUpdateStatement` | src/main/java/org/litesoft/jdbctemplatehelper/SQLhelper.java:131-150 | the statement `updateById` builds is the SET clause, then " WHERE id = ?", then " AND version = ?" when there is a version |
| `SqlHelpers.UpdateBindings` | src/main/java/org/litesoft/jdbctemplatehelper/SQLhelper.java:132-149 | the UPDATE binds, in order, the old version plus one, every regular column's getter value, the id, and the old version; the new and the old version always differ |
| `SqlHelpers.UpdatePlaceholders` | src/main/java/org/litesoft/jdbctemplatehelper/SQLhelper.java:140-149 | the UPDATE holds exactly as many `?` as it binds values when no name holds a `?` |
| `SqlHelpers.UpdateById` | src/main/java/org/litesoft/jdbctemplatehelper/SQLhelper.java:124-152 | no id column is an illegal state; a null entity or null id value an illegal argument; a version value that is not an Integer (null included) an illegal state with the library's message; otherwise the answer is whether the UPDATE affected a row |
| `SqlHelpers.VersionMessage` | src/main/java/org/litesoft/jdbctemplatehelper/SQLhelper.java:246-264 | the message names the entity, the id column and value and the version column, then ends in ": null" for a null version and in the class name and value otherwise |
| `SqlHelpers.NoIdMessage` | src/main/java/org/litesoft/jdbctemplatehelper/SQLhelper.java:298-302 | the message is the operation name followed by the entity class name in parentheses and " does NOT have an ID field!" |
| `SqlHelpers.DeleteById` | src/main/java/org/litesoft/jdbctemplatehelper/SQLhelper.java:159-163 | no id column is an illegal state naming "readById"; a null id an illegal argument named after the id column; otherwise the answer is whether "DELETE FROM t WHERE id = ?" bound to the id affected a row |
| `SqlHelpers.MapRows` | src/main/java/org/litesoft/jdbctemplatehelper/SQLhelper.java:233-234 | the rows map iff every row maps, and then the entities are the mapped rows in result order |
| `SqlHelpers.Query` | src/main/java/org/litesoft/jdbctemplatehelper/SQLhelper.java:232-235 | a query succeeds iff the fetch and every row's mapping succeed, and returns exactly the fetched rows mapped by `mapRow`, one entity per row in result order |
| `SqlHelpers.OptionalOrderBy` | src/main/java/org/litesoft/jdbctemplatehelper/SQLhelper.java:241-244 | an absent or blank order adds nothing; any other order adds a space and the order |
| `SqlHelpers.QueryStatement` | src/main/java/org/litesoft/jdbctemplatehelper/SQLhelper.java:226-230 | the query binds exactly the clause's values; its text is the SELECT, then the clause's text (nothing for an absent clause), then the optional order |
| `SqlHelpers.QueryWhere` | src/main/java/org/litesoft/jdbctemplatehelper/SQLhelper.java:226-230 | succeeds iff the fetch of the filtered statement and every row's mapping succeed, and returns the mapped rows in result order |
| `SqlHelpers.Query1` | src/main/java/org/litesoft/jdbctemplatehelper/SQLhelper.java:217-224 | one row gives its entity; no row gives null, or an incorrect result size (expected 1, actual 0) when `inserted` is present; n >= 2 rows give an incorrect result size with the count and arguments message and actual n |
| `SqlHelpers.TooManyMessage` | src/main/java/org/litesoft/jdbctemplatehelper/SQLhelper.java:273-285 | the message starts with the count, the name and " Records found"; with no suffix and no arguments it is exactly that |
| `SqlHelpers.BuildTooManyMessage` | src/main/java/org/litesoft/jdbctemplatehelper/SQLhelper.java:273-285 | the count, name and suffix, then the argument loop, compute exactly the message definition |
| `SqlHelpers.AppendArguments` | src/main/java/org/litesoft/jdbctemplatehelper/SQLhelper.java:279-283 | the loop with ": " before the first argument and ", " before every later one appends exactly the argument list |
| `SqlHelpers.Query1Where` | src/main/java/org/litesoft/jdbctemplatehelper/SQLhelper.java:212-215 | a null clause is an illegal argument; otherwise query1 runs the same statement `query` runs for that clause with no order |
| `SqlHelpers.ReadByIdStatement` | src/main/java/org/litesoft/jdbctemplatehelper/SQLhelper.java:169 | the readById statement is the SELECT followed by " WHERE id = ?", whatever the id column is called, binding the id alone |
| `SqlHelpers.ReadById` | src/main/java/org/litesoft/jdbctemplatehelper/SQLhelper.java:167-171 | no id column is an illegal state; a null id an illegal argument named after the id column; otherwise query1, with no `inserted`, of the SELECT with " WHERE id = ?" bound to the id, whatever the id column is called |
| `SqlHelpers.CorrectedReadById` | src/main/java/org/litesoft/jdbctemplatehelper/SQLhelper.java:167-171 | the intended readById: the same errors, and query1 of the SELECT filtered on the id column's own name |
| `SqlHelpers.ReadByIdAgreesOnColumnId` | src/main/java/org/litesoft/jdbctemplatehelper/SQLhelper.java:169 | when the id column is called "id", readById as written and as intended give the same answer for every id and database |
| `SqlHelpers.ReadByIdNamesWrongColumn` | src/main/java/org/litesoft/jdbctemplatehelper/SQLhelper.java:169 | for every id column not called "id", the statement filters on a different column than the intended one |
| `SqlHelpers.CorrectedReadByIdStatement` | src/main/java/org/litesoft/jdbctemplatehelper/SQLhelper.java:169 | the intended statement filters on the id column's own name, as deleteByID does, binding the id alone |
| `SqlHelpers.IdsClause` | src/main/java/org/litesoft/jdbctemplatehelper/SQLhelper.java:176-179 | the clause is the caller's (or a fresh one), with one padded "<id> > ?" entry bound to the lower bound appended at the end when the bound is not null |
| `SqlHelpers.GetIdsStatement` | src/main/java/org/litesoft/jdbctemplatehelper/SQLhelper.java:174-184 | no id column is an illegal state; a non-positive limit an illegal argument; otherwise "SELECT id FROM t" + the as-written clause (the bound appended with no connector) + " ORDER BY id ASC LIMIT n", binding the caller's values and then the bound |
| `SqlHelpers.IdsSelect` | src/main/java/org/litesoft/jdbctemplatehelper/SQLhelper.java:180-183 | the id query is "SELECT <id> FROM <t>", the clause's text, " ORDER BY <id> ASC LIMIT " and the limit in decimal, binding the clause's values |
| `SqlHelpers.CorrectedGetIdsStatement` | src/main/java/org/litesoft/jdbctemplatehelper/SQLhelper.java:174-184 | the intended statement: the same errors, the same bound values, and the corrected clause that joins the bound with AND |
| `SqlHelpers.MapIds` | src/main/java/org/litesoft/jdbctemplatehelper/SQLhelper.java:190-193 | the ids are the first value of each row, in result order, when each can be read with the id column's getter |
| `SqlHelpers.GetIds` | src/main/java/org/litesoft/jdbctemplatehelper/SQLhelper.java:174-188 | statement errors are passed through; otherwise one id per fetched row |
| `SqlHelpers.IdsClauseHasNoConnector` | src/main/java/org/litesoft/jdbctemplatehelper/SQLhelper.java:177-179 | after any non-empty filter not ending in "(", the bound is joined by a bare space with no AND |
| `SqlHelpers.IdsClauseCounterexample` | src/main/java/org/litesoft/jdbctemplatehelper/SQLhelper.java:178-181 | the filter "status = ?" with a lower bound renders " WHERE status = ? id > ?" |
| `SqlHelpers.CorrectedIdsClause` | src/main/java/org/litesoft/jdbctemplatehelper/SQLhelper.java:176-179 | the corrected clause binds the same values as the original: the caller's, then the bound when it is not null |
| `SqlHelpers.CorrectedIdsClauseConjoins` | src/main/java/org/litesoft/jdbctemplatehelper/SQLhelper.java:177-181 | with the correction, a non-empty filter not ending in "(" is followed by " AND <id> > ?" |
| `SqlHelpers.CorrectedIdsClauseAlone` | src/main/java/org/litesoft/jdbctemplatehelper/SQLhelper.java:176-181 | with the correction and no filter, the bound alone is the WHERE clause |
| `SqlHelpers.NonNullsOnly` | src/main/java/org/litesoft/jdbctemplatehelper/SQLhelper.java:291-296 | the kept ids are exactly the non-null members of the list, none for a null list |
| `SqlHelpers.NonNullsOnlyKeepsOrder` | src/main/java/org/litesoft/jdbctemplatehelper/SQLhelper.java:293 | the kept ids are the non-null ones at ascending positions of the input |
| `SqlHelpers.GetEntitiesByIds` | src/main/java/org/litesoft/jdbctemplatehelper/SQLhelper.java:195-210 | no id column is an illegal state; no non-null id answers the empty list without querying; otherwise the query over "... WHERE id IN (a,b) ORDER BY id" with the kept ids in input order |
| `SqlHelpers.BuildInList` | src/main/java/org/litesoft/jdbctemplatehelper/SQLhelper.java:203-208 | the loop with "(" before the first id and "," before every later one yields the comma-joined ids in parentheses |
| `SqlHelpers.SelectAllUnmarked` | src/main/java/org/litesoft/jdbctemplatehelper/SQLhelper.java:79-87 | the cached SELECT holds no `?` when no table or column name does |
| `SqlHelpers.FilteredSelectPlaceholders` | src/main/java/org/litesoft/jdbctemplatehelper/SQLhelper.java:212-215 | the SELECT followed by a filter holds one `?` per value the filter binds, when the filter's `?` sit in its parameterised texts |
| `SqlHelpers.QueryPlaceholders` | src/main/java/org/litesoft/jdbctemplatehelper/SQLhelper.java:226-230 | the statement of `query(whereClause, orderBy)` binds exactly one value per `?` of its text, when no name or order holds a `?` and the filter's `?` sit in its parameterised texts |
| `SqlHelpers.ReadByIdPlaceholders` | src/main/java/org/litesoft/jdbctemplatehelper/SQLhelper.java:169-170 | the readById statement as written, and the intended one, each have exactly one `?` and bind exactly one value, when no name holds a `?` |
| `SqlHelpers.DeletePlaceholders` | src/main/java/org/litesoft/jdbctemplatehelper/SQLhelper.java:161-162 | the DELETE has one `?` and binds one value, when no name holds a `?` |
| `SqlHelpers.CorrectedIdsClauseMarks` | src/main/java/org/litesoft/jdbctemplatehelper/SQLhelper.java:176-179 | adding the AND connector and the "<id> > ?" bound keeps every `?` of the clause in a parameterised text |
| `SqlHelpers.IdsClauseMarks` | src/main/java/org/litesoft/jdbctemplatehelper/SQLhelper.java:176-179 | appending the "<id> > ?" bound as written keeps every `?` of the clause in a parameterised text |
| `SqlHelpers.IdsSelectPlaceholders` | src/main/java/org/litesoft/jdbctemplatehelper/SQLhelper.java:180-186 | the id query around a clause whose `?` sit in its parameterised texts binds exactly one value per `?`, when no name holds a `?` |
| `SqlHelpers.GetIdsPlaceholders` | src/main/java/org/litesoft/jdbctemplatehelper/SQLhelper.java:176-186 | with a positive limit, the getIDs statement as written, and the intended one, bind exactly one value per `?` of their text, when no name holds a `?` and the caller's filter keeps its `?` in its parameterised texts |
| `Values.Increment` | src/main/java/org/litesoft/jdbctemplatehelper/SQLhelper.java:138 | the bumped version is Java `int` plus one with two's-complement wrap-around; below the maximum it is plus one; it always differs from the old version |
| `SqlHelperBuilders.NewBuilder` | src/main/java/org/litesoft/jdbctemplatehelper/SQLhelper.java:341-347 | a missing factory, then a blank table name, then a blank name is an illegal argument; otherwise a builder holding the parts and no bindings |
| `SqlHelperBuilders.AddSpecial` | src/main/java/org/litesoft/jdbctemplatehelper/SQLhelper.java:415-423 | succeeds iff no binding of the kind exists, taking the new one; otherwise an illegal state naming both columns |
| `SqlHelperBuilders.AddId` | src/main/java/org/litesoft/jdbctemplatehelper/SQLhelper.java:349-352 | a null binding is an illegal argument, a second id an illegal state; otherwise only the id binding changes |
| `SqlHelperBuilders.AddVersion` | src/main/java/org/litesoft/jdbctemplatehelper/SQLhelper.java:354-357 | a null binding is an illegal argument, a second version an illegal state; otherwise only the version binding changes |
| `SqlHelperBuilders.SecondIdRejected` | src/main/java/org/litesoft/jdbctemplatehelper/SQLhelper.java:415-421 | after one id is bound, a second addId fails with the message naming both, and the first binding stays |
| `SqlHelperBuilders.SecondVersionRejected` | src/main/java/org/litesoft/jdbctemplatehelper/SQLhelper.java:354-357 | after one version is bound, a second addVersion fails with the message naming both, and the first binding stays |
| `SqlHelperBuilders.AddColumn` | src/main/java/org/litesoft/jdbctemplatehelper/SQLhelper.java:359-362 | a null binding is an illegal argument; otherwise it is appended after the registered columns and nothing else changes |
| `SqlHelperBuilders.AddNew` | src/main/java/org/litesoft/jdbctemplatehelper/SQLhelper.java:389-393 | succeeds iff the binding can be constructed, passing on the construction error otherwise; on success exactly the constructed binding (the given parts, a missing rule as Regular) is appended and nothing else changes |
| `SqlHelperBuilders.AddNewRegular` | src/main/java/org/litesoft/jdbctemplatehelper/SQLhelper.java:384-387 | succeeds iff the parts are valid, an illegal argument otherwise; on success a Regular binding of exactly the given parts is appended and nothing else changes |
| `SqlHelperBuilders.AddAutoInsertId` | src/main/java/org/litesoft/jdbctemplatehelper/SQLhelper.java:364-367 | succeeds iff the parts are valid and no id is bound; invalid parts are an illegal argument, a second id an illegal state; on success the id binding is exactly the given parts with rule No, and nothing else changes |
| `SqlHelperBuilders.AddNonAutoInsertedId` | src/main/java/org/litesoft/jdbctemplatehelper/SQLhelper.java:369-372 | succeeds iff the parts are valid and no id is bound; invalid parts are an illegal argument, a second id an illegal state; on success the id binding is exactly the given parts with rule Regular, and nothing else changes |
| `SqlHelperBuilders.AddAutoInsertVersion` | src/main/java/org/litesoft/jdbctemplatehelper/SQLhelper.java:374-377 | succeeds iff the parts are valid and no version is bound; invalid parts are an illegal argument, a second version an illegal state; on success the version binding is exactly the given parts with rule No, and nothing else changes |
| `SqlHelperBuilders.AddNonAutoInsertedVersion` | src/main/java/org/litesoft/jdbctemplatehelper/SQLhelper.java:379-382 | succeeds iff the parts are valid and no version is bound; invalid parts are an illegal argument, a second version an illegal state; on success the version binding is exactly the given parts with rule Regular, and nothing else changes |
| `SqlHelperBuilders.WithTooManySuffix` | src/main/java/org/litesoft/jdbctemplatehelper/SQLhelper.java:395-398 | the suffix is replaced by the last one set and nothing else changes |
| `SqlHelperBuilders.SuffixOrEmpty` | src/main/java/org/litesoft/jdbctemplatehelper/SQLhelper.java:412 | an absent or blank suffix becomes empty; any other is kept |
| `SqlHelperBuilders.Build` | src/main/java/org/litesoft/jdbctemplatehelper/SQLhelper.java:400-413 | no registered column, an id class without an id binding, or an id binding without an id class is an illegal state, in that order; then a missing template is the illegal argument "JdbcTemplate"; the generator keeps the bindings, the names and the suffix |
| `SqlHelperBuilders.BuiltColumnOrder` | src/main/java/org/litesoft/jdbctemplatehelper/SQLhelper.java:49-66 | a built generator lists the id, then the version, then the registered columns and selects them in that order; it has an id column exactly when an id class was given |
| `Seqs.FilterIsSelection` | src/main/java/org/litesoft/jdbctemplatehelper/SQLhelper.java:72-75 | order-preserving filtering equals selection at the ascending accepted positions |

## Left out

- Statement execution (`applyUpdate`, `jdbcTemplate.update`, `jdbcTemplate.query`) is a call into Spring JDBC. It is the `exec` and `fetch` parameters. The rows affected and the rows returned are whatever those answer.
- `ResultSet` and `ColumnTypeProducer` are JDBC interfaces. A row is a sequence of values, and a producer is a typed positional read that fails when the index is out of range or the value's type does not match. Driver conversions between types are not modelled.
- The Spring and JDBC exception classes become the `Error` kinds. Exception messages that append an entity's `toString` stop before the entity, because entities have no text form here.
- The entity's class simple name is found by reflection. It is modelled as a string carried by the factory.
- The annotation library's `NotNull`, `Significant` and `Positive` checks are not visible. They are modelled as "present", "not blank" and "greater than zero". A significant value is assumed to be kept as given, without trimming. The messages of the checks are modelled as the parameter name alone.
- Java `null` strings are not modelled. Every string is present; a null entity, clause, id list or binding is an `Option`.
- The identity tests `cfh != idHelper` and `cfh != versionHelper` are modelled by position. The id is the first column and the version the next one.
- Java generics are not enforced. In particular, nothing forces a version binding to read Integers; `updateById` checks the value at run time, as the library does.
- The shared mutable `EMPTY` clause and `getIDs` adding its bound to the caller's own clause are mutation and aliasing. The model returns the extended clause instead.
- `getText` and `getQuestionMarkValues` not changing the clause holds by construction: they are pure functions of it.
- The `toString` methods, `JdbcTemplateRepository` and `EntityUpdateException` have no logic of their own.
- The claim that inlining ids in the `IN` list is safe from SQL injection depends on the ids' run-time types. It is not stated.
- The meaning of the SQL text to a database (ORDER BY, LIMIT, IN) is not modelled; only the text and the bound values are.
- InsertColumnRule.java is not part of this model. Its constants are taken to be `Regular`, `IfNotNull` and `No`, from their uses.
- `WhereClauses.QuestionMarkValues`: its own contract bounds only the number of values, because a quantified contract on it is too costly at every use; which values, and in which order, is stated by `WhereClauses.QuestionMarkValuesInTokenOrder`.
- `SqlHelpers.NonNullsOnly`: its contract states membership only; the order it keeps is stated by `SqlHelpers.NonNullsOnlyKeepsOrder`.
- `SqlHelpers.GetIds`: its contract relates the result to the fetched rows only by count; `SqlHelpers.MapIds` states which values they are.

## Findings

| source | as written | input that shows it | evidently intended | confidence | as-written member | corrected member |
|---|---|---|---|---|---|---|
| src/main/java/org/litesoft/jdbctemplatehelper/SQLhelper.java:169 | `readById` filters with the fixed text "id = ?" | an id column named "user_id": the query reads " WHERE id = ?" | filter on the id column's own name, as `deleteByID` and `getIDs` do | not executed | `SqlHelpers.ReadByIdNamesWrongColumn` | `SqlHelpers.CorrectedReadById` |
| src/main/java/org/litesoft/jdbctemplatehelper/SQLhelper.java:178 | `getIDs` appends "<id> > ?" to the caller's filter with no connector | the filter "status = ?" and a lower bound 5: the query reads " WHERE status = ? id > ?" | join the bound to a non-empty filter with AND | not executed | `SqlHelpers.IdsClauseCounterexample` | `SqlHelpers.CorrectedIdsClauseConjoins` |
