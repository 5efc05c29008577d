/** The builder of a statement generator (`SQLhelper.Builder`): it collects
    the column bindings, at most one id binding and at most one version
    binding, and validates them when the generator is built. */
module SqlHelperBuilders {
  import opened Results
  import opened Text
  import opened ColumnFieldHelpers
  import opened SqlHelpers

  /** The empty-entity factory, as the entity it produces and that entity's
      class simple name. */
  datatype Factory = Factory(empty: Entity, simpleName: string)

  /** The builder state. `idClass` is the simple name of the id class, when
      one was given; `tooManySuffixText` is the suffix as last set. */
  datatype Builder = Builder(
    name: string,
    tableName: string,
    idClass: Option<string>,
    factory: Factory,
    columns: seq<Column>,
    idHelper: Option<Column>,
    versionHelper: Option<Column>,
    tooManySuffixText: Option<string>)

  /** `builder(name, idClass, factory, tableName)`: a null factory, then a
      blank table name, then a blank name is an illegal argument; the new
      builder holds no bindings. */
  function NewBuilder(name: string, idClass: Option<string>, factory: Option<Factory>, tableName: string)
    : (r: Result<Builder>)
    ensures factory.None? ==> r == Err(IllegalArgument("emptyEntityFactory"))
    ensures factory.Some? && IsBlank(tableName) ==> r == Err(IllegalArgument("tableName"))
    ensures factory.Some? && !IsBlank(tableName) && IsBlank(name) ==> r == Err(IllegalArgument("name"))
    ensures r.Ok? <==> factory.Some? && !IsBlank(tableName) && !IsBlank(name)
    ensures r.Ok? ==> && r.value.name == name && r.value.tableName == tableName && r.value.idClass == idClass
                      && r.value.columns == [] && r.value.idHelper.None? && r.value.versionHelper.None?
                      && r.value.tooManySuffixText.None?
  {
    if factory.None? then Err(IllegalArgument("emptyEntityFactory"))
    else if IsBlank(tableName) then Err(IllegalArgument("tableName"))
    else if IsBlank(name) then Err(IllegalArgument("name"))
    else Ok(Builder(name, tableName, idClass, factory.value, [], None, None, None))
  }

  /** `addSpecial`: a second binding of a kind is an illegal state naming both
      columns; otherwise the new binding is taken. */
  function AddSpecial(what: string, existing: Option<Column>, newCFM: Column): (r: Result<Column>)
    ensures r.Ok? <==> existing.None?
    ensures r.Ok? ==> r.value == newCFM
    ensures r.Err? ==> r.error == IllegalState("Attempt to add 2nd " + what + " column, first '"
                                               + existing.value.name + "', second: " + newCFM.name)
  {
    if existing.Some? then
      Err(IllegalState("Attempt to add 2nd " + what + " column, first '" + existing.value.name + "', second: " + newCFM.name))
    else Ok(newCFM)
  }

  /** `addId`: a null binding is an illegal argument, a second one an illegal state. */
  function AddId(b: Builder, newCFM: Option<Column>): (r: Result<Builder>)
    ensures newCFM.None? ==> r == Err(IllegalArgument("Id"))
    ensures newCFM.Some? && b.idHelper.Some? ==> r.Err? && r.error.IllegalState?
    ensures r.Ok? <==> newCFM.Some? && b.idHelper.None?
    ensures r.Ok? ==> r.value == b.(idHelper := newCFM)
  {
    if newCFM.None? then Err(IllegalArgument("Id"))
    else
      var c :- AddSpecial("ID", b.idHelper, newCFM.value);
      Ok(b.(idHelper := Some(c)))
  }

  /** `addVersion`: a null binding is an illegal argument, a second one an illegal state. */
  function AddVersion(b: Builder, newCFM: Option<Column>): (r: Result<Builder>)
    ensures newCFM.None? ==> r == Err(IllegalArgument("version"))
    ensures newCFM.Some? && b.versionHelper.Some? ==> r.Err? && r.error.IllegalState?
    ensures r.Ok? <==> newCFM.Some? && b.versionHelper.None?
    ensures r.Ok? ==> r.value == b.(versionHelper := newCFM)
  {
    if newCFM.None? then Err(IllegalArgument("version"))
    else
      var c :- AddSpecial("version", b.versionHelper, newCFM.value);
      Ok(b.(versionHelper := Some(c)))
  }

  /** Once an id is bound, a second `addId` fails and the builder that holds
      the first binding is the one the caller still has. */
  lemma SecondIdRejected(b: Builder, first: Column, second: Column)
    requires AddId(b, Some(first)).Ok?
    ensures AddId(b, Some(first)).value.idHelper == Some(first)
    ensures AddId(AddId(b, Some(first)).value, Some(second)) ==
              Err(IllegalState("Attempt to add 2nd " + "ID" + " column, first '" + first.name + "', second: " + second.name))
  {
  }

  /** Once a version is bound, a second `addVersion` fails the same way. */
  lemma SecondVersionRejected(b: Builder, first: Column, second: Column)
    requires AddVersion(b, Some(first)).Ok?
    ensures AddVersion(b, Some(first)).value.versionHelper == Some(first)
    ensures AddVersion(AddVersion(b, Some(first)).value, Some(second)) ==
              Err(IllegalState("Attempt to add 2nd " + "version" + " column, first '" + first.name + "', second: " + second.name))
  {
  }

  /** `add(newCFM)`: a null binding is an illegal argument; otherwise it is
      appended after the regular columns already registered. */
  function AddColumn(b: Builder, newCFM: Option<Column>): (r: Result<Builder>)
    ensures r.Ok? <==> newCFM.Some?
    ensures r.Err? ==> r.error == IllegalArgument("newCFM")
    ensures r.Ok? ==> r.value.columns == b.columns + [newCFM.value]
    ensures r.Ok? ==> r.value == b.(columns := r.value.columns)
  {
    if newCFM.None? then Err(IllegalArgument("newCFM"))
    else Ok(b.(columns := b.columns + [newCFM.value]))
  }

  /** The column parts are all present and the name is not blank: the
      condition under which a binding can be constructed. */
  predicate PartsValid(producer: Option<ValueKind>, columnName: string, setter: Option<string>, getter: Option<string>)
  {
    producer.Some? && !IsBlank(columnName) && setter.Some? && getter.Some?
  }

  /** The five-argument `add`: a binding constructed from the parts and
      appended after the registered columns; nothing else changes, and a
      construction failure is passed on. */
  function AddNew(b: Builder, producer: Option<ValueKind>, columnName: string, insertRule: Option<InsertRule>,
                  setter: Option<string>, getter: Option<string>): (r: Result<Builder>)
    ensures r.Ok? <==> PartsValid(producer, columnName, setter, getter)
    ensures r.Err? ==> r.error == NewColumn(producer, columnName, insertRule, setter, getter).error
    ensures r.Ok? ==> r.value == b.(columns := b.columns + [Column(producer.value, columnName,
                                                                    if insertRule.Some? then insertRule.value else Regular,
                                                                    setter.value, getter.value)])
  {
    var c :- NewColumn(producer, columnName, insertRule, setter, getter);
    Ok(b.(columns := b.columns + [c]))
  }

  /** The four-argument `add`: the five-argument one with no insert rule, so
      the appended binding is always inserted. */
  function AddNewRegular(b: Builder, producer: Option<ValueKind>, columnName: string,
                         setter: Option<string>, getter: Option<string>): (r: Result<Builder>)
    ensures r.Ok? <==> PartsValid(producer, columnName, setter, getter)
    ensures r.Err? ==> r.error.IllegalArgument?
    ensures r.Ok? ==> r.value == b.(columns := b.columns + [Column(producer.value, columnName, Regular, setter.value, getter.value)])
  {
    AddNew(b, producer, columnName, None, setter, getter)
  }

  /** `addAutoInsertId`: an id the database assigns, so never inserted. Bad
      parts are an illegal argument, a second id an illegal state. */
  function AddAutoInsertId(b: Builder, producer: Option<ValueKind>, columnName: string,
                           setter: Option<string>, getter: Option<string>): (r: Result<Builder>)
    ensures r.Ok? <==> PartsValid(producer, columnName, setter, getter) && b.idHelper.None?
    ensures !PartsValid(producer, columnName, setter, getter) ==> r.Err? && r.error.IllegalArgument?
    ensures PartsValid(producer, columnName, setter, getter) && b.idHelper.Some? ==> r.Err? && r.error.IllegalState?
    ensures r.Ok? ==> r.value == b.(idHelper := Some(Column(producer.value, columnName, No, setter.value, getter.value)))
  {
    var c :- NewColumn(producer, columnName, Some(No), setter, getter);
    AddId(b, Some(c))
  }

  /** `addNonAutoInsertedId`: an id the caller supplies, always inserted. */
  function AddNonAutoInsertedId(b: Builder, producer: Option<ValueKind>, columnName: string,
                                setter: Option<string>, getter: Option<string>): (r: Result<Builder>)
    ensures r.Ok? <==> PartsValid(producer, columnName, setter, getter) && b.idHelper.None?
    ensures !PartsValid(producer, columnName, setter, getter) ==> r.Err? && r.error.IllegalArgument?
    ensures PartsValid(producer, columnName, setter, getter) && b.idHelper.Some? ==> r.Err? && r.error.IllegalState?
    ensures r.Ok? ==> r.value == b.(idHelper := Some(Column(producer.value, columnName, Regular, setter.value, getter.value)))
  {
    var c :- NewRegularColumn(producer, columnName, setter, getter);
    AddId(b, Some(c))
  }

  /** `addAutoInsertVersion`: a version the database initialises, never inserted. */
  function AddAutoInsertVersion(b: Builder, producer: Option<ValueKind>, columnName: string,
                                setter: Option<string>, getter: Option<string>): (r: Result<Builder>)
    ensures r.Ok? <==> PartsValid(producer, columnName, setter, getter) && b.versionHelper.None?
    ensures !PartsValid(producer, columnName, setter, getter) ==> r.Err? && r.error.IllegalArgument?
    ensures PartsValid(producer, columnName, setter, getter) && b.versionHelper.Some? ==> r.Err? && r.error.IllegalState?
    ensures r.Ok? ==> r.value == b.(versionHelper := Some(Column(producer.value, columnName, No, setter.value, getter.value)))
  {
    var c :- NewColumn(producer, columnName, Some(No), setter, getter);
    AddVersion(b, Some(c))
  }

  /** `addNonAutoInsertedVersion`: a version the caller supplies, always inserted. */
  function AddNonAutoInsertedVersion(b: Builder, producer: Option<ValueKind>, columnName: string,
                                     setter: Option<string>, getter: Option<string>): (r: Result<Builder>)
    ensures r.Ok? <==> PartsValid(producer, columnName, setter, getter) && b.versionHelper.None?
    ensures !PartsValid(producer, columnName, setter, getter) ==> r.Err? && r.error.IllegalArgument?
    ensures PartsValid(producer, columnName, setter, getter) && b.versionHelper.Some? ==> r.Err? && r.error.IllegalState?
    ensures r.Ok? ==> r.value == b.(versionHelper := Some(Column(producer.value, columnName, Regular, setter.value, getter.value)))
  {
    var c :- NewRegularColumn(producer, columnName, setter, getter);
    AddVersion(b, Some(c))
  }

  /** `withQueryOne_tooManySuffixText`: the last setting wins. */
  function WithTooManySuffix(b: Builder, text: Option<string>): (r: Builder)
    ensures r.tooManySuffixText == text
    ensures r.(tooManySuffixText := b.tooManySuffixText) == b
  {
    b.(tooManySuffixText := text)
  }

  /** The suffix as the generator keeps it: an absent or blank suffix is empty. */
  function SuffixOrEmpty(text: Option<string>): (r: string)
    ensures r == "" <==> text.None? || IsBlank(text.value)
    ensures r != "" ==> r == text.value
  {
    if text.None? || IsBlank(text.value) then "" else text.value
  }

  /** `build(jdbcTemplate)`: no regular column, an id class without an id
      binding, or an id binding without an id class is an illegal state
      (checked in that order), then a missing template an illegal argument.
      The generator keeps the bindings and the suffix, and its entity class
      name is the factory entity's. */
  function Build(b: Builder, hasJdbcTemplate: bool): (r: Result<Helper>)
    ensures |b.columns| == 0 ==> r == Err(IllegalState("No Column (FieldHelper)s registered!"))
    ensures |b.columns| > 0 && b.idClass.Some? && b.idHelper.None? ==>
              r == Err(IllegalState("idClass (" + b.idClass.value + ") indicated, but no 'idHelper' registered"))
    ensures |b.columns| > 0 && b.idClass.None? && b.idHelper.Some? ==>
              r == Err(IllegalState("'idHelper' registered, but no id (Class) provided"))
    ensures |b.columns| > 0 && (b.idClass.Some? <==> b.idHelper.Some?) && !hasJdbcTemplate ==>
              r == Err(IllegalArgument("JdbcTemplate"))
    ensures r.Ok? <==> |b.columns| > 0 && (b.idClass.Some? <==> b.idHelper.Some?) && hasJdbcTemplate
    ensures r.Ok? ==> && r.value.id == b.idHelper && r.value.version == b.versionHelper
                      && r.value.regular == b.columns && r.value.empty == b.factory.empty
                      && r.value.entitySimpleName == b.factory.simpleName
                      && r.value.name == b.name && r.value.tableName == b.tableName
                      && r.value.tooManySuffixText == SuffixOrEmpty(b.tooManySuffixText)
  {
    if |b.columns| == 0 then Err(IllegalState("No Column (FieldHelper)s registered!"))
    else if b.idClass.Some? && b.idHelper.None? then
      Err(IllegalState("idClass (" + b.idClass.value + ") indicated, but no 'idHelper' registered"))
    else if b.idClass.None? && b.idHelper.Some? then
      Err(IllegalState("'idHelper' registered, but no id (Class) provided"))
    else if !hasJdbcTemplate then Err(IllegalArgument("JdbcTemplate"))
    else Ok(Helper(b.name, b.tableName, b.factory.simpleName, SuffixOrEmpty(b.tooManySuffixText),
                   b.factory.empty, b.idHelper, b.versionHelper, b.columns))
  }

  /** A built generator lists the id binding first, then the version
      binding, then the regular columns in registration order, and its
      SELECT selects them in that order; it has an id column exactly when an
      id class was given. */
  lemma BuiltColumnOrder(b: Builder, hasJdbcTemplate: bool)
    requires Build(b, hasJdbcTemplate).Ok?
    ensures var h := Build(b, hasJdbcTemplate).value;
            && AllColumns(h) == OptionalColumn(b.idHelper) + OptionalColumn(b.versionHelper) + b.columns
            && SelectAll(h) == SelectText(OptionalColumn(b.idHelper) + OptionalColumn(b.versionHelper) + b.columns, b.tableName)
            && (h.id.Some? <==> b.idClass.Some?)
            && |AllColumns(h)| > 0
  {
  }
}
