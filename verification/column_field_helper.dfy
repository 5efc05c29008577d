/** The column binding (`ColumnFieldHelper`): a column name, its insert rule,
    how to read the column from a result row, and how to read and write the
    matching field of an entity. */
module ColumnFieldHelpers {
  import opened Results
  import opened Text
  import opened Values

  /** How a column takes part in an INSERT: always, only when its value is
      not null, or never (a column the database fills in itself). */
  datatype InsertRule = Regular | IfNotNull | No

  /** The Java type a result-set getter reads. */
  datatype ValueKind = IntegerKind | LongKind | StringKind

  /** An entity, as the values of its fields by field name; an absent field reads as null. */
  type Entity = map<string, Value>

  /** One row of a query result, column 1 first. */
  type Row = seq<Value>

  /** A constructed binding. `producer` is the result-set getter, `setter`
      and `getter` the entity field they write and read. */
  datatype Column = Column(producer: ValueKind, name: string, rule: InsertRule, setter: string, getter: string)

  /** The getter applied to an entity. */
  function Get(e: Entity, field: string): Value
  {
    if field in e then e[field] else Null
  }

  /** The setter applied to an entity. */
  function Set(e: Entity, field: string, v: Value): (r: Entity)
    ensures Get(r, field) == v
    ensures forall f :: f != field ==> Get(r, f) == Get(e, f)
  {
    e[field := v]
  }

  /** Whether a getter of the given kind can read the value (SQL NULL always can). */
  predicate Fits(kind: ValueKind, v: Value)
  {
    match v
    case Null => true
    case Integer(_) => kind == IntegerKind
    case Long(_) => kind == LongKind
    case Str(_) => kind == StringKind
  }

  /** `ColumnTypeProducer.get(rs, columnIndex)`: the value at the 1-based
      column index, or a driver error for a bad index or an unreadable type. */
  function Produce(kind: ValueKind, row: Row, columnIndex: int): (r: Result<Value>)
    ensures r.Ok? <==> 1 <= columnIndex <= |row| && Fits(kind, row[columnIndex - 1])
    ensures r.Ok? ==> r.value == row[columnIndex - 1]
    ensures r.Err? ==> r.error.DataAccess?
  {
    if !(1 <= columnIndex <= |row|) then Err(DataAccess("Invalid column index"))
    else if !Fits(kind, row[columnIndex - 1]) then Err(DataAccess("Invalid conversion"))
    else Ok(row[columnIndex - 1])
  }

  /** The five-argument constructor. A null result-set getter, setter or getter,
      or a blank column name, is rejected as an illegal argument named after
      the parameter (checked in that order); a null insert rule means Regular. */
  function NewColumn(producer: Option<ValueKind>, columnName: string, insertRule: Option<InsertRule>,
                     setter: Option<string>, getter: Option<string>): (r: Result<Column>)
    ensures r.Ok? <==> producer.Some? && !IsBlank(columnName) && setter.Some? && getter.Some?
    ensures producer.None? ==> r == Err(IllegalArgument("resultSetGetter"))
    ensures producer.Some? && IsBlank(columnName) ==> r == Err(IllegalArgument("columnName"))
    ensures r.Err? ==> r.error.IllegalArgument?
    ensures r.Ok? ==> && r.value.producer == producer.value
                      && r.value.name == columnName
                      && r.value.rule == (if insertRule.Some? then insertRule.value else Regular)
                      && r.value.setter == setter.value
                      && r.value.getter == getter.value
  {
    if producer.None? then Err(IllegalArgument("resultSetGetter"))
    else if IsBlank(columnName) then Err(IllegalArgument("columnName"))
    else if setter.None? then Err(IllegalArgument("setter"))
    else if getter.None? then Err(IllegalArgument("getter"))
    else
      var rule := if insertRule.Some? then insertRule.value else Regular;
      Ok(Column(producer.value, columnName, rule, setter.value, getter.value))
  }

  /** The four-argument constructor: the same checks, and the rule is always Regular. */
  function NewRegularColumn(producer: Option<ValueKind>, columnName: string,
                            setter: Option<string>, getter: Option<string>): (r: Result<Column>)
    ensures r.Ok? <==> producer.Some? && !IsBlank(columnName) && setter.Some? && getter.Some?
    ensures r.Ok? ==> r.value == Column(producer.value, columnName, Regular, setter.value, getter.value)
    ensures r == NewColumn(producer, columnName, Some(Regular), setter, getter)
  {
    NewColumn(producer, columnName, None, setter, getter)
  }

  /** `map(target, rs, columnIndex)`: reads exactly the value at the given
      column index and stores that same value through the setter; no other
      field of the target changes. A read failure leaves no result. */
  function MapColumn(c: Column, target: Entity, row: Row, columnIndex: int): (r: Result<Entity>)
    ensures r.Ok? <==> 1 <= columnIndex <= |row| && Fits(c.producer, row[columnIndex - 1])
    ensures r.Ok? ==> Get(r.value, c.setter) == row[columnIndex - 1]
    ensures r.Ok? ==> forall f :: f != c.setter ==> Get(r.value, f) == Get(target, f)
    ensures r.Err? ==> r.error.DataAccess?
  {
    var value :- Produce(c.producer, row, columnIndex);
    Ok(Set(target, c.setter, value))
  }

  /** Mapping a column adds exactly its setter's field to the target's fields. */
  lemma MapColumnKeys(c: Column, target: Entity, row: Row, columnIndex: int)
    requires MapColumn(c, target, row, columnIndex).Ok?
    ensures MapColumn(c, target, row, columnIndex).value.Keys == target.Keys + {c.setter}
  {
  }
}
