/** The statement generator (`SQLhelper`): the column list of one entity
    table, the cached SELECT text, and the SQL text plus ordered bound values
    of every create, read, update and delete operation. Statement execution is
    the caller-supplied collaborator: `exec` answers the number of rows a
    mutating statement affected, `fetch` the raw rows a query returned. */
module SqlHelpers {
  import opened Results
  import opened Text
  import opened Values
  import opened Seqs
  import opened WhereClauses
  import opened ColumnFieldHelpers

  /** A parameterised statement: its SQL text and the values bound to its
      placeholders, in order. */
  datatype Statement = Statement(sql: string, args: seq<Value>)

  /** A built helper. `regular` are the columns registered with `add`, in
      registration order; `empty` is the entity the empty-entity factory
      produces; `entitySimpleName` is that entity's class name. */
  datatype Helper = Helper(
    name: string,
    tableName: string,
    entitySimpleName: string,
    tooManySuffixText: string,
    empty: Entity,
    id: Option<Column>,
    version: Option<Column>,
    regular: seq<Column>)

  function OptionalColumn(c: Option<Column>): seq<Column>
  {
    if c.Some? then [c.value] else []
  }

  /** Where the version column sits in the column list. */
  function VersionIndex(h: Helper): nat
  {
    if h.id.Some? then 1 else 0
  }

  /** The column list the constructor assembles with `addCFH`. */
  function AllColumns(h: Helper): seq<Column>
  {
    OptionalColumn(h.id) + OptionalColumn(h.version) + h.regular
  }

  /** The id column comes first, then the version column, then the regular
      columns in registration order. */
  lemma AllColumnsOrder(h: Helper)
    ensures var cols := AllColumns(h);
            && |cols| == |OptionalColumn(h.id)| + |OptionalColumn(h.version)| + |h.regular|
            && (h.id.Some? ==> cols[0] == h.id.value)
            && (h.version.Some? ==> cols[VersionIndex(h)] == h.version.value)
            && cols[|cols| - |h.regular|..] == h.regular
  {
  }

  predicate IsInsertable(c: Column)
  {
    c.rule != No
  }

  /** The insert list `addCFH` builds alongside the column list. */
  function InsertColumns(h: Helper): seq<Column>
  {
    Filter(AllColumns(h), IsInsertable)
  }

  /** The insert list holds exactly the columns whose rule is not No, as the
      subsequence of the column list at ascending positions. */
  lemma InsertColumnsAreSubsequence(h: Helper)
    ensures forall c :: c in InsertColumns(h) <==> c in AllColumns(h) && c.rule != No
    ensures InsertColumns(h) == Select(AllColumns(h), Positions(AllColumns(h), IsInsertable))
  {
    FilterIsSelection(AllColumns(h), IsInsertable);
  }

  function Names(cols: seq<Column>): seq<string>
  {
    seq(|cols|, i requires 0 <= i < |cols| => cols[i].name)
  }

  /** The values the columns' getters read from an entity, in column order. */
  function GetterValues(cols: seq<Column>, e: Entity): Row
  {
    seq(|cols|, i requires 0 <= i < |cols| => Get(e, cols[i].getter))
  }

  lemma NamesSnoc(cols: seq<Column>, c: Column)
    ensures Names(cols + [c]) == Names(cols) + [c.name]
  {
  }

  // ----- SELECT -----

  /** "SELECT c1, c2, ... FROM table" over the given columns in order. */
  function SelectText(cols: seq<Column>, tableName: string): string
  {
    "SELECT" + (if |cols| == 0 then "" else " " + Join(Names(cols), ", ")) + " FROM " + tableName
  }

  /** The SELECT text the constructor caches. */
  function SelectAll(h: Helper): string
  {
    SelectText(AllColumns(h), h.tableName)
  }

  /** `createSelectAll`: one pass appending "prefix + space + name", the
      prefix becoming a comma after the first column. The result selects the
      columns in column-list order, comma-separated. */
  method CreateSelectAll(cols: seq<Column>, tableName: string) returns (sql: string)
    ensures sql == SelectText(cols, tableName)
  {
    var sb := "SELECT";
    var prefix := "";
    for i := 0 to |cols|
      invariant sb == "SELECT" + (if i == 0 then "" else " " + Join(Names(cols[..i]), ", "))
      invariant prefix == if i == 0 then "" else ","
    {
      assert cols[..i + 1] == cols[..i] + [cols[i]];
      NamesSnoc(cols[..i], cols[i]);
      JoinSnoc(Names(cols[..i]), cols[i].name, ", ");
      sb := sb + prefix + " " + cols[i].name;
      prefix := ",";
    }
    assert cols[..|cols|] == cols;
    sql := sb + " FROM " + tableName;
  }

  // ----- mapRow -----

  /** `map` applied to the first `n` columns in order, column `j` reading the
      1-based column index `j + 1`; it fails on the first column that cannot
      be read. */
  function MapColumns(cols: seq<Column>, row: Row, target: Entity, n: nat): (r: Result<Entity>)
    requires n <= |cols|
    ensures r.Ok? <==> n <= |row| && forall j :: 0 <= j < n ==> Fits(cols[j].producer, row[j])
    ensures r.Err? ==> r.error.DataAccess?
  {
    if n == 0 then Ok(target)
    else
      var t :- MapColumns(cols, row, target, n - 1);
      MapColumn(cols[n - 1], t, row, n)
  }

  /** After mapping, each field holds the value read for the last column
      that sets it, and fields no column sets keep the target's value. */
  lemma {:induction false} MapColumnsWrites(cols: seq<Column>, row: Row, target: Entity, n: nat)
    requires n <= |cols|
    requires MapColumns(cols, row, target, n).Ok?
    ensures forall j :: 0 <= j < n && LastSetter(cols, n, j) ==>
              Get(MapColumns(cols, row, target, n).value, cols[j].setter) == row[j]
    ensures forall f :: NotSetBy(cols, n, f) ==> Get(MapColumns(cols, row, target, n).value, f) == Get(target, f)
  {
    if n > 0 {
      MapColumnsWrites(cols, row, target, n - 1);
      var prev := MapColumns(cols, row, target, n - 1).value;
      var last := cols[n - 1];
      var r := MapColumns(cols, row, target, n).value;
      assert r == Set(prev, last.setter, row[n - 1]);
      forall j | 0 <= j < n && LastSetter(cols, n, j)
        ensures Get(r, cols[j].setter) == row[j]
      {
        if j < n - 1 {
          assert cols[n - 1].setter != cols[j].setter;
          assert LastSetter(cols, n - 1, j);
        }
      }
      forall f | NotSetBy(cols, n, f)
        ensures Get(r, f) == Get(target, f)
      {
        assert NotSetBy(cols, n - 1, f);
        assert last.setter != f;
      }
    }
  }

  /** No column after `j` among the first `n` writes the field column `j` writes. */
  predicate LastSetter(cols: seq<Column>, n: nat, j: nat)
    requires j < n <= |cols|
  {
    forall k :: j < k < n ==> cols[k].setter != cols[j].setter
  }

  /** None of the first `n` columns writes field `f`. */
  predicate NotSetBy(cols: seq<Column>, n: nat, f: string)
    requires n <= |cols|
  {
    forall j :: 0 <= j < n ==> cols[j].setter != f
  }

  /** `mapRow`: a fresh entity from the factory, filled column by column. */
  function MapRow(h: Helper, row: Row): (r: Result<Entity>)
    ensures r.Err? ==> r.error.DataAccess?
  {
    MapColumns(AllColumns(h), row, h.empty, |AllColumns(h)|)
  }

  /** `mapRow` succeeds exactly when the row has a readable value of the
      right type at every column's ordinal; then each column's field holds
      the value read at its ordinal (the later column winning when two set
      the same field), and every other field is the factory entity's. */
  lemma MapRowFields(h: Helper, row: Row)
    ensures var cols := AllColumns(h);
            MapRow(h, row).Ok? <==> |cols| <= |row| && forall j :: 0 <= j < |cols| ==> Fits(cols[j].producer, row[j])
    ensures var cols := AllColumns(h);
            MapRow(h, row).Ok? ==>
              && (forall j :: 0 <= j < |cols| && LastSetter(cols, |cols|, j) ==> Get(MapRow(h, row).value, cols[j].setter) == row[j])
              && (forall f :: NotSetBy(cols, |cols|, f) ==> Get(MapRow(h, row).value, f) == Get(h.empty, f))
  {
    var cols := AllColumns(h);
    if MapRow(h, row).Ok? {
      MapColumnsWrites(cols, row, h.empty, |cols|);
    }
  }

  /** Reading back a row made of an entity's own column values, in column
      order, restores every mapped field, when each column's setter and
      getter address the same field and each value has the column's type. */
  lemma {:induction false} MapColumnsRoundTrip(cols: seq<Column>, e: Entity, target: Entity, n: nat)
    requires n <= |cols|
    requires forall j :: 0 <= j < |cols| ==> cols[j].setter == cols[j].getter
    requires forall j :: 0 <= j < |cols| ==> Fits(cols[j].producer, Get(e, cols[j].getter))
    ensures MapColumns(cols, GetterValues(cols, e), target, n).Ok?
    ensures forall j :: 0 <= j < n ==>
              Get(MapColumns(cols, GetterValues(cols, e), target, n).value, cols[j].getter) == Get(e, cols[j].getter)
  {
    var row := GetterValues(cols, e);
    if n > 0 {
      MapColumnsRoundTrip(cols, e, target, n - 1);
      var prev := MapColumns(cols, row, target, n - 1).value;
      var last := cols[n - 1];
      assert Fits(last.producer, row[n - 1]);
      var step := MapColumn(last, prev, row, n);
      assert step.Ok?;
      var r := step.value;
      assert MapColumns(cols, row, target, n) == step;
      forall j | 0 <= j < n
        ensures Get(r, cols[j].getter) == Get(e, cols[j].getter)
      {
        if cols[j].getter == last.setter {
          assert Get(r, last.setter) == row[n - 1];
        } else {
          assert Get(r, cols[j].getter) == Get(prev, cols[j].getter);
        }
      }
    }
  }

  /** The round trip for a helper: mapping the row of an entity's column
      values, in SELECT order, reconstructs an entity equal on all mapped fields. */
  lemma MapRowRoundTrip(h: Helper, e: Entity)
    requires forall c :: c in AllColumns(h) ==> c.setter == c.getter && Fits(c.producer, Get(e, c.getter))
    ensures MapRow(h, GetterValues(AllColumns(h), e)).Ok?
    ensures forall c :: c in AllColumns(h) ==> Get(MapRow(h, GetterValues(AllColumns(h), e)).value, c.getter) == Get(e, c.getter)
  {
    var cols := AllColumns(h);
    MapColumnsRoundTrip(cols, e, h.empty, |cols|);
    forall c | c in cols
      ensures Get(MapRow(h, GetterValues(cols, e)).value, c.getter) == Get(e, c.getter)
    {
      var j :| 0 <= j < |cols| && cols[j] == c;
    }
  }

  // ----- INSERT -----

  /** A column on the insert list takes part in the INSERT when its value is
      not null or its rule is Regular. */
  function IncludedIn(e: Entity): Column -> bool
  {
    (c: Column) => Get(e, c.getter) != Null || c.rule == Regular
  }

  /** The columns an INSERT of `e` names, in column order. */
  function InsertedColumns(h: Helper, e: Entity): seq<Column>
  {
    Filter(InsertColumns(h), IncludedIn(e))
  }

  /** A column is inserted exactly when its rule is not No and its value is
      not null or its rule is Regular. */
  lemma InsertedColumnsChoice(h: Helper, e: Entity)
    ensures forall c :: c in InsertedColumns(h, e) <==>
                          c in AllColumns(h) && c.rule != No && (Get(e, c.getter) != Null || c.rule == Regular)
  {
  }

  /** "INSERT INTO t (a, b) VALUES (?, ?)" with the inserted columns' values. */
  function InsertStatement(h: Helper, e: Entity): Statement
  {
    InsertText(h.tableName, InsertedColumns(h, e), e)
  }

  function InsertText(tableName: string, cols: seq<Column>, e: Entity): Statement
  {
    Statement("INSERT INTO " + tableName + " (" + Join(Names(cols), ", ") + ") VALUES ("
              + Join(Marks(|cols|), ", ") + ")",
              GetterValues(cols, e))
  }

  /** The statement text `insert` builds: one pass over the insert list
      filling the column list, the placeholder list and the values together. */
  method BuildInsertStatement(h: Helper, e: Entity) returns (stmt: Statement)
    ensures stmt == InsertStatement(h, e)
  {
    stmt := BuildInsert(h.tableName, InsertColumns(h), e);
  }

  method BuildInsert(tableName: string, insertCFHs: seq<Column>, e: Entity) returns (stmt: Statement)
    ensures stmt == InsertText(tableName, Filter(insertCFHs, IncludedIn(e)), e)
  {
    var sbColumns := "INSERT INTO " + tableName + " (";
    var sbValues := ") VALUES (";
    var values: seq<Value> := [];
    var prefix := "";
    ghost var head := sbColumns;
    ghost var chosen: seq<Column> := [];
    for i := 0 to |insertCFHs|
      invariant chosen == Filter(insertCFHs[..i], IncludedIn(e))
      invariant InsertProgress(head, chosen, e, sbColumns, sbValues, values, prefix)
    {
      FilterStep(insertCFHs, IncludedIn(e), i);
      var cfh := insertCFHs[i];
      var value := Get(e, cfh.getter);
      if value != Null || cfh.rule == Regular {
        InsertStep(head, chosen, cfh, e, sbColumns, sbValues, values, prefix);
        values := values + [value];
        sbColumns := sbColumns + prefix + cfh.name;
        sbValues := sbValues + prefix + "?";
        prefix := ", ";
        chosen := chosen + [cfh];
      }
    }
    assert insertCFHs[..|insertCFHs|] == insertCFHs;
    AppendInner(sbColumns, ") VALUES (", Join(Marks(|chosen|), ", "), ")");
    stmt := Statement(sbColumns + sbValues + ")", values);
  }

  /** What the insert loop has built once it has included `chosen`. */
  ghost predicate InsertProgress(head: string, chosen: seq<Column>, e: Entity,
                                 sbColumns: string, sbValues: string, values: seq<Value>, prefix: string)
  {
    && sbColumns == head + Join(Names(chosen), ", ")
    && sbValues == ") VALUES (" + Join(Marks(|chosen|), ", ")
    && values == GetterValues(chosen, e)
    && prefix == if |chosen| == 0 then "" else ", "
  }

  /** One more element of a prefix is filtered like the last element of `Filter`. */
  lemma FilterStep<T(!new)>(s: seq<T>, keep: T -> bool, i: nat)
    requires i < |s|
    ensures Filter(s[..i + 1], keep) == Filter(s[..i], keep) + if keep(s[i]) then [s[i]] else []
  {
    assert s[..i + 1][..i] == s[..i];
  }

  /** Including one more column extends the name list, the placeholder list
      and the values by one entry each. */
  lemma InsertStep(head: string, chosen: seq<Column>, c: Column, e: Entity,
                   sbColumns: string, sbValues: string, values: seq<Value>, prefix: string)
    requires InsertProgress(head, chosen, e, sbColumns, sbValues, values, prefix)
    ensures InsertProgress(head, chosen + [c], e, sbColumns + prefix + c.name, sbValues + prefix + "?",
                           values + [Get(e, c.getter)], ", ")
  {
    NamesSnoc(chosen, c);
    JoinStep(head, Names(chosen), c.name, prefix);
    assert Marks(|chosen|) + ["?"] == Marks(|chosen| + 1);
    JoinStep(") VALUES (", Marks(|chosen|), "?", prefix);
  }

  /** Appending one more element to a comma-joined list after a fixed head. */
  lemma JoinStep(head: string, parts: seq<string>, next: string, prefix: string)
    requires prefix == if |parts| == 0 then "" else ", "
    ensures head + Join(parts, ", ") + prefix + next == head + Join(parts + [next], ", ")
  {
    JoinSnoc(parts, next, ", ");
    AppendTwo(head, Join(parts, ", "), prefix, next);
  }

  /** The INSERT names as many columns as it has placeholders and binds as
      many values, when neither the table nor a column name contains a `?`. */
  lemma InsertPlaceholders(h: Helper, e: Entity)
    requires '?' !in h.tableName
    requires forall c :: c in AllColumns(h) ==> '?' !in c.name
    ensures |Names(InsertedColumns(h, e))| == |InsertStatement(h, e).args|
    ensures Occurrences(InsertStatement(h, e).sql, '?') == |InsertStatement(h, e).args|
  {
    var cols := InsertedColumns(h, e);
    var names := Join(Names(cols), ", ");
    var marks := Join(Marks(|cols|), ", ");
    JoinWithoutMarks(Names(cols), ", ");
    JoinMarksCount(|cols|, ", ");
    var head := "INSERT INTO " + h.tableName + " (";
    assert '?' !in head;
    OccurrencesAbsent(head, '?');
    OccurrencesAbsent(names, '?');
    OccurrencesAbsent(") VALUES (", '?');
    OccurrencesAbsent(")", '?');
    OccurrencesAppend(head, names, '?');
    OccurrencesAppend(head + names, ") VALUES (", '?');
    OccurrencesAppend(head + names + ") VALUES (", marks, '?');
    OccurrencesAppend(head + names + ") VALUES (" + marks, ")", '?');
  }

  /** `insert`: a null entity is an illegal argument; an INSERT that would name
      no column fails before anything is executed; an INSERT that affects no
      row fails; otherwise the executed statement is returned. */
  function Insert(h: Helper, toInsert: Option<Entity>, exec: Statement -> nat): (r: Result<Statement>)
    ensures toInsert.None? ==> r.Err? && r.error.IllegalArgument?
    ensures toInsert.Some? && |InsertedColumns(h, toInsert.value)| == 0 ==>
              r == Err(IllegalState("Insert Error -- All columns skipped for " + h.name + ": "))
    ensures toInsert.Some? ==>
              (r.Ok? <==> |InsertedColumns(h, toInsert.value)| > 0 && exec(InsertStatement(h, toInsert.value)) > 0)
    ensures r.Ok? ==> r.value == InsertStatement(h, toInsert.value)
    ensures r.Err? && r.error.IncorrectResultSize? ==> r.error.expected == 1 && r.error.actual == 0
  {
    if toInsert.None? then Err(IllegalArgument("toInsert entity"))
    else
      var stmt := InsertStatement(h, toInsert.value);
      if |stmt.args| == 0 then Err(IllegalState("Insert Error -- All columns skipped for " + h.name + ": "))
      else if exec(stmt) == 0 then Err(IncorrectResultSize("Insert Failed for " + h.name + ": ", 1, 0))
      else Ok(stmt)
  }

  // ----- UPDATE -----

  /** The columns the SET clause assigns: every column but the id, in column order. */
  function SetColumns(h: Helper): seq<Column>
  {
    OptionalColumn(h.version) + h.regular
  }

  /** The SET columns are the column list after the id column. */
  lemma SetColumnsFollowId(h: Helper)
    ensures SetColumns(h) == AllColumns(h)[|OptionalColumn(h.id)|..]
  {
  }

  /** The values bound to a SET clause over `cols`: `bumped`, when present,
      for the first column, and every other column's getter value. */
  function SetRow(cols: seq<Column>, bumped: Option<Value>, e: Entity): Row
  {
    seq(|cols|, j requires 0 <= j < |cols| => if bumped.Some? && j == 0 then bumped.value else Get(e, cols[j].getter))
  }

  /** The bumped version: the old version plus one, in Java `int` arithmetic. */
  function Bumped(h: Helper, versionValue: int32): Option<Value>
  {
    if h.version.Some? then Some(Integer(Increment(versionValue))) else None
  }

  /** The values bound to the SET clause: the version column gets the bumped
      version, every other column its getter value. */
  function SetValues(h: Helper, e: Entity, versionValue: int32): Row
  {
    SetRow(SetColumns(h), Bumped(h, versionValue), e)
  }

  function Assignments(cols: seq<Column>): seq<string>
  {
    seq(|cols|, j requires 0 <= j < |cols| => cols[j].name + " = ?")
  }

  /** " a = ?, b = ?" over the columns, or nothing when there are none. */
  function SetText(cols: seq<Column>): string
  {
    if |cols| == 0 then "" else " " + Join(Assignments(cols), ", ")
  }

  /** "UPDATE t SET a = ?, b = ? WHERE id = ?[ AND version = ?]", binding the
      SET values, then the id, then the old version. */
  function UpdateStatement(h: Helper, e: Entity, idValue: Value, versionValue: int32): Statement
    requires h.id.Some?
  {
    var byId := Statement("UPDATE " + h.tableName + " SET" + SetText(SetColumns(h))
                          + " WHERE " + h.id.value.name + " = ?",
                          SetValues(h, e, versionValue) + [idValue]);
    if h.version.Some? then
      Statement(byId.sql + " AND " + h.version.value.name + " = ?", byId.args + [Integer(versionValue)])
    else byId
  }

  /** The statement text `updateById` builds: the SET clause, then the id
      condition, then the version condition. */
  method BuildUpdateStatement(h: Helper, e: Entity, idValue: Value, versionValue: int32) returns (stmt: Statement)
    requires h.id.Some?
    ensures stmt == UpdateStatement(h, e, idValue, versionValue)
  {
    SetColumnsFollowId(h);
    var setText, values := BuildSet(AllColumns(h), |OptionalColumn(h.id)|, Bumped(h, versionValue), e);
    var sb := "UPDATE " + h.tableName + " SET" + setText;
    sb := sb + " WHERE " + h.id.value.name + " = ?";
    values := values + [idValue];
    if h.version.Some? {
      sb := sb + " AND " + h.version.value.name + " = ?";
      values := values + [Integer(versionValue)];
    }
    stmt := Statement(sb, values);
  }

  /** The SET loop of `updateById`: one pass over the column list that skips
      the first `skip` columns (the id) and binds `bumped`, when present, to
      the first column it assigns (the version). */
  method BuildSet(all: seq<Column>, skip: nat, bumped: Option<Value>, e: Entity) returns (setText: string, values: seq<Value>)
    requires skip <= |all|
    ensures setText == SetText(all[skip..])
    ensures values == SetRow(all[skip..], bumped, e)
  {
    ghost var sets := all[skip..];
    var sb := "";
    values := [];
    var prefix := " ";
    for i := 0 to |all|
      invariant SetProgress(sets, if i < skip then 0 else i - skip, bumped, e, sb, values, prefix)
    {
      if i >= skip {
        var cfh := all[i];
        assert cfh == sets[i - skip];
        var fieldValue := if bumped.Some? && i == skip then bumped.value else Get(e, cfh.getter);
        SetStep(sets, i - skip, bumped, e, sb, values, prefix);
        values := values + [fieldValue];
        sb := sb + prefix + cfh.name + " = ?";
        prefix := ", ";
      }
    }
    assert sets[..|sets|] == sets;
    setText := sb;
  }

  /** What the SET loop has built after assigning the first `k` columns. */
  ghost predicate SetProgress(sets: seq<Column>, k: nat, bumped: Option<Value>, e: Entity,
                              sb: string, values: seq<Value>, prefix: string)
  {
    && k <= |sets|
    && sb == SetText(sets[..k])
    && values == SetRow(sets, bumped, e)[..k]
    && prefix == if k == 0 then " " else ", "
  }

  /** Assigning one more column extends the SET text by its assignment and
      the values by its bound value. */
  lemma SetStep(sets: seq<Column>, k: nat, bumped: Option<Value>, e: Entity,
                sb: string, values: seq<Value>, prefix: string)
    requires k < |sets|
    requires SetProgress(sets, k, bumped, e, sb, values, prefix)
    ensures SetProgress(sets, k + 1, bumped, e, sb + prefix + sets[k].name + " = ?",
                        values + [if bumped.Some? && k == 0 then bumped.value else Get(e, sets[k].getter)], ", ")
  {
    SetTextStep(sets, k);
    assert (sb + prefix) + (sets[k].name + " = ?") == sb + prefix + sets[k].name + " = ?";
  }

  /** One more assignment of the SET list, joined like the last element of `Join`. */
  lemma SetTextStep(sets: seq<Column>, k: nat)
    requires k < |sets|
    ensures SetText(sets[..k + 1]) == SetText(sets[..k]) + (if k == 0 then " " else ", ") + (sets[k].name + " = ?")
  {
    assert Assignments(sets[..k + 1]) == Assignments(sets[..k]) + [sets[k].name + " = ?"];
    JoinSnoc(Assignments(sets[..k]), sets[k].name + " = ?", ", ");
    if k > 0 {
      AppendTwo(" ", Join(Assignments(sets[..k]), ", "), ", ", sets[k].name + " = ?");
    }
  }

  /** The UPDATE binds, in order: the new version (old plus one, which always
      differs from the old), every regular column's value, the id, and the
      old version. */
  lemma UpdateBindings(h: Helper, e: Entity, idValue: Value, versionValue: int32)
    requires h.id.Some?
    ensures var args := UpdateStatement(h, e, idValue, versionValue).args;
            var v := |OptionalColumn(h.version)|;
            && |args| == 2 * v + |h.regular| + 1
            && (forall k :: 0 <= k < |h.regular| ==> args[v + k] == Get(e, h.regular[k].getter))
            && args[v + |h.regular|] == idValue
            && (h.version.Some? ==>
                  && args[0] == Integer(Increment(versionValue))
                  && args[|args| - 1] == Integer(versionValue)
                  && args[0] != args[|args| - 1])
  {
    var v := |OptionalColumn(h.version)|;
    var sets := SetColumns(h);
    var row := SetValues(h, e, versionValue);
    var args := UpdateStatement(h, e, idValue, versionValue).args;
    assert args == row + [idValue] + (if h.version.Some? then [Integer(versionValue)] else []);
    assert |row| == v + |h.regular|;
    forall k | 0 <= k < |h.regular|
      ensures args[v + k] == Get(e, h.regular[k].getter)
    {
      assert sets[v + k] == h.regular[k];
      assert row[v + k] == Get(e, sets[v + k].getter);
    }
  }

  /** The UPDATE holds one `?` per bound value when no name holds a `?`. */
  lemma UpdatePlaceholders(h: Helper, e: Entity, idValue: Value, versionValue: int32)
    requires h.id.Some?
    requires '?' !in h.tableName
    requires forall c :: c in AllColumns(h) ==> '?' !in c.name
    ensures Occurrences(UpdateStatement(h, e, idValue, versionValue).sql, '?') ==
            |UpdateStatement(h, e, idValue, versionValue).args|
  {
    var sets := SetColumns(h);
    forall c | c in sets
      ensures '?' !in c.name
    {
      assert c in AllColumns(h);
    }
    assert h.id.value in AllColumns(h);
    ByIdMarks(h.tableName, sets, h.id.value.name);
    assert |SetValues(h, e, versionValue)| == |sets|;
    if h.version.Some? {
      assert h.version.value in AllColumns(h);
      var byId := "UPDATE " + h.tableName + " SET" + SetText(sets) + " WHERE " + h.id.value.name + " = ?";
      ConditionMark(byId, " AND ", h.version.value.name);
    }
  }

  /** The UPDATE text up to its id condition holds one `?` per SET column and one for the id. */
  lemma ByIdMarks(tableName: string, sets: seq<Column>, idName: string)
    requires '?' !in tableName && '?' !in idName
    requires forall c :: c in sets ==> '?' !in c.name
    ensures Occurrences("UPDATE " + tableName + " SET" + SetText(sets) + " WHERE " + idName + " = ?", '?') == |sets| + 1
  {
    var head := "UPDATE " + tableName + " SET";
    assert '?' !in head;
    OccurrencesAbsent(head, '?');
    SetTextMarks(sets);
    OccurrencesAppend(head, SetText(sets), '?');
    ConditionMark(head + SetText(sets), " WHERE ", idName);
    assert Occurrences(head + SetText(sets), '?') == |sets|;
  }

  /** Each assignment "name = ?" whose name holds no `?` adds one `?`. */
  lemma {:induction false} SetTextMarks(cols: seq<Column>)
    requires forall c :: c in cols ==> '?' !in c.name
    ensures Occurrences(SetText(cols), '?') == |cols|
  {
    var assigns := Assignments(cols);
    forall j | 0 <= j < |assigns|
      ensures Occurrences(assigns[j], '?') == 1
    {
      assert cols[j] in cols;
      ComparisonMark(cols[j].name, " = ?");
    }
    SetMarks(assigns);
    if |cols| > 0 {
      OccurrencesAppend(" ", Join(assigns, ", "), '?');
    }
  }

  /** Joining texts that each hold one `?` with ", " yields one `?` per text. */
  lemma {:induction false} SetMarks(assigns: seq<string>)
    requires forall j :: 0 <= j < |assigns| ==> Occurrences(assigns[j], '?') == 1
    ensures Occurrences(Join(assigns, ", "), '?') == |assigns|
  {
    if |assigns| > 1 {
      var init := assigns[..|assigns| - 1];
      SetMarks(init);
      OccurrencesAppend(Join(init, ", ") + ", ", assigns[|assigns| - 1], '?');
      OccurrencesAppend(Join(init, ", "), ", ", '?');
      OccurrencesAbsent(", ", '?');
    }
  }

  /** The message of `assertEntityTypeHasID`: the operation, then the entity
      class name in parentheses, then the complaint. */
  function NoIdMessage(what: string, h: Helper): (r: string)
    ensures what <= r
    ensures r[|what|..] == " (" + h.entitySimpleName + ") does NOT have an ID field!"
  {
    what + " (" + h.entitySimpleName + ") does NOT have an ID field!"
  }

  /** The message of `assertVersionIsInteger` for a version value that is not an Integer. */
  function VersionMessage(h: Helper, idValue: Value, found: Value): (r: string)
    requires h.id.Some? && h.version.Some?
    ensures var head := "Updated " + h.entitySimpleName + " with " + h.id.value.name + "=" + Show(idValue)
                        + " was expected to have a " + h.version.value.name + " field that is a 'Integer' value, but found";
            && head <= r
            && (found.Null? ==> r[|head|..] == ": null")
            && (!found.Null? ==> r[|head|..] == " '" + SimpleClassName(found) + "' of: " + Show(found))
  {
    "Updated " + h.entitySimpleName + " with " + h.id.value.name + "=" + Show(idValue)
    + " was expected to have a " + h.version.value.name + " field that is a 'Integer' value, but found"
    + (if found.Null? then ": null" else " '" + SimpleClassName(found) + "' of: " + Show(found))
  }

  /** `updateById`. Without an id column it is an illegal state; a null entity
      or a null id value is an illegal argument; a version value that is not
      an Integer (null included) is an illegal state. Otherwise the UPDATE is
      executed and the answer is whether it affected a row: false is the
      optimistic-lock failure signal, not an error. */
  function UpdateById(h: Helper, updated: Option<Entity>, exec: Statement -> nat): (r: Result<bool>)
    ensures h.id.None? ==> r == Err(IllegalState(NoIdMessage("updated entity", h)))
    ensures h.id.Some? && updated.None? ==> r.Err? && r.error.IllegalArgument?
    ensures h.id.Some? && updated.Some? && Get(updated.value, h.id.value.getter).Null? ==>
              r.Err? && r.error.IllegalArgument?
    ensures h.id.Some? && updated.Some? && !Get(updated.value, h.id.value.getter).Null? &&
            h.version.Some? && !Get(updated.value, h.version.value.getter).Integer? ==>
              r == Err(IllegalState(VersionMessage(h, Get(updated.value, h.id.value.getter),
                                                   Get(updated.value, h.version.value.getter))))
    ensures r.Ok? <==> && h.id.Some? && updated.Some?
                       && !Get(updated.value, h.id.value.getter).Null?
                       && (h.version.Some? ==> Get(updated.value, h.version.value.getter).Integer?)
    ensures r.Ok? ==>
              var e := updated.value;
              var version := if h.version.Some? then Get(e, h.version.value.getter).i else Int32Min;
              r.value <==> exec(UpdateStatement(h, e, Get(e, h.id.value.getter), version)) > 0
  {
    if h.id.None? then Err(IllegalState(NoIdMessage("updated entity", h)))
    else if updated.None? then Err(IllegalArgument("updated entity (" + h.entitySimpleName + ") was NULL"))
    else
      var e := updated.value;
      var idValue := Get(e, h.id.value.getter);
      if idValue.Null? then
        Err(IllegalArgument("ID field for updated entity (" + h.entitySimpleName + ") was NULL, but is required: "))
      else if h.version.Some? && !Get(e, h.version.value.getter).Integer? then
        Err(IllegalState(VersionMessage(h, idValue, Get(e, h.version.value.getter))))
      else
        var versionValue := if h.version.Some? then Get(e, h.version.value.getter).i else Int32Min;
        Ok(0 < exec(UpdateStatement(h, e, idValue, versionValue)))
  }

  // ----- DELETE -----

  /** "DELETE FROM t WHERE <id> = ?", binding the id. */
  function DeleteStatement(h: Helper, id: Value): Statement
    requires h.id.Some?
  {
    Statement("DELETE FROM " + h.tableName + " WHERE " + h.id.value.name + " = ?", [id])
  }

  /** `deleteByID`: needs an id column (its message names "readById", as the
      library's does) and a non-null id; answers whether a row was deleted. */
  function DeleteById(h: Helper, id: Value, exec: Statement -> nat): (r: Result<bool>)
    ensures h.id.None? ==> r == Err(IllegalState(NoIdMessage("readById", h)))
    ensures h.id.Some? && id.Null? ==> r == Err(IllegalArgument(h.id.value.name))
    ensures r.Ok? <==> h.id.Some? && !id.Null?
    ensures r.Ok? ==> (r.value <==> exec(DeleteStatement(h, id)) > 0)
  {
    if h.id.None? then Err(IllegalState(NoIdMessage("readById", h)))
    else
      var sql := "DELETE FROM " + h.tableName + " WHERE " + h.id.value.name + " = ?";
      if id.Null? then Err(IllegalArgument(h.id.value.name))
      else Ok(0 < exec(Statement(sql, [id])))
  }

  // ----- queries -----

  /** Every row mapped with `mapRow`, in result order; the first row that
      cannot be mapped fails the query. */
  function MapRows(h: Helper, rows: seq<Row>): (r: Result<seq<Entity>>)
    ensures r.Ok? <==> forall i :: 0 <= i < |rows| ==> MapRow(h, rows[i]).Ok?
    ensures r.Ok? ==> |r.value| == |rows| && forall i :: 0 <= i < |rows| ==> r.value[i] == MapRow(h, rows[i]).value
  {
    if |rows| == 0 then Ok([])
    else
      var init :- MapRows(h, rows[..|rows| - 1]);
      var last :- MapRow(h, rows[|rows| - 1]);
      Ok(init + [last])
  }

  /** `query(sql, args...)`: the mapped rows, in result order, never null. */
  function Query(h: Helper, stmt: Statement, fetch: Statement -> Result<seq<Row>>): (r: Result<seq<Entity>>)
    ensures r.Ok? <==> fetch(stmt).Ok? && MapRows(h, fetch(stmt).value).Ok?
    ensures r.Ok? ==> |r.value| == |fetch(stmt).value|
    ensures r.Ok? ==> r.value == MapRows(h, fetch(stmt).value).value
  {
    var rows :- fetch(stmt);
    MapRows(h, rows)
  }

  /** `optionalOrderBy`: nothing for an absent or blank order, else a space and the order. */
  function OptionalOrderBy(orderBy: Option<string>): (r: string)
    ensures r == "" <==> orderBy.None? || IsBlank(orderBy.value)
    ensures r != "" ==> r == " " + orderBy.value
  {
    if orderBy.None? || IsBlank(orderBy.value) then "" else " " + orderBy.value
  }

  /** The statement of `query(whereClause, orderBy)`: SELECT, the filter, the order. */
  function QueryStatement(h: Helper, wc: Option<Clause>, orderBy: Option<string>): (stmt: Statement)
    ensures stmt.args == QuestionMarkValues(DeNull(wc))
    ensures wc.None? ==> stmt.sql == SelectAll(h) + OptionalOrderBy(orderBy)
    ensures wc.Some? ==> stmt.sql == SelectAll(h) + GetText(wc.value) + OptionalOrderBy(orderBy)
  {
    var w := DeNull(wc);
    var select := SelectAll(h);
    assert wc.None? ==> select + GetText(w) == select;
    Statement(select + GetText(w) + OptionalOrderBy(orderBy), QuestionMarkValues(w))
  }

  /** `query(whereClause, orderBy)`; an absent filter selects every row. */
  function QueryWhere(h: Helper, wc: Option<Clause>, orderBy: Option<string>,
                      fetch: Statement -> Result<seq<Row>>): (r: Result<seq<Entity>>)
    ensures var stmt := QueryStatement(h, wc, orderBy);
            && (r.Ok? <==> fetch(stmt).Ok? && MapRows(h, fetch(stmt).value).Ok?)
            && (r.Ok? ==> r.value == MapRows(h, fetch(stmt).value).value)
  {
    Query(h, QueryStatement(h, wc, orderBy), fetch)
  }

  /** The arguments of a too-many message: nothing when there are none,
      otherwise ": " and the arguments separated by ", ". */
  function ArgumentList(args: seq<Value>): (r: string)
    ensures |args| == 0 <==> r == ""
  {
    if |args| == 0 then "" else ": " + Join(seq(|args|, i requires 0 <= i < |args| => Show(args[i])), ", ")
  }

  /** "<n> <name> Records found[ <suffix>]: a1, a2, ..." */
  function TooManyMessage(h: Helper, n: nat, args: seq<Value>): (r: string)
    ensures NatToString(n) + " " + h.name + " Records found" <= r
    ensures |args| == 0 && h.tooManySuffixText == "" ==> r == NatToString(n) + " " + h.name + " Records found"
  {
    NatToString(n) + " " + h.name + " Records found"
    + (if h.tooManySuffixText == "" then "" else " " + h.tooManySuffixText)
    + ArgumentList(args)
  }

  /** `query1(sql, inserted, args...)`: one row gives its entity; no row gives
      null, unless `inserted` says a row was just stored, which is then an
      incorrect result size; two or more rows are an incorrect result size
      reporting their count and the bound arguments. */
  function Query1(h: Helper, stmt: Statement, inserted: Option<Entity>,
                  fetch: Statement -> Result<seq<Row>>): (r: Result<Option<Entity>>)
    ensures Query(h, stmt, fetch).Err? ==> r == Err(Query(h, stmt, fetch).error)
    ensures Query(h, stmt, fetch).Ok? ==>
              var found := Query(h, stmt, fetch).value;
              && (|found| == 1 ==> r == Ok(Some(found[0])))
              && (|found| == 0 ==> (r.Ok? <==> inserted.None?) && (r.Ok? ==> r.value.None?))
              && (|found| == 0 && inserted.Some? ==> r.Err? && r.error == IncorrectResultSize(r.error.message, 1, 0))
              && (|found| >= 2 ==> r == Err(IncorrectResultSize(TooManyMessage(h, |found|, stmt.args), 1, |found|)))
  {
    var entities :- Query(h, stmt, fetch);
    if |entities| == 1 then Ok(Some(entities[0]))
    else if |entities| == 0 then
      if inserted.Some? then Err(IncorrectResultSize("No " + h.name + " Record Stored for: ", 1, 0)) else Ok(None)
    else Err(IncorrectResultSize(TooManyMessage(h, |entities|, stmt.args), 1, |entities|))
  }

  /** The message is built like the library's loop: the count, the name and
      the suffix, then ": " before the first argument and ", " before every
      later one. */
  method BuildTooManyMessage(h: Helper, n: nat, args: seq<Value>) returns (text: string)
    ensures text == TooManyMessage(h, n, args)
  {
    text := NatToString(n) + " " + h.name + " Records found";
    if h.tooManySuffixText != "" {
      text := text + " " + h.tooManySuffixText;
    }
    text := AppendArguments(text, args);
  }

  /** The loop of the too-many message over the arguments. */
  method AppendArguments(head: string, args: seq<Value>) returns (text: string)
    ensures text == head + ArgumentList(args)
  {
    ghost var shown := seq(|args|, i requires 0 <= i < |args| => Show(args[i]));
    text := head;
    var prefix := ": ";
    for i := 0 to |args|
      invariant text == head + (if i == 0 then "" else ": " + Join(shown[..i], ", "))
      invariant prefix == if i == 0 then ": " else ", "
    {
      assert shown[..i + 1] == shown[..i] + [Show(args[i])];
      JoinSnoc(shown[..i], Show(args[i]), ", ");
      text := text + prefix + Show(args[i]);
      prefix := ", ";
    }
    assert shown[..|args|] == shown;
  }

  /** `query1(whereClause, inserted)`: a null clause is an illegal argument;
      otherwise it runs the statement `query` runs for that clause and no order. */
  function Query1Where(h: Helper, wc: Option<Clause>, inserted: Option<Entity>,
                       fetch: Statement -> Result<seq<Row>>): (r: Result<Option<Entity>>)
    ensures wc.None? ==> r == Err(IllegalArgument("whereClause"))
    ensures wc.Some? ==> r == Query1(h, QueryStatement(h, wc, None), inserted, fetch)
  {
    if wc.None? then Err(IllegalArgument("whereClause"))
    else
      var sql := SelectAll(h) + GetText(wc.value);
      assert sql + OptionalOrderBy(None) == sql;
      Query1(h, Statement(sql, QuestionMarkValues(wc.value)), inserted, fetch)
  }

  // ----- readById -----

  /** The statement `readById` runs: the cached SELECT and a one-token filter
      whose text is the literal "id = ?", whatever the id column is called. */
  function ReadByIdStatement(h: Helper, id: Value): (stmt: Statement)
    ensures stmt.sql == SelectAll(h) + " WHERE " + "id = ?"
    ensures stmt.args == [id]
  {
    var wc := AddParam([], "id = ?", id);
    GetTextAppend([], wc[0]);
    assert wc == [] + [wc[0]];
    Statement(SelectAll(h) + GetText(wc), [id])
  }

  /** `readById`: needs an id column and a non-null id; zero or one row. As
      written, the filter is the literal "id = ?" whatever the id column is called. */
  function ReadById(h: Helper, id: Value, fetch: Statement -> Result<seq<Row>>): (r: Result<Option<Entity>>)
    ensures h.id.None? ==> r == Err(IllegalState(NoIdMessage("readById", h)))
    ensures h.id.Some? && id.Null? ==> r == Err(IllegalArgument(h.id.value.name))
    ensures h.id.Some? && !id.Null? ==>
              r == Query1(h, Statement(SelectAll(h) + " WHERE " + "id = ?", [id]), None, fetch)
  {
    if h.id.None? then Err(IllegalState(NoIdMessage("readById", h)))
    else if id.Null? then Err(IllegalArgument(h.id.value.name))
    else Query1(h, ReadByIdStatement(h, id), None, fetch)
  }

  /** `readById` as evidently intended: the same checks, and the filter names
      the id column. */
  function CorrectedReadById(h: Helper, id: Value, fetch: Statement -> Result<seq<Row>>): (r: Result<Option<Entity>>)
    ensures h.id.None? ==> r == Err(IllegalState(NoIdMessage("readById", h)))
    ensures h.id.Some? && id.Null? ==> r == Err(IllegalArgument(h.id.value.name))
    ensures h.id.Some? && !id.Null? ==>
              r == Query1(h, Statement(SelectAll(h) + " WHERE " + h.id.value.name + " = ?", [id]), None, fetch)
  {
    if h.id.None? then Err(IllegalState(NoIdMessage("readById", h)))
    else if id.Null? then Err(IllegalArgument(h.id.value.name))
    else Query1(h, CorrectedReadByIdStatement(h, id), None, fetch)
  }

  /** When the id column is called "id" the defect is invisible: both
      versions run the same query. */
  lemma ReadByIdAgreesOnColumnId(h: Helper, id: Value, fetch: Statement -> Result<seq<Row>>)
    requires h.id.Some? && h.id.value.name == "id"
    ensures ReadById(h, id, fetch) == CorrectedReadById(h, id, fetch)
  {
    if !id.Null? {
      var where := SelectAll(h) + " WHERE ";
      assert "id" + " = ?" == "id = ?";
      assert where + h.id.value.name + " = ?" == where + ("id" + " = ?");
      assert ReadByIdStatement(h, id) == CorrectedReadByIdStatement(h, id);
    }
  }

  /** Whenever the id column is not called "id", the statement of `readById`
      differs from the intended one: it filters on a column "id" instead. */
  lemma ReadByIdNamesWrongColumn(h: Helper, id: Value)
    requires h.id.Some? && h.id.value.name != "id"
    ensures ReadByIdStatement(h, id).sql != CorrectedReadByIdStatement(h, id).sql
  {
    var p := SelectAll(h) + " WHERE ";
    var name := h.id.value.name;
    var asWritten := p + "id = ?";
    var intended := p + name + " = ?";
    if |name| != 2 {
      assert |asWritten| != |intended|;
    } else {
      assert asWritten[|p|..|p| + 2] == "id";
      assert intended[|p|..|p| + 2] == name;
    }
  }

  /** The statement `readById` evidently intends: the filter names the id column. */
  function CorrectedReadByIdStatement(h: Helper, id: Value): (stmt: Statement)
    requires h.id.Some?
    ensures stmt.sql == SelectAll(h) + " WHERE " + h.id.value.name + " = ?"
    ensures stmt.args == [id]
  {
    var wc := AddParam([], h.id.value.name + " = ?", id);
    GetTextAppend([], wc[0]);
    assert wc == [] + [wc[0]];
    assert QuestionMarkValues(wc) == QuestionMarkValues([]) + [id];
    Statement(SelectAll(h) + GetText(wc), QuestionMarkValues(wc))
  }

  // ----- getIDs -----

  /** The clause `getIDs` renders: the caller's clause (or a fresh one), with
      "<id> > ?" bound to `greaterThan` appended at the end when that is non-null. */
  function IdsClause(h: Helper, greaterThan: Value, wc: Option<Clause>): (r: Clause)
    requires h.id.Some?
    ensures greaterThan.Null? ==> r == DeNull(wc)
    ensures !greaterThan.Null? ==> r == DeNull(wc) + [Param(h.id.value.name + " > ?", greaterThan, true)]
    ensures QuestionMarkValues(r) == QuestionMarkValues(DeNull(wc)) + (if greaterThan.Null? then [] else [greaterThan])
  {
    var w := DeNull(wc);
    if !greaterThan.Null? then AddParam(w, h.id.value.name + " > ?", greaterThan) else w
  }

  /** "SELECT <id> FROM <table>", a rendered clause, then the ids ascending
      and at most `limit` of them; it binds the clause's values. */
  function IdsSelect(idName: string, tableName: string, w: Clause, limit: int32): (stmt: Statement)
    requires limit > 0
    ensures stmt.args == QuestionMarkValues(w)
    ensures stmt.sql == "SELECT " + idName + " FROM " + tableName + GetText(w)
                        + " ORDER BY " + idName + " ASC LIMIT " + NatToString(limit as int)
  {
    Statement("SELECT " + idName + " FROM " + tableName + GetText(w)
              + " ORDER BY " + idName + " ASC LIMIT " + IntToString(limit as int),
              QuestionMarkValues(w))
  }

  /** The statement of `getIDs`: needs an id column and a positive limit. As
      written, the lower bound is appended to the filter with no connector. */
  function GetIdsStatement(h: Helper, greaterThan: Value, wc: Option<Clause>, limit: int32): (r: Result<Statement>)
    ensures h.id.None? ==> r == Err(IllegalState(NoIdMessage("getIDs", h)))
    ensures h.id.Some? && limit <= 0 ==> r == Err(IllegalArgument("limit"))
    ensures r.Ok? <==> h.id.Some? && limit > 0
    ensures r.Ok? ==>
              var idName := h.id.value.name;
              var w := IdsClause(h, greaterThan, wc);
              && r.value.sql == "SELECT " + idName + " FROM " + h.tableName + GetText(w)
                                + " ORDER BY " + idName + " ASC LIMIT " + NatToString(limit as int)
              && r.value.args == QuestionMarkValues(DeNull(wc)) + (if greaterThan.Null? then [] else [greaterThan])
  {
    if h.id.None? then Err(IllegalState(NoIdMessage("getIDs", h)))
    else
      var w := IdsClause(h, greaterThan, wc);
      if limit <= 0 then Err(IllegalArgument("limit"))
      else Ok(IdsSelect(h.id.value.name, h.tableName, w, limit))
  }

  /** The statement of `getIDs` as evidently intended: the lower bound is
      joined to a non-empty filter with AND. */
  function CorrectedGetIdsStatement(h: Helper, greaterThan: Value, wc: Option<Clause>, limit: int32): (r: Result<Statement>)
    ensures h.id.None? ==> r == Err(IllegalState(NoIdMessage("getIDs", h)))
    ensures h.id.Some? && limit <= 0 ==> r == Err(IllegalArgument("limit"))
    ensures r.Ok? <==> h.id.Some? && limit > 0
    ensures r.Ok? ==>
              var idName := h.id.value.name;
              var w := CorrectedIdsClause(h, greaterThan, wc);
              && r.value.sql == "SELECT " + idName + " FROM " + h.tableName + GetText(w)
                                + " ORDER BY " + idName + " ASC LIMIT " + NatToString(limit as int)
              && r.value.args == QuestionMarkValues(DeNull(wc)) + (if greaterThan.Null? then [] else [greaterThan])
  {
    if h.id.None? then Err(IllegalState(NoIdMessage("getIDs", h)))
    else
      var w := CorrectedIdsClause(h, greaterThan, wc);
      if limit <= 0 then Err(IllegalArgument("limit"))
      else Ok(IdsSelect(h.id.value.name, h.tableName, w, limit))
  }

  /** `mapId` over every row: the id column's getter at column index 1. */
  function MapIds(idColumn: Column, rows: seq<Row>): (r: Result<seq<Value>>)
    ensures r.Ok? <==> forall i :: 0 <= i < |rows| ==> |rows[i]| >= 1 && Fits(idColumn.producer, rows[i][0])
    ensures r.Ok? ==> |r.value| == |rows| && forall i :: 0 <= i < |rows| ==> r.value[i] == rows[i][0]
  {
    if |rows| == 0 then Ok([])
    else
      var init :- MapIds(idColumn, rows[..|rows| - 1]);
      var last :- Produce(idColumn.producer, rows[|rows| - 1], 1);
      Ok(init + [last])
  }

  /** `getIDs`: the ids the query returns, in result order. */
  function GetIds(h: Helper, greaterThan: Value, wc: Option<Clause>, limit: int32,
                  fetch: Statement -> Result<seq<Row>>): (r: Result<seq<Value>>)
    ensures GetIdsStatement(h, greaterThan, wc, limit).Err? ==> r == Err(GetIdsStatement(h, greaterThan, wc, limit).error)
    ensures r.Ok? ==> fetch(GetIdsStatement(h, greaterThan, wc, limit).value).Ok?
                      && |r.value| == |fetch(GetIdsStatement(h, greaterThan, wc, limit).value).value|
  {
    var stmt :- GetIdsStatement(h, greaterThan, wc, limit);
    var rows :- fetch(stmt);
    MapIds(h.id.value, rows)
  }

  /** As written, the "<id> > ?" predicate follows the caller's filter with no
      connector: after any token but an open paren it is joined by a bare space. */
  lemma IdsClauseHasNoConnector(h: Helper, greaterThan: Value, w: Clause)
    requires h.id.Some? && !greaterThan.Null?
    requires |w| > 0 && !w[|w| - 1].ParenOpen?
    ensures GetText(IdsClause(h, greaterThan, Some(w))) == GetText(w) + " " + h.id.value.name + " > ?"
  {
    GetTextAppend(w, Param(h.id.value.name + " > ?", greaterThan, true));
  }

  /** A caller filter "status = ?" and a lower id bound render as two
      predicates side by side, which is not a valid condition. */
  lemma IdsClauseCounterexample()
    ensures var h := Helper("User", "users", "User", "", map[], Some(Column(LongKind, "id", No, "id", "id")), None, []);
            var w := AddParam([], "status = ?", Str("open"));
            GetText(IdsClause(h, Long(5), Some(w))) == " WHERE " + "status = ?" + " " + "id > ?"
  {
    var h := Helper("User", "users", "User", "", map[], Some(Column(LongKind, "id", No, "id", "id")), None, []);
    var w := AddParam([], "status = ?", Str("open"));
    GetTextAppend([], w[0]);
    assert w == [] + [w[0]];
    IdsClauseHasNoConnector(h, Long(5), w);
  }

  /** The clause `getIDs` evidently intends: the bound is joined to a
      non-empty filter by the AND connector. */
  function CorrectedIdsClause(h: Helper, greaterThan: Value, wc: Option<Clause>): (r: Clause)
    requires h.id.Some?
    ensures QuestionMarkValues(r) == QuestionMarkValues(DeNull(wc)) + (if greaterThan.Null? then [] else [greaterThan])
    ensures greaterThan.Null? ==> r == DeNull(wc)
  {
    var w := DeNull(wc);
    if greaterThan.Null? then w
    else
      var joined := if |w| == 0 then w else w + [And];
      QuestionMarkValuesAppend(w, And);
      AddParam(joined, h.id.value.name + " > ?", greaterThan)
  }

  /** With the correction the bound is a conjunct: after a non-empty filter
      that does not end in an open paren it reads " AND <id> > ?". */
  lemma CorrectedIdsClauseConjoins(h: Helper, greaterThan: Value, w: Clause)
    requires h.id.Some? && !greaterThan.Null?
    requires |w| > 0 && !w[|w| - 1].ParenOpen?
    ensures GetText(CorrectedIdsClause(h, greaterThan, Some(w))) == GetText(w) + " AND " + h.id.value.name + " > ?"
  {
    var bound := Param(h.id.value.name + " > ?", greaterThan, true);
    var joined := w + [And];
    GetTextAppend(w, And);
    GetTextAppend(joined, bound);
    calc {
      GetText(CorrectedIdsClause(h, greaterThan, Some(w)));
      { assert CorrectedIdsClause(h, greaterThan, Some(w)) == joined + [bound]; }
      GetText(w) + " " + "AND" + " " + (h.id.value.name + " > ?");
      { SpacedAnd(GetText(w), h.id.value.name); }
      GetText(w) + " AND " + h.id.value.name + " > ?";
    }
  }

  /** The connector's spaces and the bound regroup into " AND <id> > ?". */
  lemma SpacedAnd(text: string, name: string)
    ensures text + " " + "AND" + " " + (name + " > ?") == text + " AND " + name + " > ?"
  {
  }

  /** With no filter the corrected bound is the whole WHERE clause. */
  lemma CorrectedIdsClauseAlone(h: Helper, greaterThan: Value)
    requires h.id.Some? && !greaterThan.Null?
    ensures GetText(CorrectedIdsClause(h, greaterThan, None)) == " WHERE " + h.id.value.name + " > ?"
  {
    var bound := Param(h.id.value.name + " > ?", greaterThan, true);
    GetTextAppend([], bound);
    assert CorrectedIdsClause(h, greaterThan, None) == [] + [bound];
  }

  // ----- getEntitiesByIDs -----

  predicate IsNonNull(v: Value)
  {
    !v.Null?
  }

  /** `nonNullsOnly`: the non-null ids in input order; a null list has none. */
  function NonNullsOnly(ids: Option<seq<Value>>): (r: seq<Value>)
    ensures forall v :: v in r <==> ids.Some? && v in ids.value && !v.Null?
  {
    if ids.None? then [] else Filter(ids.value, IsNonNull)
  }

  /** The kept ids are the non-null ones at ascending positions of the input. */
  lemma NonNullsOnlyKeepsOrder(ids: seq<Value>)
    ensures NonNullsOnly(Some(ids)) == Select(ids, Positions(ids, IsNonNull))
  {
    FilterIsSelection(ids, IsNonNull);
  }

  /** "SELECT ... WHERE <id> IN (a,b,...) ORDER BY <id>", the ids inlined in
      input order and nothing bound. */
  function EntitiesByIdsStatement(h: Helper, ids: seq<Value>): Statement
    requires h.id.Some?
  {
    var idName := h.id.value.name;
    Statement(SelectAll(h) + " WHERE " + idName + " IN " + "(" + Join(seq(|ids|, i requires 0 <= i < |ids| => Show(ids[i])), ",")
              + ") ORDER BY " + idName, [])
  }

  /** `getEntitiesByIDs`: needs an id column; with no non-null id it answers
      the empty list without querying, otherwise the mapped rows. */
  function GetEntitiesByIds(h: Helper, ids: Option<seq<Value>>, fetch: Statement -> Result<seq<Row>>)
    : (r: Result<seq<Entity>>)
    ensures h.id.None? ==> r == Err(IllegalState(NoIdMessage("getEntitiesByIDs", h)))
    ensures h.id.Some? && |NonNullsOnly(ids)| == 0 ==> r == Ok([])
    ensures h.id.Some? && |NonNullsOnly(ids)| > 0 ==>
              r == Query(h, EntitiesByIdsStatement(h, NonNullsOnly(ids)), fetch)
  {
    if h.id.None? then Err(IllegalState(NoIdMessage("getEntitiesByIDs", h)))
    else
      var kept := NonNullsOnly(ids);
      if |kept| == 0 then Ok([]) else Query(h, EntitiesByIdsStatement(h, kept), fetch)
  }

  /** The `IN` list is built like the library's loop: an opening paren before
      the first id, a comma before every later one. The loop only runs once
      at least one id is left. */
  method BuildInList(ids: seq<Value>) returns (text: string)
    requires |ids| > 0
    ensures text == "(" + Join(seq(|ids|, i requires 0 <= i < |ids| => Show(ids[i])), ",") + ")"
  {
    ghost var shown := seq(|ids|, i requires 0 <= i < |ids| => Show(ids[i]));
    var sb := "";
    var prefix := "(";
    for i := 0 to |ids|
      invariant sb == if i == 0 then "" else "(" + Join(shown[..i], ",")
      invariant prefix == if i == 0 then "(" else ","
    {
      assert shown[..i + 1] == shown[..i] + [Show(ids[i])];
      JoinSnoc(shown[..i], Show(ids[i]), ",");
      sb := sb + prefix + Show(ids[i]);
      prefix := ",";
    }
    assert shown[..|ids|] == shown;
    text := sb + ")";
  }

  // ----- placeholders -----

  /** Neither the table name nor any column name holds a `?`. */
  predicate NamesUnmarked(h: Helper)
  {
    '?' !in h.tableName && forall c :: c in AllColumns(h) ==> '?' !in c.name
  }

  /** The cached SELECT holds no `?` when no name does. */
  lemma SelectAllUnmarked(h: Helper)
    requires NamesUnmarked(h)
    ensures Occurrences(SelectAll(h), '?') == 0
  {
    var cols := AllColumns(h);
    var names := Names(cols);
    forall i | 0 <= i < |names|
      ensures '?' !in names[i]
    {
      assert cols[i] in cols;
    }
    JoinWithoutMarks(names, ", ");
    assert '?' !in SelectAll(h);
    OccurrencesAbsent(SelectAll(h), '?');
  }

  /** The SELECT followed by a filter holds one `?` per value the filter binds,
      when the filter's placeholders sit in its parameterised texts. */
  lemma FilteredSelectPlaceholders(h: Helper, w: Clause)
    requires NamesUnmarked(h) && MarksWellPlaced(w)
    ensures Occurrences(SelectAll(h) + GetText(w), '?') == |QuestionMarkValues(w)|
  {
    SelectAllUnmarked(h);
    QuestionMarksMatchValues(w);
    OccurrencesAppend(SelectAll(h), GetText(w), '?');
  }

  /** `query(whereClause, orderBy)` binds one value per `?` of its text. */
  lemma QueryPlaceholders(h: Helper, wc: Option<Clause>, orderBy: Option<string>)
    requires NamesUnmarked(h) && MarksWellPlaced(DeNull(wc))
    requires orderBy.Some? ==> '?' !in orderBy.value
    ensures Occurrences(QueryStatement(h, wc, orderBy).sql, '?') == |QueryStatement(h, wc, orderBy).args|
  {
    var w := DeNull(wc);
    var order := OptionalOrderBy(orderBy);
    FilteredSelectPlaceholders(h, w);
    assert '?' !in order;
    OccurrencesAbsent(order, '?');
    OccurrencesAppend(SelectAll(h) + GetText(w), order, '?');
  }

  /** Both `readById` statements bind one value for their one `?`: the
      literal "id = ?" as written, and the id column's condition as intended. */
  lemma ReadByIdPlaceholders(h: Helper, id: Value)
    requires NamesUnmarked(h)
    ensures Occurrences(ReadByIdStatement(h, id).sql, '?') == |ReadByIdStatement(h, id).args| == 1
    ensures h.id.Some? ==>
              Occurrences(CorrectedReadByIdStatement(h, id).sql, '?') == |CorrectedReadByIdStatement(h, id).args| == 1
  {
    SelectAllUnmarked(h);
    IdLiteralMark(SelectAll(h));
    if h.id.Some? {
      assert h.id.value in AllColumns(h);
      ConditionMark(SelectAll(h), " WHERE ", h.id.value.name);
    }
  }

  /** The literal filter " WHERE id = ?" adds one `?`. */
  lemma IdLiteralMark(p: string)
    ensures Occurrences(p + " WHERE " + "id = ?", '?') == Occurrences(p, '?') + 1
  {
    ConditionMark(p, " WHERE ", "id");
    assert p + " WHERE " + "id" + " = ?" == p + " WHERE " + "id = ?";
  }

  /** The DELETE binds one value for its one `?`. */
  lemma DeletePlaceholders(h: Helper, id: Value)
    requires h.id.Some? && NamesUnmarked(h)
    ensures Occurrences(DeleteStatement(h, id).sql, '?') == |DeleteStatement(h, id).args|
  {
    var head := "DELETE FROM " + h.tableName;
    assert '?' !in head;
    OccurrencesAbsent(head, '?');
    assert h.id.value in AllColumns(h);
    ConditionMark(head, " WHERE ", h.id.value.name);
  }

  /** The corrected `getIDs` clause keeps every placeholder in a parameterised
      text: the connector holds none and the bound holds one. */
  lemma CorrectedIdsClauseMarks(h: Helper, greaterThan: Value, wc: Option<Clause>)
    requires h.id.Some? && '?' !in h.id.value.name
    requires MarksWellPlaced(DeNull(wc))
    ensures MarksWellPlaced(CorrectedIdsClause(h, greaterThan, wc))
  {
    var w := DeNull(wc);
    if !greaterThan.Null? {
      var joined := if |w| == 0 then w else w + [And];
      if |w| > 0 {
        assert '?' !in TokenText(And);
        OccurrencesAbsent(TokenText(And), '?');
        MarksWellPlacedSnoc(w, And);
      }
      var bound := Param(h.id.value.name + " > ?", greaterThan, true);
      ComparisonMark(h.id.value.name, " > ?");
      MarksWellPlacedSnoc(joined, bound);
      assert CorrectedIdsClause(h, greaterThan, wc) == joined + [bound];
    }
  }

  /** The ORDER BY and LIMIT tail of `getIDs` adds no `?`. */
  lemma OrderLimitUnmarked(text: string, idName: string, digits: string)
    requires '?' !in idName && '?' !in digits
    ensures Occurrences(text + " ORDER BY " + idName + " ASC LIMIT " + digits, '?') == Occurrences(text, '?')
  {
    OccurrencesAbsent(" ORDER BY ", '?');
    OccurrencesAbsent(idName, '?');
    OccurrencesAbsent(" ASC LIMIT ", '?');
    OccurrencesAbsent(digits, '?');
    OccurrencesAppend(text, " ORDER BY ", '?');
    OccurrencesAppend(text + " ORDER BY ", idName, '?');
    OccurrencesAppend(text + " ORDER BY " + idName, " ASC LIMIT ", '?');
    OccurrencesAppend(text + " ORDER BY " + idName + " ASC LIMIT ", digits, '?');
  }

  /** As written, appending the "<id> > ?" bound keeps every `?` of the
      clause in a parameterised text. */
  lemma IdsClauseMarks(h: Helper, greaterThan: Value, wc: Option<Clause>)
    requires h.id.Some? && '?' !in h.id.value.name
    requires MarksWellPlaced(DeNull(wc))
    ensures MarksWellPlaced(IdsClause(h, greaterThan, wc))
  {
    if !greaterThan.Null? {
      ComparisonMark(h.id.value.name, " > ?");
      MarksWellPlacedSnoc(DeNull(wc), Param(h.id.value.name + " > ?", greaterThan, true));
    }
  }

  /** The id SELECT around a clause with well-placed marks binds one value per `?`. */
  lemma IdsSelectPlaceholders(idName: string, tableName: string, w: Clause, limit: int32)
    requires '?' !in idName && '?' !in tableName && limit > 0
    requires MarksWellPlaced(w)
    ensures Occurrences(IdsSelect(idName, tableName, w, limit).sql, '?') == |IdsSelect(idName, tableName, w, limit).args|
  {
    QuestionMarksMatchValues(w);
    var head := "SELECT " + idName + " FROM " + tableName;
    var digits := NatToString(limit as int);
    SelectIdUnmarked(idName, tableName);
    assert IntToString(limit as int) == digits;
    OccurrencesAppend(head, GetText(w), '?');
    OrderLimitUnmarked(head + GetText(w), idName, digits);
  }

  /** `getIDs` binds one value per `?` of its text, both as written and as
      intended, when the caller's filter keeps its placeholders in its
      parameterised texts. */
  lemma GetIdsPlaceholders(h: Helper, greaterThan: Value, wc: Option<Clause>, limit: int32)
    requires h.id.Some? && NamesUnmarked(h) && limit > 0
    requires MarksWellPlaced(DeNull(wc))
    ensures GetIdsStatement(h, greaterThan, wc, limit).Ok?
    ensures Occurrences(GetIdsStatement(h, greaterThan, wc, limit).value.sql, '?') ==
            |GetIdsStatement(h, greaterThan, wc, limit).value.args|
    ensures Occurrences(CorrectedGetIdsStatement(h, greaterThan, wc, limit).value.sql, '?') ==
            |CorrectedGetIdsStatement(h, greaterThan, wc, limit).value.args|
  {
    var idName := h.id.value.name;
    assert h.id.value in AllColumns(h);
    IdsClauseMarks(h, greaterThan, wc);
    IdsSelectPlaceholders(idName, h.tableName, IdsClause(h, greaterThan, wc), limit);
    CorrectedIdsClauseMarks(h, greaterThan, wc);
    IdsSelectPlaceholders(idName, h.tableName, CorrectedIdsClause(h, greaterThan, wc), limit);
  }

  /** "SELECT <id> FROM <table>" holds no `?` when neither name does. */
  lemma SelectIdUnmarked(idName: string, tableName: string)
    requires '?' !in idName && '?' !in tableName
    ensures Occurrences("SELECT " + idName + " FROM " + tableName, '?') == 0
  {
    OccurrencesAbsent("SELECT ", '?');
    OccurrencesAbsent(idName, '?');
    OccurrencesAbsent(" FROM ", '?');
    OccurrencesAbsent(tableName, '?');
    OccurrencesAppend("SELECT ", idName, '?');
    OccurrencesAppend("SELECT " + idName, " FROM ", '?');
    OccurrencesAppend("SELECT " + idName + " FROM ", tableName, '?');
  }
}
