/** `Table` and `UpdateStruct` of pghelp.go: the live definition is read
    from the catalog's answers, descriptions are plain strings, a column
    carries its origin name as a field, and every statement is sent as it
    is. */
module HelpDiff {
  import opened Base
  import opened Values
  import opened TypeNames
  import opened Exec
  import opened DiffOps
  import opened KeyCheck
  import opened ColumnPlan
  import opened IndexPlan
  import opened DiffPlan
  import opened DiffFacts

  /** `len(desc) > 0`. */
  function HasDesc(d: string): bool
  {
    d != ""
  }

  /** One row of the column query. */
  datatype ColumnRow = ColumnRow(ColumnName: string, DataType: string, NotNull: bool, Def: Value, Desc: Value)

  /** One row of the primary key query: a key column and its constraint. */
  datatype KeyRow = KeyRow(Column: string, Constraint: string)

  /** One row of the index query. */
  datatype IndexRow = IndexRow(IndexName: string, Define: string, Desc: string)

  /** What the catalog answers about one table: whether it exists, its
      description, and the rows of the three queries or their errors. */
  datatype Catalog = Catalog(Exists: bool, Desc: string, Columns: Result<seq<ColumnRow>>, Keys: Result<seq<KeyRow>>,
                             Indexes: Result<seq<IndexRow>>)

  /** The column a catalog row describes: the row's type name applied to a
      zero type, the row's not-null flag, and its default and description
      rendered by `safeToString`. */
  function ColumnOf(row: ColumnRow): Result<Column<string>>
  {
    var (dt, err) := ApplyDBType(TypeDesc(TypeString, 0, false), row.DataType);
    if err.Some? then Err(err.value)
    else Ok(Column(row.ColumnName, dt.(NotNull := row.NotNull), SafeToString(row.Def), SafeToString(row.Desc), ""))
  }

  /** Each row read in turn; the first row refused ends it. */
  function ReadAll<R, C>(read: R -> Result<C>, rows: seq<R>): Result<seq<C>>
  {
    if |rows| == 0 then Ok([])
    else
      match ReadAll(read, rows[..|rows| - 1])
      case Err(x) => Err(x)
      case Ok(cs) =>
        match read(rows[|rows| - 1])
        case Err(x) => Err(x)
        case Ok(c) => Ok(cs + [c])
  }

  /** The rows are read exactly when each is, one result per row in row
      order. */
  lemma {:induction false} ReadAllOk<R, C>(read: R -> Result<C>, rows: seq<R>)
    ensures ReadAll(read, rows).Ok? <==> forall i :: 0 <= i < |rows| ==> read(rows[i]).Ok?
    ensures ReadAll(read, rows).Ok? ==>
      |ReadAll(read, rows).value| == |rows| &&
      forall i :: 0 <= i < |rows| ==> ReadAll(read, rows).value[i] == read(rows[i]).value
  {
    if |rows| > 0 {
      var init := rows[..|rows| - 1];
      var last := rows[|rows| - 1];
      ReadAllOk(read, init);
      assert forall i :: 0 <= i < |init| ==> init[i] == rows[i];
      if ReadAll(read, init).Ok? && read(last).Ok? {
        var cs := ReadAll(read, init).value;
        assert ReadAll(read, rows).value == cs + [read(last).value];
      }
    }
  }

  /** A refused read reports the first refused row's error. */
  lemma {:induction false} ReadAllFirstError<R, C>(read: R -> Result<C>, rows: seq<R>)
    requires ReadAll(read, rows).Err?
    ensures exists i :: (0 <= i < |rows| && read(rows[i]) == Err(ReadAll(read, rows).error) &&
      forall j :: 0 <= j < i ==> read(rows[j]).Ok?)
  {
    var init := rows[..|rows| - 1];
    assert forall i :: 0 <= i < |init| ==> init[i] == rows[i];
    if ReadAll(read, init).Err? {
      ReadAllFirstError(read, init);
      var i :| 0 <= i < |init| && read(init[i]) == Err(ReadAll(read, init).error) &&
        forall j :: 0 <= j < i ==> read(init[j]).Ok?;
      assert read(rows[i]) == Err(ReadAll(read, rows).error);
    } else {
      ReadAllOk(read, init);
      assert read(rows[|rows| - 1]) == Err(ReadAll(read, rows).error);
    }
  }

  /** Once a prefix is refused, every longer prefix is refused the same way. */
  lemma {:induction false} ReadAllErrExtends<R, C>(read: R -> Result<C>, rows: seq<R>, k: nat, m: nat)
    requires 0 < k <= m <= |rows| && ReadAll(read, rows[..k - 1]).Ok? && read(rows[k - 1]).Err?
    ensures ReadAll(read, rows[..m]) == Err(read(rows[k - 1]).error)
    decreases m
  {
    assert rows[..m][..m - 1] == rows[..m - 1];
    if m > k {
      ReadAllErrExtends(read, rows, k, m - 1);
    }
  }

  /** The index map: keyed by each row's description, holding an index whose
      define is the row's index name; a later row with the same key replaces
      an earlier one. */
  function IndexesOf(rows: seq<IndexRow>): map<string, IndexDef<string>>
  {
    if |rows| == 0 then map[]
    else IndexesOf(rows[..|rows| - 1])[rows[|rows| - 1].Desc := IndexDef(rows[|rows| - 1].IndexName, "")]
  }

  /** The keys are exactly the rows' descriptions. */
  lemma {:induction false} IndexesOfKeys(rows: seq<IndexRow>)
    ensures forall k :: k in IndexesOf(rows) <==> exists i :: 0 <= i < |rows| && rows[i].Desc == k
  {
    if |rows| > 0 {
      var init := rows[..|rows| - 1];
      IndexesOfKeys(init);
      forall k | k in IndexesOf(rows)
        ensures exists i :: 0 <= i < |rows| && rows[i].Desc == k
      {
        if k != rows[|rows| - 1].Desc {
          assert k in IndexesOf(init);
          var i :| 0 <= i < |init| && init[i].Desc == k;
          assert rows[i] == init[i];
        }
      }
      forall k, i | 0 <= i < |rows| && rows[i].Desc == k
        ensures k in IndexesOf(rows)
      {
        if i < |init| {
          assert init[i] == rows[i];
        }
      }
    }
  }

  /** The last row with a given description decides its entry. */
  lemma {:induction false} IndexesOfLastWins(rows: seq<IndexRow>, i: nat)
    requires i < |rows| && forall j :: i < j < |rows| ==> rows[j].Desc != rows[i].Desc
    ensures rows[i].Desc in IndexesOf(rows) && IndexesOf(rows)[rows[i].Desc] == IndexDef(rows[i].IndexName, "")
  {
    if i < |rows| - 1 {
      var init := rows[..|rows| - 1];
      assert init[i] == rows[i];
      assert forall j :: i < j < |init| ==> init[j] == rows[j];
      IndexesOfLastWins(init, i);
      assert rows[|rows| - 1].Desc != rows[i].Desc;
    }
  }

  /** `Table(name)`: the live definition read from the catalog, or the first
      error met. */
  function TableOf(name: string, cat: Catalog): Result<TableDef<string>>
  {
    if !cat.Exists then Err(NotFoundTable(name))
    else if cat.Columns.Err? then Err(cat.Columns.error)
    else
      match ReadAll(ColumnOf, cat.Columns.value)
      case Err(x) => Err(x)
      case Ok(cols) =>
        if cat.Keys.Err? then Err(cat.Keys.error)
        else if cat.Indexes.Err? then Err(cat.Indexes.error)
        else
          var keys := cat.Keys.value;
          var pk := seq(|keys|, i requires 0 <= i < |keys| => keys[i].Column);
          var constraint := if |keys| > 0 then keys[0].Constraint else "";
          Ok(TableDef(name, false, pk, constraint, cols, IndexesOf(cat.Indexes.value), cat.Desc))
  }

  /** Reading succeeds exactly when the table exists, every query answers
      and every column type is accepted; the definition then has one column
      per row with no origin name, the key columns in row order and the
      first key row's constraint name. */
  lemma TableOfIff(name: string, cat: Catalog)
    ensures TableOf(name, cat).Ok? <==>
      cat.Exists && cat.Columns.Ok? && cat.Keys.Ok? && cat.Indexes.Ok? &&
      forall i :: 0 <= i < |cat.Columns.value| ==> ColumnOf(cat.Columns.value[i]).Ok?
    ensures TableOf(name, cat).Ok? ==>
      var t := TableOf(name, cat).value;
      t.TableName == name && t.Desc == cat.Desc && |t.Columns| == |cat.Columns.value| &&
      (forall i :: 0 <= i < |t.Columns| ==> t.Columns[i] == ColumnOf(cat.Columns.value[i]).value && t.Columns[i].Origin == "") &&
      |t.PK| == |cat.Keys.value| && (forall i :: 0 <= i < |t.PK| ==> t.PK[i] == cat.Keys.value[i].Column) &&
      (|t.PK| > 0 ==> t.PKConstraintName == cat.Keys.value[0].Constraint)
    ensures !cat.Exists ==> TableOf(name, cat) == Err(NotFoundTable(name))
  {
    if cat.Columns.Ok? {
      ReadAllOk(ColumnOf, cat.Columns.value);
    }
  }

  /** `Table` as the source runs it: a loop over the column rows, the key
      rows read as a column list, and a loop over the index rows. */
  method Table(name: string, cat: Catalog) returns (r: Result<TableDef<string>>)
    ensures r == TableOf(name, cat)
  {
    if !cat.Exists {
      return Err(NotFoundTable(name));
    }
    if cat.Columns.Err? {
      return Err(cat.Columns.error);
    }
    var cols := ReadColumns(cat.Columns.value);
    if cols.Err? {
      return Err(cols.error);
    }
    if cat.Keys.Err? {
      return Err(cat.Keys.error);
    }
    var keys := cat.Keys.value;
    var pk: seq<string> := [];
    var constraint := "";
    if |keys| > 0 {
      pk := seq(|keys|, i requires 0 <= i < |keys| => keys[i].Column);
      constraint := keys[0].Constraint;
    }
    assert pk == seq(|keys|, i requires 0 <= i < |keys| => keys[i].Column);
    if cat.Indexes.Err? {
      return Err(cat.Indexes.error);
    }
    var indexes := ReadIndexes(cat.Indexes.value);
    r := Ok(TableDef(name, false, pk, constraint, cols.value, indexes, cat.Desc));
  }

  /** The loop over the column rows; a refused type ends it. */
  method ReadColumns(rows: seq<ColumnRow>) returns (r: Result<seq<Column<string>>>)
    ensures r == ReadAll(ColumnOf, rows)
  {
    var cols: seq<Column<string>> := [];
    for i := 0 to |rows|
      invariant ReadAll(ColumnOf, rows[..i]) == Ok(cols)
    {
      assert rows[..i + 1][..i] == rows[..i];
      var c := ColumnOf(rows[i]);
      if c.Err? {
        ReadAllErrExtends(ColumnOf, rows, i + 1, |rows|);
        assert rows[..|rows|] == rows;
        return Err(c.error);
      }
      cols := cols + [c.value];
    }
    assert rows[..|rows|] == rows;
    r := Ok(cols);
  }

  /** The loop over the index rows. */
  method ReadIndexes(rows: seq<IndexRow>) returns (indexes: map<string, IndexDef<string>>)
    ensures indexes == IndexesOf(rows)
  {
    indexes := map[];
    for i := 0 to |rows|
      invariant indexes == IndexesOf(rows[..i])
    {
      assert rows[..i + 1][..i] == rows[..i];
      indexes := indexes[rows[i].Desc := IndexDef(rows[i].IndexName, "")];
    }
    assert rows[..|rows|] == rows;
  }

  /** What `UpdateStruct(new)` leaves in the engine's log and returns, with
      the live definition read from `cat`. When the table does not exist it
      issues CREATE TABLE, ignores its outcome and then dereferences the
      missing live definition. */
  function Outcome(log: seq<Op<string>>, n: TableDef<string>, cat: Catalog, oldOrder: seq<string>, newOrder: seq<string>,
                   accepts: (seq<Op<string>>, Op<string>) -> bool): (seq<Op<string>>, Option<Error>)
    requires TableOf(n.TableName, cat).Ok? ==> Enumerates(oldOrder, TableOf(n.TableName, cat).value.Indexes)
    requires Enumerates(newOrder, n.Indexes)
  {
    if n.TableName == "" then (log, Some(TableNameIsEmpty))
    else
      match TableOf(n.TableName, cat)
      case Err(NotFoundTable(_)) =>
        (Step(log, CreateTable(n.TableName, false), accepts, SendAll).0, Some(Panic("nil pointer dereference")))
      case Err(x) => (log, Some(x))
      case Ok(o) => Reconcile(log, o, n, oldOrder, newOrder, HasDesc, accepts, SendAll)
  }

  /** `UpdateStruct` as the source runs it. */
  method UpdateStruct(e: Engine<Op<string>>, n: TableDef<string>, cat: Catalog, oldOrder: seq<string>,
                      newOrder: seq<string>) returns (err: Option<Error>)
    requires TableOf(n.TableName, cat).Ok? ==> Enumerates(oldOrder, TableOf(n.TableName, cat).value.Indexes)
    requires Enumerates(newOrder, n.Indexes)
    modifies e
    ensures (e.Log, err) == Outcome(old(e.Log), n, cat, oldOrder, newOrder, e.Accepts)
  {
    if |n.TableName| == 0 {
      return Some(TableNameIsEmpty);
    }
    var tab := Table(n.TableName, cat);
    if tab.Err? {
      if tab.error.NotFoundTable? {
        var ignored := Issue(e, CreateTable(n.TableName, false), SendAll);
        return Some(Panic("nil pointer dereference"));
      }
      return Some(tab.error);
    }
    err := ReconcileTables(e, SendAll, tab.value, n, oldOrder, newOrder, HasDesc);
  }

  /** A missing table is created and then the update panics: nothing after
      CREATE TABLE is issued. */
  lemma MissingTablePanics(log: seq<Op<string>>, n: TableDef<string>, cat: Catalog, oldOrder: seq<string>,
                           newOrder: seq<string>, accepts: (seq<Op<string>>, Op<string>) -> bool)
    requires n.TableName != "" && !cat.Exists && Enumerates(newOrder, n.Indexes)
    ensures Outcome(log, n, cat, oldOrder, newOrder, accepts) ==
      (log + [CreateTable(n.TableName, false)], Some(Panic("nil pointer dereference")))
  {
  }

  /** Any other failure to read the live definition is returned before any
      statement is issued. */
  lemma ReadErrorIssuesNothing(log: seq<Op<string>>, n: TableDef<string>, cat: Catalog, oldOrder: seq<string>,
                               newOrder: seq<string>, accepts: (seq<Op<string>>, Op<string>) -> bool)
    requires n.TableName != "" && Enumerates(newOrder, n.Indexes)
    requires TableOf(n.TableName, cat).Err? && !TableOf(n.TableName, cat).error.NotFoundTable?
    ensures Outcome(log, n, cat, oldOrder, newOrder, accepts) == (log, Some(TableOf(n.TableName, cat).error))
  {
  }

  /** The intended behaviour for a missing table: after CREATE TABLE, diff
      against an empty table. */
  function IntendedOutcome(log: seq<Op<string>>, n: TableDef<string>, cat: Catalog, oldOrder: seq<string>,
                           newOrder: seq<string>, accepts: (seq<Op<string>>, Op<string>) -> bool): (seq<Op<string>>, Option<Error>)
    requires TableOf(n.TableName, cat).Ok? ==> Enumerates(oldOrder, TableOf(n.TableName, cat).value.Indexes)
    requires Enumerates(newOrder, n.Indexes)
  {
    if n.TableName == "" then (log, Some(TableNameIsEmpty))
    else
      match TableOf(n.TableName, cat)
      case Err(NotFoundTable(_)) =>
        Reconcile(Step(log, CreateTable(n.TableName, false), accepts, SendAll).0,
                  TableDef(n.TableName, false, [], "", [], map[], ""), n, [], newOrder, HasDesc, accepts, SendAll)
      case Err(x) => (log, Some(x))
      case Ok(o) => Reconcile(log, o, n, oldOrder, newOrder, HasDesc, accepts, SendAll)
  }

  /** With the intended behaviour a missing table is created and then every
      desired column is added, the key created, every index created and
      commented and the table commented, in that order. */
  lemma MissingTableCreatesAll(log: seq<Op<string>>, n: TableDef<string>, cat: Catalog, oldOrder: seq<string>,
                               newOrder: seq<string>, accepts: (seq<Op<string>>, Op<string>) -> bool)
    requires n.TableName != "" && !cat.Exists && Enumerates(newOrder, n.Indexes)
    ensures var t := n.TableName;
      IntendedOutcome(log, n, cat, oldOrder, newOrder, accepts) ==
      Run(log + [CreateTable(t, false)],
          AddsFrom(t, n.Columns, [], 0, HasDesc) +
          (When(n.PK != [], CreatePK(t, n.PK)) +
          (NewIndexOpsFrom(t, map[], n.Indexes, newOrder, 0) + When(n.Desc != "", TableComment(t, n.Desc)))),
          accepts, SendAll)
  {
    var o := TableDef(n.TableName, false, [], "", [], map[], "");
    NoLiveKey(o, n);
    FromEmptyTable(o, n, newOrder, HasDesc);
  }

  /** Applying the definition just read from the catalog issues no
      statement, when its column names are distinct and every key column
      exists. */
  lemma UnchangedTableIssuesNothing(log: seq<Op<string>>, n: TableDef<string>, cat: Catalog, oldOrder: seq<string>,
                                    newOrder: seq<string>, accepts: (seq<Op<string>>, Op<string>) -> bool)
    requires n.TableName != "" && TableOf(n.TableName, cat) == Ok(n)
    requires DistinctNames(n.Columns) && KeyResolved(n)
    requires Enumerates(oldOrder, n.Indexes) && Enumerates(newOrder, n.Indexes)
    ensures Outcome(log, n, cat, oldOrder, newOrder, accepts) == (log, None)
  {
    TableOfIff(n.TableName, cat);
    assert NoOriginRenames(n.Columns);
    SelfDiffIssuesNothing(log, n, oldOrder, newOrder, HasDesc, accepts, SendAll);
  }
}
