/** `UpdateStruct` of pghelper.go: descriptions are `PGDesc` maps, a
    column's origin name is read from its description, a missing live
    definition means a new table, `dropConstraint` refuses empty names and
    `ExecuteSql` skips blank text. Also the argument checks of `Merge` and
    the column list it updates. */
module HelperDiff {
  import opened Base
  import opened Strs
  import opened Values
  import opened Exec
  import opened DiffOps
  import opened KeyCheck
  import opened Pairing
  import opened ColumnPlan
  import opened IndexPlan
  import opened DiffPlan
  import opened DiffFacts
  import DataColumns

  /** `PGDesc`: a description map, compared by `Equal` as a map. */
  type Desc = map<string, Value>

  /** `len(desc) > 0`: the description has an entry. */
  function HasDesc(d: Desc): bool
  {
    |d| > 0
  }

  /** The definition as `UpdateStruct` sees it: each column's origin name
      is `OriginName()`, read from its description. */
  function WithOrigins(t: TableDef<Desc>): TableDef<Desc>
  {
    t.(Columns := seq(|t.Columns|, i requires 0 <= i < |t.Columns| =>
                        t.Columns[i].(Origin := DataColumns.DescOrigin(t.Columns[i].Desc))))
  }

  /** The statement helpers' checks: `dropConstraint` refuses an empty table
      or constraint name before sending anything, and `ExecuteSql` reports
      success without sending when the text is blank. Only a define text can
      be blank: every other statement is formatted from non-blank text. */
  function HelperGate(op: Op<Desc>): (g: Gate)
    ensures g.Refuse? <==> op.DropConstraint? && (op.table == "" || op.constraint == "")
    ensures g.Skip? <==> op.ExecDefine? && IsBlank(op.define)
    ensures g.Refuse? ==> g.err.EmptyArgument?
  {
    match op
    case DropConstraint(t, c) =>
      if t == "" then Refuse(EmptyArgument("tablename"))
      else if c == "" then Refuse(EmptyArgument("constraint name"))
      else Send
    case ExecDefine(d, _, _) => if IsBlank(d) then Skip else Send
    case _ => Send
  }

  /** `NewDataTable(name)`: no columns, key, indexes or description. */
  function EmptyTable(name: string): TableDef<Desc>
  {
    TableDef(name, false, [], "", [], map[], map[])
  }

  /** What `UpdateStruct(old, new)` leaves in the engine's log and returns.
      An empty table name is refused before any statement. A missing live
      definition issues CREATE [TEMP] TABLE, ignores its outcome and then
      diffs against an empty table. */
  function Outcome(log: seq<Op<Desc>>, o: Option<TableDef<Desc>>, n: TableDef<Desc>, oldOrder: seq<string>,
                   newOrder: seq<string>, accepts: (seq<Op<Desc>>, Op<Desc>) -> bool): (seq<Op<Desc>>, Option<Error>)
    requires o.Some? ==> Enumerates(oldOrder, o.value.Indexes)
    requires o.None? ==> oldOrder == []
    requires Enumerates(newOrder, n.Indexes)
  {
    if n.TableName == "" then (log, Some(TableNameIsEmpty))
    else
      var start := if o.None? then Step(log, CreateTable(n.TableName, n.Temp), accepts, HelperGate).0 else log;
      var live := if o.None? then EmptyTable(n.TableName) else o.value;
      Reconcile(start, WithOrigins(live), WithOrigins(n), oldOrder, newOrder, HasDesc, accepts, HelperGate)
  }

  /** `UpdateStruct` as the source runs it. */
  method UpdateStruct(e: Engine<Op<Desc>>, o: Option<TableDef<Desc>>, n: TableDef<Desc>, oldOrder: seq<string>,
                      newOrder: seq<string>) returns (err: Option<Error>)
    requires o.Some? ==> Enumerates(oldOrder, o.value.Indexes)
    requires o.None? ==> oldOrder == []
    requires Enumerates(newOrder, n.Indexes)
    modifies e
    ensures (e.Log, err) == Outcome(old(e.Log), o, n, oldOrder, newOrder, e.Accepts)
  {
    if |n.TableName| == 0 {
      return Some(TableNameIsEmpty);
    }
    var live: TableDef<Desc>;
    if o.None? {
      var ignored := Issue(e, CreateTable(n.TableName, n.Temp), HelperGate);
      live := EmptyTable(n.TableName);
    } else {
      live := o.value;
    }
    err := ReconcileTables(e, HelperGate, WithOrigins(live), WithOrigins(n), oldOrder, newOrder, HasDesc);
  }

  /** An empty table name is refused and nothing is issued. */
  lemma EmptyNameIssuesNothing(log: seq<Op<Desc>>, o: Option<TableDef<Desc>>, n: TableDef<Desc>, oldOrder: seq<string>,
                               newOrder: seq<string>, accepts: (seq<Op<Desc>>, Op<Desc>) -> bool)
    requires o.Some? ==> Enumerates(oldOrder, o.value.Indexes)
    requires o.None? ==> oldOrder == []
    requires Enumerates(newOrder, n.Indexes)
    requires n.TableName == ""
    ensures Outcome(log, o, n, oldOrder, newOrder, accepts) == (log, Some(TableNameIsEmpty))
  {
  }

  /** Without a live definition the table is created, whatever the engine
      answers, and then every desired column is added in order, the key is
      created when there is one, every index is created and commented, and
      the table comment is set when there is a description. */
  lemma MissingTableAddsAll(log: seq<Op<Desc>>, n: TableDef<Desc>, newOrder: seq<string>,
                            accepts: (seq<Op<Desc>>, Op<Desc>) -> bool)
    requires n.TableName != "" && Enumerates(newOrder, n.Indexes)
    ensures var t := n.TableName;
      Outcome(log, None, n, [], newOrder, accepts) ==
      Run(log + [CreateTable(t, n.Temp)],
          AddsFrom(t, WithOrigins(n).Columns, [], 0, HasDesc) +
          (When(n.PK != [], CreatePK(t, n.PK)) +
          (NewIndexOpsFrom(t, map[], n.Indexes, newOrder, 0) + When(n.Desc != map[], TableComment(t, n.Desc)))),
          accepts, HelperGate)
  {
    var o := WithOrigins(EmptyTable(n.TableName));
    NoLiveKey(o, WithOrigins(n));
    FromEmptyTable(o, WithOrigins(n), newOrder, HasDesc);
  }

  /** A changed key on a live table whose key constraint has no name fails
      at `dropConstraint` before any statement is sent. */
  lemma UnnamedConstraintRefused(log: seq<Op<Desc>>, o: TableDef<Desc>, n: TableDef<Desc>, oldOrder: seq<string>,
                                 newOrder: seq<string>, accepts: (seq<Op<Desc>>, Op<Desc>) -> bool)
    requires Enumerates(oldOrder, o.Indexes) && Enumerates(newOrder, n.Indexes)
    requires n.TableName != "" && o.PK != [] && o.PKConstraintName == "" && o.PK != n.PK
    ensures Outcome(log, Some(o), n, oldOrder, newOrder, accepts) == (log, Some(EmptyArgument("constraint name")))
  {
    var wo := WithOrigins(o);
    var wn := WithOrigins(n);
    var b := Body(wo, wn, true, oldOrder, newOrder, HasDesc);
    assert KeyChanged(wo, wn) == Ok(true);
    KeyStatementsIff(wo, wn, true, oldOrder, newOrder, HasDesc, n.TableName, "", n.PK);
    assert DropConstraint(n.TableName, "") in b;
    assert b[0] == DropConstraint(n.TableName, "");
    assert Step(log, b[0], accepts, HelperGate) == (log, Some(EmptyArgument("constraint name")));
    assert Outcome(log, Some(o), n, oldOrder, newOrder, accepts) == Run(log, b, accepts, HelperGate);
  }

  /** The column's description does not rename it. */
  predicate KeepsNames(cols: seq<Column<Desc>>)
  {
    forall i :: 0 <= i < |cols| ==> DataColumns.DescOrigin(cols[i].Desc) in {"", cols[i].Name}
  }

  /** Column lookup by name ignores the origin names. */
  lemma {:induction false} IndexIgnoresOrigins(cols: seq<Column<Desc>>, t: TableDef<Desc>, x: string)
    requires cols == t.Columns
    ensures ColumnIndex(WithOrigins(t).Columns, x) == ColumnIndex(cols, x)
  {
    var w := WithOrigins(t).Columns;
    var k := ColumnIndex(cols, x);
    var kw := ColumnIndex(w, x);
    assert forall i :: 0 <= i < |cols| ==> w[i].Name == cols[i].Name;
    if k >= 0 && kw >= 0 {
      assert !(k < kw) && !(kw < k);
    }
  }

  /** Diffing a live definition against an identical desired one issues no
      statement and succeeds, when its column names are distinct, no
      description renames a column and every key name names a column. */
  lemma UnchangedTableIssuesNothing(log: seq<Op<Desc>>, o: TableDef<Desc>, oldOrder: seq<string>, newOrder: seq<string>,
                                    accepts: (seq<Op<Desc>>, Op<Desc>) -> bool)
    requires o.TableName != "" && DistinctNames(o.Columns) && KeepsNames(o.Columns) && KeyResolved(o)
    requires Enumerates(oldOrder, o.Indexes) && Enumerates(newOrder, o.Indexes)
    ensures Outcome(log, Some(o), o, oldOrder, newOrder, accepts) == (log, None)
  {
    var w := WithOrigins(o);
    assert DistinctNames(w.Columns);
    assert NoOriginRenames(w.Columns);
    forall i | 0 <= i < |w.PK|
      ensures ColumnIndex(w.Columns, w.PK[i]) >= 0
    {
      IndexIgnoresOrigins(o.Columns, o, o.PK[i]);
    }
    SelfDiffIssuesNothing(log, w, oldOrder, newOrder, HasDesc, accepts, HelperGate);
  }

  /** `updateColumns`: the columns of `cols` not in the key list, in order. */
  function Without(cols: seq<string>, pk: seq<string>): seq<string>
  {
    if |cols| == 0 then []
    else Without(cols[..|cols| - 1], pk) + (if cols[|cols| - 1] in pk then [] else [cols[|cols| - 1]])
  }

  /** A name is updated exactly when it is a column and not a key name; the
      list never grows. */
  lemma {:induction false} WithoutIff(cols: seq<string>, pk: seq<string>)
    ensures forall x :: x in Without(cols, pk) <==> x in cols && x !in pk
    ensures |Without(cols, pk)| <= |cols|
  {
    if |cols| > 0 {
      var init := cols[..|cols| - 1];
      WithoutIff(init, pk);
      assert cols == init + [cols[|cols| - 1]];
    }
  }

  /** Without key names among the columns every column is updated. */
  lemma {:induction false} WithoutNothing(cols: seq<string>, pk: seq<string>)
    requires forall i :: 0 <= i < |cols| ==> cols[i] !in pk
    ensures Without(cols, pk) == cols
  {
    if |cols| > 0 {
      WithoutNothing(cols[..|cols| - 1], pk);
      assert cols == cols[..|cols| - 1] + [cols[|cols| - 1]];
    }
  }

  /** `Merge`'s argument checks and the update list it passes to the
      statement template: an empty key list, then an empty column list, is
      an error. */
  function MergeColumns(colNames: seq<string>, pk: seq<string>): Result<seq<string>>
  {
    if |pk| == 0 then Err(EmptyArgument("primary keys"))
    else if |colNames| == 0 then Err(EmptyArgument("columns"))
    else Ok(Without(colNames, pk))
  }

  /** `Merge` up to the template: the checks, then `updateColumns` built by
      a scan of the key list for each column. */
  method Merge(dest: string, source: string, colNames: seq<string>, pkColumns: seq<string>, autoRemove: bool,
               sqlWhere: string) returns (r: Result<seq<string>>)
    ensures r == MergeColumns(colNames, pkColumns)
  {
    if |pkColumns| == 0 {
      return Err(EmptyArgument("primary keys"));
    }
    if |colNames| == 0 {
      return Err(EmptyArgument("columns"));
    }
    var updateColumns: seq<string> := [];
    for i := 0 to |colNames|
      invariant updateColumns == Without(colNames[..i], pkColumns)
    {
      var v := colNames[i];
      var found := false;
      for k := 0 to |pkColumns|
        invariant found <==> v in pkColumns[..k]
      {
        if v == pkColumns[k] {
          found := true;
          break;
        }
      }
      assert colNames[..i + 1][..i] == colNames[..i];
      if !found {
        updateColumns := updateColumns + [v];
      }
    }
    assert colNames[..|colNames|] == colNames;
    r := Ok(updateColumns);
  }
}
