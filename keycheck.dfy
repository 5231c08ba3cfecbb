/** The primary-key check of `UpdateStruct`: whether the key must be
    dropped and created again. */
module KeyCheck {
  import opened Base
  import opened TypeNames
  import opened DiffOps

  /** The position of the first column with the name, -1 when none has it. */
  function ColumnIndex<D>(cols: seq<Column<D>>, name: string): (r: int)
    ensures -1 <= r < |cols|
    ensures r >= 0 ==> cols[r].Name == name && forall k :: 0 <= k < r ==> cols[k].Name != name
    ensures r == -1 <==> forall k :: 0 <= k < |cols| ==> cols[k].Name != name
  {
    if |cols| == 0 then -1
    else
      var r := ColumnIndex(cols[..|cols| - 1], name);
      if r >= 0 then r
      else if cols[|cols| - 1].Name == name then |cols| - 1
      else -1
  }

  /** Indexing a column list at -1. */
  const IndexPanic: Error := Panic("index out of range [-1]")

  /** Every key column name names a column. */
  predicate KeyResolved<D>(t: TableDef<D>)
  {
    forall i :: 0 <= i < |t.PK| ==> ColumnIndex(t.Columns, t.PK[i]) >= 0
  }

  /** The type check of the key columns from position `i` on: true at the
      first position whose column types differ; a key name without column
      panics. */
  function KeyTypesFrom<D>(o: TableDef<D>, n: TableDef<D>, i: nat): (r: Result<bool>)
    requires |o.PK| == |n.PK| && i <= |o.PK|
    decreases |o.PK| - i
  {
    if i == |o.PK| then Ok(false)
    else
      var oi := ColumnIndex(o.Columns, o.PK[i]);
      var ni := ColumnIndex(n.Columns, n.PK[i]);
      if oi < 0 || ni < 0 then Err(IndexPanic)
      else if o.Columns[oi].Type != n.Columns[ni].Type then Ok(true)
      else KeyTypesFrom(o, n, i + 1)
  }

  /** `bKeyChange`: the key lists differ, or some key column's type does. */
  function KeyChanged<D>(o: TableDef<D>, n: TableDef<D>): Result<bool>
  {
    if o.PK != n.PK then Ok(true) else KeyTypesFrom(o, n, 0)
  }

  /** The type of the column a key name resolves to. */
  function KeyType<D>(t: TableDef<D>, i: nat): TypeDesc
    requires i < |t.PK| && ColumnIndex(t.Columns, t.PK[i]) >= 0
  {
    t.Columns[ColumnIndex(t.Columns, t.PK[i])].Type
  }

  lemma {:induction false} KeyTypesFromIff<D>(o: TableDef<D>, n: TableDef<D>, i: nat)
    requires |o.PK| == |n.PK| && i <= |o.PK| && KeyResolved(o) && KeyResolved(n)
    ensures KeyTypesFrom(o, n, i).Ok?
    ensures KeyTypesFrom(o, n, i).value <==> exists k :: i <= k < |o.PK| && KeyType(o, k) != KeyType(n, k)
    decreases |o.PK| - i
  {
    if i < |o.PK| {
      KeyTypesFromStep(o, n, i);
      KeyTypesFromIff(o, n, i + 1);
      if KeyType(o, i) == KeyType(n, i) {
        assert forall k :: i <= k < |o.PK| && KeyType(o, k) != KeyType(n, k) ==> i + 1 <= k;
      }
    }
  }

  lemma KeyTypesFromStep<D>(o: TableDef<D>, n: TableDef<D>, i: nat)
    requires |o.PK| == |n.PK| && i < |o.PK| && KeyResolved(o) && KeyResolved(n)
    ensures KeyTypesFrom(o, n, i) ==
      if KeyType(o, i) != KeyType(n, i) then Ok(true) else KeyTypesFrom(o, n, i + 1)
  {
  }

  /** With every key name resolved, the key counts as changed exactly when
      the key lists differ or some position's key column types (kind, size,
      NOT NULL) differ. */
  lemma KeyChangedIff<D>(o: TableDef<D>, n: TableDef<D>)
    requires KeyResolved(o) && KeyResolved(n)
    ensures KeyChanged(o, n).Ok?
    ensures KeyChanged(o, n).value <==>
      o.PK != n.PK || exists k :: 0 <= k < |o.PK| && KeyType(o, k) != KeyType(n, k)
  {
    if o.PK == n.PK {
      KeyTypesFromIff(o, n, 0);
    }
  }

  /** An unresolved key name in an unchanged key list panics instead of
      answering, unless an earlier key column already differs in type. */
  lemma {:induction false} KeyUnresolvedPanics<D>(o: TableDef<D>, n: TableDef<D>, i: nat)
    requires |o.PK| == |n.PK| && i <= |o.PK|
    requires exists k :: i <= k < |o.PK| && ColumnIndex(o.Columns, o.PK[k]) < 0
    requires forall k :: i <= k < |o.PK| && ColumnIndex(o.Columns, o.PK[k]) >= 0 && ColumnIndex(n.Columns, n.PK[k]) >= 0 ==>
      o.Columns[ColumnIndex(o.Columns, o.PK[k])].Type == n.Columns[ColumnIndex(n.Columns, n.PK[k])].Type
    ensures KeyTypesFrom(o, n, i) == Err(IndexPanic)
    decreases |o.PK| - i
  {
    var oi := ColumnIndex(o.Columns, o.PK[i]);
    var ni := ColumnIndex(n.Columns, n.PK[i]);
    if oi >= 0 && ni >= 0 {
      KeyUnresolvedPanics(o, n, i + 1);
    }
  }

  /** The key check as the source runs it: a flag, then a loop that breaks
      at the first key column whose type differs. */
  method KeyChange<D>(o: TableDef<D>, n: TableDef<D>) returns (r: Result<bool>)
    ensures r == KeyChanged(o, n)
  {
    var changed := false;
    if o.PK != n.PK {
      changed := true;
    }
    if !changed {
      var i := 0;
      while i < |o.PK|
        invariant 0 <= i <= |o.PK| && |o.PK| == |n.PK|
        invariant KeyTypesFrom(o, n, 0) == KeyTypesFrom(o, n, i)
      {
        var oi := ColumnIndex(o.Columns, o.PK[i]);
        if oi < 0 {
          return Err(IndexPanic);
        }
        var ni := ColumnIndex(n.Columns, n.PK[i]);
        if ni < 0 {
          return Err(IndexPanic);
        }
        if o.Columns[oi].Type != n.Columns[ni].Type {
          changed := true;
          break;
        }
        i := i + 1;
      }
    }
    r := Ok(changed);
  }
}
