/** The whole plan of `UpdateStruct` once the key check has answered, the
    order of its phases, and the method that issues it. */
module DiffPlan {
  import opened Base
  import opened Exec
  import opened DiffOps
  import opened Pairing
  import opened ColumnPlan
  import opened IndexPlan
  import opened KeyCheck
  import TypeNames

  function DropKeyPart<D>(o: TableDef<D>, n: TableDef<D>, kc: bool): seq<Op<D>>
  {
    When(kc && |o.PK| > 0, DropConstraint(n.TableName, o.PKConstraintName))
  }

  function CreateKeyPart<D>(n: TableDef<D>, kc: bool): seq<Op<D>>
  {
    When(kc && |n.PK| > 0, CreatePK(n.TableName, n.PK))
  }

  function TableCommentPart<D(==)>(o: TableDef<D>, n: TableDef<D>): seq<Op<D>>
  {
    When(o.Desc != n.Desc, TableComment(n.TableName, n.Desc))
  }

  /** Everything `UpdateStruct` issues once the key check has answered
      `kc`, in order: drop the key, drop unpaired live columns, alter the
      pairs, add unpaired desired columns, create the key, live indexes,
      new indexes, table comment. */
  function Body<D(==)>(o: TableDef<D>, n: TableDef<D>, kc: bool, oldOrder: seq<string>, newOrder: seq<string>,
                       hasDesc: D -> bool): seq<Op<D>>
    requires Enumerates(oldOrder, o.Indexes) && Enumerates(newOrder, n.Indexes)
  {
    DropKeyPart(o, n, kc) +
    (ColumnPhases(n.TableName, o.Columns, n.Columns, hasDesc) +
    (CreateKeyPart(n, kc) +
    (IndexPhases(n.TableName, o.Indexes, n.Indexes, oldOrder, newOrder) +
     TableCommentPart(o, n))))
  }

  /** The stage of an operation in the plan: 0 the key drop, 1 column
      drops, 2 pair statements, 3 column additions, 4 the key creation, 5
      index statements, 6 the table comment. A column comment follows a
      pair or an addition, so it spans stages 2 to 3: `Lo` and `Hi` are the
      first and last stage an operation may belong to. */
  function Lo<D>(op: Op<D>): nat
  {
    match op
    case CreateTable(_, _) => 0
    case DropConstraint(_, _) => 0
    case DropColumn(_, _) => 1
    case AddColumn(_, _, _, _) => 3
    case CreatePK(_, _) => 4
    case DropIndex(_) => 5
    case ExecDefine(_, _, _) => 5
    case IndexComment(_, _) => 5
    case TableComment(_, _) => 6
    case _ => 2
  }

  function Hi<D>(op: Op<D>): nat
  {
    if op.ColumnComment? then 3 else Lo(op)
  }

  /** No operation comes after one of a later stage. */
  predicate Ordered<D>(s: seq<Op<D>>)
  {
    forall a, b :: 0 <= a < b < |s| ==> Lo(s[a]) <= Hi(s[b])
  }

  /** Every operation of `s` may belong to stage `m`. */
  predicate Band<D>(s: seq<Op<D>>, m: nat)
  {
    forall k :: 0 <= k < |s| ==> Lo(s[k]) <= m <= Hi(s[k])
  }

  /** No operation of `s` belongs only to stages before `m`. */
  predicate HiFrom<D>(s: seq<Op<D>>, m: nat)
  {
    forall k :: 0 <= k < |s| ==> m <= Hi(s[k])
  }

  /** No operation of `s` belongs only to stages after `m`. */
  predicate LoTo<D>(s: seq<Op<D>>, m: nat)
  {
    forall k :: 0 <= k < |s| ==> Lo(s[k]) <= m
  }

  lemma BandConcat<D>(a: seq<Op<D>>, b: seq<Op<D>>, m: nat)
    requires Band(a, m) && Band(b, m)
    ensures Band(a + b, m)
  {
    forall k | 0 <= k < |a + b|
      ensures Lo((a + b)[k]) <= m <= Hi((a + b)[k])
    {
      if k < |a| {
        assert (a + b)[k] == a[k];
      } else {
        assert (a + b)[k] == b[k - |a|];
      }
    }
  }

  lemma LoToConcat<D>(a: seq<Op<D>>, b: seq<Op<D>>, m: nat)
    requires LoTo(a, m) && LoTo(b, m)
    ensures LoTo(a + b, m)
  {
    forall k | 0 <= k < |a + b|
      ensures Lo((a + b)[k]) <= m
    {
      if k < |a| {
        assert (a + b)[k] == a[k];
      } else {
        assert (a + b)[k] == b[k - |a|];
      }
    }
  }

  lemma {:induction false} DropsInBand<D>(t: string, olds: seq<Column<D>>, pairs: seq<Found>, i: nat)
    requires i <= |olds|
    ensures Band(DropsFrom(t, olds, pairs, i), 1)
    decreases |olds| - i
  {
    if i < |olds| {
      DropsInBand(t, olds, pairs, i + 1);
      BandConcat(When(!OldPaired(pairs, i), DropColumn(t, olds[i].Name)), DropsFrom(t, olds, pairs, i + 1), 1);
    }
  }

  /** A statement issued under a condition keeps its stage. */
  lemma WhenInBand<D>(cond: bool, op: Op<D>, m: nat)
    requires Lo(op) <= m <= Hi(op)
    ensures Band(When(cond, op), m)
  {
  }

  lemma ColumnOpsInBand<D>(t: string, o: Column<D>, n: Column<D>)
    ensures Band(ColumnOps(t, o, n), 2)
  {
    var p0 := RenamePart(t, o, n);
    var p1 := TypePart(t, o, n);
    var p2 := DropNotNullPart(t, o, n);
    var p3 := SetNotNullPart(t, o, n);
    var p4 := DropDefaultPart(t, o, n);
    var p5 := SetDefaultPart(t, o, n);
    var p6 := CommentPart(t, o, n);
    WhenInBand<D>(n.Name != o.Name, Rename(t, o.Name, n.Name), 2);
    WhenInBand<D>(o.Type.Type != n.Type.Type || o.Type.MaxSize != n.Type.MaxSize, AlterType(t, n.Name, TypeNames.DBString(n.Type)), 2);
    WhenInBand<D>(o.Type.NotNull && !n.Type.NotNull, DropNotNull(t, n.Name), 2);
    WhenInBand<D>(!o.Type.NotNull && n.Type.NotNull, SetNotNull(t, n.Name), 2);
    WhenInBand<D>(|o.Default| > 0 && |n.Default| == 0, DropDefault(t, n.Name), 2);
    WhenInBand<D>(o.Default != n.Default && |n.Default| > 0, SetDefault(t, n.Name, n.Default), 2);
    WhenInBand<D>(n.Desc != o.Desc, ColumnComment(t, n.Name, n.Desc), 2);
    BandConcat(p5, p6, 2);
    BandConcat(p4, p5 + p6, 2);
    BandConcat(p3, DefaultOps(t, o, n), 2);
    BandConcat(p2, p3 + DefaultOps(t, o, n), 2);
    BandConcat(p1, p2 + (p3 + DefaultOps(t, o, n)), 2);
    BandConcat(p0, p1 + (p2 + (p3 + DefaultOps(t, o, n))), 2);
  }

  lemma {:induction false} PairOpsInBand<D>(t: string, olds: seq<Column<D>>, news: seq<Column<D>>, pairs: seq<Found>, k: nat)
    requires ValidPairs(pairs, olds, news) && k <= |pairs|
    ensures Band(PairOpsFrom(t, olds, news, pairs, k), 2)
    decreases |pairs| - k
  {
    if k < |pairs| {
      var head := ColumnOps(t, olds[pairs[k].Old], news[pairs[k].New]);
      var tail := PairOpsFrom(t, olds, news, pairs, k + 1);
      PairOpsInBand(t, olds, news, pairs, k + 1);
      ColumnOpsInBand(t, olds[pairs[k].Old], news[pairs[k].New]);
      BandConcat(head, tail, 2);
      assert PairOpsFrom(t, olds, news, pairs, k) == head + tail;
    }
  }

  lemma AddOpsInBand<D>(t: string, c: Column<D>, hasDesc: D -> bool)
    ensures Band(AddOps(t, c, hasDesc), 3)
  {
    WhenInBand<D>(true, AddColumnOp(t, c), 3);
    WhenInBand<D>(hasDesc(c.Desc), ColumnComment(t, c.Name, c.Desc), 3);
    BandConcat([AddColumnOp(t, c)], When(hasDesc(c.Desc), ColumnComment(t, c.Name, c.Desc)), 3);
  }

  lemma {:induction false} AddsInBand<D>(t: string, news: seq<Column<D>>, pairs: seq<Found>, j: nat, hasDesc: D -> bool)
    requires j <= |news|
    ensures Band(AddsFrom(t, news, pairs, j, hasDesc), 3)
    decreases |news| - j
  {
    if j < |news| {
      AddsInBand(t, news, pairs, j + 1, hasDesc);
      var a: seq<Op<D>> := if NewPaired(pairs, j) then [] else AddOps(t, news[j], hasDesc);
      var tail := AddsFrom(t, news, pairs, j + 1, hasDesc);
      AddOpsInBand(t, news[j], hasDesc);
      BandConcat(a, tail, 3);
      assert AddsFrom(t, news, pairs, j, hasDesc) == a + tail;
    }
  }

  lemma {:induction false} OldIndexInBand<D>(t: string, oldIx: map<string, IndexDef<D>>, newIx: map<string, IndexDef<D>>,
                                             order: seq<string>, k: nat)
    requires k <= |order| && forall x :: 0 <= x < |order| ==> order[x] in oldIx
    ensures Band(OldIndexOpsFrom(t, oldIx, newIx, order, k), 5)
    decreases |order| - k
  {
    if k < |order| {
      OldIndexInBand(t, oldIx, newIx, order, k + 1);
      var a := OldIndexOps(t, order[k], oldIx[order[k]], newIx);
      assert forall x :: 0 <= x < |a| ==> a[x].DropIndex? || a[x].ExecDefine? || a[x].IndexComment?;
      BandConcat(a, OldIndexOpsFrom(t, oldIx, newIx, order, k + 1), 5);
    }
  }

  lemma {:induction false} NewIndexInBand<D>(t: string, oldIx: map<string, IndexDef<D>>, newIx: map<string, IndexDef<D>>,
                                             order: seq<string>, k: nat)
    requires k <= |order| && forall x :: 0 <= x < |order| ==> order[x] in newIx
    ensures Band(NewIndexOpsFrom(t, oldIx, newIx, order, k), 5)
    decreases |order| - k
  {
    if k < |order| {
      NewIndexInBand(t, oldIx, newIx, order, k + 1);
      var a := NewIndexOps(t, order[k], newIx[order[k]], oldIx);
      assert Band(a, 5);
      BandConcat(a, NewIndexOpsFrom(t, oldIx, newIx, order, k + 1), 5);
    }
  }

  lemma IndexPhasesInBand<D>(t: string, oldIx: map<string, IndexDef<D>>, newIx: map<string, IndexDef<D>>,
                             oldOrder: seq<string>, newOrder: seq<string>)
    requires Enumerates(oldOrder, oldIx) && Enumerates(newOrder, newIx)
    ensures Band(IndexPhases(t, oldIx, newIx, oldOrder, newOrder), 5)
  {
    OldIndexInBand(t, oldIx, newIx, oldOrder, 0);
    NewIndexInBand(t, oldIx, newIx, newOrder, 0);
    BandConcat(OldIndexOpsFrom(t, oldIx, newIx, oldOrder, 0), NewIndexOpsFrom(t, oldIx, newIx, newOrder, 0), 5);
  }

  /** A part of one stage put before an ordered rest whose operations all
      may belong to that stage or a later one stays ordered. */
  lemma Prepend<D>(a: seq<Op<D>>, b: seq<Op<D>>, m: nat)
    requires Band(a, m) && Ordered(b) && HiFrom(b, m)
    ensures Ordered(a + b) && HiFrom(a + b, m)
  {
    Join(a, b, m);
    forall k | 0 <= k < |a + b|
      ensures m <= Hi((a + b)[k])
    {
      if k < |a| {
        assert (a + b)[k] == a[k];
      } else {
        assert (a + b)[k] == b[k - |a|];
      }
    }
  }

  /** Two ordered parts, the first ending by stage `m` and the second
      starting there, join into an ordered whole. */
  lemma Join<D>(a: seq<Op<D>>, b: seq<Op<D>>, m: nat)
    requires Ordered(a) && LoTo(a, m) && Ordered(b) && HiFrom(b, m)
    ensures Ordered(a + b)
  {
    forall x, y | 0 <= x < y < |a + b|
      ensures Lo((a + b)[x]) <= Hi((a + b)[y])
    {
      if y < |a| {
        assert (a + b)[x] == a[x] && (a + b)[y] == a[y];
      } else if x < |a| {
        assert (a + b)[x] == a[x] && (a + b)[y] == b[y - |a|];
        assert Lo(a[x]) <= m <= Hi(b[y - |a|]);
      } else {
        assert (a + b)[x] == b[x - |a|] && (a + b)[y] == b[y - |a|];
      }
    }
  }

  /** The column phases are ordered: drops, then pair statements, then
      additions, comments staying with their pair or addition. */
  lemma ColumnPhasesOrdered<D>(t: string, olds: seq<Column<D>>, news: seq<Column<D>>, hasDesc: D -> bool)
    ensures Ordered(ColumnPhases(t, olds, news, hasDesc))
    ensures HiFrom(ColumnPhases(t, olds, news, hasDesc), 1) && LoTo(ColumnPhases(t, olds, news, hasDesc), 3)
  {
    var pairs := ColumnPairs(olds, news);
    var s1 := DropsFrom(t, olds, pairs, 0);
    var s2 := PairOpsFrom(t, olds, news, pairs, 0);
    var s3 := AddsFrom(t, news, pairs, 0, hasDesc);
    DropsInBand(t, olds, pairs, 0);
    PairOpsInBand(t, olds, news, pairs, 0);
    AddsInBand(t, news, pairs, 0, hasDesc);
    assert Ordered(s3) && HiFrom(s3, 3);
    Prepend(s2, s3, 2);
    Prepend(s1, s2 + s3, 1);
    assert LoTo(s1, 3) && LoTo(s2, 3) && LoTo(s3, 3);
    LoToConcat(s2, s3, 3);
    LoToConcat(s1, s2 + s3, 3);
  }

  /** The five parts of the plan, each in its stages, joined in order. */
  lemma PartsOrdered<D>(s0: seq<Op<D>>, s1: seq<Op<D>>, s2: seq<Op<D>>, s3: seq<Op<D>>, s4: seq<Op<D>>)
    requires Band(s0, 0) && Band(s2, 4) && Band(s3, 5) && Band(s4, 6)
    requires Ordered(s1) && HiFrom(s1, 1) && LoTo(s1, 3)
    ensures Ordered(s0 + (s1 + (s2 + (s3 + s4))))
  {
    assert Ordered(s4) && HiFrom(s4, 6);
    Prepend(s3, s4, 5);
    Prepend(s2, s3 + s4, 4);
    Join(s1, s2 + (s3 + s4), 3);
    Prepend(s0, s1 + (s2 + (s3 + s4)), 0);
  }

  lemma KeyPartsInBand<D>(o: TableDef<D>, n: TableDef<D>, kc: bool)
    ensures Band(DropKeyPart(o, n, kc), 0) && Band(CreateKeyPart(n, kc), 4) && Band(TableCommentPart(o, n), 6)
  {
  }

  /** The plan never goes back a stage: the key is dropped first, column
      drops precede pair statements, which precede column additions (each
      comment staying with its pair or addition), the key is created after
      all column work, and index statements and then the table comment
      close the run. */
  lemma BodyOrdered<D>(o: TableDef<D>, n: TableDef<D>, kc: bool, oldOrder: seq<string>, newOrder: seq<string>,
                       hasDesc: D -> bool)
    requires Enumerates(oldOrder, o.Indexes) && Enumerates(newOrder, n.Indexes)
    ensures Ordered(Body(o, n, kc, oldOrder, newOrder, hasDesc))
  {
    var t := n.TableName;
    ColumnPhasesOrdered(t, o.Columns, n.Columns, hasDesc);
    IndexPhasesInBand(t, o.Indexes, n.Indexes, oldOrder, newOrder);
    KeyPartsInBand(o, n, kc);
    PartsOrdered(DropKeyPart(o, n, kc), ColumnPhases(t, o.Columns, n.Columns, hasDesc), CreateKeyPart(n, kc),
                 IndexPhases(t, o.Indexes, n.Indexes, oldOrder, newOrder), TableCommentPart(o, n));
  }

  /** Everything after the key check, as the source issues it. */
  method ApplyBody<D(==)>(e: Engine<Op<D>>, gate: Op<D> -> Gate, o: TableDef<D>, n: TableDef<D>, kc: bool,
                          oldOrder: seq<string>, newOrder: seq<string>, hasDesc: D -> bool) returns (err: Option<Error>)
    requires Enumerates(oldOrder, o.Indexes) && Enumerates(newOrder, n.Indexes)
    modifies e
    ensures (e.Log, err) == Run(old(e.Log), Body(o, n, kc, oldOrder, newOrder, hasDesc), e.Accepts, gate)
  {
    var t := n.TableName;
    ghost var s4 := TableCommentPart(o, n);
    ghost var s3 := IndexPhases(t, o.Indexes, n.Indexes, oldOrder, newOrder) + s4;
    ghost var s2 := CreateKeyPart(n, kc) + s3;
    ghost var s1 := ColumnPhases(t, o.Columns, n.Columns, hasDesc) + s2;
    ghost var goal := Run(e.Log, Body(o, n, kc, oldOrder, newOrder, hasDesc), e.Accepts, gate);
    if kc && |o.PK| > 0 {
      assert Body(o, n, kc, oldOrder, newOrder, hasDesc) == [DropConstraint(t, o.PKConstraintName)] + s1;
      err := EmitThen(e, DropConstraint(t, o.PKConstraintName), gate, s1);
      if err.Some? {
        return;
      }
    } else {
      assert Body(o, n, kc, oldOrder, newOrder, hasDesc) == s1;
    }
    ghost var l := e.Log;
    err := SyncColumns(e, gate, t, o.Columns, n.Columns, hasDesc);
    Advance(l, e.Log, err, ColumnPhases(t, o.Columns, n.Columns, hasDesc), s2, e.Accepts, gate);
    if err.Some? {
      return;
    }
    if kc && |n.PK| > 0 {
      assert s2 == [CreatePK(t, n.PK)] + s3;
      err := EmitThen(e, CreatePK(t, n.PK), gate, s3);
      if err.Some? {
        return;
      }
    } else {
      assert s2 == s3;
    }
    l := e.Log;
    err := SyncAllIndexes(e, gate, t, o.Indexes, n.Indexes, oldOrder, newOrder);
    Advance(l, e.Log, err, IndexPhases(t, o.Indexes, n.Indexes, oldOrder, newOrder), s4, e.Accepts, gate);
    if err.Some? {
      return;
    }
    err := None;
    if o.Desc != n.Desc {
      assert s4 == [TableComment(t, n.Desc)] + [];
      err := EmitThen(e, TableComment(t, n.Desc), gate, []);
    } else {
      assert s4 == [];
    }
  }

  /** `UpdateStruct` once both definitions are at hand: the key check, then
      the plan it selects. A key name without a column ends the call before
      any statement. */
  function Reconcile<D(==)>(log: seq<Op<D>>, o: TableDef<D>, n: TableDef<D>, oldOrder: seq<string>, newOrder: seq<string>,
                            hasDesc: D -> bool, accepts: (seq<Op<D>>, Op<D>) -> bool, gate: Op<D> -> Gate)
    : (seq<Op<D>>, Option<Error>)
    requires Enumerates(oldOrder, o.Indexes) && Enumerates(newOrder, n.Indexes)
  {
    match KeyChanged(o, n)
    case Err(x) => (log, Some(x))
    case Ok(kc) => Run(log, Body(o, n, kc, oldOrder, newOrder, hasDesc), accepts, gate)
  }

  method ReconcileTables<D(==)>(e: Engine<Op<D>>, gate: Op<D> -> Gate, o: TableDef<D>, n: TableDef<D>,
                                oldOrder: seq<string>, newOrder: seq<string>, hasDesc: D -> bool) returns (err: Option<Error>)
    requires Enumerates(oldOrder, o.Indexes) && Enumerates(newOrder, n.Indexes)
    modifies e
    ensures (e.Log, err) == Reconcile(old(e.Log), o, n, oldOrder, newOrder, hasDesc, e.Accepts, gate)
  {
    var kc := KeyChange(o, n);
    if kc.Err? {
      return Some(kc.error);
    }
    err := ApplyBody(e, gate, o, n, kc.value, oldOrder, newOrder, hasDesc);
  }
}
