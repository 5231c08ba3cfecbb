/** The column phases of `UpdateStruct`: unpaired live columns dropped,
    pairs altered, unpaired desired columns added; each as a plan and as
    the loop that issues it. */
module ColumnPlan {
  import opened Base
  import opened Exec
  import opened TypeNames
  import opened DiffOps
  import opened Pairing

  /** Unpaired live columns from position `i` on are dropped, in order. */
  function DropsFrom<D>(t: string, olds: seq<Column<D>>, pairs: seq<Found>, i: nat): (r: seq<Op<D>>)
    requires i <= |olds|
    decreases |olds| - i
  {
    if i == |olds| then []
    else When(!OldPaired(pairs, i), DropColumn(t, olds[i].Name)) + DropsFrom(t, olds, pairs, i + 1)
  }

  /** Exactly the unpaired live columns are dropped. */
  lemma {:induction false} DropsFromIff<D>(t: string, olds: seq<Column<D>>, pairs: seq<Found>, i: nat)
    requires i <= |olds|
    ensures forall c :: DropColumn(t, c) in DropsFrom(t, olds, pairs, i) <==>
      exists x :: i <= x < |olds| && !OldPaired(pairs, x) && olds[x].Name == c
    decreases |olds| - i
  {
    if i < |olds| {
      DropsFromIff(t, olds, pairs, i + 1);
    }
  }

  function RenamePart<D>(t: string, o: Column<D>, n: Column<D>): seq<Op<D>>
  {
    When(n.Name != o.Name, Rename(t, o.Name, n.Name))
  }

  function TypePart<D>(t: string, o: Column<D>, n: Column<D>): seq<Op<D>>
  {
    When(o.Type.Type != n.Type.Type || o.Type.MaxSize != n.Type.MaxSize, AlterType(t, n.Name, DBString(n.Type)))
  }

  function DropNotNullPart<D>(t: string, o: Column<D>, n: Column<D>): seq<Op<D>>
  {
    When(o.Type.NotNull && !n.Type.NotNull, DropNotNull(t, n.Name))
  }

  function SetNotNullPart<D>(t: string, o: Column<D>, n: Column<D>): seq<Op<D>>
  {
    When(!o.Type.NotNull && n.Type.NotNull, SetNotNull(t, n.Name))
  }

  function DropDefaultPart<D>(t: string, o: Column<D>, n: Column<D>): seq<Op<D>>
  {
    When(|o.Default| > 0 && |n.Default| == 0, DropDefault(t, n.Name))
  }

  function SetDefaultPart<D>(t: string, o: Column<D>, n: Column<D>): seq<Op<D>>
  {
    When(o.Default != n.Default && |n.Default| > 0, SetDefault(t, n.Name, n.Default))
  }

  function CommentPart<D(==)>(t: string, o: Column<D>, n: Column<D>): seq<Op<D>>
  {
    When(n.Desc != o.Desc, ColumnComment(t, n.Name, n.Desc))
  }

  /** What one pair issues, from the default on. */
  function DefaultOps<D(==)>(t: string, o: Column<D>, n: Column<D>): seq<Op<D>>
  {
    DropDefaultPart(t, o, n) + (SetDefaultPart(t, o, n) + CommentPart(t, o, n))
  }

  /** What one pair issues: rename, type change, NOT NULL change, default
      change, comment, in that order. */
  function ColumnOps<D(==)>(t: string, o: Column<D>, n: Column<D>): seq<Op<D>>
  {
    RenamePart(t, o, n) + (TypePart(t, o, n) + (DropNotNullPart(t, o, n) + (SetNotNullPart(t, o, n) + DefaultOps(t, o, n))))
  }

  /** A pair issues nothing exactly when the columns agree on name, kind,
      size, NOT NULL, default and description. */
  lemma ColumnOpsEmptyIff<D>(t: string, o: Column<D>, n: Column<D>)
    ensures ColumnOps(t, o, n) == [] <==>
      o.Name == n.Name && o.Type == n.Type && o.Default == n.Default && o.Desc == n.Desc
  {
    if ColumnOps(t, o, n) == [] {
      assert |RenamePart(t, o, n)| == 0 && |TypePart(t, o, n)| == 0;
      assert |DropNotNullPart(t, o, n)| == 0 && |SetNotNullPart(t, o, n)| == 0;
      assert |DefaultOps(t, o, n)| == 0;
      assert |DropDefaultPart(t, o, n)| == 0 && |SetDefaultPart(t, o, n)| == 0 && |CommentPart(t, o, n)| == 0;
    }
  }

  /** A pair never both drops and sets NOT NULL, nor both drops and sets the
      default. */
  lemma ColumnOpsExclusive<D>(t: string, o: Column<D>, n: Column<D>)
    ensures |DropNotNullPart(t, o, n) + SetNotNullPart(t, o, n)| <= 1
    ensures |DropDefaultPart(t, o, n) + SetDefaultPart(t, o, n)| <= 1
  {
  }

  /** A rename, when there is one, is the pair's first statement. */
  lemma RenameFirst<D>(t: string, o: Column<D>, n: Column<D>)
    ensures o.Name != n.Name <==> |ColumnOps(t, o, n)| > 0 && ColumnOps(t, o, n)[0] == Rename(t, o.Name, n.Name)
  {
    var rest := TypePart(t, o, n) + (DropNotNullPart(t, o, n) + (SetNotNullPart(t, o, n) + DefaultOps(t, o, n)));
    if o.Name == n.Name && |rest| > 0 {
      assert ColumnOps(t, o, n) == rest;
      assert !rest[0].Rename?;
    }
  }

  /** The pairs from `k` on, each with its statements. */
  function PairOpsFrom<D(==)>(t: string, olds: seq<Column<D>>, news: seq<Column<D>>, pairs: seq<Found>, k: nat): (r: seq<Op<D>>)
    requires ValidPairs(pairs, olds, news) && k <= |pairs|
    decreases |pairs| - k
  {
    if k == |pairs| then []
    else ColumnOps(t, olds[pairs[k].Old], news[pairs[k].New]) + PairOpsFrom(t, olds, news, pairs, k + 1)
  }

  /** `createColumn`'s default clause. */
  function DefClause(def: string): string
  {
    if |def| > 0 then "DEFAULT " + def else ""
  }

  /** `createColumn` for a desired column: its name, its type name and its
      default clause. */
  function AddColumnOp<D>(t: string, c: Column<D>): Op<D>
  {
    AddColumn(t, c.Name, DBString(c.Type), DefClause(c.Default))
  }

  /** What an unpaired desired column issues: the column, then a comment
      when it has a description. */
  function AddOps<D>(t: string, c: Column<D>, hasDesc: D -> bool): seq<Op<D>>
  {
    [AddColumnOp(t, c)] +
    When(hasDesc(c.Desc), ColumnComment(t, c.Name, c.Desc))
  }

  /** Unpaired desired columns from position `j` on, in order. */
  function AddsFrom<D>(t: string, news: seq<Column<D>>, pairs: seq<Found>, j: nat, hasDesc: D -> bool): (r: seq<Op<D>>)
    requires j <= |news|
    decreases |news| - j
  {
    if j == |news| then []
    else (if NewPaired(pairs, j) then [] else AddOps(t, news[j], hasDesc)) + AddsFrom(t, news, pairs, j + 1, hasDesc)
  }

  /** Every unpaired desired column is added, with its type name and a
      DEFAULT clause only for a non-empty default. */
  lemma {:induction false} AddsComplete<D>(t: string, news: seq<Column<D>>, pairs: seq<Found>, j: nat, x: nat,
                                           hasDesc: D -> bool)
    requires j <= x < |news| && !NewPaired(pairs, x)
    ensures AddColumnOp(t, news[x]) in AddsFrom(t, news, pairs, j, hasDesc)
    decreases x - j
  {
    var tail := AddsFrom(t, news, pairs, j + 1, hasDesc);
    if x == j {
      assert AddsFrom(t, news, pairs, j, hasDesc) == AddOps(t, news[j], hasDesc) + tail;
      assert AddOps(t, news[j], hasDesc)[0] == AddColumnOp(t, news[x]);
    } else {
      AddsComplete(t, news, pairs, j + 1, x, hasDesc);
    }
  }

  /** Every column added is an unpaired desired column. */
  lemma {:induction false} AddsSound<D>(t: string, news: seq<Column<D>>, pairs: seq<Found>, j: nat, hasDesc: D -> bool)
    requires j <= |news|
    ensures forall op :: op in AddsFrom(t, news, pairs, j, hasDesc) && op.AddColumn? ==>
      exists x :: j <= x < |news| && !NewPaired(pairs, x) && op == AddColumnOp(t, news[x])
    decreases |news| - j
  {
    if j < |news| {
      var head: seq<Op<D>> := if NewPaired(pairs, j) then [] else AddOps(t, news[j], hasDesc);
      var tail := AddsFrom(t, news, pairs, j + 1, hasDesc);
      AddsSound(t, news, pairs, j + 1, hasDesc);
      assert AddsFrom(t, news, pairs, j, hasDesc) == head + tail;
      forall op | op in head + tail && op.AddColumn?
        ensures exists x :: j <= x < |news| && !NewPaired(pairs, x) && op == AddColumnOp(t, news[x])
      {
        if op in head {
          assert op == AddColumnOp(t, news[j]);
        } else {
          assert op in tail;
        }
      }
    }
  }

  /** The drop loop. */
  method DropUnpaired<D>(e: Engine<Op<D>>, gate: Op<D> -> Gate, t: string, olds: seq<Column<D>>, pairs: seq<Found>)
    returns (err: Option<Error>)
    modifies e
    ensures (e.Log, err) == Run(old(e.Log), DropsFrom(t, olds, pairs, 0), e.Accepts, gate)
  {
    ghost var goal := Run(e.Log, DropsFrom(t, olds, pairs, 0), e.Accepts, gate);
    for i := 0 to |olds|
      invariant Run(e.Log, DropsFrom(t, olds, pairs, i), e.Accepts, gate) == goal
    {
      var found := FoundOld(pairs, i);
      if !found {
        err := EmitThen(e, DropColumn(t, olds[i].Name), gate, DropsFrom(t, olds, pairs, i + 1));
        if err.Some? {
          return;
        }
      } else {
        assert DropsFrom(t, olds, pairs, i) == DropsFrom(t, olds, pairs, i + 1);
      }
    }
    err := None;
  }

  /** One pair's statements from the default on. */
  method AlterDefault<D(==)>(e: Engine<Op<D>>, gate: Op<D> -> Gate, t: string, o: Column<D>, n: Column<D>)
    returns (err: Option<Error>)
    modifies e
    ensures (e.Log, err) == Run(old(e.Log), DefaultOps(t, o, n), e.Accepts, gate)
  {
    ghost var goal := Run(e.Log, DefaultOps(t, o, n), e.Accepts, gate);
    ghost var rest := SetDefaultPart(t, o, n) + CommentPart(t, o, n);
    if |o.Default| > 0 && |n.Default| == 0 {
      assert DefaultOps(t, o, n) == [DropDefault(t, n.Name)] + rest;
      err := EmitThen(e, DropDefault(t, n.Name), gate, rest);
      if err.Some? {
        return;
      }
    } else {
      assert DefaultOps(t, o, n) == rest;
    }
    ghost var last := CommentPart(t, o, n);
    if o.Default != n.Default && |n.Default| > 0 {
      assert rest == [SetDefault(t, n.Name, n.Default)] + last;
      err := EmitThen(e, SetDefault(t, n.Name, n.Default), gate, last);
      if err.Some? {
        return;
      }
    } else {
      assert rest == last;
    }
    err := None;
    if n.Desc != o.Desc {
      assert last == [ColumnComment(t, n.Name, n.Desc)] + [];
      err := EmitThen(e, ColumnComment(t, n.Name, n.Desc), gate, []);
    } else {
      assert last == [];
    }
  }

  /** One pair's statements, stopping at the first failure. */
  method AlterPair<D(==)>(e: Engine<Op<D>>, gate: Op<D> -> Gate, t: string, o: Column<D>, n: Column<D>)
    returns (err: Option<Error>)
    modifies e
    ensures (e.Log, err) == Run(old(e.Log), ColumnOps(t, o, n), e.Accepts, gate)
  {
    ghost var goal := Run(e.Log, ColumnOps(t, o, n), e.Accepts, gate);
    ghost var r1 := TypePart(t, o, n) + (DropNotNullPart(t, o, n) + (SetNotNullPart(t, o, n) + DefaultOps(t, o, n)));
    if n.Name != o.Name {
      assert ColumnOps(t, o, n) == [Rename(t, o.Name, n.Name)] + r1;
      err := EmitThen(e, Rename(t, o.Name, n.Name), gate, r1);
      if err.Some? {
        return;
      }
    } else {
      assert ColumnOps(t, o, n) == r1;
    }
    ghost var r2 := DropNotNullPart(t, o, n) + (SetNotNullPart(t, o, n) + DefaultOps(t, o, n));
    if o.Type.Type != n.Type.Type || o.Type.MaxSize != n.Type.MaxSize {
      assert r1 == [AlterType(t, n.Name, DBString(n.Type))] + r2;
      err := EmitThen(e, AlterType(t, n.Name, DBString(n.Type)), gate, r2);
      if err.Some? {
        return;
      }
    } else {
      assert r1 == r2;
    }
    ghost var r3 := SetNotNullPart(t, o, n) + DefaultOps(t, o, n);
    if o.Type.NotNull && !n.Type.NotNull {
      assert r2 == [DropNotNull(t, n.Name)] + r3;
      err := EmitThen(e, DropNotNull(t, n.Name), gate, r3);
      if err.Some? {
        return;
      }
    } else {
      assert r2 == r3;
    }
    ghost var r4 := DefaultOps(t, o, n);
    if !o.Type.NotNull && n.Type.NotNull {
      assert r3 == [SetNotNull(t, n.Name)] + r4;
      err := EmitThen(e, SetNotNull(t, n.Name), gate, r4);
      if err.Some? {
        return;
      }
    } else {
      assert r3 == r4;
    }
    err := AlterDefault(e, gate, t, o, n);
  }

  /** The pair loop. */
  method AlterPairs<D(==)>(e: Engine<Op<D>>, gate: Op<D> -> Gate, t: string, olds: seq<Column<D>>, news: seq<Column<D>>,
                           pairs: seq<Found>) returns (err: Option<Error>)
    requires ValidPairs(pairs, olds, news)
    modifies e
    ensures (e.Log, err) == Run(old(e.Log), PairOpsFrom(t, olds, news, pairs, 0), e.Accepts, gate)
  {
    ghost var goal := Run(e.Log, PairOpsFrom(t, olds, news, pairs, 0), e.Accepts, gate);
    for k := 0 to |pairs|
      invariant Run(e.Log, PairOpsFrom(t, olds, news, pairs, k), e.Accepts, gate) == goal
    {
      var o := olds[pairs[k].Old];
      var n := news[pairs[k].New];
      ghost var before := e.Log;
      err := AlterPair(e, gate, t, o, n);
      Advance(before, e.Log, err, ColumnOps(t, o, n), PairOpsFrom(t, olds, news, pairs, k + 1), e.Accepts, gate);
      if err.Some? {
        return;
      }
    }
    err := None;
  }

  /** One unpaired desired column: `createColumn`, then its comment. */
  method AddOne<D>(e: Engine<Op<D>>, gate: Op<D> -> Gate, t: string, c: Column<D>, hasDesc: D -> bool)
    returns (err: Option<Error>)
    modifies e
    ensures (e.Log, err) == Run(old(e.Log), AddOps(t, c, hasDesc), e.Accepts, gate)
  {
    ghost var rest := When(hasDesc(c.Desc), ColumnComment(t, c.Name, c.Desc));
    var defstr := "";
    if |c.Default| > 0 {
      defstr := "DEFAULT " + c.Default;
    }
    err := EmitThen(e, AddColumn(t, c.Name, DBString(c.Type), defstr), gate, rest);
    if err.Some? {
      return;
    }
    if hasDesc(c.Desc) {
      err := EmitThen(e, ColumnComment(t, c.Name, c.Desc), gate, []);
      assert [ColumnComment(t, c.Name, c.Desc)] + [] == rest;
    }
  }

  /** The add loop. */
  method AddUnpaired<D>(e: Engine<Op<D>>, gate: Op<D> -> Gate, t: string, news: seq<Column<D>>, pairs: seq<Found>,
                        hasDesc: D -> bool) returns (err: Option<Error>)
    modifies e
    ensures (e.Log, err) == Run(old(e.Log), AddsFrom(t, news, pairs, 0, hasDesc), e.Accepts, gate)
  {
    ghost var goal := Run(e.Log, AddsFrom(t, news, pairs, 0, hasDesc), e.Accepts, gate);
    for j := 0 to |news|
      invariant Run(e.Log, AddsFrom(t, news, pairs, j, hasDesc), e.Accepts, gate) == goal
    {
      var found := FoundNew(pairs, j);
      if !found {
        ghost var before := e.Log;
        err := AddOne(e, gate, t, news[j], hasDesc);
        Advance(before, e.Log, err, AddOps(t, news[j], hasDesc), AddsFrom(t, news, pairs, j + 1, hasDesc), e.Accepts, gate);
        if err.Some? {
          return;
        }
      } else {
        assert AddsFrom(t, news, pairs, j, hasDesc) == AddsFrom(t, news, pairs, j + 1, hasDesc);
      }
    }
    err := None;
  }

  /** The three column phases: drops, pair statements, additions. */
  function ColumnPhases<D(==)>(t: string, olds: seq<Column<D>>, news: seq<Column<D>>, hasDesc: D -> bool): seq<Op<D>>
  {
    var pairs := ColumnPairs(olds, news);
    DropsFrom(t, olds, pairs, 0) + (PairOpsFrom(t, olds, news, pairs, 0) + AddsFrom(t, news, pairs, 0, hasDesc))
  }

  /** The column phases as the source issues them: `foundColumns`, then
      the drop, pair and add loops. */
  method SyncColumns<D(==)>(e: Engine<Op<D>>, gate: Op<D> -> Gate, t: string, olds: seq<Column<D>>, news: seq<Column<D>>,
                            hasDesc: D -> bool) returns (err: Option<Error>)
    modifies e
    ensures (e.Log, err) == Run(old(e.Log), ColumnPhases(t, olds, news, hasDesc), e.Accepts, gate)
  {
    var pairs := FindPairs(olds, news);
    ghost var adds := AddsFrom(t, news, pairs, 0, hasDesc);
    ghost var rest := PairOpsFrom(t, olds, news, pairs, 0) + adds;
    ghost var l := e.Log;
    err := DropUnpaired(e, gate, t, olds, pairs);
    Advance(l, e.Log, err, DropsFrom(t, olds, pairs, 0), rest, e.Accepts, gate);
    if err.Some? {
      return;
    }
    l := e.Log;
    err := AlterPairs(e, gate, t, olds, news, pairs);
    Advance(l, e.Log, err, PairOpsFrom(t, olds, news, pairs, 0), adds, e.Accepts, gate);
    if err.Some? {
      return;
    }
    err := AddUnpaired(e, gate, t, news, pairs, hasDesc);
  }
}
