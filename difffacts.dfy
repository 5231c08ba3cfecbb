/** Properties of the whole `UpdateStruct` plan shared by both generations:
    where the key statements stand, what an unchanged definition issues and
    what a table without columns, key or indexes receives. */
module DiffFacts {
  import opened Base
  import opened Exec
  import opened DiffOps
  import opened KeyCheck
  import opened Pairing
  import opened ColumnPlan
  import opened IndexPlan
  import opened DiffPlan

  /** No two columns share a name. */
  predicate DistinctNames<D>(cols: seq<Column<D>>)
  {
    forall a, b :: 0 <= a < b < |cols| ==> cols[a].Name != cols[b].Name
  }

  /** No column is looked up by an origin name other than its own name. */
  predicate NoOriginRenames<D>(cols: seq<Column<D>>)
  {
    forall i :: 0 <= i < |cols| ==> cols[i].Origin == "" || cols[i].Origin == cols[i].Name
  }

  /** Whether an operation works on columns (drop, pair statement, addition
      or column comment). */
  predicate ColumnWork<D>(op: Op<D>)
  {
    op.DropColumn? || op.Rename? || op.AlterType? || op.DropNotNull? || op.SetNotNull? ||
    op.DropDefault? || op.SetDefault? || op.ColumnComment? || op.AddColumn?
  }

  /** An operation outside the stages a part may hold is not in it. */
  lemma NotInPart<D>(s: seq<Op<D>>, op: Op<D>, lo: nat, hi: nat)
    requires HiFrom(s, lo) && LoTo(s, hi) && (Hi(op) < lo || hi < Lo(op))
    ensures op !in s
  {
    forall k | 0 <= k < |s|
      ensures s[k] != op
    {
    }
  }

  /** In parts of the plan's stages, a key drop can only come from the
      first part and a key creation only from the third. */
  lemma KeyOpsInParts<D>(s0: seq<Op<D>>, s1: seq<Op<D>>, s2: seq<Op<D>>, s3: seq<Op<D>>, s4: seq<Op<D>>,
                         drop: Op<D>, create: Op<D>)
    requires Band(s0, 0) && HiFrom(s1, 1) && LoTo(s1, 3) && Band(s2, 4) && Band(s3, 5) && Band(s4, 6)
    requires drop.DropConstraint? && create.CreatePK?
    ensures drop in s0 + (s1 + (s2 + (s3 + s4))) <==> drop in s0
    ensures create in s0 + (s1 + (s2 + (s3 + s4))) <==> create in s2
  {
    NotInPart(s1, drop, 1, 3);
    NotInPart(s1, create, 1, 3);
    NotInPart(s2, drop, 4, 4);
    NotInPart(s3, drop, 5, 5);
    NotInPart(s3, create, 5, 5);
    NotInPart(s4, drop, 6, 6);
    NotInPart(s4, create, 6, 6);
    NotInPart(s0, create, 0, 0);
  }

  /** The key is dropped exactly when it counts as changed and the live
      table has one, by the live constraint name; it is created exactly when
      it counts as changed and the desired table has one, from the desired
      key list. A drop is the plan's first statement. */
  lemma KeyStatementsIff<D>(o: TableDef<D>, n: TableDef<D>, kc: bool, oldOrder: seq<string>, newOrder: seq<string>,
                            hasDesc: D -> bool, x: string, y: string, cols: seq<string>)
    requires Enumerates(oldOrder, o.Indexes) && Enumerates(newOrder, n.Indexes)
    ensures DropConstraint(x, y) in Body(o, n, kc, oldOrder, newOrder, hasDesc) <==>
      kc && |o.PK| > 0 && x == n.TableName && y == o.PKConstraintName
    ensures CreatePK(x, cols) in Body(o, n, kc, oldOrder, newOrder, hasDesc) <==>
      kc && |n.PK| > 0 && x == n.TableName && cols == n.PK
    ensures kc && |o.PK| > 0 ==> Body(o, n, kc, oldOrder, newOrder, hasDesc)[0] == DropConstraint(n.TableName, o.PKConstraintName)
  {
    var t := n.TableName;
    ColumnPhasesOrdered(t, o.Columns, n.Columns, hasDesc);
    IndexPhasesInBand(t, o.Indexes, n.Indexes, oldOrder, newOrder);
    KeyPartsInBand(o, n, kc);
    KeyOpsInParts(DropKeyPart(o, n, kc), ColumnPhases(t, o.Columns, n.Columns, hasDesc), CreateKeyPart(n, kc),
                  IndexPhases(t, o.Indexes, n.Indexes, oldOrder, newOrder), TableCommentPart(o, n),
                  DropConstraint(x, y), CreatePK(x, cols));
  }

  /** Ordered stages in plain terms: a key drop precedes all column work,
      and all column work precedes a key creation and every index statement
      and table comment. */
  lemma OrderedColumnWork<D>(s: seq<Op<D>>, a: nat, b: nat)
    requires Ordered(s) && a < |s| && b < |s| && ColumnWork(s[b])
    ensures s[a].DropConstraint? ==> a < b
    ensures (s[a].CreatePK? || s[a].DropIndex? || s[a].ExecDefine? || s[a].IndexComment? || s[a].TableComment?) ==> b < a
  {
  }

  /** The whole plan: a key drop precedes all column work, and all column
      work precedes a key creation and every index statement and table
      comment. */
  lemma ColumnWorkBetweenKeys<D>(o: TableDef<D>, n: TableDef<D>, kc: bool, oldOrder: seq<string>, newOrder: seq<string>,
                                 hasDesc: D -> bool, a: nat, b: nat)
    requires Enumerates(oldOrder, o.Indexes) && Enumerates(newOrder, n.Indexes)
    requires var s := Body(o, n, kc, oldOrder, newOrder, hasDesc); a < |s| && b < |s| && ColumnWork(s[b])
    ensures var s := Body(o, n, kc, oldOrder, newOrder, hasDesc);
      (s[a].DropConstraint? ==> a < b) &&
      ((s[a].CreatePK? || s[a].DropIndex? || s[a].ExecDefine? || s[a].IndexComment? || s[a].TableComment?) ==> b < a)
  {
    BodyOrdered(o, n, kc, oldOrder, newOrder, hasDesc);
    OrderedColumnWork(Body(o, n, kc, oldOrder, newOrder, hasDesc), a, b);
  }

  /** An unchanged definition pairs each column with itself and with no
      other. */
  lemma SelfPairs<D>(cols: seq<Column<D>>)
    requires DistinctNames(cols) && NoOriginRenames(cols)
    ensures forall k :: 0 <= k < |ColumnPairs(cols, cols)| ==> ColumnPairs(cols, cols)[k].Old == ColumnPairs(cols, cols)[k].New
    ensures forall i :: 0 <= i < |cols| ==> OldPaired(ColumnPairs(cols, cols), i) && NewPaired(ColumnPairs(cols, cols), i)
  {
    var names := Names(cols);
    assert TrueNames(cols) == names by {
      assert forall i :: 0 <= i < |cols| ==> TrueName(cols[i]) == cols[i].Name;
    }
    var p := Pairs(names, names, |names|);
    PairsSound(names, names, |names|);
    OldPairedIff(names, names);
    NewPairedIff(names, names);
    forall i | 0 <= i < |cols|
      ensures OldPaired(p, i) && NewPaired(p, i)
    {
      assert names[i] == names[i];
    }
    forall k | 0 <= k < |p|
      ensures p[k].Old == p[k].New
    {
      assert names[p[k].Old] == names[p[k].New];
    }
  }

  lemma {:induction false} NoDrops<D>(t: string, olds: seq<Column<D>>, pairs: seq<Found>, i: nat)
    requires i <= |olds| && forall x :: i <= x < |olds| ==> OldPaired(pairs, x)
    ensures DropsFrom(t, olds, pairs, i) == []
    decreases |olds| - i
  {
    if i < |olds| {
      NoDrops(t, olds, pairs, i + 1);
    }
  }

  lemma {:induction false} NoAdds<D>(t: string, news: seq<Column<D>>, pairs: seq<Found>, j: nat, hasDesc: D -> bool)
    requires j <= |news| && forall x :: j <= x < |news| ==> NewPaired(pairs, x)
    ensures AddsFrom(t, news, pairs, j, hasDesc) == []
    decreases |news| - j
  {
    if j < |news| {
      NoAdds(t, news, pairs, j + 1, hasDesc);
    }
  }

  lemma {:induction false} NoPairOps<D>(t: string, cols: seq<Column<D>>, pairs: seq<Found>, k: nat)
    requires ValidPairs(pairs, cols, cols) && k <= |pairs|
    requires forall x :: 0 <= x < |pairs| ==> pairs[x].Old == pairs[x].New
    ensures PairOpsFrom(t, cols, cols, pairs, k) == []
    decreases |pairs| - k
  {
    if k < |pairs| {
      var c := cols[pairs[k].Old];
      assert cols[pairs[k].New] == c;
      NoPairOps(t, cols, pairs, k + 1);
      ColumnOpsEmptyIff(t, c, c);
      assert PairOpsFrom(t, cols, cols, pairs, k) == ColumnOps(t, c, c) + PairOpsFrom(t, cols, cols, pairs, k + 1);
    }
  }

  lemma {:induction false} NoOldIndexOps<D>(t: string, ix: map<string, IndexDef<D>>, order: seq<string>, k: nat)
    requires k <= |order| && forall x :: 0 <= x < |order| ==> order[x] in ix
    ensures OldIndexOpsFrom(t, ix, ix, order, k) == []
    decreases |order| - k
  {
    if k < |order| {
      NoOldIndexOps(t, ix, order, k + 1);
    }
  }

  lemma {:induction false} NoNewIndexOps<D>(t: string, ix: map<string, IndexDef<D>>, order: seq<string>, k: nat)
    requires k <= |order| && forall x :: 0 <= x < |order| ==> order[x] in ix
    ensures NewIndexOpsFrom(t, ix, ix, order, k) == []
    decreases |order| - k
  {
    if k < |order| {
      NoNewIndexOps(t, ix, order, k + 1);
    }
  }

  /** Diffing a definition against an identical copy issues no statement
      and succeeds, when its column names are distinct, no column carries a
      foreign origin name and every key name names a column. */
  lemma SelfDiffIssuesNothing<D>(log: seq<Op<D>>, o: TableDef<D>, oldOrder: seq<string>, newOrder: seq<string>,
                                 hasDesc: D -> bool, accepts: (seq<Op<D>>, Op<D>) -> bool, gate: Op<D> -> Gate)
    requires DistinctNames(o.Columns) && NoOriginRenames(o.Columns) && KeyResolved(o)
    requires Enumerates(oldOrder, o.Indexes) && Enumerates(newOrder, o.Indexes)
    ensures Reconcile(log, o, o, oldOrder, newOrder, hasDesc, accepts, gate) == (log, None)
  {
    var t := o.TableName;
    KeyChangedIff(o, o);
    SelfPairs(o.Columns);
    var p := ColumnPairs(o.Columns, o.Columns);
    NoDrops(t, o.Columns, p, 0);
    NoPairOps(t, o.Columns, p, 0);
    NoAdds(t, o.Columns, p, 0, hasDesc);
    NoOldIndexOps(t, o.Indexes, oldOrder, 0);
    NoNewIndexOps(t, o.Indexes, newOrder, 0);
    assert Body(o, o, false, oldOrder, newOrder, hasDesc) == [];
  }

  /** With no live columns nothing pairs: the column phases are the
      additions of every desired column. */
  lemma NoLiveColumns<D>(t: string, news: seq<Column<D>>, hasDesc: D -> bool)
    ensures ColumnPhases(t, [], news, hasDesc) == AddsFrom(t, news, [], 0, hasDesc)
    ensures forall x :: 0 <= x < |news| ==> AddColumnOp(t, news[x]) in AddsFrom(t, news, [], 0, hasDesc)
  {
    var olds: seq<Column<D>> := [];
    var pairs := ColumnPairs(olds, news);
    assert ValidPairs(pairs, olds, news);
    assert |pairs| > 0 ==> pairs[0].Old < |olds|;
    assert pairs == [];
    assert DropsFrom(t, olds, pairs, 0) == [];
    assert PairOpsFrom(t, olds, news, pairs, 0) == [];
    forall x | 0 <= x < |news|
      ensures AddColumnOp(t, news[x]) in AddsFrom(t, news, [], 0, hasDesc)
    {
      AddsComplete(t, news, [], 0, x, hasDesc);
    }
  }

  /** Against a table without a key, the key counts as changed exactly
      when the desired table has one. */
  lemma NoLiveKey<D>(o: TableDef<D>, n: TableDef<D>)
    requires o.PK == []
    ensures KeyChanged(o, n) == Ok(n.PK != [])
  {
  }

  /** Against a table without columns, key or indexes every desired column
      is added in order, then the key is created when there is one, every
      desired index is created and commented, and the table comment follows
      a description change. */
  lemma FromEmptyTable<D>(o: TableDef<D>, n: TableDef<D>, newOrder: seq<string>, hasDesc: D -> bool)
    requires o.Columns == [] && o.PK == [] && o.Indexes == map[] && Enumerates(newOrder, n.Indexes)
    ensures Body(o, n, n.PK != [], [], newOrder, hasDesc) ==
      AddsFrom(n.TableName, n.Columns, [], 0, hasDesc) +
      (When(n.PK != [], CreatePK(n.TableName, n.PK)) +
      (NewIndexOpsFrom(n.TableName, o.Indexes, n.Indexes, newOrder, 0) + TableCommentPart(o, n)))
    ensures forall x :: 0 <= x < |n.Columns| ==> AddColumnOp(n.TableName, n.Columns[x]) in Body(o, n, n.PK != [], [], newOrder, hasDesc)
  {
    var t := n.TableName;
    var kc := n.PK != [];
    NoLiveColumns(t, n.Columns, hasDesc);
    var adds := AddsFrom(t, n.Columns, [], 0, hasDesc);
    assert ColumnPhases(t, o.Columns, n.Columns, hasDesc) == adds;
    var s0 := DropKeyPart(o, n, kc);
    assert s0 == [];
    var s2 := CreateKeyPart(n, kc);
    assert s2 == When(n.PK != [], CreatePK(t, n.PK));
    var s3 := IndexPhases(t, o.Indexes, n.Indexes, [], newOrder);
    assert OldIndexOpsFrom(t, o.Indexes, n.Indexes, [], 0) == [];
    assert s3 == NewIndexOpsFrom(t, o.Indexes, n.Indexes, newOrder, 0);
    var rest := s2 + (s3 + TableCommentPart(o, n));
    assert Body(o, n, kc, [], newOrder, hasDesc) == s0 + (adds + rest);
    forall x | 0 <= x < |n.Columns|
      ensures AddColumnOp(t, n.Columns[x]) in adds + rest
    {
      assert AddColumnOp(t, n.Columns[x]) in adds;
    }
    assert s0 + (adds + rest) == adds + rest;
  }
}
