/** The index phases of `UpdateStruct`: the live indexes, then the
    desired ones, each in its map's iteration order. */
module IndexPlan {
  import opened Base
  import opened Exec
  import opened DiffOps

  /** A changed definition: drop the index, then run the new define text. */
  function RedefinePart<D>(t: string, name: string, o: IndexDef<D>, n: IndexDef<D>): seq<Op<D>>
  {
    if o.Define != n.Define then [DropIndex(name), ExecDefine(n.Define, t, name)] else []
  }

  /** What one live index issues: when the desired table has it, its new
      definition (drop, then the define text as given) if that differs and a
      comment if the description differs; otherwise a drop. */
  function OldIndexOps<D(==)>(t: string, name: string, o: IndexDef<D>, newIx: map<string, IndexDef<D>>): (r: seq<Op<D>>)
  {
    if name in newIx then RedefinePart(t, name, o, newIx[name]) + When(o.Desc != newIx[name].Desc, IndexComment(name, newIx[name].Desc))
    else [DropIndex(name)]
  }

  /** The live indexes from position `k` of the iteration order on. */
  function OldIndexOpsFrom<D(==)>(t: string, oldIx: map<string, IndexDef<D>>, newIx: map<string, IndexDef<D>>,
                                 order: seq<string>, k: nat): (r: seq<Op<D>>)
    requires k <= |order| && forall x :: 0 <= x < |order| ==> order[x] in oldIx
    decreases |order| - k
  {
    if k == |order| then []
    else OldIndexOps(t, order[k], oldIx[order[k]], newIx) + OldIndexOpsFrom(t, oldIx, newIx, order, k + 1)
  }

  /** What one desired index issues: when the live table lacks it, its
      define text, then always its comment. */
  function NewIndexOps<D>(t: string, name: string, n: IndexDef<D>, oldIx: map<string, IndexDef<D>>): seq<Op<D>>
  {
    if name !in oldIx then [ExecDefine(n.Define, t, name), IndexComment(name, n.Desc)] else []
  }

  function NewIndexOpsFrom<D>(t: string, oldIx: map<string, IndexDef<D>>, newIx: map<string, IndexDef<D>>,
                              order: seq<string>, k: nat): (r: seq<Op<D>>)
    requires k <= |order| && forall x :: 0 <= x < |order| ==> order[x] in newIx
    decreases |order| - k
  {
    if k == |order| then []
    else NewIndexOps(t, order[k], newIx[order[k]], oldIx) + NewIndexOpsFrom(t, oldIx, newIx, order, k + 1)
  }

  /** One live index. */
  method SyncIndex<D(==)>(e: Engine<Op<D>>, gate: Op<D> -> Gate, t: string, name: string, o: IndexDef<D>,
                          newIx: map<string, IndexDef<D>>) returns (err: Option<Error>)
    modifies e
    ensures (e.Log, err) == Run(old(e.Log), OldIndexOps(t, name, o, newIx), e.Accepts, gate)
  {
    if name in newIx {
      var n := newIx[name];
      ghost var goal := Run(e.Log, OldIndexOps(t, name, o, newIx), e.Accepts, gate);
      ghost var last := When(o.Desc != n.Desc, IndexComment(name, n.Desc));
      if o.Define != n.Define {
        assert OldIndexOps(t, name, o, newIx) == [DropIndex(name)] + ([ExecDefine(n.Define, t, name)] + last);
        err := EmitThen(e, DropIndex(name), gate, [ExecDefine(n.Define, t, name)] + last);
        if err.Some? {
          return;
        }
        err := EmitThen(e, ExecDefine(n.Define, t, name), gate, last);
        if err.Some? {
          return;
        }
      } else {
        assert OldIndexOps(t, name, o, newIx) == last;
      }
      err := None;
      if o.Desc != n.Desc {
        assert last == [IndexComment(name, n.Desc)] + [];
        err := EmitThen(e, IndexComment(name, n.Desc), gate, []);
      } else {
        assert last == [];
      }
    } else {
      assert OldIndexOps(t, name, o, newIx) == [DropIndex(name)] + [];
      err := EmitThen(e, DropIndex(name), gate, []);
    }
  }

  /** The loop over the live indexes, in the map's iteration order. */
  method SyncIndexes<D(==)>(e: Engine<Op<D>>, gate: Op<D> -> Gate, t: string, oldIx: map<string, IndexDef<D>>,
                            newIx: map<string, IndexDef<D>>, order: seq<string>) returns (err: Option<Error>)
    requires Enumerates(order, oldIx)
    modifies e
    ensures (e.Log, err) == Run(old(e.Log), OldIndexOpsFrom(t, oldIx, newIx, order, 0), e.Accepts, gate)
  {
    ghost var goal := Run(e.Log, OldIndexOpsFrom(t, oldIx, newIx, order, 0), e.Accepts, gate);
    for k := 0 to |order|
      invariant Run(e.Log, OldIndexOpsFrom(t, oldIx, newIx, order, k), e.Accepts, gate) == goal
    {
      var name := order[k];
      ghost var before := e.Log;
      err := SyncIndex(e, gate, t, name, oldIx[name], newIx);
      Advance(before, e.Log, err, OldIndexOps(t, name, oldIx[name], newIx), OldIndexOpsFrom(t, oldIx, newIx, order, k + 1),
              e.Accepts, gate);
      if err.Some? {
        return;
      }
    }
    err := None;
  }

  /** One desired index. */
  method AddIndex<D>(e: Engine<Op<D>>, gate: Op<D> -> Gate, t: string, name: string, n: IndexDef<D>,
                     oldIx: map<string, IndexDef<D>>) returns (err: Option<Error>)
    modifies e
    ensures (e.Log, err) == Run(old(e.Log), NewIndexOps(t, name, n, oldIx), e.Accepts, gate)
  {
    err := None;
    if name !in oldIx {
      assert NewIndexOps(t, name, n, oldIx) == [ExecDefine(n.Define, t, name)] + [IndexComment(name, n.Desc)];
      err := EmitThen(e, ExecDefine(n.Define, t, name), gate, [IndexComment(name, n.Desc)]);
      if err.Some? {
        return;
      }
      assert [IndexComment(name, n.Desc)] == [IndexComment(name, n.Desc)] + [];
      err := EmitThen(e, IndexComment(name, n.Desc), gate, []);
    }
  }

  /** The loop over the desired indexes, in the map's iteration order. */
  method CreateIndexes<D>(e: Engine<Op<D>>, gate: Op<D> -> Gate, t: string, oldIx: map<string, IndexDef<D>>,
                          newIx: map<string, IndexDef<D>>, order: seq<string>) returns (err: Option<Error>)
    requires Enumerates(order, newIx)
    modifies e
    ensures (e.Log, err) == Run(old(e.Log), NewIndexOpsFrom(t, oldIx, newIx, order, 0), e.Accepts, gate)
  {
    ghost var goal := Run(e.Log, NewIndexOpsFrom(t, oldIx, newIx, order, 0), e.Accepts, gate);
    for k := 0 to |order|
      invariant Run(e.Log, NewIndexOpsFrom(t, oldIx, newIx, order, k), e.Accepts, gate) == goal
    {
      var name := order[k];
      ghost var before := e.Log;
      err := AddIndex(e, gate, t, name, newIx[name], oldIx);
      Advance(before, e.Log, err, NewIndexOps(t, name, newIx[name], oldIx), NewIndexOpsFrom(t, oldIx, newIx, order, k + 1),
              e.Accepts, gate);
      if err.Some? {
        return;
      }
    }
    err := None;
  }

  /** The two index phases: the live indexes, then the desired ones. */
  function IndexPhases<D(==)>(t: string, oldIx: map<string, IndexDef<D>>, newIx: map<string, IndexDef<D>>,
                              oldOrder: seq<string>, newOrder: seq<string>): seq<Op<D>>
    requires Enumerates(oldOrder, oldIx) && Enumerates(newOrder, newIx)
  {
    OldIndexOpsFrom(t, oldIx, newIx, oldOrder, 0) + NewIndexOpsFrom(t, oldIx, newIx, newOrder, 0)
  }

  method SyncAllIndexes<D(==)>(e: Engine<Op<D>>, gate: Op<D> -> Gate, t: string, oldIx: map<string, IndexDef<D>>,
                               newIx: map<string, IndexDef<D>>, oldOrder: seq<string>, newOrder: seq<string>)
    returns (err: Option<Error>)
    requires Enumerates(oldOrder, oldIx) && Enumerates(newOrder, newIx)
    modifies e
    ensures (e.Log, err) == Run(old(e.Log), IndexPhases(t, oldIx, newIx, oldOrder, newOrder), e.Accepts, gate)
  {
    ghost var l := e.Log;
    err := SyncIndexes(e, gate, t, oldIx, newIx, oldOrder);
    Advance(l, e.Log, err, OldIndexOpsFrom(t, oldIx, newIx, oldOrder, 0), NewIndexOpsFrom(t, oldIx, newIx, newOrder, 0),
            e.Accepts, gate);
    if err.Some? {
      return;
    }
    err := CreateIndexes(e, gate, t, oldIx, newIx, newOrder);
  }

  /** An operation is issued by the live-index loop from `k` on exactly when
      one of the remaining live indexes issues it. */
  lemma {:induction false} OldIndexOpsFromHas<D>(t: string, oldIx: map<string, IndexDef<D>>, newIx: map<string, IndexDef<D>>,
                                                     order: seq<string>, k: nat, op: Op<D>)
    requires k <= |order| && forall x :: 0 <= x < |order| ==> order[x] in oldIx
    ensures op in OldIndexOpsFrom(t, oldIx, newIx, order, k) <==>
      exists i :: k <= i < |order| && op in OldIndexOps(t, order[i], oldIx[order[i]], newIx)
    decreases |order| - k
  {
    if k < |order| {
      var a := OldIndexOps(t, order[k], oldIx[order[k]], newIx);
      var b := OldIndexOpsFrom(t, oldIx, newIx, order, k + 1);
      OldIndexOpsFromHas(t, oldIx, newIx, order, k + 1, op);
      assert OldIndexOpsFrom(t, oldIx, newIx, order, k) == a + b;
      assert op in a + b <==> op in a || op in b;
    }
  }

  lemma {:induction false} NewIndexOpsFromHas<D>(t: string, oldIx: map<string, IndexDef<D>>, newIx: map<string, IndexDef<D>>,
                                                 order: seq<string>, k: nat, op: Op<D>)
    requires k <= |order| && forall x :: 0 <= x < |order| ==> order[x] in newIx
    ensures op in NewIndexOpsFrom(t, oldIx, newIx, order, k) <==>
      exists i :: k <= i < |order| && op in NewIndexOps(t, order[i], newIx[order[i]], oldIx)
    decreases |order| - k
  {
    if k < |order| {
      var a := NewIndexOps(t, order[k], newIx[order[k]], oldIx);
      var b := NewIndexOpsFrom(t, oldIx, newIx, order, k + 1);
      NewIndexOpsFromHas(t, oldIx, newIx, order, k + 1, op);
      assert NewIndexOpsFrom(t, oldIx, newIx, order, k) == a + b;
      assert op in a + b <==> op in a || op in b;
    }
  }

  /** What one live index can issue, statement by statement. */
  lemma OldIndexOpsHas<D>(t: string, nm: string, o: IndexDef<D>, newIx: map<string, IndexDef<D>>, op: Op<D>)
    ensures op in OldIndexOps(t, nm, o, newIx) <==>
      (op == DropIndex(nm) && (nm !in newIx || o.Define != newIx[nm].Define)) ||
      (nm in newIx && op == ExecDefine(newIx[nm].Define, t, nm) && o.Define != newIx[nm].Define) ||
      (nm in newIx && op == IndexComment(nm, newIx[nm].Desc) && o.Desc != newIx[nm].Desc)
  {
  }

  /** What one desired index can issue, statement by statement. */
  lemma NewIndexOpsHas<D>(t: string, nm: string, n: IndexDef<D>, oldIx: map<string, IndexDef<D>>, op: Op<D>)
    ensures op in NewIndexOps(t, nm, n, oldIx) <==>
      nm !in oldIx && (op == ExecDefine(n.Define, t, nm) || op == IndexComment(nm, n.Desc))
  {
  }

  /** An index is dropped exactly when it is live and the desired table
      lacks it or defines it differently. */
  lemma DropIndexIff<D>(t: string, oldIx: map<string, IndexDef<D>>, newIx: map<string, IndexDef<D>>,
                        oldOrder: seq<string>, newOrder: seq<string>, name: string)
    requires Enumerates(oldOrder, oldIx) && Enumerates(newOrder, newIx)
    ensures DropIndex(name) in IndexPhases(t, oldIx, newIx, oldOrder, newOrder) <==>
      name in oldIx && (name !in newIx || oldIx[name].Define != newIx[name].Define)
  {
    var op: Op<D> := DropIndex(name);
    var a := OldIndexOpsFrom(t, oldIx, newIx, oldOrder, 0);
    var b := NewIndexOpsFrom(t, oldIx, newIx, newOrder, 0);
    assert op in a + b <==> op in a || op in b;
    OldIndexOpsFromHas(t, oldIx, newIx, oldOrder, 0, op);
    NewIndexOpsFromHas(t, oldIx, newIx, newOrder, 0, op);
    if op in a {
      var i :| 0 <= i < |oldOrder| && op in OldIndexOps(t, oldOrder[i], oldIx[oldOrder[i]], newIx);
      OldIndexOpsHas(t, oldOrder[i], oldIx[oldOrder[i]], newIx, op);
    }
    if op in b {
      var i :| 0 <= i < |newOrder| && op in NewIndexOps(t, newOrder[i], newIx[newOrder[i]], oldIx);
      NewIndexOpsHas(t, newOrder[i], newIx[newOrder[i]], oldIx, op);
    }
    if name in oldIx && (name !in newIx || oldIx[name].Define != newIx[name].Define) {
      var i :| 0 <= i < |oldOrder| && oldOrder[i] == name;
      OldIndexOpsHas(t, name, oldIx[name], newIx, op);
    }
  }

  /** A define text runs for an index exactly when the desired table has it
      with that text and the live table lacks it or defines it differently;
      the text runs verbatim. */
  lemma ExecDefineIff<D>(t: string, oldIx: map<string, IndexDef<D>>, newIx: map<string, IndexDef<D>>,
                         oldOrder: seq<string>, newOrder: seq<string>, d: string, name: string)
    requires Enumerates(oldOrder, oldIx) && Enumerates(newOrder, newIx)
    ensures ExecDefine(d, t, name) in IndexPhases(t, oldIx, newIx, oldOrder, newOrder) <==>
      name in newIx && d == newIx[name].Define && (name !in oldIx || oldIx[name].Define != d)
  {
    var op: Op<D> := ExecDefine(d, t, name);
    var a := OldIndexOpsFrom(t, oldIx, newIx, oldOrder, 0);
    var b := NewIndexOpsFrom(t, oldIx, newIx, newOrder, 0);
    assert op in a + b <==> op in a || op in b;
    OldIndexOpsFromHas(t, oldIx, newIx, oldOrder, 0, op);
    NewIndexOpsFromHas(t, oldIx, newIx, newOrder, 0, op);
    if op in a {
      var i :| 0 <= i < |oldOrder| && op in OldIndexOps(t, oldOrder[i], oldIx[oldOrder[i]], newIx);
      OldIndexOpsHas(t, oldOrder[i], oldIx[oldOrder[i]], newIx, op);
    }
    if op in b {
      var i :| 0 <= i < |newOrder| && op in NewIndexOps(t, newOrder[i], newIx[newOrder[i]], oldIx);
      NewIndexOpsHas(t, newOrder[i], newIx[newOrder[i]], oldIx, op);
    }
    if name in newIx && d == newIx[name].Define {
      if name in oldIx && oldIx[name].Define != d {
        var i :| 0 <= i < |oldOrder| && oldOrder[i] == name;
        OldIndexOpsHas(t, name, oldIx[name], newIx, op);
      } else if name !in oldIx {
        var i :| 0 <= i < |newOrder| && newOrder[i] == name;
        NewIndexOpsHas(t, name, newIx[name], oldIx, op);
      }
    }
  }

  /** An index comment is issued exactly for a desired index that is new,
      or whose description differs from the live one's; it carries the
      desired description. */
  lemma IndexCommentIff<D>(t: string, oldIx: map<string, IndexDef<D>>, newIx: map<string, IndexDef<D>>,
                           oldOrder: seq<string>, newOrder: seq<string>, d: D, name: string)
    requires Enumerates(oldOrder, oldIx) && Enumerates(newOrder, newIx)
    ensures IndexComment(name, d) in IndexPhases(t, oldIx, newIx, oldOrder, newOrder) <==>
      name in newIx && d == newIx[name].Desc && (name !in oldIx || oldIx[name].Desc != d)
  {
    var op: Op<D> := IndexComment(name, d);
    var a := OldIndexOpsFrom(t, oldIx, newIx, oldOrder, 0);
    var b := NewIndexOpsFrom(t, oldIx, newIx, newOrder, 0);
    assert op in a + b <==> op in a || op in b;
    OldIndexOpsFromHas(t, oldIx, newIx, oldOrder, 0, op);
    NewIndexOpsFromHas(t, oldIx, newIx, newOrder, 0, op);
    if op in a {
      var i :| 0 <= i < |oldOrder| && op in OldIndexOps(t, oldOrder[i], oldIx[oldOrder[i]], newIx);
      OldIndexOpsHas(t, oldOrder[i], oldIx[oldOrder[i]], newIx, op);
    }
    if op in b {
      var i :| 0 <= i < |newOrder| && op in NewIndexOps(t, newOrder[i], newIx[newOrder[i]], oldIx);
      NewIndexOpsHas(t, newOrder[i], newIx[newOrder[i]], oldIx, op);
    }
    if name in newIx && d == newIx[name].Desc {
      if name in oldIx && oldIx[name].Desc != d {
        var i :| 0 <= i < |oldOrder| && oldOrder[i] == name;
        OldIndexOpsHas(t, name, oldIx[name], newIx, op);
      } else if name !in oldIx {
        var i :| 0 <= i < |newOrder| && newOrder[i] == name;
        NewIndexOpsHas(t, name, newIx[name], oldIx, op);
      }
    }
  }
}
