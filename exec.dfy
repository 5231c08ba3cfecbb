/** Sequential, fail-fast statement execution against the database engine.
    The engine is abstract: it keeps a log of the statements it received and
    an acceptance oracle decides, from the statements already applied,
    whether the next one succeeds. */
module Exec {
  import opened Base

  /** What a statement helper does before the engine sees the statement:
      send it, skip it (and report success), or refuse it with an error. */
  datatype Gate = Send | Skip | Refuse(err: Error)

  function SendAll<S>(s: S): Gate
  {
    Send
  }

  /** A statement issued only under a condition. */
  function When<S>(cond: bool, s: S): seq<S>
  {
    if cond then [s] else []
  }

  /** One statement: the new log and the error, if any. */
  function Step<S>(log: seq<S>, s: S, accepts: (seq<S>, S) -> bool, gate: S -> Gate): (r: (seq<S>, Option<Error>))
  {
    match gate(s)
    case Skip => (log, None)
    case Refuse(e) => (log, Some(e))
    case Send => (log + [s], if accepts(log, s) then None else Some(SqlError))
  }

  /** Statements one after another; the first error ends the run. */
  function Run<S>(log: seq<S>, stmts: seq<S>, accepts: (seq<S>, S) -> bool, gate: S -> Gate): (r: (seq<S>, Option<Error>))
    decreases |stmts|
  {
    if |stmts| == 0 then (log, None)
    else
      var r1 := Step(log, stmts[0], accepts, gate);
      if r1.1.Some? then r1 else Run(r1.0, stmts[1..], accepts, gate)
  }

  /** Running `a + b` runs `a`, then `b` from where `a` left off unless `a` failed. */
  lemma {:induction false} RunConcat<S>(log: seq<S>, a: seq<S>, b: seq<S>, accepts: (seq<S>, S) -> bool, gate: S -> Gate)
    ensures Run(log, a + b, accepts, gate) ==
      (var ra := Run(log, a, accepts, gate);
       if ra.1.Some? then ra else Run(ra.0, b, accepts, gate))
    decreases |a|
  {
    if |a| > 0 {
      assert (a + b)[0] == a[0];
      assert (a + b)[1..] == a[1..] + b;
      var r1 := Step(log, a[0], accepts, gate);
      if r1.1.None? {
        RunConcat(r1.0, a[1..], b, accepts, gate);
      }
    } else {
      assert a + b == b;
    }
  }

  /** Moving the first statement onto the log. */
  lemma ShiftPrefix<S>(log: seq<S>, stmts: seq<S>, j: nat)
    requires 1 <= j <= |stmts|
    ensures log + stmts[..j] == (log + [stmts[0]]) + stmts[1..][..j - 1]
  {
    assert stmts[..j] == [stmts[0]] + stmts[1..][..j - 1];
  }

  /** With every statement sent, the engine receives exactly a prefix of the
      statements: as many as `Sent` counts. */
  lemma {:induction false} RunSentPrefix<S>(log: seq<S>, stmts: seq<S>, accepts: (seq<S>, S) -> bool)
    ensures Run(log, stmts, accepts, SendAll).0 == log + stmts[..Sent(log, stmts, accepts)]
    decreases |stmts|
  {
    if |stmts| > 0 {
      var l1 := log + [stmts[0]];
      var tail := stmts[1..];
      assert Step(log, stmts[0], accepts, SendAll).0 == l1;
      if accepts(log, stmts[0]) {
        RunSentPrefix(l1, tail, accepts);
        var k' := Sent(l1, tail, accepts);
        assert Run(log, stmts, accepts, SendAll) == Run(l1, tail, accepts, SendAll);
        assert Sent(log, stmts, accepts) == k' + 1;
        ShiftPrefix(log, stmts, k' + 1);
      } else {
        assert Sent(log, stmts, accepts) == 1;
        ShiftPrefix(log, stmts, 1);
      }
    }
  }

  /** With every statement sent, the run succeeds exactly when the engine
      accepts each statement on the log left by those before it. */
  lemma {:induction false} RunSucceedsIff<S>(log: seq<S>, stmts: seq<S>, accepts: (seq<S>, S) -> bool)
    ensures Run(log, stmts, accepts, SendAll).1.None? <==> forall j :: 0 <= j < |stmts| ==> accepts(log + stmts[..j], stmts[j])
    decreases |stmts|
  {
    if |stmts| > 0 {
      var l1 := log + [stmts[0]];
      var tail := stmts[1..];
      assert log + stmts[..0] == log;
      if accepts(log, stmts[0]) {
        RunSucceedsIff(l1, tail, accepts);
        assert Run(log, stmts, accepts, SendAll) == Run(l1, tail, accepts, SendAll);
        forall j | 1 <= j < |stmts|
          ensures accepts(log + stmts[..j], stmts[j]) <==> accepts(l1 + tail[..j - 1], tail[j - 1])
        {
          ShiftPrefix(log, stmts, j);
        }
        if Run(log, stmts, accepts, SendAll).1.None? {
          forall j | 0 <= j < |stmts|
            ensures accepts(log + stmts[..j], stmts[j])
          {
            if j > 0 {
              assert accepts(l1 + tail[..j - 1], tail[j - 1]);
            }
          }
        } else {
          var j :| 0 <= j < |tail| && !accepts(l1 + tail[..j], tail[j]);
          assert !accepts(log + stmts[..j + 1], stmts[j + 1]);
        }
      } else {
        assert Run(log, stmts, accepts, SendAll).1 == Some(SqlError);
      }
    }
  }

  /** A failed run with every statement sent failed at the engine, on the
      last statement it received, after the engine accepted all before it. */
  lemma {:induction false} RunFailsAtLast<S>(log: seq<S>, stmts: seq<S>, accepts: (seq<S>, S) -> bool)
    ensures Run(log, stmts, accepts, SendAll).1.Some? ==>
      Run(log, stmts, accepts, SendAll).1 == Some(SqlError) &&
      var k := Sent(log, stmts, accepts);
      1 <= k && !accepts(log + stmts[..k - 1], stmts[k - 1]) &&
      forall j :: 0 <= j < k - 1 ==> accepts(log + stmts[..j], stmts[j])
    decreases |stmts|
  {
    if |stmts| > 0 {
      var l1 := log + [stmts[0]];
      var tail := stmts[1..];
      assert log + stmts[..0] == log;
      if accepts(log, stmts[0]) {
        RunFailsAtLast(l1, tail, accepts);
        assert Run(log, stmts, accepts, SendAll) == Run(l1, tail, accepts, SendAll);
        var k' := Sent(l1, tail, accepts);
        assert Sent(log, stmts, accepts) == k' + 1;
        if Run(log, stmts, accepts, SendAll).1.Some? {
          ShiftPrefix(log, stmts, k');
          forall j | 0 <= j < k'
            ensures accepts(log + stmts[..j], stmts[j])
          {
            if j > 0 {
              ShiftPrefix(log, stmts, j);
              assert accepts(l1 + tail[..j - 1], tail[j - 1]);
            }
          }
        }
      } else {
        assert Sent(log, stmts, accepts) == 1;
      }
    }
  }


  /** A run only appends to the log, and only statements of the run. */
  lemma {:induction false} RunAppends<S>(log: seq<S>, stmts: seq<S>, accepts: (seq<S>, S) -> bool, gate: S -> Gate)
    ensures log <= Run(log, stmts, accepts, gate).0
    ensures forall k :: |log| <= k < |Run(log, stmts, accepts, gate).0| ==> Run(log, stmts, accepts, gate).0[k] in stmts
    decreases |stmts|
  {
    if |stmts| > 0 {
      var r1 := Step(log, stmts[0], accepts, gate);
      if r1.1.None? {
        RunAppends(r1.0, stmts[1..], accepts, gate);
        var r := Run(r1.0, stmts[1..], accepts, gate).0;
        forall k | |log| <= k < |r|
          ensures r[k] in stmts
        {
          if k < |r1.0| {
            assert r1.0[k] == stmts[0];
          } else {
            assert r[k] in stmts[1..];
          }
        }
      }
    }
  }

  /** How many statements the engine receives when every one is sent: up to
      and including the first it refuses. */
  function Sent<S>(log: seq<S>, stmts: seq<S>, accepts: (seq<S>, S) -> bool): (k: nat)
    ensures k <= |stmts|
    decreases |stmts|
  {
    if |stmts| == 0 then 0
    else if !accepts(log, stmts[0]) then 1
    else 1 + Sent(log + [stmts[0]], stmts[1..], accepts)
  }

  /** The outcome of `a` continued by `b`: a failure inside `a` is the
      outcome of the whole; otherwise `b` runs from where `a` left off. */
  lemma Advance<S>(l0: seq<S>, l1: seq<S>, err: Option<Error>, a: seq<S>, b: seq<S>,
                   accepts: (seq<S>, S) -> bool, gate: S -> Gate)
    requires (l1, err) == Run(l0, a, accepts, gate)
    ensures err.Some? ==> (l1, err) == Run(l0, a + b, accepts, gate)
    ensures err.None? ==> Run(l1, b, accepts, gate) == Run(l0, a + b, accepts, gate)
  {
    RunConcat(l0, a, b, accepts, gate);
  }

  /** The engine: the statements it has received, in order, and its oracle. */
  class Engine<S> {
    var Log: seq<S>
    const Accepts: (seq<S>, S) -> bool

    constructor (accepts: (seq<S>, S) -> bool)
      ensures Log == [] && Accepts == accepts
    {
      Log := [];
      Accepts := accepts;
    }

    /** Send one statement. */
    method Exec(s: S) returns (err: Option<Error>)
      modifies this
      ensures Log == old(Log) + [s]
      ensures err == if Accepts(old(Log), s) then None else Some(SqlError)
    {
      err := if Accepts(Log, s) then None else Some(SqlError);
      Log := Log + [s];
    }
  }

  /** A statement helper with its gate. */
  method Issue<S>(e: Engine<S>, s: S, gate: S -> Gate) returns (err: Option<Error>)
    modifies e
    ensures (e.Log, err) == Step(old(e.Log), s, e.Accepts, gate)
  {
    match gate(s)
    case Skip => err := None;
    case Refuse(x) => err := Some(x);
    case Send => err := e.Exec(s);
  }

  /** Issue the next statement of a planned run. On failure the run's
      outcome is reached; on success the rest of the plan remains, with the
      same outcome. */
  method Emit<S>(e: Engine<S>, s: S, gate: S -> Gate, ghost todo: seq<S>) returns (err: Option<Error>)
    requires |todo| > 0 && todo[0] == s
    modifies e
    ensures err.Some? ==> (e.Log, err) == Run(old(e.Log), todo, e.Accepts, gate)
    ensures err.None? ==> Run(e.Log, todo[1..], e.Accepts, gate) == Run(old(e.Log), todo, e.Accepts, gate)
    ensures gate(s).Refuse? ==> err == Some(gate(s).err)
  {
    err := Issue(e, s, gate);
  }

  /** Issue `s` ahead of the statements `rest`: on failure the outcome of
      `[s] + rest` is reached; on success `rest` remains, with the same
      outcome. */
  method EmitThen<S>(e: Engine<S>, s: S, gate: S -> Gate, ghost rest: seq<S>) returns (err: Option<Error>)
    modifies e
    ensures err.Some? ==> (e.Log, err) == Run(old(e.Log), [s] + rest, e.Accepts, gate)
    ensures err.None? ==> Run(e.Log, rest, e.Accepts, gate) == Run(old(e.Log), [s] + rest, e.Accepts, gate)
    ensures gate(s).Refuse? ==> err == Some(gate(s).err)
  {
    err := Issue(e, s, gate);
    assert ([s] + rest)[0] == s && ([s] + rest)[1..] == rest;
  }
}
