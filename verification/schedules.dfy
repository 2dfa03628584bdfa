/**
 Interleavings. Any number of threads post to one queue while its owner
 runs the loop; with every mutex-guarded block one atomic step, an
 execution is a sequence of posts and loop turns. The lemmas here hold
 for every such sequence.
 */
module Schedules {
  import opened Events
  import opened Queues

  /** One atomic step around a queue: a thread posts to it, or its owner's loop takes a turn. */
  datatype Op =
    | Posted(caller: ThreadId, tag: string, call: Action)
    | Turn

  /**
   One step. A turn of `while (!m_done) call_next();` dispatches the front
   event; it does nothing once the loop has seen done, and nothing while
   the FIFO is empty, where `call_next` waits for a post.
   */
  function Step(q: Queue, op: Op): (r: Queue)
    ensures r.owner == q.owner
    ensures q.done ==> r.done && Dispatched(r.executed) == Dispatched(q.executed)
  {
    match op
    case Posted(caller, tag, call) => Post(q, caller, tag, call)
    case Turn => if !q.done && q.fifo != [] then CallNext(q) else q
  }

  /** Run a whole schedule of steps, first to last. */
  function Apply(q: Queue, ops: seq<Op>): (r: Queue)
    ensures r.owner == q.owner
    decreases |ops|
  {
    if ops == [] then q else Apply(Step(q, ops[0]), ops[1..])
  }

  lemma StepKeepsWf(q: Queue, op: Op)
    requires Wf(q)
    ensures Wf(Step(q, op))
  {
  }

  /**
   Every interleaving keeps the queue invariant: enqueued events carry
   strictly increasing ids below the counter, so the loop dispatches in
   increasing id order.
   */
  lemma {:induction false} ApplyKeepsWf(q: Queue, ops: seq<Op>)
    requires Wf(q)
    ensures Wf(Apply(q, ops))
    decreases |ops|
  {
    if ops != [] {
      StepKeepsWf(q, ops[0]);
      ApplyKeepsWf(Step(q, ops[0]), ops[1..]);
    }
  }

  lemma {:induction false} ApplyAppend(q: Queue, a: seq<Op>, b: seq<Op>)
    ensures Apply(q, a + b) == Apply(Apply(q, a), b)
    decreases |a|
  {
    if a == [] {
      assert a + b == b;
    } else {
      assert (a + b)[0] == a[0];
      assert (a + b)[1..] == a[1..] + b;
      ApplyAppend(Step(q, a[0]), a[1..], b);
    }
  }

  lemma ApplyCons(q: Queue, ops: seq<Op>)
    requires ops != []
    ensures Apply(q, ops) == Apply(Step(q, ops[0]), ops[1..])
  {
  }

  /** Regrouping a concatenation, stated once so that proofs can name the instance they need. */
  lemma ConcatAssoc<T>(a: seq<T>, b: seq<T>, c: seq<T>)
    ensures (a + b) + c == a + (b + c)
  {
  }

  /** What a posting thread hands the queue: origin, tag and callable, without the id. */
  datatype Message = Message(origin: ThreadId, tag: string, call: Action)

  function Strip(evs: seq<Event>): (ms: seq<Message>)
    ensures |ms| == |evs|
    decreases |evs|
  {
    if evs == [] then []
    else [Message(evs[0].origin, evs[0].tag, evs[0].call)] + Strip(evs[1..])
  }

  lemma {:induction false} StripAppend(a: seq<Event>, b: seq<Event>)
    ensures Strip(a + b) == Strip(a) + Strip(b)
    decreases |a|
  {
    if a == [] {
      assert a + b == b;
    } else {
      assert (a + b)[1..] == a[1..] + b;
      StripAppend(a[1..], b);
    }
  }

  /** The posts of a schedule that take the remote path, in schedule order. */
  function Remote(owner: ThreadId, ops: seq<Op>): (ms: seq<Message>)
    decreases |ops|
  {
    if ops == [] then []
    else
      var head := if ops[0].Posted? && ops[0].caller != owner
        then [Message(ops[0].caller, ops[0].tag, ops[0].call)] else [];
      head + Remote(owner, ops[1..])
  }

  lemma RemoteCons(owner: ThreadId, ops: seq<Op>)
    requires ops != []
    ensures Remote(owner, ops) == Remote(owner, [ops[0]]) + Remote(owner, ops[1..])
  {
    assert [ops[0]][1..] == [];
  }

  lemma StepConserves(q: Queue, op: Op)
    ensures Strip(History(Step(q, op))) == Strip(History(q)) + Remote(q.owner, [op])
  {
    match op
    case Posted(caller, tag, call) =>
      StripAppend(History(q), [Event(caller, tag, q.idPool, call)]);
    case Turn =>
  }

  /**
   No event is lost or duplicated: whatever the interleaving, the events
   dispatched so far followed by those still waiting are exactly the
   remote posts, in the order the posts took the queue's mutex.
   */
  lemma {:induction false} ApplyConserves(q: Queue, ops: seq<Op>)
    ensures Strip(History(Apply(q, ops))) == Strip(History(q)) + Remote(q.owner, ops)
    decreases |ops|
  {
    if ops != [] {
      var q1 := Step(q, ops[0]);
      var r := Apply(q1, ops[1..]);
      ApplyCons(q, ops);
      RemoteCons(q.owner, ops);
      StepConserves(q, ops[0]);
      ApplyConserves(q1, ops[1..]);
      ConcatAssoc(Strip(History(q)), Remote(q.owner, [ops[0]]), Remote(q.owner, ops[1..]));
    }
  }

  lemma AscendingPrefix(a: seq<Event>, b: seq<Event>)
    requires Ascending(a + b)
    ensures Ascending(a)
  {
    forall i, j | 0 <= i < j < |a|
      ensures a[i].id < a[j].id
    {
      assert (a + b)[i] == a[i] && (a + b)[j] == a[j];
    }
  }

  /**
   FIFO order on a queue started fresh: every remote post is dispatched at
   most once and in posting order, dispatch ids strictly increase, and
   once the FIFO is empty the loop has run every remote post.
   */
  lemma FreshQueueDispatchesEveryPost(owner: ThreadId, name: string, indent: nat, ops: seq<Op>)
    ensures var r := Apply(NewQueue(owner, name, indent), ops);
      && Strip(Dispatched(r.executed)) + Strip(r.fifo) == Remote(owner, ops)
      && Ascending(Dispatched(r.executed))
      && (r.fifo == [] ==> |Dispatched(r.executed)| == |Remote(owner, ops)|)
  {
    var q := NewQueue(owner, name, indent);
    var r := Apply(q, ops);
    ApplyConserves(q, ops);
    StripAppend(Dispatched(r.executed), r.fifo);
    assert Strip(History(q)) == [];
    ApplyKeepsWf(q, ops);
    AscendingPrefix(Dispatched(r.executed), r.fifo);
  }

  /** A step after done: no dispatch, and a remote post only queues behind the rest. */
  lemma DoneStep(q: Queue, op: Op)
    requires q.done
    ensures var r := Step(q, op);
      && r.done
      && Dispatched(r.executed) == Dispatched(q.executed)
      && Strip(r.fifo) == Strip(q.fifo) + Remote(q.owner, [op])
  {
    if op.Posted? && op.caller != q.owner {
      StripAppend(q.fifo, [Event(op.caller, op.tag, q.idPool, op.call)]);
    }
  }

  /**
   Once done is set, no further event is dispatched: every later remote
   post stays in the FIFO behind the ones already there.
   */
  lemma {:induction false} DoneAbandonsLaterEvents(q: Queue, ops: seq<Op>)
    requires q.done
    ensures var r := Apply(q, ops);
      && r.done
      && Dispatched(r.executed) == Dispatched(q.executed)
      && Strip(r.fifo) == Strip(q.fifo) + Remote(q.owner, ops)
    decreases |ops|
  {
    if ops != [] {
      var q1 := Step(q, ops[0]);
      var r := Apply(q1, ops[1..]);
      ApplyCons(q, ops);
      RemoteCons(q.owner, ops);
      DoneStep(q, ops[0]);
      DoneAbandonsLaterEvents(q1, ops[1..]);
      ConcatAssoc(Strip(q.fifo), Remote(q.owner, [ops[0]]), Remote(q.owner, ops[1..]));
    }
  }

  /** `n` consecutive turns of the owner's loop. */
  function Turns(n: nat): (ops: seq<Op>)
    ensures |ops| == n && forall i :: 0 <= i < n ==> ops[i] == Turn
  {
    seq(n, _ => Turn)
  }

  lemma StopFreeTail(evs: seq<Event>, n: nat)
    requires 0 < n <= |evs| && StopFree(evs[..n])
    ensures !evs[0].call.SetDone? && StopFree(evs[1..][..n - 1])
  {
    assert evs[..n][0] == evs[0];
    var tail := evs[1..][..n - 1];
    forall i | 0 <= i < n - 1
      ensures !tail[i].call.SetDone?
    {
      assert tail[i] == evs[..n][i + 1];
    }
  }

  lemma TurnsUnfold(q: Queue, n: nat)
    requires 0 < n
    ensures Apply(q, Turns(n)) == Apply(Step(q, Turn), Turns(n - 1))
  {
    assert Turns(n)[0] == Turn;
    assert Turns(n)[1..] == Turns(n - 1);
  }

  /** One turn of a running loop whose front event is no stop event. */
  lemma TurnDispatchesFront(q: Queue, n: nat)
    requires !q.done && 0 < n <= |q.fifo| && StopFree(q.fifo[..n])
    ensures var q1 := Step(q, Turn);
      && !q1.done
      && q1.fifo == q.fifo[1..]
      && q1.executed == q.executed + [Ran(q.fifo[0], false)]
      && StopFree(q1.fifo[..n - 1])
  {
    StopFreeTail(q.fifo, n);
  }

  lemma TurnsZero(q: Queue)
    ensures Apply(q, Turns(0)) == q
    ensures q.fifo[0..] == q.fifo && q.fifo[..0] == [] && Runs([]) == []
  {
    assert Turns(0) == [];
  }

  /** Dispatching a non-empty FIFO prefix is dispatching its front, then the rest. */
  lemma RunsFront(evs: seq<Event>, n: nat)
    requires 0 < n <= |evs|
    ensures evs[1..][n - 1..] == evs[n..]
    ensures Runs(evs[..n]) == [Ran(evs[0], false)] + Runs(evs[1..][..n - 1])
  {
    assert evs[..n] == [evs[0]] + evs[1..][..n - 1];
  }

  /** Turns of a loop that is not done dispatch the front of the FIFO in order. */
  lemma {:induction false} TurnsDispatchFront(q: Queue, n: nat)
    requires !q.done && n <= |q.fifo| && StopFree(q.fifo[..n])
    ensures var r := Apply(q, Turns(n));
      && !r.done
      && r.fifo == q.fifo[n..]
      && r.executed == q.executed + Runs(q.fifo[..n])
    decreases n
  {
    if n == 0 {
      TurnsZero(q);
    } else {
      var q1 := Step(q, Turn);
      TurnsUnfold(q, n);
      TurnDispatchesFront(q, n);
      TurnsDispatchFront(q1, n - 1);
      RunsFront(q.fifo, n);
      ConcatAssoc(q.executed, [Ran(q.fifo[0], false)], Runs(q1.fifo[..n - 1]));
    }
  }

  /**
   Stop from a foreign thread drains what was enqueued before it and
   abandons what comes after: with the STOP event behind events none of
   which stops the queue, that many turns plus one run them all and the
   STOP event, in order; whatever is posted or turned afterwards, nothing
   more is dispatched.
   */
  lemma StopDrainsThenAbandons(q: Queue, caller: ThreadId, later: seq<Op>)
    requires !q.done && caller != q.owner && StopFree(q.fifo)
    ensures var r := Apply(Queues.Stop(q, caller), Turns(|q.fifo| + 1) + later);
      && r.done
      && Dispatched(r.executed)
         == Dispatched(q.executed) + q.fifo + [Event(caller, StopTag, q.idPool, SetDone)]
  {
    var s := Queues.Stop(q, caller);
    var n := |q.fifo|;
    var stopEvent := Event(caller, StopTag, q.idPool, SetDone);
    assert s.fifo[..n] == q.fifo;
    TurnsDispatchFront(s, n);
    var m := Apply(s, Turns(n));
    assert m.fifo == [stopEvent];
    assert Turns(n + 1) == Turns(n) + [Turn];
    ApplyAppend(s, Turns(n), [Turn]);
    var d := Apply(m, [Turn]);
    assert d == CallNext(m);
    DispatchedRuns(q.executed, q.fifo);
    assert s.executed == q.executed;
    ApplyAppend(s, Turns(n + 1), later);
    DoneAbandonsLaterEvents(d, later);
  }

  /**
   The loop is working through `stops`, the FIFO up to and including its
   first STOP event, on top of the `before` events dispatched earlier: the
   first `j` of them are dispatched, and unless done is set the rest still
   head the FIFO, whatever has been posted behind them.
   */
  ghost predicate Draining(s: Queue, before: seq<Event>, stops: seq<Event>, j: nat)
  {
    && j <= |stops|
    && Dispatched(s.executed) == before + stops[..j]
    && (!s.done ==> j < |stops| && |stops| - j <= |s.fifo| && s.fifo[..|stops| - j] == stops[j..])
  }

  /** `stops` is a FIFO prefix that ends at its first STOP event. */
  ghost predicate EndsAtFirstStop(stops: seq<Event>)
  {
    0 < |stops| && stops[|stops| - 1].call.SetDone? && StopFree(stops[..|stops| - 1])
  }

  lemma StepDraining(s: Queue, op: Op, before: seq<Event>, stops: seq<Event>, j: nat) returns (j': nat)
    requires EndsAtFirstStop(stops) && Draining(s, before, stops, j)
    ensures Draining(Step(s, op), before, stops, j')
  {
    j' := j;
    if !s.done && op.Turn? {
      var ev := s.fifo[0];
      assert ev == stops[j] by {
        assert s.fifo[..|stops| - j][0] == stops[j..][0];
      }
      assert stops[..j + 1] == stops[..j] + [ev];
      j' := j + 1;
      var r := Step(s, op);
      if !r.done {
        assert !ev.call.SetDone?;
        assert j + 1 < |stops|;
        assert r.fifo[..|stops| - j'] == stops[j'..] by {
          assert r.fifo[..|stops| - j'] == s.fifo[..|stops| - j][1..];
        }
      }
    } else if !s.done && op.caller != s.owner {
      var r := Step(s, op);
      assert r.fifo[..|stops| - j] == s.fifo[..|stops| - j] by {
        assert r.fifo[..|s.fifo|] == s.fifo;
      }
    }
  }

  lemma {:induction false} ApplyDraining(s: Queue, ops: seq<Op>, before: seq<Event>, stops: seq<Event>, j: nat)
    returns (j': nat)
    requires EndsAtFirstStop(stops) && Draining(s, before, stops, j)
    ensures Draining(Apply(s, ops), before, stops, j')
    decreases |ops|
  {
    if ops == [] {
      j' := j;
    } else {
      ApplyCons(s, ops);
      var j1 := StepDraining(s, ops[0], before, stops, j);
      j' := ApplyDraining(Step(s, ops[0]), ops[1..], before, stops, j1);
    }
  }

  /** Where a FIFO holding a STOP event is cut, the cut ends at its first STOP event. */
  lemma CutAtFirstStop(evs: seq<Event>)
    requires !StopFree(evs)
    ensures EndsAtFirstStop(evs[..Cut(evs)])
  {
    var k := Cut(evs);
    assert evs[..k][..k - 1] == evs[..k - 1];
  }

  lemma DrainedPrefix(d: seq<Event>, before: seq<Event>, stops: seq<Event>, j: nat)
    requires j <= |stops| && d == before + stops[..j]
    ensures before <= d && d <= before + stops
  {
    assert before + stops == d + stops[j..];
  }

  /**
   Stop abandons what lies behind it, however the posts race with the
   loop: once a STOP event is queued on a queue that is not done, no
   interleaving of posts from any thread and turns of the loop dispatches
   anything beyond the FIFO's events up to and including that STOP event,
   and those are dispatched in FIFO order. A post that lands behind the
   queued STOP event is never run.
   */
  lemma QueuedStopAbandonsLaterPosts(q: Queue, ops: seq<Op>)
    requires !q.done && !StopFree(q.fifo)
    ensures var d := Dispatched(Apply(q, ops).executed);
      && Dispatched(q.executed) <= d
      && d <= Dispatched(q.executed) + q.fifo[..Cut(q.fifo)]
  {
    var before := Dispatched(q.executed);
    var stops := q.fifo[..Cut(q.fifo)];
    CutAtFirstStop(q.fifo);
    assert before + stops[..0] == before;
    var j := ApplyDraining(q, ops, before, stops, 0);
    DrainedPrefix(Dispatched(Apply(q, ops).executed), before, stops, j);
  }

  /**
   Leaving the loop: once a turn finds done set, `while (!m_done)` fails,
   and `run` calls the stop hook, if one is installed, and returns. This
   ends a run that was parked on an empty FIFO, after the schedule that
   followed it has dispatched a STOP event.
   */
  function Exit(q: Queue): (r: Queue)
    requires q.done
    ensures r.done && r.fifo == q.fifo && r.idPool == q.idPool
    ensures r.executed == q.executed + HookRecord(OnStop, q.onStop)
    ensures q.onStop.Some? ==> r.executed[|r.executed| - 1] == HookRan(OnStop, q.onStop.value)
    ensures Dispatched(r.executed) == Dispatched(q.executed)
  {
    if q.onStop.Some? then
      DispatchedSnoc(q.executed, HookRan(OnStop, q.onStop.value));
      RunHook(q, OnStop)
    else
      RunHook(q, OnStop)
  }

  /** No step of a schedule touches the hooks. */
  lemma {:induction false} ApplyKeepsStopHook(q: Queue, ops: seq<Op>)
    ensures Apply(q, ops).onStop == q.onStop
    decreases |ops|
  {
    if ops != [] {
      ApplyCons(q, ops);
      ApplyKeepsStopHook(Step(q, ops[0]), ops[1..]);
    }
  }

  /**
   A run ended by a STOP from another thread: the loop dispatches the
   events ahead of the STOP event and then the STOP event, nothing more
   whatever follows, and on leaving the loop the stop hook is the last
   thing it executes.
   */
  lemma RemoteStopEndsRun(q: Queue, caller: ThreadId, later: seq<Op>)
    requires !q.done && caller != q.owner && StopFree(q.fifo)
    ensures var r := Apply(Queues.Stop(q, caller), Turns(|q.fifo| + 1) + later);
      && r.done
      && var e := Exit(r);
      && Dispatched(e.executed)
         == Dispatched(q.executed) + q.fifo + [Event(caller, StopTag, q.idPool, SetDone)]
      && e.executed == r.executed + HookRecord(OnStop, q.onStop)
      && (q.onStop.Some? ==> e.executed[|e.executed| - 1] == HookRan(OnStop, q.onStop.value))
  {
    StopDrainsThenAbandons(q, caller, later);
    ApplyKeepsStopHook(Queues.Stop(q, caller), Turns(|q.fifo| + 1) + later);
  }

  /**
   The end of a parked run: a loop that `Queues.Run` left waiting on an
   empty FIFO takes a STOP posted from another thread on its next turn,
   dispatches nothing after it, and on leaving the loop runs the stop
   hook it was started with as its last execution.
   */
  lemma ParkedRunEndsOnRemoteStop(start: Queue, q: Queue, caller: ThreadId, later: seq<Op>)
    requires RunsTo(start, q, Parked) && caller != start.owner
    ensures var r := Apply(Queues.Stop(q, caller), [Turn] + later);
      && r.done
      && var e := Exit(r);
      && Dispatched(e.executed) == Dispatched(q.executed) + [Event(caller, StopTag, q.idPool, SetDone)]
      && (start.onStop.Some? ==> e.executed[|e.executed| - 1] == HookRan(OnStop, start.onStop.value))
  {
    assert q.fifo == [] && StopFree(q.fifo);
    assert Turns(|q.fifo| + 1) == [Turn];
    RemoteStopEndsRun(q, caller, later);
  }
}
