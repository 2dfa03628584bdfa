/**
 The per-thread queue as a sequential state machine. Every block the
 source guards with the queue's mutex is one step here, and the identity
 of the calling thread is an explicit parameter.
 */
module Queues {
  import opened Events

  /**
   A queue: its owning thread (fixed at construction), the FIFO of events
   waiting for the owner's loop, the done flag, the cosmetic name and
   indentation, the sequence-id counter, the two optional hooks, and the
   trace of every callable it has invoked so far.
   */
  datatype Queue = Queue(
    owner: ThreadId,
    fifo: seq<Event>,
    done: bool,
    name: string,
    indent: nat,
    idPool: nat,
    onStart: Option<Action>,
    onStop: Option<Action>,
    executed: seq<Execution>)

  /** The events of a trace that `call_next` dispatched from the FIFO, in trace order. */
  function Dispatched(xs: seq<Execution>): (evs: seq<Event>)
    ensures |evs| <= |xs|
  {
    if xs == [] then []
    else
      (if xs[0].Ran? && !xs[0].local then [xs[0].ev] else []) + Dispatched(xs[1..])
  }

  lemma {:induction false} DispatchedSnoc(xs: seq<Execution>, x: Execution)
    ensures Dispatched(xs + [x]) == Dispatched(xs) + (if x.Ran? && !x.local then [x.ev] else [])
  {
    if xs == [] {
      assert [x][1..] == [];
    } else {
      assert (xs + [x])[1..] == xs[1..] + [x];
      DispatchedSnoc(xs[1..], x);
    }
  }

  /** Every event ever enqueued on the queue: those already dispatched, then those still waiting. */
  function History(q: Queue): (evs: seq<Event>)
  {
    Dispatched(q.executed) + q.fifo
  }

  ghost predicate Ascending(evs: seq<Event>)
  {
    forall i, j :: 0 <= i < j < |evs| ==> evs[i].id < evs[j].id
  }

  ghost predicate IdsBelow(evs: seq<Event>, bound: nat)
  {
    forall i :: 0 <= i < |evs| ==> evs[i].id < bound
  }

  /**
   The queue invariant: the enqueued events carry strictly increasing ids,
   all handed out already by the counter. Since the FIFO is a suffix of
   the history, its ids are increasing too, and so the owner's loop runs
   events in increasing id order.
   */
  ghost predicate Wf(q: Queue)
  {
    Ascending(History(q)) && IdsBelow(History(q), q.idPool)
  }

  /** The queue a thread builds on its first `start`. */
  function NewQueue(caller: ThreadId, name: string, indent: nat): (q: Queue)
    ensures q.owner == caller && q.name == name && q.indent == indent
    ensures q.fifo == [] && !q.done && q.idPool == 0
    ensures q.onStart == None && q.onStop == None && q.executed == []
    ensures Wf(q)
  {
    Queue(caller, [], false, name, indent, 0, None, None, [])
  }

  /**
   Invoke a callable on behalf of the queue and record the invocation.
   The stop callable sets the done flag; an opaque one leaves the queue
   state as it was.
   */
  function Invoke(q: Queue, call: Action, record: Execution): (r: Queue)
    ensures r.executed == q.executed + [record]
    ensures r.done == (q.done || call.SetDone?)
    ensures r.owner == q.owner && r.fifo == q.fifo && r.idPool == q.idPool
    ensures r.name == q.name && r.indent == q.indent
    ensures r.onStart == q.onStart && r.onStop == q.onStop
  {
    var r := q.(executed := q.executed + [record]);
    if call.SetDone? then r.(done := true) else r
  }

  /**
   `Queue::post`: take the next sequence id; on the owner thread run the
   callable at once, from any other thread append an event at the back of
   the FIFO, whether or not the queue is already done.
   */
  function Post(q: Queue, caller: ThreadId, tag: string, call: Action): (r: Queue)
    ensures r.idPool == q.idPool + 1
    ensures r.owner == q.owner && r.name == q.name && r.indent == q.indent
    ensures r.onStart == q.onStart && r.onStop == q.onStop
    ensures caller == q.owner ==>
      && r.fifo == q.fifo
      && r.executed == q.executed + [Ran(Event(caller, tag, q.idPool, call), true)]
      && r.done == (q.done || call.SetDone?)
    ensures caller != q.owner ==>
      && |r.fifo| == |q.fifo| + 1
      && r.fifo[..|q.fifo|] == q.fifo
      && r.fifo[|q.fifo|] == Event(caller, tag, q.idPool, call)
      && r.executed == q.executed
      && r.done == q.done
    ensures caller == q.owner ==> Dispatched(r.executed) == Dispatched(q.executed)
    ensures caller == q.owner ==> History(r) == History(q)
    ensures caller != q.owner ==> History(r) == History(q) + [Event(caller, tag, q.idPool, call)]
    ensures Wf(q) ==> Wf(r)
  {
    var id := q.idPool;
    var q1 := q.(idPool := id + 1);
    if caller == q.owner then
      DispatchedSnoc(q1.executed, Ran(Event(caller, tag, id, call), true));
      Invoke(q1, call, Ran(Event(caller, tag, id, call), true))
    else
      q1.(fifo := q1.fifo + [Event(caller, tag, id, call)])
  }

  /**
   `Queue::call_next` once its wait has seen a non-empty FIFO: remove the
   front event and run it. The rest of the FIFO keeps its order.
   */
  function CallNext(q: Queue): (r: Queue)
    requires q.fifo != []
    ensures r.fifo == q.fifo[1..]
    ensures r.executed == q.executed + [Ran(q.fifo[0], false)]
    ensures Dispatched(r.executed) == Dispatched(q.executed) + [q.fifo[0]]
    ensures r.done == (q.done || q.fifo[0].call.SetDone?)
    ensures r.owner == q.owner && r.idPool == q.idPool
    ensures r.name == q.name && r.indent == q.indent
    ensures r.onStart == q.onStart && r.onStop == q.onStop
    ensures History(r) == History(q)
    ensures Wf(q) ==> Wf(r)
  {
    var ev := q.fifo[0];
    DispatchedSnoc(q.executed, Ran(ev, false));
    assert [ev] + q.fifo[1..] == q.fifo;
    Invoke(q.(fifo := q.fifo[1..]), ev.call, Ran(ev, false))
  }

  /** `Queue::stop`: post the stop callable under the tag "STOP". */
  function Stop(q: Queue, caller: ThreadId): (r: Queue)
    ensures r.idPool == q.idPool + 1 && r.owner == q.owner
    ensures r.name == q.name && r.indent == q.indent
    ensures r.onStart == q.onStart && r.onStop == q.onStop
    ensures caller == q.owner ==>
      && r.done
      && r.fifo == q.fifo
      && r.executed == q.executed + [Ran(Event(caller, StopTag, q.idPool, SetDone), true)]
    ensures caller != q.owner ==>
      && r.done == q.done
      && r.fifo == q.fifo + [Event(caller, StopTag, q.idPool, SetDone)]
      && r.executed == q.executed
    ensures History(r) == History(q) + (if caller == q.owner then [] else [Event(caller, StopTag, q.idPool, SetDone)])
    ensures Wf(q) ==> Wf(r)
  {
    Post(q, caller, StopTag, SetDone)
  }

  /**
   `Queue::on_start`: install the start hook, or clear it when handed an
   empty callable; nothing else changes.
   */
  function SetOnStart(q: Queue, hook: Option<Action>): (r: Queue)
    ensures r.onStart == hook && r.onStop == q.onStop
    ensures r.owner == q.owner && r.fifo == q.fifo && r.done == q.done
    ensures r.idPool == q.idPool && r.executed == q.executed
    ensures r.name == q.name && r.indent == q.indent
  {
    q.(onStart := hook)
  }

  /**
   `Queue::on_stop`: install the stop hook, or clear it when handed an
   empty callable; nothing else changes.
   */
  function SetOnStop(q: Queue, hook: Option<Action>): (r: Queue)
    ensures r.onStop == hook && r.onStart == q.onStart
    ensures r.owner == q.owner && r.fifo == q.fifo && r.done == q.done
    ensures r.idPool == q.idPool && r.executed == q.executed
    ensures r.name == q.name && r.indent == q.indent
  {
    q.(onStop := hook)
  }

  /** The trace entry a configured hook leaves; an empty hook is skipped. */
  function HookRecord(hook: Hook, installed: Option<Action>): (xs: seq<Execution>)
  {
    match installed
    case None => []
    case Some(a) => [HookRan(hook, a)]
  }

  /** Call the start or stop hook, if one is installed. */
  function RunHook(q: Queue, hook: Hook): (r: Queue)
    ensures var installed := if hook == OnStart then q.onStart else q.onStop;
      && r.executed == q.executed + HookRecord(hook, installed)
      && r.done == (q.done || installed == Some(SetDone))
    ensures r.owner == q.owner && r.fifo == q.fifo && r.idPool == q.idPool
    ensures r.name == q.name && r.indent == q.indent
    ensures r.onStart == q.onStart && r.onStop == q.onStop
  {
    var installed := if hook == OnStart then q.onStart else q.onStop;
    match installed
    case None => q
    case Some(a) => Invoke(q, a, HookRan(hook, a))
  }

  /** No event of `evs` carries the stop callable. */
  ghost predicate StopFree(evs: seq<Event>)
  {
    forall i :: 0 <= i < |evs| ==> !evs[i].call.SetDone?
  }

  /**
   How many events of a FIFO a loop that starts not done consumes: all of
   them when none is a stop event, otherwise up to and including the
   first stop event.
   */
  function Cut(evs: seq<Event>): (k: nat)
    ensures k <= |evs|
    ensures || (k == |evs| && StopFree(evs))
            || (0 < k && evs[k - 1].call.SetDone? && StopFree(evs[..k - 1]))
  {
    if evs == [] then 0
    else if evs[0].call.SetDone? then 1
    else
      var rest := Cut(evs[1..]);
      assert 0 < rest ==> evs[..rest] == [evs[0]] + evs[1..][..rest - 1];
      1 + rest
  }

  /** The executions of dispatching `evs` from the FIFO one after another. */
  function Runs(evs: seq<Event>): (xs: seq<Execution>)
    ensures |xs| == |evs|
    ensures forall i :: 0 <= i < |evs| ==> xs[i] == Ran(evs[i], false)
  {
    seq(|evs|, i requires 0 <= i < |evs| => Ran(evs[i], false))
  }

  /** Dispatching `evs` adds exactly `evs` to the dispatched events. */
  lemma {:induction false} DispatchedRuns(xs: seq<Execution>, evs: seq<Event>)
    ensures Dispatched(xs + Runs(evs)) == Dispatched(xs) + evs
    decreases |evs|
  {
    if evs == [] {
      assert xs + Runs(evs) == xs;
    } else {
      var last := evs[|evs| - 1];
      var front := evs[..|evs| - 1];
      assert Runs(evs) == Runs(front) + [Ran(last, false)];
      assert xs + Runs(evs) == (xs + Runs(front)) + [Ran(last, false)];
      DispatchedRuns(xs, front);
      DispatchedSnoc(xs + Runs(front), Ran(last, false));
      assert evs == front + [last];
    }
  }

  /** Why `Run` handed control back. */
  datatype Status =
    | Stopped  // the loop saw done, called the stop hook and returned
    | Parked   // the FIFO ran empty before done: the owner waits in call_next for a post

  /**
   What a run of the loop does, started on `q` with no other thread
   posting meanwhile: the start hook runs first; then, unless done is
   already set, the FIFO is dispatched front to back up to and including
   the first stop event; events behind it stay in the FIFO, never run.
   If done was reached the stop hook runs last; otherwise the owner is
   left waiting on an empty FIFO.
   */
  ghost predicate RunsTo(q: Queue, r: Queue, status: Status)
  {
    var s := RunHook(q, OnStart);
    var k := if s.done then 0 else Cut(s.fifo);
    && r.owner == q.owner && r.idPool == q.idPool
    && r.name == q.name && r.indent == q.indent
    && r.onStart == q.onStart && r.onStop == q.onStop
    && r.fifo == s.fifo[k..]
    && (status == Stopped <==> s.done || !StopFree(s.fifo))
    && (status == Stopped ==>
          && r.done
          && r.executed == s.executed + Runs(s.fifo[..k]) + HookRecord(OnStop, q.onStop))
    && (status == Parked ==>
          && !r.done
          && r.fifo == []
          && r.executed == s.executed + Runs(s.fifo))
  }

  /**
   `r` is `s` after the loop has dispatched the first `n` events of the
   FIFO `s` had.
   */
  ghost predicate Consumed(s: Queue, n: nat, r: Queue)
  {
    && n <= |s.fifo|
    && r.owner == s.owner && r.idPool == s.idPool
    && r.name == s.name && r.indent == s.indent
    && r.onStart == s.onStart && r.onStop == s.onStop
    && r.fifo == s.fifo[n..]
    && r.executed == s.executed + Runs(s.fifo[..n])
  }

  /**
   The loop invariant of `Run`, where `s` is the queue after the start
   hook and `r` the queue after `n` turns: the loop has dispatched exactly
   the first `n` events; it is still running only if none of them was a
   stop event, and it saw done only right after the first one that was.
   */
  ghost predicate Looping(s: Queue, n: nat, r: Queue)
  {
    && Consumed(s, n, r)
    && History(r) == History(s)
    && (s.done ==> n == 0)
    && (!r.done ==> !s.done && StopFree(s.fifo[..n]))
    && (r.done && !s.done ==> 0 < n && s.fifo[n - 1].call.SetDone? && StopFree(s.fifo[..n - 1]))
  }

  /** One more `call_next` dispatches one more event of the original FIFO. */
  lemma LoopStep(s: Queue, n: nat, r: Queue)
    requires Looping(s, n, r) && !r.done && r.fifo != []
    ensures n < |s.fifo|
    ensures Looping(s, n + 1, CallNext(r))
  {
    assert s.fifo[..n + 1] == s.fifo[..n] + [s.fifo[n]];
    assert s.fifo[..n + 1][..n] == s.fifo[..n];
    assert Runs(s.fifo[..n + 1]) == Runs(s.fifo[..n]) + [Ran(s.fifo[n], false)];
  }

  /** `Queue::run`: start hook, `call_next` while not done, stop hook. */
  method Run(q: Queue) returns (r: Queue, status: Status)
    ensures RunsTo(q, r, status)
    ensures Wf(q) ==> Wf(r)
  {
    var s := RunHook(q, OnStart);
    HookKeepsHistory(q, OnStart);
    r := s;
    var n := 0;
    assert s.fifo[..0] == [];
    while !r.done
      invariant Looping(s, n, r)
      decreases |s.fifo| - n
    {
      if r.fifo == [] {
        ParkedOutcome(q, s, n, r);
        status := Parked;
        return;
      }
      LoopStep(s, n, r);
      r := CallNext(r);
      n := n + 1;
    }
    StoppedOutcome(q, s, n, r);
    HookKeepsHistory(r, OnStop);
    r := RunHook(r, OnStop);
    status := Stopped;
  }

  lemma ParkedOutcome(q: Queue, s: Queue, n: nat, r: Queue)
    requires s == RunHook(q, OnStart)
    requires Looping(s, n, r) && r.fifo == [] && !r.done
    ensures RunsTo(q, r, Parked)
  {
    assert s.fifo[..n] == s.fifo;
  }

  lemma StoppedOutcome(q: Queue, s: Queue, n: nat, r: Queue)
    requires s == RunHook(q, OnStart)
    requires Looping(s, n, r) && r.done
    ensures RunsTo(q, RunHook(r, OnStop), Stopped)
  {
    assert s.fifo[0..] == s.fifo;
    if !s.done {
      CutUnique(s.fifo, n);
      assert !StopFree(s.fifo) by {
        assert s.fifo[n - 1].call.SetDone?;
      }
    }
  }

  /** A hook is no event: it leaves the queue's event history as it was. */
  lemma HookKeepsHistory(q: Queue, hook: Hook)
    ensures History(RunHook(q, hook)) == History(q)
  {
    var installed := if hook == OnStart then q.onStart else q.onStop;
    if installed.Some? {
      DispatchedSnoc(q.executed, HookRan(hook, installed.value));
    }
  }

  /** The first stop event of a FIFO is where `Cut` puts it. */
  lemma CutUnique(evs: seq<Event>, n: nat)
    requires 0 < n <= |evs|
    requires evs[n - 1].call.SetDone? && StopFree(evs[..n - 1])
    ensures Cut(evs) == n
  {
  }
}
