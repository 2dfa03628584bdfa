/**
 The free functions of namespace `queue`: each resolves a thread's queue
 in the registry and forwards to it, doing nothing at all when that
 thread has no queue. The calling thread is an explicit parameter.
 */
module Facade {
  import opened Events
  import Queues
  import opened ThreadData

  /**
   `start`: create-or-get the caller's queue. The null check can never
   fail, so `start` always reports success, and afterwards the caller
   has exactly one queue.
   */
  function Start(reg: Registry, caller: ThreadId, name: string, indent: nat): (res: (Registry, bool))
    ensures res.1
    ensures GetQueue(res.0, caller).Some?
    ensures GetQueue(reg, caller).Some? ==> res.0 == reg
    ensures GetQueue(reg, caller).None? ==> res.0 == reg + [Queues.NewQueue(caller, name, indent)]
    ensures RegistryWf(reg) ==> RegistryWf(res.0)
  {
    var (r, slot) := CreateQueue(reg, caller, name, indent);
    (r, slot < |r|)
  }

  /** `start` twice from one thread leaves the registry as the first call left it. */
  lemma StartIdempotent(reg: Registry, caller: ThreadId, name: string, indent: nat,
                        name': string, indent': nat)
    ensures var first := Start(reg, caller, name, indent).0;
      Start(first, caller, name', indent') == (first, true)
  {
    CreateQueueIdempotent(reg, caller, name, indent, name', indent');
  }

  /**
   What `post(target, tag, call)` from thread `caller` does to the
   registry: the queues and their owners stay where they are, so every
   lookup gives what it gave before. An unregistered target means no
   change at all. A registered target's queue takes the next id; from its
   own thread the call runs at once and is recorded, from any other it
   joins the back of the FIFO with the trace and done flag untouched.
   Its name, indentation and hooks are kept, and every other queue is
   untouched.
   */
  ghost predicate PostEffect(reg: Registry, r: Registry, caller: ThreadId, target: ThreadId,
                             tag: string, call: Action)
  {
    && |r| == |reg|
    && (forall id :: GetQueue(r, id) == GetQueue(reg, id))
    && (GetQueue(reg, target).None? ==> r == reg)
    && (GetQueue(reg, target).Some? ==>
          var i := GetQueue(reg, target).value;
          var ev := Event(caller, tag, reg[i].idPool, call);
          && (forall j :: 0 <= j < |reg| && j != i ==> r[j] == reg[j])
          && r[i].owner == reg[i].owner && r[i].name == reg[i].name && r[i].indent == reg[i].indent
          && r[i].onStart == reg[i].onStart && r[i].onStop == reg[i].onStop
          && r[i].idPool == reg[i].idPool + 1
          && (caller == target ==>
                && r[i].fifo == reg[i].fifo
                && r[i].executed == reg[i].executed + [Ran(ev, true)]
                && r[i].done == (reg[i].done || call.SetDone?))
          && (caller != target ==>
                && r[i].fifo == reg[i].fifo + [ev]
                && r[i].executed == reg[i].executed
                && r[i].done == reg[i].done))
  }

  /**
   `post(id, tag, ev)`: on a registered target, exactly `Queue::post` on
   its queue (run at once when the caller is the target, queued at the
   back otherwise); every other queue is untouched. On an unregistered
   target, nothing changes.
   */
  function Post(reg: Registry, caller: ThreadId, target: ThreadId, tag: string, call: Action): (r: Registry)
    ensures PostEffect(reg, r, caller, target, tag, call)
    ensures RegistryWf(reg) ==> RegistryWf(r)
  {
    match GetQueue(reg, target)
    case None => reg
    case Some(i) => Store(reg, i, Queues.Post(reg[i], caller, tag, call))
  }

  /**
   `post(id, tag, ev, args...)`: bind the arguments into one callable and
   post that. The two overloads agree: posting a function with arguments
   is posting the callable that calls it with those arguments, so the
   counter, the done flag and every other queue behave as for `Post`.
   */
  function PostBound(reg: Registry, caller: ThreadId, target: ThreadId, tag: string,
                     callee: Action, args: seq<int>): (r: Registry)
    requires callee.Opaque? && callee.args == []
    ensures r == Post(reg, caller, target, tag, Opaque(callee.fn, args))
    ensures PostEffect(reg, r, caller, target, tag, Opaque(callee.fn, args))
    ensures RegistryWf(reg) ==> RegistryWf(r)
  {
    Post(reg, caller, target, tag, Bind(callee, args))
  }

  /**
   `stop(id)`: on a registered target, `Queue::stop` on its queue, which
   is a post of the STOP callable under the tag "STOP". From the target
   thread itself done is set at once and the FIFO is left alone; from any
   other thread a STOP event joins the back of the FIFO and done is not
   yet set. On an unregistered target, nothing changes.
   */
  function Stop(reg: Registry, caller: ThreadId, target: ThreadId): (r: Registry)
    ensures PostEffect(reg, r, caller, target, StopTag, SetDone)
    ensures GetQueue(reg, target).Some? ==>
      var i := GetQueue(reg, target).value;
      && (caller == target ==> r[i].done && r[i].fifo == reg[i].fifo)
      && (caller != target ==>
            && r[i].done == reg[i].done
            && r[i].fifo == reg[i].fifo + [Event(caller, StopTag, reg[i].idPool, SetDone)])
    ensures RegistryWf(reg) ==> RegistryWf(r)
  {
    match GetQueue(reg, target)
    case None => reg
    case Some(i) => Store(reg, i, Queues.Stop(reg[i], caller))
  }

  /**
   `run()`: run the caller's queue with the hooks it already has. A
   thread without a queue returns at once and nothing changes.
   */
  method Run(reg: Registry, caller: ThreadId) returns (r: Registry, status: Option<Queues.Status>)
    ensures GetQueue(reg, caller).None? ==> r == reg && status == None
    ensures GetQueue(reg, caller).Some? ==>
      var i := GetQueue(reg, caller).value;
      && status.Some?
      && |r| == |reg|
      && (forall j :: 0 <= j < |reg| && j != i ==> r[j] == reg[j])
      && Queues.RunsTo(reg[i], r[i], status.value)
    ensures RegistryWf(reg) ==> RegistryWf(r)
  {
    match GetQueue(reg, caller)
    case None =>
      r, status := reg, None;
    case Some(i) =>
      var q, st := Queues.Run(reg[i]);
      r, status := Store(reg, i, q), Some(st);
  }

  /**
   `run(on_start, on_stop)`: install both hooks on the caller's queue,
   then run it. An empty callable (`nullptr`) clears the hook it replaces.
   An installed start hook is the first thing the run executes; without
   one, the run executes no start hook at all. A thread without a queue
   returns at once and nothing changes.
   */
  method RunWith(reg: Registry, caller: ThreadId, onStart: Option<Action>, onStop: Option<Action>)
    returns (r: Registry, status: Option<Queues.Status>)
    ensures GetQueue(reg, caller).None? ==> r == reg && status == None
    ensures GetQueue(reg, caller).Some? ==>
      var i := GetQueue(reg, caller).value;
      var hooked := Queues.SetOnStop(Queues.SetOnStart(reg[i], onStart), onStop);
      && status.Some?
      && |r| == |reg|
      && (forall j :: 0 <= j < |reg| && j != i ==> r[j] == reg[j])
      && r[i].onStart == onStart && r[i].onStop == onStop
      && (onStart.Some? ==>
            && |r[i].executed| > |reg[i].executed|
            && r[i].executed[|reg[i].executed|] == HookRan(OnStart, onStart.value))
      && (onStart.None? ==>
            forall t :: |reg[i].executed| <= t < |r[i].executed| ==> !(r[i].executed[t].HookRan? && r[i].executed[t].hook == OnStart))
      && Queues.RunsTo(hooked, r[i], status.value)
    ensures RegistryWf(reg) ==> RegistryWf(r)
  {
    match GetQueue(reg, caller)
    case None =>
      r, status := reg, None;
    case Some(i) =>
      var hooked := Queues.SetOnStop(Queues.SetOnStart(reg[i], onStart), onStop);
      assert Queues.History(hooked) == Queues.History(reg[i]);
      var q, st := Queues.Run(hooked);
      if onStart.Some? {
        StartHookFirst(hooked, q, st);
      } else {
        NoStartHook(hooked, q, st);
      }
      r, status := Store(reg, i, q), Some(st);
  }

  /** A run whose start hook is installed executes that hook before anything else. */
  lemma StartHookFirst(q: Queues.Queue, r: Queues.Queue, status: Queues.Status)
    requires q.onStart.Some? && Queues.RunsTo(q, r, status)
    ensures |r.executed| > |q.executed|
    ensures r.executed[|q.executed|] == HookRan(OnStart, q.onStart.value)
  {
    var s := Queues.RunHook(q, OnStart);
    assert s.executed == q.executed + [HookRan(OnStart, q.onStart.value)];
    assert r.executed[..|s.executed|] == s.executed;
  }

  /** A run without a start hook executes only events and, at the end, the stop hook. */
  lemma NoStartHook(q: Queues.Queue, r: Queues.Queue, status: Queues.Status)
    requires q.onStart.None? && Queues.RunsTo(q, r, status)
    ensures forall t :: |q.executed| <= t < |r.executed| ==> !(r.executed[t].HookRan? && r.executed[t].hook == OnStart)
  {
    var s := Queues.RunHook(q, OnStart);
    assert s == q;
    var k := if s.done then 0 else Queues.Cut(s.fifo);
    var evs := if status == Queues.Stopped then s.fifo[..k] else s.fifo;
    var tail := if status == Queues.Stopped then Queues.HookRecord(OnStop, q.onStop) else [];
    assert r.executed == q.executed + Queues.Runs(evs) + tail;
    forall t | |q.executed| <= t < |r.executed|
      ensures !(r.executed[t].HookRan? && r.executed[t].hook == OnStart)
    {
      if t < |q.executed| + |evs| {
        assert r.executed[t] == Queues.Runs(evs)[t - |q.executed|];
      } else {
        assert r.executed[t] == tail[t - |q.executed| - |evs|];
      }
    }
  }
}
