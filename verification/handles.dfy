/**
 `QueueHandle`: a copyable thread identity with `post` and `stop` that
 forward to the free functions for that identity, looked up afresh on
 every call.
 */
module Handles {
  import opened Events
  import opened ThreadData
  import Queues
  import Facade

  datatype QueueHandle = QueueHandle(id: ThreadId)
  {
    /**
     `QueueHandle::post(tag, ev)`: post to the stored identity, looked up
     at the time of the call. A handle to a thread without a queue does
     nothing; otherwise that thread's queue takes the post, on the local
     path exactly when the caller is that thread.
     */
    function Post(reg: Registry, caller: ThreadId, tag: string, call: Action): (r: Registry)
      ensures Facade.PostEffect(reg, r, caller, id, tag, call)
    {
      Facade.Post(reg, caller, id, tag, call)
    }

    /**
     `QueueHandle::post(tag, ev, args...)`: post the function with its
     arguments bound to the stored identity; the same as posting the
     bound callable through this handle.
     */
    function PostBound(reg: Registry, caller: ThreadId, tag: string, callee: Action, args: seq<int>): (r: Registry)
      requires callee.Opaque? && callee.args == []
      ensures r == Post(reg, caller, tag, Opaque(callee.fn, args))
      ensures Facade.PostEffect(reg, r, caller, id, tag, Opaque(callee.fn, args))
    {
      Facade.PostBound(reg, caller, id, tag, callee, args)
    }

    /**
     `QueueHandle::stop()`: stop the stored identity's queue, if it has
     one: at once when the caller is that thread, by a STOP event at the
     back of its FIFO otherwise.
     */
    function Stop(reg: Registry, caller: ThreadId): (r: Registry)
      ensures Facade.PostEffect(reg, r, caller, id, StopTag, SetDone)
      ensures GetQueue(reg, id).Some? ==>
        var i := GetQueue(reg, id).value;
        && (caller == id ==> r[i].done && r[i].fifo == reg[i].fifo)
        && (caller != id ==>
              && r[i].done == reg[i].done
              && r[i].fifo == reg[i].fifo + [Event(caller, StopTag, reg[i].idPool, SetDone)])
    {
      Facade.Stop(reg, caller, id)
    }
  }

  /** The default-constructed handle: the identity of the thread constructing it. */
  function Here(caller: ThreadId): (h: QueueHandle)
    ensures h.id == caller
  {
    QueueHandle(caller)
  }

  /**
   A thread posting through a default-constructed handle posts to itself:
   the call runs at once on the local path and its FIFO is untouched.
   */
  lemma PostHereIsLocal(reg: Registry, caller: ThreadId, tag: string, call: Action)
    requires GetQueue(reg, caller).Some?
    ensures var i := GetQueue(reg, caller).value;
      var r := Here(caller).Post(reg, caller, tag, call);
      && r[i].fifo == reg[i].fifo
      && r[i].executed == reg[i].executed + [Ran(Event(caller, tag, reg[i].idPool, call), true)]
  {
  }

  /** Stopping through a default-constructed handle sets done at once. */
  lemma StopHereIsImmediate(reg: Registry, caller: ThreadId)
    requires GetQueue(reg, caller).Some?
    ensures var i := GetQueue(reg, caller).value;
      var r := Here(caller).Stop(reg, caller);
      r[i].done && r[i].fifo == reg[i].fifo
  {
  }

  /** A handle to a thread that never started a queue does nothing, whatever it is asked. */
  lemma UnregisteredHandleIsNoOp(h: QueueHandle, reg: Registry, caller: ThreadId, tag: string, call: Action)
    requires GetQueue(reg, h.id).None?
    ensures h.Post(reg, caller, tag, call) == reg
    ensures h.Stop(reg, caller) == reg
  {
  }
}
