/**
 The values the event queue works with: thread identities, callables,
 events and the record of what a queue has executed.
 */
module Events {

  /** A `std::thread::id`; only equality between identities matters. */
  type ThreadId = nat

  /** The absence of a value, standing in for a null `Queue*`. */
  datatype Option<T> = None | Some(value: T)

  /**
   A zero-argument callable. Callables are opaque to the queue, with one
   exception: the callable `Queue::stop` posts, which sets the queue's done
   flag. An opaque callable is named by the function it calls and carries
   the arguments bound into it.
   */
  datatype Action =
    | SetDone
    | Opaque(fn: string, args: seq<int>)

  /** The tag `Queue::stop` gives its event. */
  const StopTag: string := "STOP"

  /** One deferred unit of work: origin thread, tag, sequence id and callable. */
  datatype Event = Event(origin: ThreadId, tag: string, id: nat, call: Action)

  /** The two optional hooks a run loop calls around its loop. */
  datatype Hook = OnStart | OnStop

  /**
   One invocation of a callable by a queue: either an event (run on the
   local path inside `post`, or dispatched from the FIFO by `call_next`),
   or one of the hooks.
   */
  datatype Execution =
    | Ran(ev: Event, local: bool)
    | HookRan(hook: Hook, call: Action)

  /**
   `std::bind(callee, args...)` on a plain function: the zero-argument
   callable that calls `callee` with `args`. A callee that is itself a bind
   expression is not accepted here: `std::bind` would drop the new
   arguments rather than append them.
   */
  function Bind(callee: Action, args: seq<int>): (a: Action)
    requires callee.Opaque? && callee.args == []
    ensures a.Opaque? && a.fn == callee.fn && a.args == args
  {
    Opaque(callee.fn, args)
  }
}
