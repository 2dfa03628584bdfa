# Per-thread event queues, modelled in Dafny

A model of a small actor-like runtime in C++. Each thread that takes part
owns one FIFO event queue. Any thread may post a tagged callable to any
thread's queue. The owning thread's run loop executes those callables one
by one, in arrival order. A process-wide registry maps a thread identity
to its queue. Free functions and a `QueueHandle` type resolve that
identity and forward to the queue.

The model is sequential. Each block the source guards with a mutex is one
atomic step. The calling thread's identity, `std::this_thread::get_id()`
in the source, is an explicit parameter. Callables are opaque values
(`Action`), except for the one that `Queue::stop` posts, which sets the
queue's done flag. Every callable a queue runs is recorded in the queue's
`executed` trace. The order of that trace is what the lemmas reason about.

Modules, in dependency order:

- `Events` (events.dfy): thread identities, callables, `Event`, trace entries, and `std::bind` on a plain function.
- `Queues` (queues.dfy): the queue state machine. It covers the constructor, `post`, `call_next`, `stop`, the hooks and `run`. Here `run` is a loop checked against an independent definition: dispatch up to and including the first STOP event.
- `Schedules` (schedules.dfy): any interleaving of posts from any threads with turns of the owner's loop. It proves FIFO order, that no event is lost or duplicated, and that stop drains the events ahead of it and abandons the later ones. It also models leaving the loop, so a run that waited on an empty FIFO ends with the stop hook once a STOP arrives.
- `ThreadData` (registry.dfy): the registry, `createQueue` (create-or-get) and `getQueue`. A slot index in the registry's list plays the role of a `Queue*`.
- `Facade` (facade.dfy): `start`, `run()`, `run(on_start, on_stop)`, `stop(id)` and both `post(id, ...)` overloads.
- `Handles` (handles.dfy): `QueueHandle` and its default constructor, which captures the calling thread.

When `call_next` finds the FIFO empty, the source blocks on its condition
variable until another thread posts. A sequential run cannot wait, so
`Queues.Run` stops there and returns the status `Parked`. `Schedules`
models what happens after that: posts from other threads interleaved with
further turns of the loop.

## Model

| member | source | states |
|---|---|---|
| `Queues.NewQueue` | event_system/queue.cpp:44-51 | a new queue is owned by the constructing thread, has an empty FIFO, is not done, has id counter 0 and no hooks, and satisfies the queue invariant |
| `Queues.Invoke` | event_system/queue.cpp:56 | running a callable records it in the trace; the STOP callable sets done, and an opaque callable leaves the FIFO, counter and flags as they were |
| `Queues.Post` | event_system/queue.cpp:75-104 | the counter always goes up by one, and the id used is the old counter; from the owner the call runs at once and the FIFO is unchanged; from another thread exactly one event (caller, tag, old counter, callable) is appended at the back, the earlier entries stay as they were, and done is left alone even if it is already set; the queue invariant is preserved |
| `Queues.CallNext` | event_system/queue.cpp:106-129 | on a non-empty FIFO, exactly the front event is removed and run, the rest of the FIFO keeps its order, and the event history and queue invariant are preserved |
| `Queues.Stop` | event_system/queue.cpp:53-57 | stop is a post of the STOP callable under tag "STOP" and takes the next id: from the owner, done is set at once, the FIFO is unchanged and the local run of the STOP event is recorded; from another thread, a STOP event is appended and the trace and done flag are unchanged; owner, name, indent and hooks are kept |
| `Queues.RunHook` | event_system/queue.cpp:63-70 | an installed hook is run and recorded; a missing hook is skipped; the FIFO and counter are unchanged |
| `Queues.Cut` | event_system/queue.cpp:66-67 | the number of FIFO events a loop that is not yet done consumes: all of them if none is a STOP event, otherwise up to and including the first STOP event |
| `Queues.Run` | event_system/queue.cpp:59-73 | the start hook runs before any event; if done is not yet set, the FIFO is dispatched front to back up to the first STOP event; the events behind it stay queued and are never run; when done is reached the stop hook runs last, otherwise the owner is left waiting on an empty FIFO; the queue invariant is preserved |
| `Schedules.Step` | event_system/queue.cpp:66-67 | one turn of the loop does nothing once done is set, so a done queue stays done and dispatches nothing more |
| `Schedules.ApplyKeepsWf` | event_system/queue.cpp:79-117 | for every interleaving of posts and loop turns, the queued and dispatched events keep strictly increasing ids, all below the counter |
| `Schedules.ApplyConserves` | event_system/queue.cpp:96-117 | for every interleaving, the events already dispatched followed by those still queued are exactly the remote posts, in the order they took the mutex; none is lost and none is duplicated |
| `Schedules.FreshQueueDispatchesEveryPost` | event_system/queue.cpp:44-117 | on a new queue, the dispatched events run in strictly increasing id order, and together with the queued ones they are exactly the remote posts; once the FIFO is empty, every remote post has run exactly once |
| `Schedules.DoneAbandonsLaterEvents` | event_system/queue.cpp:66-101 | once done is set, nothing more is dispatched under any interleaving, and every later remote post stays queued behind the earlier ones |
| `Schedules.TurnsDispatchFront` | event_system/queue.cpp:106-128 | while no STOP event is met, n turns of the loop run the first n queued events in order and leave the rest queued |
| `Schedules.QueuedStopAbandonsLaterPosts` | event_system/queue.cpp:53-117 | once a STOP event is queued on a queue that is not done, no interleaving of posts and loop turns dispatches anything beyond the queued events up to and including that STOP event, and those run in FIFO order; a post that lands behind the STOP event, before or after the loop reaches it, is never run |
| `Schedules.StopDrainsThenAbandons` | event_system/queue.cpp:53-67 | a STOP event posted from another thread behind events that are not stops: the loop runs all of those events and then the STOP event, in order; nothing posted or turned afterwards is dispatched |
| `Schedules.Exit` | event_system/queue.cpp:66-70 | once the loop has seen done it leaves the loop and runs the stop hook, which is then the last execution; the FIFO and the dispatched events are unchanged |
| `Schedules.RemoteStopEndsRun` | event_system/queue.cpp:53-70 | a STOP from another thread behind events that are not stops: the loop dispatches those events and then the STOP event, nothing more whatever follows, and on leaving the loop its last execution is the stop hook |
| `Schedules.ParkedRunEndsOnRemoteStop` | event_system/queue.cpp:59-117 | a run left waiting on an empty FIFO takes a STOP posted from another thread on its next turn, dispatches nothing after it, and ends with the stop hook it was started with as its last execution |
| `ThreadData.Find` | event_system/queue.cpp:161-164 | the lookup finds the first queue at or after a position that is owned by the thread, or reports that no such queue exists |
| `ThreadData.GetQueue` | event_system/queue.cpp:157-165 | returns the queue owned by the thread if there is one (the first such queue), and none exactly when no queue is owned by it |
| `ThreadData.CreateQueue` | event_system/queue.cpp:145-155 | returns the caller's existing queue and leaves the registry unchanged, or appends one new queue owned by the caller; lookups for other threads are unaffected; at most one queue per thread is kept |
| `ThreadData.CreateQueueIdempotent` | event_system/queue.cpp:145-155 | a second create-or-get from the same thread returns the same queue and leaves the registry unchanged, whatever name and indent it passes |
| `Facade.Start` | event_system/queue.hpp:25-31 | always returns true, and afterwards the caller has a queue: the one it already had (registry unchanged) or one new queue |
| `Facade.StartIdempotent` | event_system/queue.hpp:25-31 | starting twice from the same thread changes nothing the second time and still returns true |
| `Facade.Post` | event_system/queue.hpp:68-74 | an unregistered target means no change at all; every lookup gives what it gave before; a registered target's queue takes the next id, keeps its owner, name, indent and hooks, and gets the local-path effect (call recorded, FIFO kept, done set only by the STOP callable) if the caller is the target and the remote-path effect (event appended, trace and done kept) otherwise; every other queue is untouched |
| `Facade.PostBound` | event_system/queue.hpp:76-82 | posting a function with arguments is exactly posting the callable that calls it with those arguments: the counter goes up by one, the call runs at once from the target thread or joins the back of the FIFO from any other, done is unchanged, every other queue is untouched, and an unregistered target means no change |
| `Facade.Stop` | event_system/queue.hpp:61-66 | exactly a post of the STOP callable to the target: an unregistered target means no change; the target's queue takes the next id and keeps its owner, name, indent and hooks; from the target thread, done is set at once and the STOP run is recorded; from another thread, a STOP event joins the back of the FIFO and done is not yet set |
| `Facade.Run` | event_system/queue.hpp:52-59 | a thread without a queue returns at once and nothing changes; otherwise its own queue is run as `Queues.Run` describes and the other queues are untouched |
| `Facade.RunWith` | event_system/queue.hpp:40-50 | a thread without a queue returns at once and nothing changes; otherwise both hooks are installed before the loop starts, an empty hook clearing the one installed before; an installed start hook is the first thing executed, and without one no start hook runs; the queue runs as `Queues.Run` describes and the other queues are untouched |
| `Facade.StartHookFirst` | event_system/queue.cpp:63-64 | with a start hook installed, the first execution of a run is that hook |
| `Facade.NoStartHook` | event_system/queue.cpp:63-64 | with no start hook installed, a run executes no start hook at any point |
| `Handles.QueueHandle.Post` | event_system/queue.hpp:93-94 | a handle's post has exactly the effect of `post` to the thread it names, that thread's queue looked up at the time of the call: the counter, done flag, FIFO and trace on both paths, the queue's owner, name, indent and hooks, and every other queue, as for `Facade.Post` |
| `Handles.QueueHandle.PostBound` | event_system/queue.hpp:96-100 | posting a function with arguments through a handle is posting the callable with the arguments bound into it through that handle |
| `Handles.QueueHandle.Stop` | event_system/queue.hpp:91 | a handle's stop has exactly the effect of `stop` on the thread it names: a post of the STOP callable, done at once from that thread, a STOP event at the back of its FIFO with done not yet set from any other, no change if that thread has no queue |
| `Handles.PostHereIsLocal` | event_system/queue.hpp:87-94 | a registered thread posting through a default handle takes the local path: the call runs at once and its FIFO is unchanged |
| `Handles.StopHereIsImmediate` | event_system/queue.hpp:87-91 | a registered thread stopping through a default handle sets its own done flag at once and leaves its FIFO unchanged |
| `Handles.UnregisteredHandleIsNoOp` | event_system/queue.hpp:91-94 | posting or stopping through a handle whose thread has no queue changes nothing |

## Left out

- Mutexes and the condition variable: each guarded block is one atomic step. The gap in `call_next` between the wait and the pop, where the lock is released and taken again, is not modelled. It is safe only because each queue has a single consumer.
- Blocking: `call_next` on an empty FIFO waits for a post. `Queues.Run` instead returns `Parked`, and `Schedules` treats a turn on an empty FIFO as doing nothing. The rest of a parked run is a schedule of posts and turns, then `Schedules.Exit`, which leaves the loop once done is set and runs the stop hook.
- `wait`: a sleep-based polling loop with no bound. It is timing and I/O.
- The console logger (`sync`) and every trace line, including the "STOP ALREADY RECEIVED" warning. `impl::queue_name` and `impl::queue_indent` are left out too, since only the logger reads them. The name and indent are still stored in each queue.
- The demonstration program (`main`, `messages`, `query`, `response`).
- What a callable does. Opaque callables do not post, stop or create queues, and exceptions thrown by callables are not modelled. The local path holds the queue's lock while the callable runs, so a callable that locks the same queue again would deadlock; this is not modelled either.
- `shared_ptr` ownership and the `Event` move constructor. Queues are never destroyed, so a registry slot stays valid.
- Events.Bind: only a plain function can be bound (its callable carries no arguments yet), and the same holds for `Facade.PostBound` and `QueueHandle.PostBound`. When `std::bind` is given a callee that is itself a bind expression, it drops the new arguments instead of appending them. Every caller in the program binds a plain function, so that case is not modelled. Bound arguments are integers, so a bound `QueueHandle`, as the demonstration binds into its query, cannot be represented; this only affects the names the trace records.
- Empty callables posted as events: calling one throws `std::bad_function_call`, and exceptions are not modelled. Empty hooks are modelled: `Facade.RunWith` takes optional hooks.
- `QueueHandle(const std::thread&)`: a thread object is reduced to its identity, which is what that constructor stores.
- Queues.Post: the id counter is a `size_t` in the source and wraps after 2^64 posts; here it is unbounded. Ids appear only in diagnostic output, and the order of dispatch is the order of the deque, so the wrap changes nothing the model states except the increasing-id invariant after 2^64 posts.
- Queues.NewQueue: the indent is an `unsigned int` in the source and a natural number here. It is only cosmetic.
