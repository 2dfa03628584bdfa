/**
 The process-wide registry of queues (`ThreadData`): a list of queues in
 creation order, searched by owning thread. The slot of a queue in the
 list stands for the `Queue*` the source hands out; since queues are
 never removed, a slot stays valid for the life of the process.
 */
module ThreadData {
  import opened Events
  import opened Queues

  type Registry = seq<Queue>

  /** No two queues of the registry belong to the same thread. */
  ghost predicate OneQueuePerThread(reg: Registry)
  {
    forall i, j :: 0 <= i < j < |reg| ==> reg[i].owner != reg[j].owner
  }

  /** The registry invariant: one queue per thread, each queue well formed. */
  ghost predicate RegistryWf(reg: Registry)
  {
    && OneQueuePerThread(reg)
    && forall i :: 0 <= i < |reg| ==> Wf(reg[i])
  }

  /** The first slot at or after `from` whose queue belongs to `id`. */
  function Find(reg: Registry, id: ThreadId, from: nat): (slot: Option<nat>)
    requires from <= |reg|
    ensures slot.Some? ==>
      && from <= slot.value < |reg|
      && reg[slot.value].owner == id
      && forall i :: from <= i < slot.value ==> reg[i].owner != id
    ensures slot.None? ==> forall i :: from <= i < |reg| ==> reg[i].owner != id
    decreases |reg| - from
  {
    if from == |reg| then None
    else if reg[from].owner == id then Some(from)
    else Find(reg, id, from + 1)
  }

  /**
   `ThreadData::getQueue`: the queue of thread `id`, or none when that
   thread has not started one. A lookup; the registry is left as it was.
   */
  function GetQueue(reg: Registry, id: ThreadId): (slot: Option<nat>)
    ensures slot.Some? ==> slot.value < |reg| && reg[slot.value].owner == id
    ensures slot.Some? ==> forall i :: 0 <= i < slot.value ==> reg[i].owner != id
    ensures slot.None? <==> forall i :: 0 <= i < |reg| ==> reg[i].owner != id
  {
    Find(reg, id, 0)
  }

  /**
   `ThreadData::createQueue`: create-or-get. The queue the calling thread
   already owns is returned as is (its name and indentation unchanged);
   otherwise one new queue owned by the caller is appended.
   */
  function CreateQueue(reg: Registry, caller: ThreadId, name: string, indent: nat): (res: (Registry, nat))
    ensures res.1 < |res.0| && res.0[res.1].owner == caller
    ensures GetQueue(res.0, caller) == Some(res.1)
    ensures GetQueue(reg, caller).Some? ==> res.0 == reg && GetQueue(reg, caller) == Some(res.1)
    ensures GetQueue(reg, caller).None? ==>
      && res.0 == reg + [NewQueue(caller, name, indent)]
      && res.1 == |reg|
    ensures forall id :: id != caller ==> GetQueue(res.0, id) == GetQueue(reg, id)
    ensures RegistryWf(reg) ==> RegistryWf(res.0)
  {
    match GetQueue(reg, caller)
    case Some(slot) => (reg, slot)
    case None =>
      var r := reg + [NewQueue(caller, name, indent)];
      assert forall id :: id != caller ==> GetQueue(r, id) == GetQueue(reg, id) by {
        forall id | id != caller
          ensures GetQueue(r, id) == GetQueue(reg, id)
        {
          AppendKeepsLookup(reg, NewQueue(caller, name, indent), id);
        }
      }
      (r, |reg|)
  }

  /** Appending another thread's queue does not change where `id`'s queue is found. */
  lemma AppendKeepsLookup(reg: Registry, q: Queue, id: ThreadId)
    requires q.owner != id
    ensures GetQueue(reg + [q], id) == GetQueue(reg, id)
  {
    var r := reg + [q];
    match GetQueue(reg, id)
    case Some(slot) =>
      assert r[slot] == reg[slot];
      assert forall i :: 0 <= i < slot ==> r[i] == reg[i];
    case None =>
      assert forall i :: 0 <= i < |r| ==> r[i].owner != id by {
        forall i | 0 <= i < |r|
          ensures r[i].owner != id
        {
          if i < |reg| {
            assert r[i] == reg[i];
          }
        }
      }
  }

  /**
   `start` twice from one thread: the second call finds the first call's
   queue and changes nothing, whatever name and indentation it passes.
   */
  lemma CreateQueueIdempotent(reg: Registry, caller: ThreadId, name: string, indent: nat,
                              name': string, indent': nat)
    ensures var (r, slot) := CreateQueue(reg, caller, name, indent);
      CreateQueue(r, caller, name', indent') == (r, slot)
  {
  }

  /** Replace the queue in `slot` by its new state, as the `Queue*` a caller mutates. */
  function Store(reg: Registry, slot: nat, q: Queue): (r: Registry)
    requires slot < |reg| && q.owner == reg[slot].owner
    ensures |r| == |reg| && r[slot] == q
    ensures forall i :: 0 <= i < |reg| && i != slot ==> r[i] == reg[i]
    ensures forall id :: GetQueue(r, id) == GetQueue(reg, id)
    ensures RegistryWf(reg) && Wf(q) ==> RegistryWf(r)
  {
    var r := reg[slot := q];
    assert forall id :: GetQueue(r, id) == GetQueue(reg, id) by {
      forall id
        ensures GetQueue(r, id) == GetQueue(reg, id)
      {
        SameOwnersSameLookup(reg, r, id);
      }
    }
    r
  }

  /** Lookup sees only owners. */
  lemma SameOwnersSameLookup(a: Registry, b: Registry, id: ThreadId)
    requires |a| == |b|
    requires forall i :: 0 <= i < |a| ==> a[i].owner == b[i].owner
    ensures GetQueue(a, id) == GetQueue(b, id)
  {
    match GetQueue(a, id)
    case Some(slot) =>
    case None =>
  }
}
