/**
 Message queues: a ring of items, and the task that waits for one.
 */
module KernelQueue {
  import opened KernelTask
  import opened KernelState
  import opened KernelRuns
  import opened Kernel

  /** Position k of a ring of n items, for k below 2n. */
  function Wrap(k: nat, n: nat): nat
    requires k < 2 * n
  {
    if k < n then k else k - n
  }

  /** The ring holds the items, the first one at head. */
  ghost predicate Holds(ring: seq<nat>, head: nat, items: seq<nat>) {
    && head < |ring| && |items| <= |ring|
    && forall i :: 0 <= i < |items| ==> ring[Wrap(head + i, |ring|)] == items[i]
  }

  lemma HoldsPut(ring: seq<nat>, head: nat, items: seq<nat>, x: nat)
    requires Holds(ring, head, items) && |items| < |ring|
    ensures Holds(ring[Wrap(head + |items|, |ring|) := x], head, items + [x])
  {
  }

  lemma HoldsTake(ring: seq<nat>, head: nat, items: seq<nat>)
    requires Holds(ring, head, items) && items != []
    ensures ring[head] == items[0] && Holds(ring, Wrap(head + 1, |ring|), items[1..])
  {
    var head' := Wrap(head + 1, |ring|);
    assert ring[Wrap(head + 0, |ring|)] == items[0];
    forall i | 0 <= i < |items| - 1 ensures ring[Wrap(head' + i, |ring|)] == items[1..][i] {
      assert ring[Wrap(head + (i + 1), |ring|)] == items[i + 1];
    }
  }

  const FULL := 0xFFFF // what sending to a full queue returns

  datatype Got = Nothing | Message(item: nat) | Blocked

  class MsgQueue {
    const env: Env
    const id: nat              // its place among the queues of the system
    const item: array<nat>
    var head: nat
    var tail: nat
    var count: nat
    var suspended: nat         // task that waits for a message, 0 if none

    ghost predicate Valid()
      reads this, item, env`queues
    {
      && 0 < item.Length <= FULL
      && id < |env.queues|
      && env.queues[id].limit == item.Length && env.queues[id].waiter == suspended && |env.queues[id].items| == count
      && Holds(item[..], head, env.queues[id].items)
      && tail == Wrap(head + count, item.Length)
    }

    /** An empty queue of the given size. */
    constructor (env: Env, id: nat, limit: nat)
      requires 0 < limit <= FULL && id < |env.queues| && env.queues[id] == Queue(limit, [], 0, [], [])
      ensures Valid() && this.env == env && this.id == id && count == 0 && suspended == 0 && fresh(item)
    {
      this.env, this.id := env, id;
      item := new nat[limit];
      head, tail, count, suspended := 0, 0, 0, 0;
    }

    /** Post the queue signal to the waiting task. */
    method Alert()
      requires env.table.Length == N
      modifies env.table
      ensures env.table[..] == Alerted(old(env.table[..]), suspended)
    {
      if 0 < suspended < N {
        env.table[suspended] := Notified(env.table[suspended], SIGQUE);
      }
    }

    /** Put a message into the ring. */
    method Put(x: nat)
      requires Valid() && count < item.Length
      modifies item, this`tail, this`count, env`queues
      ensures Valid() && env.queues == old(env.queues)[id := Accepted(old(env.queues)[id], x)]
    {
      ghost var q := env.queues[id];
      HoldsPut(item[..], head, q.items, x);
      count := count + 1;
      item[tail] := x;
      tail := if tail + 1 == item.Length then 0 else tail + 1;
      env.queues := env.queues[id := Accepted(q, x)];
    }

    /** Send a message: it is accepted unless the queue is full, and the waiting task is alerted in any case. */
    method Send(x: nat) returns (r: nat)
      requires Valid() && env.Valid() && env.phase.Run?
      modifies item, this`tail, this`count, env`queues, env.table
      ensures Valid() && env.Valid() && env.View() == Called(old(env.View()), KernelState.Send(id, x))
      ensures r == if old(count) < item.Length then count else 0xFFFF
    {
      ghost var s := env.View();
      SendKeepsInv(s, id, x);
      if count < item.Length {
        Put(x);
        Alert();
        r := count;
      } else {
        Alert();
        r := FULL;
      }
      assert env.View() == Called(s, KernelState.Send(id, x));
    }

    /** Take the oldest message out of the ring. */
    method Take() returns (got: Got)
      requires Valid()
      modifies this`head, this`count, env`queues
      ensures Valid() && env.queues == old(env.queues)[id := Taken(old(env.queues)[id])]
      ensures got == if old(count) == 0 then Nothing else Message(old(env.queues)[id].items[0])
    {
      ghost var q := env.queues[id];
      got := Nothing;
      if count > 0 {
        HoldsTake(item[..], head, q.items);
        got := Message(item[head]);
        head := if head + 1 == item.Length then 0 else head + 1;
        count := count - 1;
      }
      env.queues := env.queues[id := Taken(q)];
    }

    /** Receive a message, up to the point where the caller gives up control if it has to wait for one. */
    method Receive(blocking: bool) returns (got: Got)
      requires Valid() && env.Valid() && env.phase.Run?
      modifies this`head, this`count, this`suspended, env`queues, env.table, env`phase
      ensures Valid() && env.Valid() && env.View() == Called(old(env.View()), KernelState.Receive(id, blocking))
      ensures got.Blocked? <==> old(count) == 0 && old(suspended) == 0 && blocking
      ensures !got.Blocked? ==> got == if old(count) == 0 then Nothing else Message(old(env.queues)[id].items[0])
    {
      ghost var s := env.View();
      ReceiveKeepsInv(s, id, blocking);
      if count == 0 && suspended == 0 && blocking {
        suspended := env.current;
        env.queues := env.queues[id := env.queues[id].(waiter := env.current)];
        env.SaveAndWait(SIGQUE, InReceive(id));
        got := Blocked;
      } else {
        got := Take();
      }
      assert env.View() == Called(s, KernelState.Receive(id, blocking));
    }

    /** Finish a receive after the wait: the queue has no waiter any more, and hands out a message if it has one. */
    method FinishReceive(c: nat) returns (got: Got)
      requires Valid() && env.Valid() && env.phase == Run(c) && c == suspended && env.table[c].ctx.Nowhere?
      modifies this`head, this`count, this`suspended, env`queues
      ensures Valid() && env.Valid() && suspended == 0
      ensures env.queues == old(env.queues)[id := Taken(old(env.queues)[id].(waiter := 0))]
      ensures got == if old(count) == 0 then Nothing else Message(old(env.queues)[id].items[0])
    {
      ghost var s := env.View();
      ReleaseKeepsInv(s, id, c);
      suspended := 0;
      env.queues := env.queues[id := env.queues[id].(waiter := 0)];
      got := Take();
      assert env.queues == s.queues[id := Taken(s.queues[id].(waiter := 0))];
    }
  }

  /** The objects are the queues of the system. */
  ghost predicate AllValid(env: Env, qs: seq<MsgQueue>)
    reads env, qs, set q | q in qs :: q.item
  {
    && |qs| == |env.queues|
    && (forall i :: 0 <= i < |qs| ==> qs[i].env == env && qs[i].id == i && qs[i].Valid())
  }

  /** One pass of the scheduler, and what a task that goes on inside a receive does there. */
  method PassAndFinish(env: Env, qs: seq<MsgQueue>) returns (o: Outcome, got: Got)
    requires env.Valid() && env.phase == Sched && AllValid(env, qs)
    modifies env, env.table, qs
    ensures env.Valid() && AllValid(env, qs) && env.View() == Passed(old(env.View()))
    ensures o.ResumedAt? && o.ctx.InReceive? ==>
              var q := o.ctx.queue;
              && q < |qs|
              && got == (if old(env.queues)[q].items == [] then Nothing else Message(old(env.queues)[q].items[0]))
  {
    ghost var s := env.View();
    got := Nothing;
    o := env.Pass();
    if o.ResumedAt? && o.ctx.InReceive? {
      got := qs[o.ctx.queue].FinishReceive(o.c);
    }
  }
}
