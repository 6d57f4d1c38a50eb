/**
 The kernel environment: the task table, the scheduler and the kernel calls, which work on the table in place.
 Every method is one step, or a part of one, of the state machine in KernelState.
 */
module Kernel {
  import opened KernelTask
  import opened KernelState
  import opened KernelRuns

  /** What a pass of the scheduler ends with: nothing to do, a task that was looked after, or one that has control. */
  datatype Outcome = Idle | Kept | Started(c: nat) | ResumedAt(c: nat, ctx: Context) | Halted

  class Env {
    const table: array<Task>
    var current: nat
    var contextPtr: nat  // entry of the task that has or had control last
    var rtc: nat
    ghost var phase: Phase
    ghost var queues: seq<Queue>

    ghost predicate Shape()
      reads this, table
    {
      table.Length == N && current < N && contextPtr < N && (phase.Run? ==> contextPtr == phase.p)
    }

    ghost function View(): State
      reads this, table
    {
      State(table[..], current, phase, rtc, queues)
    }

    ghost predicate Valid()
      reads this, table
    {
      Shape() && Inv(View()) && table[0].entry && Is(table[0], Ready)
    }

    /** Start-up: an empty table with the idle task, and the root task. */
    constructor (ghost limits: seq<nat>)
      ensures Valid() && View() == Initial(limits) && fresh(table)
    {
      table := new Task[N](_ => Deleted(CREATED));
      current, contextPtr, rtc, phase := 0, 0, 0, Sched;
      queues := Initial(limits).queues;
      new;
      table[0] := CREATED.(mask := NONE);
      var id := Create();
      InitialInv(limits);
      assert table[..] == Initial(limits).tasks;
    }

    // ---- the task table ----

    /** Give the first unused entry to a new task; N if there is none. */
    method Create() returns (id: nat)
      requires table.Length == N
      modifies table
      ensures id == FreeEntry(old(table[..]), 1)
      ensures table[..] == if id < N then old(table[..])[id := CREATED] else old(table[..])
    {
      id := 1;
      while id < N
        invariant 1 <= id <= N && FreeEntry(table[..], 1) == FreeEntry(table[..], id) && table[..] == old(table[..])
      {
        if !table[id].entry {
          table[id] := CREATED;
          return;
        }
        id := id + 1;
      }
    }

    /** The entry of a task identifier: 0 is the running task, N no task. */
    method Lookup(id: nat) returns (i: nat)
      requires Shape() && phase.Run? && 0 < phase.p < N
      ensures i == Target(phase.p, id)
    {
      if id == 0 {
        i := contextPtr;
      } else if id < N {
        i := id;
      } else {
        i := N;
      }
    }

    // ---- kernel calls of the running task ----

    /** Replace the descriptor of the entry a call is about. */
    method Store(i: nat, t: Task, ghost c: Call)
      requires Valid() && phase.Run? && Changes(c) && !c.Delete? && i == Target(phase.p, c.id) < N
               && t == Changed(table[i], c)
      modifies table
      ensures Valid() && View() == Called(old(View()), c)
    {
      ghost var s := View();
      ChangeKeepsInv(s, c);
      table[i] := t;
      assert View() == Called(s, c);
    }

    /** Delete a task. One that deletes itself only returns afterwards. */
    method Delete(id: nat)
      requires Valid() && phase.Run?
      modifies table, this`phase
      ensures Valid() && View() == Called(old(View()), KernelState.Delete(id))
    {
      ghost var s := View();
      ChangeKeepsInv(s, KernelState.Delete(id));
      var i := Lookup(id);
      if i != N {
        table[i] := Deleted(table[i]);
        phase := if i == phase.p then Leaving(i) else phase;
      }
      assert View() == Called(s, KernelState.Delete(id));
    }

    /** Keep a task from being scheduled. */
    method Freeze(id: nat)
      requires Valid() && phase.Run?
      modifies table
      ensures Valid() && View() == Called(old(View()), KernelState.Freeze(id))
    {
      var i := Lookup(id);
      if i != N {
        Store(i, Frozen(table[i]), KernelState.Freeze(id));
      }
    }

    /** Let a task be scheduled again. */
    method Unfreeze(id: nat)
      requires Valid() && phase.Run?
      modifies table
      ensures Valid() && View() == Called(old(View()), KernelState.Unfreeze(id))
    {
      var i := Lookup(id);
      if i != N {
        Store(i, Unfrozen(table[i]), KernelState.Unfreeze(id));
      }
    }

    /** Let a task that returned run again. */
    method Restart(id: nat)
      requires Valid() && phase.Run?
      modifies table
      ensures Valid() && View() == Called(old(View()), KernelState.Restart(id))
    {
      var i := Lookup(id);
      if i != N && table[i].entry && Is(table[i], Zombie) {
        Store(i, table[i].(status := Status(Ready, false)), KernelState.Restart(id));
      }
    }

    /** Post signals to a task that does not mask them. */
    method Notify(id: nat, sig: Signals)
      requires Valid() && phase.Run?
      modifies table
      ensures Valid() && View() == Called(old(View()), KernelState.Notify(id, sig))
    {
      var i := Lookup(id);
      if i != N {
        Store(i, Notified(table[i], sig), KernelState.Notify(id, sig));
      }
    }

    /** Mask signals of a task; reserved ones cannot be masked. */
    method Ignore(id: nat, sig: Signals)
      requires Valid() && phase.Run?
      modifies table
      ensures Valid() && View() == Called(old(View()), KernelState.Ignore(id, sig))
    {
      var i := Lookup(id);
      if i != N {
        Store(i, Ignoring(table[i], sig), KernelState.Ignore(id, sig));
      }
    }

    /** Unmask signals of a task. */
    method Allow(id: nat, sig: Signals)
      requires Valid() && phase.Run?
      modifies table
      ensures Valid() && View() == Called(old(View()), KernelState.Allow(id, sig))
    {
      var i := Lookup(id);
      if i != N {
        Store(i, Allowing(table[i], sig), KernelState.Allow(id, sig));
      }
    }

    /** Give up control until a signal arrives. */
    method Wait(sig: Signals)
      requires Valid() && phase.Run?
      modifies table, this`phase
      ensures Valid() && View() == Called(old(View()), KernelState.Wait(sig))
    {
      ghost var s := View();
      WaitKeepsInv(s, KernelState.Wait(sig));
      SaveAndWait(sig, AfterSignal(sig));
    }

    /** Save the context of the running task and let it wait for sig. */
    method SaveAndWait(sig: Signals, ctx: Context)
      requires Shape() && phase.Run? && 0 < phase.p < N
      modifies table, this`phase
      ensures table[..] == old(table[..])[old(phase.p) := Waiting(old(table[phase.p]), sig, ctx)] && phase == Sched
    {
      var t := table[contextPtr];
      t := t.(ctx := ctx);
      t := t.(waiting := Either(t.waiting, sig));
      if t.status.base == Ready || t.status.base == Running || t.status.base == Suspended {
        t := t.(status := Status(Suspended, false));
      }
      table[contextPtr] := t;
      phase := Sched;
    }

    /** Give up control for a number of visits. */
    method WakeAfter(count: nat)
      requires Valid() && phase.Run?
      modifies table, this`phase
      ensures Valid() && View() == Called(old(View()), KernelState.WakeAfter(count))
    {
      ghost var s := View();
      WaitKeepsInv(s, KernelState.WakeAfter(count));
      SaveAndWait(SIGALM, AfterSignal(SIGALM));
      table[contextPtr] := table[contextPtr].(tick := Signed32(count));
      assert View() == Called(s, KernelState.WakeAfter(count));
    }

    /** Give up control for a span of real time. */
    method Sleep(count: nat)
      requires Valid() && phase.Run?
      modifies table, this`phase
      ensures Valid() && View() == Called(old(View()), KernelState.Sleep(count))
    {
      ghost var s := View();
      WaitKeepsInv(s, KernelState.Sleep(count));
      SaveAndWait(SIGTMR, AfterSignal(SIGTMR));
      table[contextPtr] := table[contextPtr].(timeout := (rtc + count % 0x1_0000_0000) % WORD);
      assert View() == Called(s, KernelState.Sleep(count));
    }

    /** The clock interrupt. */
    method UpdateRtc(quantum: nat)
      requires Valid()
      modifies this`rtc
      ensures Valid() && View() == Step(old(View()), Tick(quantum))
    {
      StepKeepsInv(View(), Tick(quantum));
      rtc := (rtc + quantum) % WORD;
    }

    // ---- the scheduler ----

    /** Go on to the next entry, from the last one to the first. */
    method Advance()
      requires current < N
      modifies this`current
      ensures current == if old(current) + 1 == N then 0 else old(current) + 1
    {
      current := (current + 1) % N;
    }

    /** Go round the table to the next task that can be scheduled; stop at the idle task only after a whole round.
        The search takes at most 2N steps. */
    method Search() returns (c: nat, ghost steps: nat)
      requires table.Length == N && current < N && table[0].entry && Is(table[0], Ready)
      modifies this`current
      ensures c == current == Pick(table[..], old(current)) && steps <= 2 * N
    {
      ghost var start, tasks := current, table[..];
      var count, searching := 0, true;
      while searching
        invariant 0 <= count <= 2 * N && current < N && Round(start, count, current)
        invariant searching ==> Skipped(tasks, start, count) && count < 2 * N - start
        invariant !searching ==> current == Pick(tasks, start)
        decreases searching, 2 * N - count
      {
        RoundStep(tasks, start, count, current);
        count := count + 1;
        Advance();
        var t := table[current];
        searching := !t.entry || t.status.base == NotRunning || t.status.base == Zombie || t.status.frozen
                     || (count <= N && current == 0);
      }
      c, steps := current, count;
    }

    /** Give control to the ready task at entry c: at its saved place, or at its entry point. */
    method Dispatch(c: nat) returns (o: Outcome)
      requires Shape() && 0 < c < N && contextPtr == c
      modifies table, this`phase
      ensures phase == Run(c) || (phase == Broken && o == Halted)
      ensures old(table[c]).wkup && old(table[c]).ctx.Nowhere? ==> phase == Broken && table[..] == old(table[..])
      ensures !(old(table[c]).wkup && old(table[c]).ctx.Nowhere?) ==> phase == Run(c)
      ensures phase == Run(c) ==>
                if old(table[c]).wkup then
                  o == ResumedAt(c, old(table[c]).ctx)
                  && table[..] == old(table[..])[c := Resumed(old(table[c]), SignalOf(old(table[c]).ctx))]
                else o == Started(c) && table[..] == old(table[..])[c := old(table[c]).(status := Status(Running, false))]
    {
      var t := table[c];
      phase := Run(c);
      if !t.wkup {
        table[c] := t.(status := Status(Running, false));
        o := Started(c);
      } else {
        match t.ctx
        case Nowhere =>
          phase := Broken;
          o := Halted;
        case AfterSignal(sig) =>
          table[c] := Resumed(t, sig);
          o := ResumedAt(c, t.ctx);
        case InReceive(q) =>
          table[c] := Resumed(t, SIGQUE);
          o := ResumedAt(c, t.ctx);
      }
    }

    /** A visit to the suspended task at entry c: its alarm, its timer, and the signals it waits for. */
    method Visit(c: nat)
      requires table.Length == N && c < N
      modifies table
      ensures table[..] == old(table[..])[c := Visited(old(table[c]), rtc)]
    {
      var t := table[c];
      if Meet(t.waiting, SIGALM) {
        if t.tick > 0 {
          t := t.(tick := t.tick - 1);
        } else {
          t := t.(pending := Either(t.pending, SIGALM));
        }
      }
      if Meet(t.waiting, SIGTMR) {
        if t.timeout != 0 && rtc >= t.timeout {
          t := t.(pending := Either(t.pending, SIGTMR), timeout := 0);
        }
      }
      if Meet(t.pending, t.waiting) {
        t := t.(wkup := true, status := Status(Ready, false));
        t := t.(pending := Less(t.pending, Both(t.pending, t.waiting)));
      }
      table[c] := t;
    }

    /** Look after the task at entry c according to its status. */
    method Tend(c: nat) returns (o: Outcome)
      requires Shape() && phase == Sched && 0 < c < N && contextPtr == c
      modifies table, this`phase
      ensures Tended(old(View()), c) == View().(queues := Tended(old(View()), c).queues)
      ensures (o.ResumedAt? && o.ctx.InReceive?) || Tended(old(View()), c).queues == queues
      ensures o.Halted? <==> phase == Panic || phase == Broken
      ensures phase.Run? ==> phase.p == c
      ensures o.ResumedAt? ==> phase == Run(c) && o == ResumedAt(c, old(table[c]).ctx) && table[c].ctx.Nowhere?
      ensures o.ResumedAt? && o.ctx.InReceive? && o.ctx.queue < |queues| ==>
                Tended(old(View()), c).queues == queues[o.ctx.queue := Taken(queues[o.ctx.queue].(waiter := 0))]
    {
      var t := table[c];
      o := Kept;
      if t.status == Status(Running, false) {
        table[c] := t.(status := Status(Zombie, false));
      } else if t.status == Status(Suspended, false) {
        Visit(c);
      } else if t.status == Status(Ready, false) {
        o := Dispatch(c);
      } else {
        phase := Panic;
        o := Halted;
      }
    }

    /** One pass of the scheduler. It never halts the system. A task that goes on inside a receive still has to finish
        it, on the queue that has it recorded; apart from that the pass is complete. */
    method Pass() returns (o: Outcome)
      requires Valid() && phase == Sched
      modifies table, this`current, this`contextPtr, this`phase
      ensures Valid() && !o.Halted?
      ensures View() == Passed(old(View())).(queues := queues)
      ensures (o.ResumedAt? && o.ctx.InReceive?) || Passed(old(View())).queues == queues
      ensures o.ResumedAt? ==> phase == Run(o.c) && o.c < N && o.ctx == old(table[..])[o.c].ctx
      ensures o.ResumedAt? && o.ctx.InReceive? ==>
                var q := o.ctx.queue;
                && q < |queues| && queues[q].waiter == o.c && table[o.c].ctx.Nowhere?
                && Passed(old(View())).queues == queues[q := Taken(queues[q].(waiter := 0))]
    {
      ghost var s := View();
      HalfKeepsInv(s, queues);
      PickFirst(s.tasks, s.current);
      var c: nat;
      ghost var steps: nat;
      c, steps := Search();
      if c == 0 {
        o := Idle;
      } else {
        contextPtr := c;
        assert Receiving(s, c);
        o := Tend(c);
      }
      assert View() == Passed(s).(queues := queues);
    }
  }

  /** The entry n places behind start. */
  predicate Round(start: nat, n: nat, c: nat) {
    c == start + n || c == start + n - N || c == start + n - 2 * N
  }

  /** None of the first k entries behind start can be scheduled, but for the idle task. */
  ghost predicate Skipped(tasks: seq<Task>, start: nat, k: nat)
    requires |tasks| == N && start < N
  {
    forall j: nat :: j < k && j < N ==> Behind(start, j) == 0 || !Eligible(tasks[Behind(start, j)])
  }

  /** One more place: either it is skipped as well, or it is the choice. */
  lemma RoundStep(tasks: seq<Task>, start: nat, k: nat, c: nat)
    requires |tasks| == N && start < N && k < 2 * N - start && c < N && Round(start, k, c)
    requires Eligible(tasks[0]) && Skipped(tasks, start, k)
    ensures var d := if c + 1 == N then 0 else c + 1;
            && Round(start, k + 1, d)
            && if !Eligible(tasks[d]) || (k + 1 <= N && d == 0)
               then Skipped(tasks, start, k + 1) && k + 1 < 2 * N - start
               else d == Pick(tasks, start)
  {
    var d, r := if c + 1 == N then 0 else c + 1, Pick(tasks, start);
    PickFirst(tasks, start);
    assert k < N ==> d == Behind(start, k);
    assert r != 0 ==> Behind(start, Distance(start, r)) == r;
  }

  /** The pass is sound also before a resumed receive is finished. */
  lemma HalfKeepsInv(s: State, queues: seq<Queue>)
    requires Inv(s) && s.phase == Sched && queues == s.queues
    ensures Inv(Passed(s).(queues := queues))
  {
    PassKeepsInv(s);
    var s' := Passed(s).(queues := queues);
    var c := Pick(s.tasks, s.current);
    if c != 0 {
      assert Receiving(s, c) && TaskOk(s.tasks[c]);
      PickFirst(s.tasks, s.current);
    }
    forall j: nat | 1 <= j < N ensures Receiving(s', j) {
      assert Receiving(s, j) && Receiving(Passed(s), j);
    }
  }
}
