/**
 The kernel as a state machine: one scheduler, a table of tasks of which at most one runs, and message queues.
 A step is a pass of the scheduler, a tick of the real-time clock, or a kernel call of the running task.
 */
module KernelState {
  import opened KernelTask

  type Size = n: nat | 3 <= n witness 8

  /** Entries of the task table, whatever their number; entry 0 is the idle task. */
  const N: Size

  /** Who has control. The last two are the errors that must not happen: an invalid status, and a resumption without a
      saved context. */
  datatype Phase = Sched | Run(p: nat) | Leaving(p: nat) | Panic | Broken

  /** A message queue: its pending messages, the task recorded as suspended on it (0 if none), and its history. */
  datatype Queue = Queue(limit: nat, items: seq<nat>, waiter: nat, accepted: seq<nat>, received: seq<nat>)

  datatype State = State(tasks: seq<Task>, current: nat, phase: Phase, rtc: nat, queues: seq<Queue>)

  // ---- the search for the next task ----

  /** The scheduler may choose the task. */
  predicate Eligible(t: Task) {
    t.entry && t.status.base !in {NotRunning, Zombie} && !t.status.frozen
  }

  /** The entry k+1 places behind c, going round. */
  function Behind(c: nat, k: nat): (r: nat)
    requires c < N && k < N
    ensures r < N
  {
    if c + 1 + k < N then c + 1 + k else c + 1 + k - N
  }

  /** How many places t lies behind c. */
  function Distance(c: nat, t: nat): (k: nat)
    requires c < N && t < N
    ensures k < N && Behind(c, k) == t
  {
    if t > c then t - c - 1 else t + N - c - 1
  }

  /** The first eligible task from k places behind c on, the idle task if there is none. */
  function Seek(tasks: seq<Task>, c: nat, k: nat): (r: nat)
    requires |tasks| == N && c < N
    ensures r < N
    decreases N - k
  {
    if k >= N then 0
    else if Behind(c, k) != 0 && Eligible(tasks[Behind(c, k)]) then Behind(c, k)
    else Seek(tasks, c, k + 1)
  }

  function Pick(tasks: seq<Task>, c: nat): nat
    requires |tasks| == N && c < N
  {
    Seek(tasks, c, 0)
  }

  lemma {:induction false} SeekFirst(tasks: seq<Task>, c: nat, k: nat, t: nat)
    requires |tasks| == N && c < N && k <= N && 1 <= t < N && Eligible(tasks[t]) && Distance(c, t) >= k
    ensures var r := Seek(tasks, c, k); r != 0 && Eligible(tasks[r]) && k <= Distance(c, r) <= Distance(c, t)
    decreases N - k
  {
    if Distance(c, t) > k {
      SeekFirst(tasks, c, k + 1, t);
    }
  }

  lemma {:induction false} SeekEligible(tasks: seq<Task>, c: nat, k: nat)
    requires |tasks| == N && c < N && Seek(tasks, c, k) != 0
    ensures Eligible(tasks[Seek(tasks, c, k)])
    decreases N - k
  {
    if k < N && !(Behind(c, k) != 0 && Eligible(tasks[Behind(c, k)])) {
      SeekEligible(tasks, c, k + 1);
    }
  }

  /** The choice: the nearest eligible task behind the current one, and idle only if there is none. */
  lemma PickFirst(tasks: seq<Task>, c: nat)
    requires |tasks| == N && c < N
    ensures var r := Pick(tasks, c);
            && (r == 0 <==> forall t :: 1 <= t < N ==> !Eligible(tasks[t]))
            && (r != 0 ==> r < N && Eligible(tasks[r])
                           && forall t :: 1 <= t < N && Eligible(tasks[t]) ==> Distance(c, r) <= Distance(c, t))
  {
    forall t | 1 <= t < N && Eligible(tasks[t])
      ensures Pick(tasks, c) != 0 && Distance(c, Pick(tasks, c)) <= Distance(c, t)
    {
      SeekFirst(tasks, c, 0, t);
    }
    if Pick(tasks, c) != 0 {
      SeekEligible(tasks, c, 0);
    }
  }

  // ---- calls of the running task ----

  /** The entry a task identifier stands for: 0 is the caller, too large ones are none. */
  function Target(self: nat, id: nat): (r: nat)
    requires 0 < self < N
    ensures 0 < r <= N && (r == N <==> id >= N)
  {
    if id == 0 then self else if id < N then id else N
  }

  function WithTask(s: State, id: nat, t: Task): State {
    if id < |s.tasks| then s.(tasks := s.tasks[id := t]) else s
  }

  /** The first entry from id on without an entry point. */
  function FreeEntry(tasks: seq<Task>, id: nat): (r: nat)
    requires |tasks| == N && id <= N
    ensures id <= r <= N
    ensures r < N ==> !tasks[r].entry
    ensures forall i :: id <= i < r ==> tasks[i].entry
    decreases N - id
  {
    if id == N || !tasks[id].entry then id else FreeEntry(tasks, id + 1)
  }

  datatype Call =
    | Create
    | Delete(id: nat)
    | Freeze(id: nat)
    | Unfreeze(id: nat)
    | Restart(id: nat)
    | Notify(id: nat, sig: Signals)
    | Ignore(id: nat, sig: Signals)
    | Allow(id: nat, sig: Signals)
    | Wait(sig: Signals)        // for a user signal or for being resumed
    | WakeAfter(count: nat)
    | Sleep(count: nat)
    | Send(q: nat, item: nat)
    | Receive(q: nat, blocking: bool)
    | Return

  /** A call that changes another task, or the caller's own entry, and goes on. */
  function Changed(t: Task, c: Call): Task
    requires c.Delete? || c.Freeze? || c.Unfreeze? || c.Restart? || c.Notify? || c.Ignore? || c.Allow?
  {
    match c
    case Delete(_) => Deleted(t)
    case Freeze(_) => Frozen(t)
    case Unfreeze(_) => Unfrozen(t)
    case Restart(_) => Restarted(t)
    case Notify(_, sig) => Notified(t, sig)
    case Ignore(_, sig) => Ignoring(t, sig)
    case Allow(_, sig) => Allowing(t, sig)
  }

  predicate Changes(c: Call) {
    c.Delete? || c.Freeze? || c.Unfreeze? || c.Restart? || c.Notify? || c.Ignore? || c.Allow?
  }

  /** Post the queue signal to the recorded task. */
  function Alerted(tasks: seq<Task>, waiter: nat): (r: seq<Task>)
    ensures |r| == |tasks|
  {
    if 0 < waiter < |tasks| then tasks[waiter := Notified(tasks[waiter], SIGQUE)] else tasks
  }

  /** Put a message into a queue that is not full. */
  function Accepted(q: Queue, item: nat): Queue {
    if |q.items| < q.limit then q.(items := q.items + [item], accepted := q.accepted + [item]) else q
  }

  /** Take the oldest message, if any. */
  function Taken(q: Queue): Queue {
    if q.items == [] then q else q.(items := q.items[1..], received := q.received + [q.items[0]])
  }

  /** The calling task, p, is in control. */
  function Called(s: State, c: Call): State
    requires |s.tasks| == N && s.phase.Run? && 0 < s.phase.p < N
  {
    var p := s.phase.p;
    match c
    case Create => WithTask(s, FreeEntry(s.tasks, 1), CREATED)
    case Wait(sig) => WithTask(s, p, Waiting(s.tasks[p], sig, AfterSignal(sig))).(phase := Sched)
    case WakeAfter(count) => WithTask(s, p, Dozing(s.tasks[p], count)).(phase := Sched)
    case Sleep(count) => WithTask(s, p, Sleeping(s.tasks[p], s.rtc, count)).(phase := Sched)
    case Send(q, item) =>
      if q >= |s.queues| then s
      else s.(tasks := Alerted(s.tasks, s.queues[q].waiter), queues := s.queues[q := Accepted(s.queues[q], item)])
    case Receive(q, blocking) =>
      if q >= |s.queues| then s
      else if s.queues[q].items == [] && s.queues[q].waiter == 0 && blocking then
        WithTask(s, p, Waiting(s.tasks[p], SIGQUE, InReceive(q)))
        .(phase := Sched, queues := s.queues[q := s.queues[q].(waiter := p)])
      else s.(queues := s.queues[q := Taken(s.queues[q])])
    case Return => s.(phase := Sched)
    case _ =>
      var i := Target(p, c.id);
      if i == N then s
      else WithTask(s, i, Changed(s.tasks[i], c)).(phase := if c.Delete? && i == p then Leaving(p) else s.phase)
  }

  // ---- the scheduler ----

  /** The task at entry c, which is ready, gets control. */
  function Dispatched(s: State, c: nat): State
    requires c < |s.tasks|
  {
    var t := s.tasks[c];
    if !t.wkup then WithTask(s, c, t.(status := Status(Running, false))).(phase := Run(c))
    else match t.ctx
      case Nowhere => s.(phase := Broken)
      case AfterSignal(sig) => WithTask(s, c, Resumed(t, sig)).(phase := Run(c))
      case InReceive(q) =>
        var s' := WithTask(s, c, Resumed(t, SIGQUE)).(phase := Run(c));
        if q < |s.queues| then s'.(queues := s.queues[q := Taken(s.queues[q].(waiter := 0))]) else s'
  }

  /** The scheduler looks after the task it chose. */
  function Tended(s: State, c: nat): State
    requires c < |s.tasks|
  {
    var t := s.tasks[c];
    if t.status.frozen then s.(phase := Panic)
    else match t.status.base
      case Running => WithTask(s, c, t.(status := Status(Zombie, false)))
      case Suspended => WithTask(s, c, Visited(t, s.rtc))
      case Ready => Dispatched(s, c)
      case _ => s.(phase := Panic)
  }

  /** One pass: choose, and look after the choice unless it is the idle task. */
  function Passed(s: State): State
    requires |s.tasks| == N && s.current < N
  {
    var c := Pick(s.tasks, s.current);
    var s' := s.(current := c);
    if c == 0 then s' else Tended(s', c)
  }

  datatype Event = Pass | Tick(quantum: nat) | Syscall(call: Call)

  /** Calls take effect only while a task is in control; a task that deleted itself only returns. Tasks wait for user
      signals or for being resumed; the other reserved signals are waited for by the sleeps and by receiving. */
  predicate Enabled(s: State, e: Event) {
    match e
    case Pass => s.phase == Sched
    case Tick(_) => true
    case Syscall(c) =>
      && (s.phase.Run? || (s.phase.Leaving? && c.Return?))
      && (c.Wait? ==> !c.sig.que && !c.sig.alm && !c.sig.tmr)
  }

  function Step(s: State, e: Event): State
    requires |s.tasks| == N && s.current < N && (s.phase.Run? ==> 0 < s.phase.p < N)
  {
    if !Enabled(s, e) then s
    else match e
      case Pass => Passed(s)
      case Tick(quantum) => s.(rtc := (s.rtc + quantum) % WORD)
      case Syscall(c) => if s.phase.Leaving? then s.(phase := Sched) else Called(s, c)
  }

  // ---- what holds in every reachable state ----

  predicate QueueOk(q: Queue) {
    |q.items| <= q.limit && q.received + q.items == q.accepted
  }

  /** A task that is inside a receive is the one recorded on the queue; and if there are messages while it is
      suspended, the queue signal is pending for it. */
  predicate Receiving(s: State, i: nat)
    requires i < |s.tasks|
  {
    s.tasks[i].ctx.InReceive? ==>
      var q := s.tasks[i].ctx.queue;
      && q < |s.queues| && s.queues[q].waiter == i
      && (s.tasks[i].status.base == Suspended && s.queues[q].items != [] ==> s.tasks[i].pending.que)
  }

  ghost predicate Inv(s: State) {
    && |s.tasks| == N && s.current < N
    && (forall i :: 1 <= i < N ==> TaskOk(s.tasks[i]))
    && (forall i: nat :: 1 <= i < N ==> Receiving(s, i))
    && (forall q :: 0 <= q < |s.queues| ==> QueueOk(s.queues[q]))
    && !s.phase.Panic? && !s.phase.Broken?
    && (s.phase.Run? ==> 0 < s.phase.p < N && s.phase.p == s.current
                         && s.tasks[s.phase.p].entry && s.tasks[s.phase.p].status.base == Running)
  }
}
