/**
 What holds over whole runs of the kernel.
 */
module KernelRuns {
  import opened KernelTask
  import opened KernelState

  // ---- every step keeps the invariant ----

  /** The new descriptor of a task does not forget the queue signal while the task is suspended in a receive. */
  predicate Remembers(t: Task, t': Task) {
    t'.ctx.InReceive? ==>
      && t'.ctx == t.ctx
      && (t'.status.base == Suspended ==> t.status.base == Suspended && (t.pending.que ==> t'.pending.que))
  }

  /** One descriptor changes, and perhaps who has control. */
  lemma UpdateKeepsInv(s: State, i: nat, t: Task, phase: Phase)
    requires Inv(s) && 1 <= i < N && TaskOk(t) && Remembers(s.tasks[i], t) && !phase.Panic? && !phase.Broken?
    requires phase.Run? ==> 0 < phase.p < N && phase.p == s.current &&
                            var u := if phase.p == i then t else s.tasks[phase.p]; u.entry && u.status.base == Running
    ensures Inv(WithTask(s, i, t).(phase := phase))
  {
    var s' := WithTask(s, i, t).(phase := phase);
    forall j: nat | 1 <= j < N ensures Receiving(s', j) {
      assert Receiving(s, j);
    }
  }

  lemma ChangeKeepsInv(s: State, c: Call)
    requires Inv(s) && s.phase.Run? && Changes(c)
    ensures Inv(Called(s, c))
  {
    var p := s.phase.p;
    var i := Target(p, c.id);
    if i < N {
      ChangedKeepsTaskOk(s.tasks[i], c);
      UpdateKeepsInv(s, i, Changed(s.tasks[i], c), if c.Delete? && i == p then Leaving(p) else s.phase);
    }
  }

  lemma ChangedKeepsTaskOk(t: Task, c: Call)
    requires TaskOk(t) && Changes(c)
    ensures TaskOk(Changed(t, c)) && Remembers(t, Changed(t, c))
    ensures !c.Delete? && t.status.base == Running ==>
              Changed(t, c).status.base == Running && Changed(t, c).entry == t.entry
  {
    match c
    case Notify(_, sig) =>
      CallsKeepTaskOk(t, sig);
      PendingGrows(t, sig);
    case Ignore(_, sig) => MaskingKeepsTaskOk(t, sig);
    case Allow(_, sig) => MaskingKeepsTaskOk(t, sig);
    case _ => CallsKeepTaskOk(t, NONE);
  }

  lemma PendingGrows(t: Task, sig: Signals)
    ensures t.pending.que ==> Notified(t, sig).pending.que
  {
  }

  lemma CreateKeepsInv(s: State)
    requires Inv(s) && s.phase.Run?
    ensures Inv(Called(s, Create))
  {
    var s' := Called(s, Create);
    forall j: nat | 1 <= j < N ensures Receiving(s', j) {
      assert Receiving(s, j);
    }
  }

  lemma WaitKeepsInv(s: State, c: Call)
    requires Inv(s) && s.phase.Run? && (c.Wait? || c.WakeAfter? || c.Sleep?)
    ensures Inv(Called(s, c))
  {
    var t := s.tasks[s.phase.p];
    match c
    case Wait(sig) =>
      WaitingKeepsTaskOk(t, sig, AfterSignal(sig), s.rtc, 0);
      UpdateKeepsInv(s, s.phase.p, Waiting(t, sig, AfterSignal(sig)), Sched);
    case WakeAfter(count) =>
      WaitingKeepsTaskOk(t, NONE, AfterSignal(NONE), s.rtc, count);
      UpdateKeepsInv(s, s.phase.p, Dozing(t, count), Sched);
    case Sleep(count) =>
      WaitingKeepsTaskOk(t, NONE, AfterSignal(NONE), s.rtc, count);
      UpdateKeepsInv(s, s.phase.p, Sleeping(t, s.rtc, count), Sched);
  }

  /** A queue whose waiter, if it has a living one, was alerted takes a message. */
  lemma AcceptKeepsInv(s: State, q: nat, item: nat)
    requires Inv(s) && q < |s.queues|
    requires var w := s.queues[q].waiter; 0 < w < N && s.tasks[w].entry ==> s.tasks[w].pending.que
    ensures Inv(s.(queues := s.queues[q := Accepted(s.queues[q], item)]))
  {
    var s' := s.(queues := s.queues[q := Accepted(s.queues[q], item)]);
    assert s.queues[q].received + (s.queues[q].items + [item]) == (s.queues[q].received + s.queues[q].items) + [item];
    forall j: nat | 1 <= j < N ensures Receiving(s', j) {
      assert Receiving(s, j) && TaskOk(s.tasks[j]);
    }
  }

  lemma SendKeepsInv(s: State, q: nat, item: nat)
    requires Inv(s) && s.phase.Run?
    ensures Inv(Called(s, Send(q, item)))
  {
    if q < |s.queues| {
      var w := s.queues[q].waiter;
      var s1 := s.(tasks := Alerted(s.tasks, w));
      if 0 < w < N {
        ChangedKeepsTaskOk(s.tasks[w], Notify(w, SIGQUE));
        UpdateKeepsInv(s, w, Notified(s.tasks[w], SIGQUE), s.phase);
        assert s1 == WithTask(s, w, Notified(s.tasks[w], SIGQUE)).(phase := s.phase);
        if s.tasks[w].entry {
          QueueSignalLands(s.tasks[w]);
        }
      }
      AcceptKeepsInv(s1, q, item);
    }
  }

  lemma QueueSignalLands(t: Task)
    requires TaskOk(t) && t.entry
    ensures Notified(t, SIGQUE).pending.que
  {
  }

  lemma ReceiveKeepsInv(s: State, q: nat, blocking: bool)
    requires Inv(s) && s.phase.Run?
    ensures Inv(Called(s, Receive(q, blocking)))
  {
    if q < |s.queues| {
      var s', p := Called(s, Receive(q, blocking)), s.phase.p;
      TakenKeepsQueueOk(s.queues[q]);
      WaitingKeepsTaskOk(s.tasks[p], SIGQUE, InReceive(q), s.rtc, 0);
      forall j: nat | 1 <= j < N ensures Receiving(s', j) {
        assert Receiving(s, j);
      }
    }
  }

  lemma TakenKeepsQueueOk(q: Queue)
    requires QueueOk(q)
    ensures QueueOk(Taken(q))
  {
    if q.items != [] {
      assert (q.received + [q.items[0]]) + q.items[1..] == q.received + q.items;
    }
  }

  lemma DispatchKeepsInv(s: State, c: nat)
    requires Inv(s) && s.phase == Sched && 1 <= c < N && c == s.current && s.tasks[c].entry && Is(s.tasks[c], Ready)
    ensures Inv(Dispatched(s, c)) && Dispatched(s, c).phase == Run(c)
  {
    var t := s.tasks[c];
    DispatchKeepsTaskOk(t);
    var t' := if t.wkup then Resumed(t, SignalOf(t.ctx)) else t.(status := Status(Running, false));
    UpdateKeepsInv(s, c, t', Run(c));
    if t.ctx.InReceive? {
      assert Receiving(s, c);
      ReleaseKeepsInv(WithTask(s, c, t').(phase := Run(c)), t.ctx.queue, c);
    }
  }

  /** A queue on which no task waits any more forgets its waiter and hands out a message. */
  lemma ReleaseKeepsInv(s: State, q: nat, c: nat)
    requires Inv(s) && 1 <= c < N && s.tasks[c].ctx.Nowhere? && q < |s.queues| && s.queues[q].waiter == c
    ensures Inv(s.(queues := s.queues[q := Taken(s.queues[q].(waiter := 0))]))
  {
    var s' := s.(queues := s.queues[q := Taken(s.queues[q].(waiter := 0))]);
    TakenKeepsQueueOk(s.queues[q].(waiter := 0));
    forall j: nat | 1 <= j < N ensures Receiving(s', j) {
      assert Receiving(s, j);
    }
  }

  lemma VisitKeepsInv(s: State, c: nat)
    requires Inv(s) && s.phase == Sched && 1 <= c < N && s.tasks[c].entry && Is(s.tasks[c], Suspended)
    ensures Inv(WithTask(s, c, Visited(s.tasks[c], s.rtc)))
  {
    var t := s.tasks[c];
    VisitKeepsTaskOk(t, s.rtc);
    VisitRemembers(t, s.rtc);
    UpdateKeepsInv(s, c, Visited(t, s.rtc), Sched);
    assert s == s.(phase := Sched);
  }

  lemma VisitRemembers(t: Task, rtc: nat)
    requires TaskOk(t) && t.entry && Is(t, Suspended)
    ensures Remembers(t, Visited(t, rtc))
  {
    var u := Timed(Alarmed(t), rtc);
    assert t.waiting == SIGQUE ==> u == t;
  }

  /** A pass never panics and never resumes a task that has no saved context: the task it gives control to is resumed
      at its place exactly if it has one, and otherwise started. */
  lemma PassKeepsInv(s: State)
    requires Inv(s) && s.phase == Sched
    ensures Inv(Passed(s))
  {
    var c := Pick(s.tasks, s.current);
    var s1 := s.(current := c);
    PickFirst(s.tasks, s.current);
    forall j: nat | 1 <= j < N ensures Receiving(s1, j) {
      assert Receiving(s, j);
    }
    if c != 0 {
      var t := s.tasks[c];
      assert TaskOk(t);
      if t.status.base == Ready {
        DispatchKeepsInv(s1, c);
      } else if t.status.base == Suspended {
        VisitKeepsInv(s1, c);
      } else {
        UpdateKeepsInv(s1, c, t.(status := Status(Zombie, false)), Sched);
      }
    }
  }

  lemma StepKeepsInv(s: State, e: Event)
    requires Inv(s)
    ensures Inv(Step(s, e))
  {
    if Enabled(s, e) {
      match e
      case Pass => PassKeepsInv(s);
      case Tick(_) => SameInv(s, Step(s, e));
      case Syscall(c) =>
        if s.phase.Leaving? || c.Return? {
          SameInv(s, Step(s, e));
        } else {
          match c
          case Create => CreateKeepsInv(s);
          case Send(q, item) => SendKeepsInv(s, q, item);
          case Receive(q, blocking) => ReceiveKeepsInv(s, q, blocking);
          case _ =>
            if Changes(c) {
              ChangeKeepsInv(s, c);
            } else {
              WaitKeepsInv(s, c);
            }
        }
    }
  }

  lemma SameInv(s: State, s': State)
    requires Inv(s) && s'.tasks == s.tasks && s'.current == s.current && s'.queues == s.queues
    requires s'.phase == s.phase || s'.phase == Sched
    ensures Inv(s')
  {
    forall j: nat | 1 <= j < N ensures Receiving(s', j) {
      assert Receiving(s, j);
    }
  }

  // ---- runs ----

  /** The state after a run of events. */
  ghost function After(s: State, es: seq<Event>): (r: State)
    requires Inv(s)
    ensures Inv(r)
    decreases |es|
  {
    if es == [] then s else StepKeepsInv(s, es[0]); After(Step(s, es[0]), es[1..])
  }

  // ---- fairness ----

  /** The event is a pass of the scheduler that takes place. */
  predicate Passing(s: State, e: Event) {
    e.Pass? && s.phase == Sched
  }

  /** The entries chosen by the passes of a run, in order. */
  ghost function Picks(s: State, es: seq<Event>): seq<nat>
    requires Inv(s)
    decreases |es|
  {
    if es == [] then []
    else
      StepKeepsInv(s, es[0]);
      (if Passing(s, es[0]) then [Pick(s.tasks, s.current)] else []) + Picks(Step(s, es[0]), es[1..])
  }

  /** Task t is eligible at every pass of the run. */
  ghost predicate StaysEligible(s: State, es: seq<Event>, t: nat)
    requires Inv(s) && t < N
    decreases |es|
  {
    es != [] ==>
      && (Passing(s, es[0]) ==> Eligible(s.tasks[t]))
      && (StepKeepsInv(s, es[0]); StaysEligible(Step(s, es[0]), es[1..], t))
  }

  lemma StepMovesCurrent(s: State, e: Event)
    requires Inv(s)
    ensures Step(s, e).current == if Passing(s, e) then Pick(s.tasks, s.current) else s.current
  {
  }

  /** Every choice that is not t brings the search closer to t. */
  lemma {:induction false} Fair(s: State, es: seq<Event>, t: nat)
    requires Inv(s) && 1 <= t < N && StaysEligible(s, es, t) && |Picks(s, es)| > Distance(s.current, t)
    ensures t in Picks(s, es)
    decreases |es|
  {
    var s', rest := Step(s, es[0]), es[1..];
    StepKeepsInv(s, es[0]);
    StepMovesCurrent(s, es[0]);
    if Passing(s, es[0]) {
      PickFirst(s.tasks, s.current);
      var r := Pick(s.tasks, s.current);
      if r != t {
        assert Distance(r, t) < Distance(s.current, t);
        Fair(s', rest, t);
      }
    } else {
      Fair(s', rest, t);
    }
  }

  /** A task that stays eligible is chosen within N passes. */
  lemma FairWithinRound(s: State, es: seq<Event>, t: nat)
    requires Inv(s) && 1 <= t < N && StaysEligible(s, es, t) && |Picks(s, es)| >= N
    ensures t in Picks(s, es)
  {
    Fair(s, es, t);
  }

  // ---- contexts and queues ----

  /** The state after start-up: the idle task, the root task, and empty queues of the given sizes. */
  function Initial(limits: seq<nat>): State {
    State([CREATED.(mask := NONE), CREATED] + seq(N - 2, _ => Deleted(CREATED)), 0, Sched, 0,
          seq(|limits|, i requires 0 <= i < |limits| => Queue(limits[i], [], 0, [], [])))
  }

  lemma InitialInv(limits: seq<nat>)
    ensures Inv(Initial(limits))
  {
    var s := Initial(limits);
    forall i: nat | 1 <= i < N ensures TaskOk(s.tasks[i]) && Receiving(s, i) {
      assert s.tasks[i] == if i == 1 then CREATED else Deleted(CREATED);
    }
  }

  /** In every run from start-up, whoever gets control at a pass was ready; it is resumed at the place it saved, which
      it thereby uses up, exactly if there is one, and is started otherwise. No pass panics. */
  lemma ContextsSound(limits: seq<nat>, es: seq<Event>)
    ensures Inv(Initial(limits))
    ensures var s := After(Initial(limits), es);
            && !s.phase.Panic? && !s.phase.Broken?
            && (s.phase == Sched && Passed(s).phase != Sched ==>
                  var c := Pick(s.tasks, s.current);
                  && 1 <= c < N && Passed(s).phase == Run(c)
                  && s.tasks[c].entry && Is(s.tasks[c], Ready)
                  && (s.tasks[c].wkup <==> !s.tasks[c].ctx.Nowhere?)
                  && Passed(s).tasks[c].ctx.Nowhere? && !Passed(s).tasks[c].wkup)
  {
    InitialInv(limits);
    var s := After(Initial(limits), es);
    if s.phase == Sched && Passed(s).phase != Sched {
      var c := Pick(s.tasks, s.current);
      PickFirst(s.tasks, s.current);
      assert TaskOk(s.tasks[c]) && Receiving(s, c);
    }
  }

  /** In every run from start-up, what was received from a queue is the beginning of what it accepted, the rest is what
      it holds, and that is never more than its size. */
  lemma QueuesKeepOrder(limits: seq<nat>, es: seq<Event>, q: nat)
    requires q < |limits|
    ensures Inv(Initial(limits))
    ensures var s := After(Initial(limits), es);
            && |s.queues| == |limits| && s.queues[q].limit == limits[q]
            && s.queues[q].received <= s.queues[q].accepted
            && s.queues[q].accepted[|s.queues[q].received|..] == s.queues[q].items
            && |s.queues[q].items| <= limits[q]
  {
    InitialInv(limits);
    LimitsKept(Initial(limits), es, q);
    assert QueueOk(After(Initial(limits), es).queues[q]);
  }

  predicate SameLimits(s: State, s': State) {
    |s'.queues| == |s.queues| && forall q :: 0 <= q < |s.queues| ==> s'.queues[q].limit == s.queues[q].limit
  }

  lemma CallKeepsLimits(s: State, c: Call)
    requires |s.tasks| == N && s.phase.Run? && 0 < s.phase.p < N
    ensures SameLimits(s, Called(s, c))
  {
  }

  lemma PassKeepsLimits(s: State)
    requires |s.tasks| == N && s.current < N
    ensures SameLimits(s, Passed(s))
  {
  }

  lemma StepKeepsLimits(s: State, e: Event)
    requires Inv(s)
    ensures SameLimits(s, Step(s, e))
  {
    if s.phase.Run? && e.Syscall? {
      CallKeepsLimits(s, e.call);
    }
    PassKeepsLimits(s);
  }

  lemma {:induction false} LimitsKept(s: State, es: seq<Event>, q: nat)
    requires Inv(s) && q < |s.queues|
    ensures |After(s, es).queues| == |s.queues| && After(s, es).queues[q].limit == s.queues[q].limit
    decreases |es|
  {
    if es != [] {
      StepKeepsInv(s, es[0]);
      StepKeepsLimits(s, es[0]);
      LimitsKept(Step(s, es[0]), es[1..], q);
    }
  }

  /** The task recorded on a queue is not inside a receive there, for it was deleted meanwhile. */
  predicate Orphaned(s: State, q: nat) {
    q < |s.queues| && var w := s.queues[q].waiter; 0 < w < |s.tasks| && s.tasks[w].ctx != InReceive(q)
  }

  /** Deleting a task that waits in a receive orphans the queue. */
  lemma DeletedReceiver(s: State, t: nat, q: nat)
    requires Inv(s) && s.phase.Run? && 1 <= t < N && s.tasks[t].ctx == InReceive(q)
    ensures Orphaned(Called(s, Delete(t)), q)
  {
    assert Receiving(s, t);
  }

  /** Nothing else does: a step orphans a queue exactly if it deletes the task recorded there. */
  lemma OrphansByDeletion(s: State, e: Event, q: nat)
    requires Inv(s) && q < |s.queues| && !Orphaned(s, q)
    ensures Orphaned(Step(s, e), q) <==>
              && s.phase.Run? && e.Syscall? && e.call.Delete?
              && Target(s.phase.p, e.call.id) == s.queues[q].waiter < N
  {
    if Passing(s, e) {
      var c := Pick(s.tasks, s.current);
      if c != 0 {
        PickFirst(s.tasks, s.current);
        assert Receiving(s, c) && TaskOk(s.tasks[c]);
        KeptTended(s.(current := c), c, q);
      }
    } else if s.phase.Run? && e.Syscall? {
      KeptCall(s, e.call, q);
    }
  }

  lemma KeptTended(s: State, c: nat, q: nat)
    requires |s.tasks| == N && 1 <= c < N && q < |s.queues| && !Orphaned(s, q)
    requires TaskOk(s.tasks[c]) && s.tasks[c].entry && Receiving(s, c)
    ensures !Orphaned(Tended(s, c), q)
  {
    var t := s.tasks[c];
    if Is(t, Suspended) {
      VisitKeepsPlace(t, s.rtc);
    }
  }

  lemma KeptCall(s: State, c: Call, q: nat)
    requires Inv(s) && s.phase.Run? && q < |s.queues| && !Orphaned(s, q)
    ensures Orphaned(Called(s, c), q) <==> c.Delete? && Target(s.phase.p, c.id) == s.queues[q].waiter < N
  {
    assert TaskOk(s.tasks[s.phase.p]);
    if Changes(c) {
      var i := Target(s.phase.p, c.id);
      if i < N {
        assert Changed(s.tasks[i], c).ctx == if c.Delete? then Nowhere else s.tasks[i].ctx;
      }
    } else if c.Create? {
      var i := FreeEntry(s.tasks, 1);
      assert i < N ==> TaskOk(s.tasks[i]);
    }
  }

  /** No task blocks on an orphaned queue, even if it is empty. */
  lemma OrphanedNeverBlocks(s: State, q: nat)
    requires Inv(s) && s.phase.Run? && Orphaned(s, q)
    ensures Called(s, Receive(q, true)).phase == s.phase && Called(s, Receive(q, true)).tasks == s.tasks
  {
  }

  /** Once the recorded task was deleted, no task ever blocks on that queue again: the record stays for good. */
  lemma {:induction false} OrphanedForGood(s: State, es: seq<Event>, q: nat)
    requires Inv(s) && Orphaned(s, q)
    ensures Orphaned(After(s, es), q) && After(s, es).queues[q].waiter == s.queues[q].waiter
    decreases |es|
  {
    if es != [] {
      StepKeepsInv(s, es[0]);
      OrphanedStep(s, es[0], q);
      OrphanedForGood(Step(s, es[0]), es[1..], q);
    }
  }

  lemma OrphanedStep(s: State, e: Event, q: nat)
    requires Inv(s) && Orphaned(s, q)
    ensures Orphaned(Step(s, e), q) && Step(s, e).queues[q].waiter == s.queues[q].waiter
  {
    if Passing(s, e) {
      var c := Pick(s.tasks, s.current);
      if c != 0 {
        assert Receiving(s, c);
        OrphanedTended(s.(current := c), c, q);
      }
    } else if s.phase.Run? && e.Syscall? {
      OrphanedCall(s, e.call, q);
    }
  }

  lemma OrphanedTended(s: State, c: nat, q: nat)
    requires |s.tasks| == N && 1 <= c < N && Orphaned(s, q)
    requires s.tasks[c].ctx == InReceive(q) ==> s.queues[q].waiter == c
    ensures Orphaned(Tended(s, c), q) && Tended(s, c).queues[q].waiter == s.queues[q].waiter
  {
    var t := s.tasks[c];
    if Is(t, Suspended) {
      VisitKeepsPlace(t, s.rtc);
      OrphanedUpdate(s, c, q, Visited(t, s.rtc));
    } else if Is(t, Running) {
      OrphanedUpdate(s, c, q, t.(status := Status(Zombie, false)));
    } else if Is(t, Ready) && !t.wkup {
      OrphanedUpdate(s, c, q, t.(status := Status(Running, false)));
    } else if Is(t, Ready) && !t.ctx.Nowhere? {
      OrphanedUpdate(s, c, q, Resumed(t, SignalOf(t.ctx)));
    }
  }

  lemma VisitKeepsPlace(t: Task, rtc: nat)
    ensures Visited(t, rtc).ctx == t.ctx
  {
  }

  /** A descriptor that does not enter a receive leaves the queue orphaned. */
  lemma OrphanedUpdate(s: State, c: nat, q: nat, t: Task)
    requires |s.tasks| == N && c < N && Orphaned(s, q) && (t.ctx == s.tasks[c].ctx || t.ctx.Nowhere?)
    ensures Orphaned(WithTask(s, c, t), q) && WithTask(s, c, t).queues == s.queues
  {
  }

  lemma OrphanedCall(s: State, c: Call, q: nat)
    requires |s.tasks| == N && s.phase.Run? && 0 < s.phase.p < N && Orphaned(s, q)
    ensures Orphaned(Called(s, c), q) && Called(s, c).queues[q].waiter == s.queues[q].waiter
  {
    if Changes(c) {
      var i := Target(s.phase.p, c.id);
      if i < N {
        assert Changed(s.tasks[i], c).ctx in {s.tasks[i].ctx, Nowhere};
      }
    }
  }

  // ---- a run that orphans a queue ----

  /** The idle task, two tasks, and one queue for one message. */
  function Pair(a: Task, b: Task, current: nat, phase: Phase, waiter: nat): State {
    State([CREATED.(mask := NONE), a, b] + seq(N - 3, _ => Deleted(CREATED)), current, phase, 0,
          [Queue(1, [], waiter, [], [])])
  }

  /** With two tasks they take turns, as long as they are eligible. */
  lemma TakesTurns(a: Task, b: Task, current: nat, phase: Phase, waiter: nat)
    requires current < 3
    ensures var s := Pair(a, b, current, phase, waiter);
            && (current == 1 && Eligible(b) ==> Pick(s.tasks, 1) == 2)
            && (current != 1 && Eligible(a) ==> Pick(s.tasks, current) == 1)
  {
    var s := Pair(a, b, current, phase, waiter);
    PickFirst(s.tasks, current);
    assert s.tasks[1] == a && s.tasks[2] == b;
    assert forall i :: 3 <= i < N ==> s.tasks[i] == Deleted(CREATED) && !Eligible(s.tasks[i]);
    assert Distance(1, 2) == 0 && (current != 1 ==> Distance(current, 1) < Distance(current, 2));
  }

  lemma PairUpdated(a: Task, b: Task, current: nat, phase: Phase, waiter: nat, t: Task)
    ensures WithTask(Pair(a, b, current, phase, waiter), 1, t) == Pair(t, b, current, phase, waiter)
    ensures WithTask(Pair(a, b, current, phase, waiter), 2, t) == Pair(a, t, current, phase, waiter)
  {
    var s := Pair(a, b, current, phase, waiter);
    assert s.tasks[1 := t] == Pair(t, b, current, phase, waiter).tasks;
    assert s.tasks[2 := t] == Pair(a, t, current, phase, waiter).tasks;
  }

  /** A pass at which the first task, or the second, is next. */
  lemma PairPass(a: Task, b: Task, current: nat, waiter: nat)
    requires current < 3
    ensures var s := Pair(a, b, current, Sched, waiter);
            && (current == 1 && Eligible(b) ==> Passed(s) == Tended(Pair(a, b, 2, Sched, waiter), 2))
            && (current != 1 && Eligible(a) ==> Passed(s) == Tended(Pair(a, b, 1, Sched, waiter), 1))
  {
    TakesTurns(a, b, current, Sched, waiter);
  }

  /** Root creates a task and dozes; the new task waits in a receive; root wakes up and deletes it. */
  function OrphaningRun(): seq<Event> {
    [Pass, Syscall(Create), Syscall(WakeAfter(0)), Pass, Syscall(Receive(0, true)), Pass, Pass, Pass,
     Syscall(Delete(2))]
  }

  const STARTED := CREATED.(status := Status(Running, false))
  const DOZING := Dozing(STARTED, 0)
  const BLOCKED := Waiting(STARTED, SIGQUE, InReceive(0))

  /** The states of that run up to the deletion. */
  function OrphaningState(k: nat): State {
    if k == 0 then Pair(CREATED, Deleted(CREATED), 0, Sched, 0)
    else if k == 1 then Pair(STARTED, Deleted(CREATED), 1, Run(1), 0)
    else if k == 2 then Pair(STARTED, CREATED, 1, Run(1), 0)
    else if k == 3 then Pair(DOZING, CREATED, 1, Sched, 0)
    else if k == 4 then Pair(DOZING, STARTED, 2, Run(2), 0)
    else if k == 5 then Pair(DOZING, BLOCKED, 2, Sched, 2)
    else if k == 6 then Pair(Visited(DOZING, 0), BLOCKED, 1, Sched, 2)
    else if k == 7 then Pair(Visited(DOZING, 0), BLOCKED, 2, Sched, 2)
    else Pair(Resumed(Visited(DOZING, 0), SIGALM), BLOCKED, 1, Run(1), 2)
  }

  lemma OrphaningCall(k: nat)
    requires k == 1 || k == 2 || k == 4
    ensures Step(OrphaningState(k), OrphaningRun()[k]) == OrphaningState(k + 1)
  {
    var s := OrphaningState(k);
    if k == 1 {
      assert s.tasks[1].entry && !s.tasks[2].entry;
      assert FreeEntry(s.tasks, 1) == 2;
      PairUpdated(STARTED, Deleted(CREATED), 1, Run(1), 0, CREATED);
    } else if k == 2 {
      PairUpdated(STARTED, CREATED, 1, Run(1), 0, DOZING);
    } else {
      PairUpdated(DOZING, STARTED, 2, Run(2), 0, BLOCKED);
    }
  }

  lemma OrphaningPass(k: nat)
    requires k == 0 || k == 3 || k == 5 || k == 6 || k == 7
    ensures Step(OrphaningState(k), OrphaningRun()[k]) == OrphaningState(k + 1)
  {
    var awake := Visited(DOZING, 0);
    if k == 0 {
      PairPass(CREATED, Deleted(CREATED), 0, 0);
      PairUpdated(CREATED, Deleted(CREATED), 1, Sched, 0, STARTED);
    } else if k == 3 {
      PairPass(DOZING, CREATED, 1, 0);
      PairUpdated(DOZING, CREATED, 2, Sched, 0, STARTED);
    } else if k == 5 {
      PairPass(DOZING, BLOCKED, 2, 2);
      PairUpdated(DOZING, BLOCKED, 1, Sched, 2, awake);
    } else if k == 6 {
      PairPass(awake, BLOCKED, 1, 2);
      PairUpdated(awake, BLOCKED, 2, Sched, 2, BLOCKED);
      assert Visited(BLOCKED, 0) == BLOCKED;
    } else {
      PairPass(awake, BLOCKED, 2, 2);
      PairUpdated(awake, BLOCKED, 1, Sched, 2, Resumed(awake, SIGALM));
    }
  }

  lemma {:induction false} AfterMore(s: State, es: seq<Event>, e: Event)
    requires Inv(s)
    ensures After(s, es + [e]) == Step(After(s, es), e)
    decreases |es|
  {
    StepKeepsInv(s, (es + [e])[0]);
    if es == [] {
      assert (es + [e])[1..] == [];
    } else {
      assert (es + [e])[1..] == es[1..] + [e];
      AfterMore(Step(s, es[0]), es[1..], e);
    }
  }

  lemma OrphaningStep(k: nat)
    requires k < 8
    ensures Step(OrphaningState(k), OrphaningRun()[k]) == OrphaningState(k + 1)
  {
    if k == 1 || k == 2 || k == 4 {
      OrphaningCall(k);
    } else {
      OrphaningPass(k);
    }
  }

  lemma {:induction false} OrphaningPrefix(k: nat)
    requires k <= 8
    ensures Inv(Initial([1])) && After(Initial([1]), OrphaningRun()[..k]) == OrphaningState(k)
    decreases k
  {
    var s, es := Initial([1]), OrphaningRun();
    InitialInv([1]);
    if k == 0 {
      assert s.tasks == OrphaningState(0).tasks && s.queues == OrphaningState(0).queues;
    } else {
      OrphaningPrefix(k - 1);
      assert es[..k] == es[..k - 1] + [es[k - 1]];
      AfterMore(s, es[..k - 1], es[k - 1]);
      OrphaningStep(k - 1);
    }
  }

  /** A run from start-up that orphans a queue. */
  lemma OrphanReached()
    ensures Inv(Initial([1])) && Orphaned(After(Initial([1]), OrphaningRun()), 0)
  {
    var s, es := Initial([1]), OrphaningRun();
    OrphaningPrefix(8);
    assert es == es[..8] + [es[8]];
    AfterMore(s, es[..8], es[8]);
    DeletedReceiver(OrphaningState(8), 2, 0);
  }
}
