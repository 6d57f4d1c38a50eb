/**
 What runs of the kernel amount to, told by their events: the messages of a queue, the tasks that come and go, the
 real-time counter.
 */
module KernelHistory {
  import opened KernelTask
  import opened KernelState
  import opened KernelRuns
  import opened KernelWakeups

  // ---- messages ----

  /** A message goes to the end of a queue that has room, and nowhere if it is full; other queues are as before. */
  lemma SendCall(s: State, q: nat, x: nat)
    requires Inv(s) && s.phase.Run? && q < |s.queues|
    ensures var b, b' := s.queues[q], Called(s, Send(q, x)).queues[q];
            if |b.items| < b.limit
            then b' == b.(items := b.items + [x], accepted := b.accepted + [x]) else b' == b
    ensures Called(s, Send(q, x)).queues == s.queues[q := Called(s, Send(q, x)).queues[q]]
  {
  }

  /** A receive takes the oldest message out of a queue that has one; it changes an empty queue only by recording that
      the caller waits there. */
  lemma ReceiveCall(s: State, q: nat, blocking: bool)
    requires Inv(s) && s.phase.Run? && q < |s.queues|
    ensures var b, b' := s.queues[q], Called(s, Receive(q, blocking)).queues[q];
            if b.items != []
            then b' == b.(items := b.items[1..], received := b.received + [b.items[0]])
            else b' == b.(waiter := if blocking && b.waiter == 0 then s.phase.p else b.waiter)
    ensures Called(s, Receive(q, blocking)).queues == s.queues[q := Called(s, Receive(q, blocking)).queues[q]]
  {
  }

  /** The event is a call that takes place. */
  predicate Calling(s: State, e: Event) {
    e.Syscall? && s.phase.Run? && Enabled(s, e)
  }

  /** The message that queue q gets in this step, if any. */
  function SentNow(s: State, e: Event, q: nat): seq<nat>
    requires q < |s.queues|
  {
    if Calling(s, e) && e.call.Send? && e.call.q == q && |s.queues[q].items| < s.queues[q].limit then [e.call.item]
    else []
  }

  /** In this step a task receives from queue q: by a call, or by going on behind the wait of one. */
  predicate Receives(s: State, e: Event, q: nat)
    requires |s.tasks| == N && s.current < N
  {
    || (Calling(s, e) && e.call.Receive? && e.call.q == q)
    || (Passing(s, e) && var t := s.tasks[Pick(s.tasks, s.current)];
                         Pick(s.tasks, s.current) != 0 && Is(t, Ready) && t.wkup && t.ctx == InReceive(q))
  }

  /** The message that it gets, if any. */
  function HandedNow(s: State, e: Event, q: nat): seq<nat>
    requires |s.tasks| == N && s.current < N && q < |s.queues|
  {
    if Receives(s, e, q) && s.queues[q].items != [] then [s.queues[q].items[0]] else []
  }

  lemma SentStep(s: State, e: Event, q: nat)
    requires Inv(s) && q < |s.queues|
    ensures |Step(s, e).queues| == |s.queues|
    ensures Step(s, e).queues[q].accepted == s.queues[q].accepted + SentNow(s, e, q)
    ensures Step(s, e).queues[q].received == s.queues[q].received + HandedNow(s, e, q)
  {
    if Passing(s, e) {
      var c := Pick(s.tasks, s.current);
      if c != 0 {
        HandedTended(s.(current := c), c, q);
      }
    } else if Calling(s, e) {
      HandedCall(s, e.call, q);
    }
  }

  lemma HandedTended(s: State, c: nat, q: nat)
    requires |s.tasks| == N && 1 <= c < N && q < |s.queues|
    ensures |Tended(s, c).queues| == |s.queues| && Tended(s, c).queues[q].accepted == s.queues[q].accepted
    ensures var t, b := s.tasks[c], s.queues[q];
            Tended(s, c).queues[q].received ==
            b.received + if Is(t, Ready) && t.wkup && t.ctx == InReceive(q) && b.items != [] then [b.items[0]] else []
  {
  }

  lemma HandedCall(s: State, c: Call, q: nat)
    requires |s.tasks| == N && s.phase.Run? && 0 < s.phase.p < N && q < |s.queues|
    ensures var b, s' := s.queues[q], Called(s, c);
            && |s'.queues| == |s.queues|
            && s'.queues[q].accepted ==
               b.accepted + (if c.Send? && c.q == q && |b.items| < b.limit then [c.item] else [])
            && s'.queues[q].received ==
               b.received + if c.Receive? && c.q == q && b.items != [] then [b.items[0]] else []
  {
  }

  /** The messages that queue q gets in a run: those sent to it while it had room. */
  ghost function Sent(s: State, es: seq<Event>, q: nat): seq<nat>
    requires Inv(s) && q < |s.queues|
    decreases |es|
  {
    if es == [] then []
    else
      StepKeepsInv(s, es[0]);
      SentStep(s, es[0], q);
      SentNow(s, es[0], q) + Sent(Step(s, es[0]), es[1..], q)
  }

  /** The messages that tasks get out of it. */
  ghost function Handed(s: State, es: seq<Event>, q: nat): seq<nat>
    requires Inv(s) && q < |s.queues|
    decreases |es|
  {
    if es == [] then []
    else
      StepKeepsInv(s, es[0]);
      SentStep(s, es[0], q);
      HandedNow(s, es[0], q) + Handed(Step(s, es[0]), es[1..], q)
  }

  lemma Assoc(a: seq<nat>, b: seq<nat>, c: seq<nat>)
    ensures (a + b) + c == a + (b + c)
  {
  }

  lemma {:induction false} SentRun(s: State, es: seq<Event>, q: nat)
    requires Inv(s) && q < |s.queues|
    ensures |After(s, es).queues| == |s.queues|
    ensures After(s, es).queues[q].accepted == s.queues[q].accepted + Sent(s, es, q)
    decreases |es|
  {
    if es != [] {
      StepKeepsInv(s, es[0]);
      SentStep(s, es[0], q);
      SentRun(Step(s, es[0]), es[1..], q);
      Assoc(s.queues[q].accepted, SentNow(s, es[0], q), Sent(Step(s, es[0]), es[1..], q));
    }
  }

  lemma {:induction false} HandedRun(s: State, es: seq<Event>, q: nat)
    requires Inv(s) && q < |s.queues|
    ensures |After(s, es).queues| == |s.queues|
    ensures After(s, es).queues[q].received == s.queues[q].received + Handed(s, es, q)
    decreases |es|
  {
    if es != [] {
      StepKeepsInv(s, es[0]);
      SentStep(s, es[0], q);
      HandedRun(Step(s, es[0]), es[1..], q);
      Assoc(s.queues[q].received, HandedNow(s, es[0], q), Handed(Step(s, es[0]), es[1..], q));
    }
  }

  /** In every run from start-up, the messages sent to a queue while it had room are those received from it, in the same
      order, and behind them those that it holds. */
  lemma FirstInFirstOut(limits: seq<nat>, es: seq<Event>, q: nat)
    requires q < |limits|
    ensures Inv(Initial(limits)) && |After(Initial(limits), es).queues| == |limits|
    ensures Sent(Initial(limits), es, q) == Handed(Initial(limits), es, q) + After(Initial(limits), es).queues[q].items
  {
    InitialInv(limits);
    SentRun(Initial(limits), es, q);
    HandedRun(Initial(limits), es, q);
    var s := After(Initial(limits), es);
    assert QueueOk(s.queues[q]);
    assert [] + Sent(Initial(limits), es, q) == Sent(Initial(limits), es, q);
    assert [] + Handed(Initial(limits), es, q) == Handed(Initial(limits), es, q);
  }

  // ---- whom a call is about ----

  /** The same call about task id. */
  function About(c: Call, id: nat): Call
    requires Changes(c)
  {
    match c
    case Delete(_) => Delete(id)
    case Freeze(_) => Freeze(id)
    case Unfreeze(_) => Unfreeze(id)
    case Restart(_) => Restart(id)
    case Notify(_, sig) => Notify(id, sig)
    case Ignore(_, sig) => Ignore(id, sig)
    case Allow(_, sig) => Allow(id, sig)
  }

  /** The number 0 stands for the caller, a number beyond the table for nobody, and any other for the task at that entry
      and for no other. */
  lemma CallAbout(s: State, c: Call, id: nat, t: nat)
    requires Inv(s) && s.phase.Run? && Changes(c) && t < N
    ensures Called(s, About(c, 0)) == Called(s, About(c, s.phase.p))
    ensures id >= N ==> Called(s, About(c, id)) == s
    ensures 0 < id && id != t ==> Called(s, About(c, id)).tasks[t] == s.tasks[t]
    ensures Called(s, About(c, id)).queues == s.queues
  {
  }

  /** Signals that a task ignores do not become pending for it, unless they are reserved. */
  lemma IgnoredSignals(s: State, t: nat, sig: Signals)
    requires Inv(s) && s.phase.Run? && 1 <= t < N && Both(sig, RESERVED) == NONE
    ensures var s' := Called(s, Ignore(t, sig)); Called(s', Notify(t, sig)) == s'
  {
    var s' := Called(s, Ignore(t, sig));
    IgnoredTask(s.tasks[t], sig);
    assert s'.tasks[t := s'.tasks[t]] == s'.tasks;
  }

  lemma IgnoredTask(t: Task, sig: Signals)
    requires Both(sig, RESERVED) == NONE
    ensures Notified(Ignoring(t, sig), sig) == Ignoring(t, sig)
    ensures Within(sig, Notified(Allowing(t, sig), sig).pending)
  {
  }

  /** Those that it allows do. */
  lemma AllowedSignals(s: State, t: nat, sig: Signals)
    requires Inv(s) && s.phase.Run? && 1 <= t < N && Both(sig, RESERVED) == NONE
    ensures var s' := Called(s, Allow(t, sig)); Within(sig, Called(s', Notify(t, sig)).tasks[t].pending)
  {
    IgnoredTask(s.tasks[t], sig);
  }

  // ---- deleted tasks ----

  /** There is no task at entry t. */
  predicate Gone(s: State, t: nat)
    requires |s.tasks| == N && t < N
  {
    !s.tasks[t].entry && !Eligible(s.tasks[t]) && FreeEntry(s.tasks, 1) <= t
  }

  /** Deleting a task leaves no task at its entry, which is free for a new one, and the other entries as they were. One
      that deletes itself is to return. */
  lemma DeleteCall(s: State, id: nat)
    requires Inv(s) && s.phase.Run? && Target(s.phase.p, id) < N
    ensures var t, s' := Target(s.phase.p, id), Called(s, Delete(id));
            && Gone(s', t) && s'.tasks == s.tasks[t := s'.tasks[t]] && s'.queues == s.queues
            && s'.phase == if t == s.phase.p then Leaving(t) else s.phase
  {
  }

  /** The event is the creation of a task at entry t. */
  predicate Takes(s: State, e: Event, t: nat)
    requires |s.tasks| == N
  {
    Calling(s, e) && e.call.Create? && FreeEntry(s.tasks, 1) == t
  }

  /** A task appears at an empty entry exactly if one is created there; until then nobody there has control. */
  lemma GoneStep(s: State, e: Event, t: nat)
    requires Inv(s) && 1 <= t < N && Gone(s, t)
    ensures Inv(Step(s, e)) && !Chosen(s, e, t)
    ensures if Takes(s, e, t) then Step(s, e).tasks[t] == CREATED else Gone(Step(s, e), t)
  {
    StepKeepsInv(s, e);
    if Passing(s, e) {
      PickFirst(s.tasks, s.current);
      var c := Pick(s.tasks, s.current);
      if c != 0 {
        TendsOne(s.(current := c), c, t);
      }
    } else if Calling(s, e) {
      GoneCall(s, e.call, t);
    }
  }

  lemma GoneCall(s: State, c: Call, t: nat)
    requires Inv(s) && s.phase.Run? && 1 <= t < N && !s.tasks[t].entry
    ensures if c.Create? && FreeEntry(s.tasks, 1) == t then Called(s, c).tasks[t] == CREATED
            else !Called(s, c).tasks[t].entry
  {
    if Changes(c) && Target(s.phase.p, c.id) == t {
      assert !Changed(s.tasks[t], c).entry;
    }
  }

  /** No event of the run creates a task at entry t. */
  ghost predicate NeverTakes(s: State, es: seq<Event>, t: nat)
    requires Inv(s)
    decreases |es|
  {
    es != [] ==> !Takes(s, es[0], t) && (StepKeepsInv(s, es[0]); NeverTakes(Step(s, es[0]), es[1..], t))
  }

  lemma {:induction false} StaysGone(s: State, es: seq<Event>, t: nat)
    requires Inv(s) && 1 <= t < N && Gone(s, t) && NeverTakes(s, es, t)
    ensures Gone(After(s, es), t) && t !in Picks(s, es)
    decreases |es|
  {
    if es != [] {
      GoneStep(s, es[0], t);
      StaysGone(Step(s, es[0]), es[1..], t);
    }
  }

  /** A deleted task is never scheduled again, whatever is done, until a new task is created at its entry. */
  lemma DeletedForGood(s: State, id: nat, es: seq<Event>)
    requires Inv(s) && s.phase.Run? && Target(s.phase.p, id) < N
    requires Inv(Called(s, Delete(id))) && NeverTakes(Called(s, Delete(id)), es, Target(s.phase.p, id))
    ensures var t, s' := Target(s.phase.p, id), Called(s, Delete(id));
            t !in Picks(s', es) && Gone(After(s', es), t)
  {
    DeleteCall(s, id);
    StaysGone(Called(s, Delete(id)), es, Target(s.phase.p, id));
  }

  // ---- new tasks ----

  /** Task t is to be started from its entry point as soon as it is chosen. */
  predicate Fresh(s: State, t: nat)
    requires |s.tasks| == N && t < N
  {
    s.tasks[t].entry && Is(s.tasks[t], Ready) && !s.tasks[t].wkup
  }

  /** A task is created at the first empty entry, if there is one: it is to be started, no signal is pending for it, and
      every signal that is posted to it arrives. */
  lemma CreateCall(s: State, sig: Signals)
    requires Inv(s) && s.phase.Run?
    ensures var t, s' := FreeEntry(s.tasks, 1), Called(s, Create);
            if t == N then s' == s
            else && Fresh(s', t) && s' == s.(tasks := s.tasks[t := s'.tasks[t]])
                 && s'.tasks[t].pending == NONE && Notified(s'.tasks[t], sig).pending == sig
  {
  }

  lemma FreshStep(s: State, e: Event, t: nat)
    requires Inv(s) && 1 <= t < N && Fresh(s, t) && Spares(e, t)
    ensures Inv(Step(s, e))
    ensures if Chosen(s, e, t) then Step(s, e).phase == Run(t) && Is(Step(s, e).tasks[t], Running)
            else Fresh(Step(s, e), t)
  {
    StepKeepsInv(s, e);
    if Passing(s, e) {
      PickFirst(s.tasks, s.current);
      var c := Pick(s.tasks, s.current);
      if c != 0 && c != t {
        TendsOne(s.(current := c), c, t);
      }
    } else if Calling(s, e) {
      CalledPokes(s, e.call, t);
    }
  }

  /** A new task has control within N passes, whatever else happens, unless it is deleted or frozen. */
  lemma {:induction false} StartedInRun(s: State, es: seq<Event>, t: nat) returns (k: nat)
    requires Inv(s) && 1 <= t < N && Fresh(s, t) && (forall i :: 0 <= i < |es| ==> Spares(es[i], t))
    requires |Picks(s, es)| > Distance(s.current, t)
    ensures k <= |es| && After(s, es[..k]).phase == Run(t) && Is(After(s, es[..k]).tasks[t], Running)
    decreases |es|
  {
    var s', rest := Step(s, es[0]), es[1..];
    FreshStep(s, es[0], t);
    StepMovesCurrent(s, es[0]);
    if Chosen(s, es[0], t) {
      k := 1;
      assert es[..1] == [es[0]];
      AfterOne(s, es[0]);
    } else {
      if Passing(s, es[0]) {
        PickFirst(s.tasks, s.current);
      }
      PicksFirst(s, es);
      var k' := StartedInRun(s', rest, t);
      k := k' + 1;
      AfterFirst(s, es, k');
    }
  }

  // ---- the clock ----

  /** The time that passes in a run. */
  function Quanta(es: seq<Event>): nat {
    if es == [] then 0 else (if es[0].Tick? then es[0].quantum else 0) + Quanta(es[1..])
  }

  /** The counter advances by the quanta of the clock interrupts, in 64 bits, and by nothing else; k tells how often it
      wraps. */
  lemma {:induction false} ClockRun(s: State, es: seq<Event>) returns (k: nat)
    requires Inv(s) && s.rtc < WORD
    ensures After(s, es).rtc + WORD * k == s.rtc + Quanta(es) && After(s, es).rtc < WORD
    decreases |es|
  {
    k := 0;
    if es != [] {
      StepKeepsInv(s, es[0]);
      var j := ClockStep(s, es[0]);
      k := ClockRun(Step(s, es[0]), es[1..]);
      k := k + j;
    }
  }

  lemma ClockStep(s: State, e: Event) returns (k: nat)
    requires Inv(s) && s.rtc < WORD
    ensures Step(s, e).rtc + WORD * k == s.rtc + (if e.Tick? then e.quantum else 0) && Step(s, e).rtc < WORD
  {
    k := if e.Tick? then (s.rtc + e.quantum) / WORD else 0;
  }
}
