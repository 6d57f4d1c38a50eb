/**
 When suspended tasks wake up: signals are not lost, sleepers wake in time and not before.
 */
module KernelWakeups {
  import opened KernelTask
  import opened KernelState
  import opened KernelRuns

  // ---- what a step does to a suspended task ----

  /** The event neither deletes nor freezes task t. */
  predicate Spares(e: Event, t: nat) {
    e.Syscall? ==> e.call != Delete(t) && e.call != Freeze(t)
  }

  /** The signals the event can post to t: those it notifies, and the queue signal. */
  function Posted(e: Event, t: nat): Signals {
    if e.Syscall? && e.call.Notify? && e.call.id == t then e.call.sig else SIGQUE
  }

  /** What calls of other tasks can do to one that is suspended or ready: add pending signals out of sig, thaw it, change
      its mask. */
  predicate Poked(t: Task, t': Task, sig: Signals) {
    && t' == t.(pending := t'.pending, mask := t'.mask, status := t'.status)
    && Within(t.pending, t'.pending) && Within(t'.pending, Either(t.pending, sig))
    && t'.status.base == t.status.base && (t'.status.frozen ==> t.status.frozen)
  }

  /** The scheduler chooses t in this step. */
  predicate Chosen(s: State, e: Event, t: nat)
    requires |s.tasks| == N && s.current < N
  {
    Passing(s, e) && Pick(s.tasks, s.current) == t
  }

  lemma SuspendedStep(s: State, e: Event, t: nat)
    requires Inv(s) && 1 <= t < N && s.tasks[t].entry && s.tasks[t].status.base == Suspended && Spares(e, t)
    ensures Inv(Step(s, e))
    ensures if Chosen(s, e, t) then Step(s, e).tasks[t] == Visited(s.tasks[t], s.rtc) && Is(s.tasks[t], Suspended)
            else Poked(s.tasks[t], Step(s, e).tasks[t], Posted(e, t))
  {
    StepKeepsInv(s, e);
    PokedSame(s.tasks[t], Posted(e, t));
    if Passing(s, e) {
      PickFirst(s.tasks, s.current);
      var c := Pick(s.tasks, s.current);
      if c != 0 && c != t {
        TendsOne(s.(current := c), c, t);
      }
    } else if Enabled(s, e) && e.Syscall? && s.phase.Run? {
      CalledPokes(s, e.call, t);
    }
  }

  lemma PokedSame(t: Task, sig: Signals)
    ensures Poked(t, t, sig)
  {
  }

  /** The scheduler changes no task but the one it chose. */
  lemma TendsOne(s: State, c: nat, t: nat)
    requires c < |s.tasks| && t < |s.tasks| && c != t
    ensures |Tended(s, c).tasks| == |s.tasks| && Tended(s, c).tasks[t] == s.tasks[t]
  {
  }

  lemma CalledPokes(s: State, c: Call, t: nat)
    requires Inv(s) && s.phase.Run? && 1 <= t < N && s.tasks[t].entry && s.tasks[t].status.base in {Suspended, Ready}
    requires Spares(Syscall(c), t)
    ensures Poked(s.tasks[t], Called(s, c).tasks[t], Posted(Syscall(c), t))
  {
    PokedSame(s.tasks[t], Posted(Syscall(c), t));
    if Changes(c) {
      if Target(s.phase.p, c.id) == t {
        ChangePokes(s.tasks[t], c);
      }
    } else if c.Send? && c.q < |s.queues| && s.queues[c.q].waiter == t {
      ChangePokes(s.tasks[t], Notify(t, SIGQUE));
    }
  }

  lemma ChangePokes(t: Task, c: Call)
    requires Changes(c) && !c.Delete? && !c.Freeze? && t.status.base in {Suspended, Ready}
    ensures Poked(t, Changed(t, c), if c.Notify? then c.sig else SIGQUE)
  {
    if c.Notify? {
      NotifyPokes(t, c.sig);
    } else {
      PokedSame(t, SIGQUE);
    }
  }

  lemma NotifyPokes(t: Task, sig: Signals)
    ensures Within(t.pending, Notified(t, sig).pending) && Within(Notified(t, sig).pending, Either(t.pending, sig))
  {
  }

  // ---- no lost wake-up ----

  /** Task t is suspended and a signal it waits for is pending. */
  predicate Due(s: State, t: nat)
    requires |s.tasks| == N && t < N
  {
    s.tasks[t].entry && Is(s.tasks[t], Suspended) && Meet(s.tasks[t].pending, s.tasks[t].waiting)
  }

  /** Task t will be resumed where it waited, as soon as it is chosen. */
  predicate Awake(s: State, t: nat)
    requires |s.tasks| == N && t < N
  {
    s.tasks[t].entry && Is(s.tasks[t], Ready) && s.tasks[t].wkup
  }

  lemma DueStep(s: State, e: Event, t: nat)
    requires Inv(s) && 1 <= t < N && Due(s, t) && Spares(e, t)
    ensures Inv(Step(s, e))
    ensures if Chosen(s, e, t) then Awake(Step(s, e), t) else Due(Step(s, e), t)
  {
    SuspendedStep(s, e, t);
    if Chosen(s, e, t) {
      VisitWakes(s.tasks[t], s.rtc);
    }
  }

  lemma VisitWakes(t: Task, rtc: nat)
    requires Is(t, Suspended) && Meet(t.pending, t.waiting)
    ensures Visited(t, rtc) == Visited(t, rtc).(entry := t.entry, status := Status(Ready, false), wkup := true)
  {
    var u := Alarmed(t);
    assert Meet(u.pending, u.waiting) && Is(u, Suspended) && u.entry == t.entry;
    var v := Timed(u, rtc);
    assert Meet(v.pending, v.waiting) && v.entry == t.entry;
  }

  /** A task with a pending signal it waits for is made ready within N passes, whatever else happens. */
  lemma {:induction false} WokenInRun(s: State, es: seq<Event>, t: nat) returns (k: nat)
    requires Inv(s) && 1 <= t < N && Due(s, t) && (forall i :: 0 <= i < |es| ==> Spares(es[i], t))
    requires |Picks(s, es)| > Distance(s.current, t)
    ensures k <= |es| && Awake(After(s, es[..k]), t)
    decreases |es|
  {
    var s', rest := Step(s, es[0]), es[1..];
    DueStep(s, es[0], t);
    StepMovesCurrent(s, es[0]);
    if Chosen(s, es[0], t) {
      k := 1;
      assert es[..1] == [es[0]];
      AfterOne(s, es[0]);
    } else {
      if Passing(s, es[0]) {
        PickFirst(s.tasks, s.current);
      }
      PicksFirst(s, es);
      var k' := WokenInRun(s', rest, t);
      k := k' + 1;
      AfterFirst(s, es, k');
    }
  }

  /** A run is its first step and the rest. */
  lemma AfterFirst(s: State, es: seq<Event>, k: nat)
    requires Inv(s) && es != [] && k < |es|
    ensures Inv(Step(s, es[0])) && After(s, es[..k + 1]) == After(Step(s, es[0]), es[1..][..k])
  {
    StepKeepsInv(s, es[0]);
    assert es[..k + 1][0] == es[0] && es[..k + 1][1..] == es[1..][..k];
  }

  lemma PicksFirst(s: State, es: seq<Event>)
    requires Inv(s) && es != []
    ensures Inv(Step(s, es[0]))
    ensures |Picks(s, es)| == |Picks(Step(s, es[0]), es[1..])| + if Passing(s, es[0]) then 1 else 0
  {
    StepKeepsInv(s, es[0]);
  }

  lemma AfterOne(s: State, e: Event)
    requires Inv(s)
    ensures Inv(Step(s, e)) && After(s, [e]) == Step(s, e)
  {
    StepKeepsInv(s, e);
    assert [e][1..] == [];
  }

  // ---- sleeping for a span of real time ----

  /** Task t sleeps until the real-time counter reaches when, and nobody posted the timer signal to it. */
  predicate Asleep(s: State, t: nat, when: nat)
    requires |s.tasks| == N && t < N
  {
    && s.tasks[t].entry && Is(s.tasks[t], Suspended)
    && s.tasks[t].waiting == SIGTMR && !s.tasks[t].pending.tmr && s.tasks[t].timeout == when
  }

  /** A sleeper is woken by the first visit at or after its time, and by nothing else; with time 0, by no visit. */
  lemma SleeperStep(s: State, e: Event, t: nat, when: nat)
    requires Inv(s) && 1 <= t < N && Asleep(s, t, when) && Spares(e, t) && !Posted(e, t).tmr
    ensures Inv(Step(s, e))
    ensures if Chosen(s, e, t) && when != 0 && s.rtc >= when then Awake(Step(s, e), t) else Asleep(Step(s, e), t, when)
  {
    SuspendedStep(s, e, t);
    var u := s.tasks[t];
    assert Alarmed(u) == u;
  }

  /** Every visit to t in the run comes before the time. */
  ghost predicate Early(s: State, es: seq<Event>, t: nat, when: nat)
    requires Inv(s)
    decreases |es|
  {
    es != [] ==>
      && (Chosen(s, es[0], t) ==> when == 0 || s.rtc < when)
      && (StepKeepsInv(s, es[0]); Early(Step(s, es[0]), es[1..], t, when))
  }

  /** Every pass of the run comes at or after the time. */
  ghost predicate Late(s: State, es: seq<Event>, when: nat)
    requires Inv(s)
    decreases |es|
  {
    es != [] ==>
      && (Passing(s, es[0]) ==> s.rtc >= when)
      && (StepKeepsInv(s, es[0]); Late(Step(s, es[0]), es[1..], when))
  }

  lemma {:induction false} SleepsOn(s: State, es: seq<Event>, t: nat, when: nat)
    requires Inv(s) && 1 <= t < N && Asleep(s, t, when) && Early(s, es, t, when)
    requires forall i :: 0 <= i < |es| ==> Spares(es[i], t) && !Posted(es[i], t).tmr
    ensures Asleep(After(s, es), t, when)
    decreases |es|
  {
    if es != [] {
      SleeperStep(s, es[0], t, when);
      SleepsOn(Step(s, es[0]), es[1..], t, when);
    }
  }

  lemma {:induction false} SleeperWakes(s: State, es: seq<Event>, t: nat, when: nat) returns (k: nat)
    requires Inv(s) && 1 <= t < N && Asleep(s, t, when) && when != 0 && Late(s, es, when)
    requires forall i :: 0 <= i < |es| ==> Spares(es[i], t) && !Posted(es[i], t).tmr
    requires |Picks(s, es)| > Distance(s.current, t)
    ensures k <= |es| && Awake(After(s, es[..k]), t)
    decreases |es|
  {
    var s', rest := Step(s, es[0]), es[1..];
    SleeperStep(s, es[0], t, when);
    StepMovesCurrent(s, es[0]);
    if Chosen(s, es[0], t) {
      k := 1;
      assert es[..1] == [es[0]];
      AfterOne(s, es[0]);
    } else {
      if Passing(s, es[0]) {
        PickFirst(s.tasks, s.current);
      }
      PicksFirst(s, es);
      var k' := SleeperWakes(s', rest, t, when);
      k := k' + 1;
      AfterFirst(s, es, k');
    }
  }

  /** A sleep ends on its own exactly if the time it computes is not 0, modulo the width of the counter. */
  lemma SleepCall(s: State, count: nat)
    requires Inv(s) && s.phase.Run? && !s.tasks[s.phase.p].pending.tmr && s.rtc < WORD
    ensures var when := (s.rtc + count % 0x1_0000_0000) % WORD;
            && Asleep(Called(s, Sleep(count)), s.phase.p, when)
            && (when == 0 <==> s.rtc + count % 0x1_0000_0000 == 0 || s.rtc + count % 0x1_0000_0000 == WORD)
  {
  }

  /** With time 0 every visit is early. */
  lemma {:induction false} AlwaysEarly(s: State, es: seq<Event>, t: nat)
    requires Inv(s)
    ensures Early(s, es, t, 0)
    decreases |es|
  {
    if es != [] {
      StepKeepsInv(s, es[0]);
      AlwaysEarly(Step(s, es[0]), es[1..], t);
    }
  }

  /** Root sleeps for no time when the counter is 0, and sleeps for good unless somebody posts the timer signal to it,
      freezes it or deletes it. */
  lemma SleepsForGood(limits: seq<nat>, es: seq<Event>)
    requires forall i :: 0 <= i < |es| ==> Spares(es[i], 1) && !Posted(es[i], 1).tmr
    ensures Inv(Initial(limits)) && Asleep(After(Initial(limits), [Pass, Syscall(Sleep(0))] + es), 1, 0)
  {
    var s := RootSleeps(limits);
    AfterTwo(Initial(limits), Pass, Syscall(Sleep(0)), es);
    AlwaysEarly(s, es, 1);
    SleepsOn(s, es, 1, 0);
  }

  lemma AfterTwo(s: State, e: Event, e': Event, es: seq<Event>)
    requires Inv(s)
    ensures Inv(Step(s, e)) && Inv(Step(Step(s, e), e')) && After(s, [e, e'] + es) == After(Step(Step(s, e), e'), es)
  {
    StepKeepsInv(s, e);
    StepKeepsInv(Step(s, e), e');
    var run := [e, e'] + es;
    assert run[1..] == [e'] + es && run[1..][1..] == es;
  }

  lemma RootSleeps(limits: seq<nat>) returns (s: State)
    ensures Inv(Initial(limits)) && s == Step(Step(Initial(limits), Pass), Syscall(Sleep(0)))
    ensures Inv(s) && Asleep(s, 1, 0)
  {
    InitialInv(limits);
    RootStarts(limits);
    var s1 := Step(Initial(limits), Pass);
    StepKeepsInv(Initial(limits), Pass);
    StepKeepsInv(s1, Syscall(Sleep(0)));
    SleepCall(s1, 0);
    s := Step(s1, Syscall(Sleep(0)));
  }

  /** The first pass starts the root task. */
  lemma RootStarts(limits: seq<nat>)
    ensures var s := Initial(limits);
            Passed(s) == WithTask(s, 1, CREATED.(status := Status(Running, false))).(current := 1, phase := Run(1))
  {
    var s := Initial(limits);
    PickFirst(s.tasks, 0);
    assert Distance(0, 1) == 0 && Eligible(s.tasks[1]);
  }

  // ---- sleeping through visits ----

  /** Task t sleeps through n more visits, and nobody posted the alarm signal to it. */
  predicate Dozes(s: State, t: nat, n: nat)
    requires |s.tasks| == N && t < N
  {
    && s.tasks[t].entry && Is(s.tasks[t], Suspended)
    && s.tasks[t].waiting == SIGALM && !s.tasks[t].pending.alm
    && n == if s.tasks[t].tick > 0 then s.tasks[t].tick else 0
  }

  lemma DozeStep(s: State, e: Event, t: nat, n: nat)
    requires Inv(s) && 1 <= t < N && Dozes(s, t, n) && Spares(e, t) && !Posted(e, t).alm
    ensures Inv(Step(s, e))
    ensures if !Chosen(s, e, t) then Dozes(Step(s, e), t, n)
            else if n > 0 then Dozes(Step(s, e), t, n - 1) else Awake(Step(s, e), t)
  {
    SuspendedStep(s, e, t);
  }

  /** How often t occurs among the choices. */
  function Visits(l: seq<nat>, t: nat): nat {
    if l == [] then 0 else (if l[0] == t then 1 else 0) + Visits(l[1..], t)
  }

  /** A task that dozes for n visits is still asleep after n visits; the next one wakes it. */
  lemma {:induction false} DozesOn(s: State, es: seq<Event>, t: nat, n: nat)
    requires Inv(s) && 1 <= t < N && Dozes(s, t, n) && Visits(Picks(s, es), t) <= n
    requires forall i :: 0 <= i < |es| ==> Spares(es[i], t) && !Posted(es[i], t).alm
    ensures Dozes(After(s, es), t, n - Visits(Picks(s, es), t))
    decreases |es|
  {
    if es != [] {
      DozeStep(s, es[0], t, n);
      FirstVisit(s, es, t);
      DozesOn(Step(s, es[0]), es[1..], t, if Chosen(s, es[0], t) then n - 1 else n);
    }
  }

  lemma FirstVisit(s: State, es: seq<Event>, t: nat)
    requires Inv(s) && es != []
    ensures Inv(Step(s, es[0]))
    ensures Visits(Picks(s, es), t) == Visits(Picks(Step(s, es[0]), es[1..]), t) + if Chosen(s, es[0], t) then 1 else 0
  {
    StepKeepsInv(s, es[0]);
    var picks, rest := Picks(s, es), Picks(Step(s, es[0]), es[1..]);
    if Passing(s, es[0]) {
      assert picks == [Pick(s.tasks, s.current)] + rest && picks[1..] == rest;
    } else {
      assert picks == [] + rest == rest;
    }
  }

  /** The number of visits is the count given, but for counts that are negative as a signed number: those wake at once. */
  lemma WakeAfterCall(s: State, count: nat)
    requires Inv(s) && s.phase.Run? && !s.tasks[s.phase.p].pending.alm && count < 0x1_0000_0000
    ensures Dozes(Called(s, WakeAfter(count)), s.phase.p, if count < 0x8000_0000 then count else 0)
  {
  }

  // ---- signals posted before the wait ----

  /** A task that waits for a signal that is already pending is woken within N passes. */
  lemma EarlySignal(s: State, sig: Signals, es: seq<Event>) returns (k: nat)
    requires Inv(s) && s.phase.Run? && Meet(s.tasks[s.phase.p].pending, sig)
    requires es != [] && es[0] == Syscall(Wait(sig)) && Enabled(s, es[0]) && |Picks(s, es)| >= N
    requires forall i :: 1 <= i < |es| ==> Spares(es[i], s.phase.p)
    ensures k <= |es| && Awake(After(s, es[..k]), s.phase.p)
  {
    PicksFirst(s, es);
    var s', rest := Step(s, es[0]), es[1..];
    var k' := WokenInRun(s', rest, s.phase.p);
    k := k' + 1;
    AfterFirst(s, es, k');
  }

  // ---- signals posted between the waking visit and the resumption ----

  /** A task that is awake stays so until it is chosen, and keeps what is posted to it; when it is resumed, the signals
      it waited for are dropped. */
  lemma AwakeStep(s: State, e: Event, t: nat)
    requires Inv(s) && 1 <= t < N && Awake(s, t) && Spares(e, t)
    ensures Inv(Step(s, e))
    ensures var u, u' := s.tasks[t], Step(s, e).tasks[t];
            if Chosen(s, e, t) then Step(s, e).phase == Run(t) && u'.pending == Less(u.pending, u.waiting)
            else Awake(Step(s, e), t) && u'.waiting == u.waiting && Within(u.pending, u'.pending)
  {
    StepKeepsInv(s, e);
    assert TaskOk(s.tasks[t]) && Receiving(s, t);
    if Passing(s, e) {
      PickFirst(s.tasks, s.current);
      var c := Pick(s.tasks, s.current);
      if c != 0 && c != t {
        TendsOne(s.(current := c), c, t);
      }
    } else if Enabled(s, e) && e.Syscall? && s.phase.Run? {
      CalledPokes(s, e.call, t);
    }
  }

  lemma {:induction false} AwakeRun(s: State, es: seq<Event>, t: nat)
    requires Inv(s) && 1 <= t < N && Awake(s, t) && t !in Picks(s, es) && forall i :: 0 <= i < |es| ==> Spares(es[i], t)
    ensures var u, u' := s.tasks[t], After(s, es).tasks[t];
            Awake(After(s, es), t) && u'.waiting == u.waiting && Within(u.pending, u'.pending)
    decreases |es|
  {
    if es != [] {
      AwakeStep(s, es[0], t);
      assert t !in Picks(Step(s, es[0]), es[1..]);
      AwakeRun(Step(s, es[0]), es[1..], t);
    }
  }

  /** Signals posted to a task after the visit that woke it, which left none of those it waited for pending: they stay
      pending until it is resumed, and then exactly those it did not wait for are left. The others are lost to it. */
  lemma LateSignals(s: State, t: nat, sig: Signals, es: seq<Event>)
    requires Inv(s) && 1 <= t < N && Awake(s, t) && Within(sig, s.tasks[t].pending)
    requires t !in Picks(s, es) && Chosen(After(s, es), Pass, t)
    requires forall i :: 0 <= i < |es| ==> Spares(es[i], t)
    ensures var s' := After(s, es);
            && Within(sig, s'.tasks[t].pending) && Passed(s').phase == Run(t)
            && Both(sig, Passed(s').tasks[t].pending) == Less(sig, s.tasks[t].waiting)
  {
    AwakeRun(s, es, t);
    AwakeStep(After(s, es), Pass, t);
    LateBits(sig, s.tasks[t].pending, After(s, es).tasks[t].pending, s.tasks[t].waiting);
  }

  lemma LateBits(sig: Signals, before: Signals, pending: Signals, waiting: Signals)
    requires Within(sig, before) && Within(before, pending)
    ensures Within(sig, pending) && Both(sig, Less(pending, waiting)) == Less(sig, waiting)
  {
  }

  /** The visit that wakes a task leaves none of the signals it waited for pending. */
  lemma WokenClean(t: Task, rtc: nat)
    requires Is(t, Suspended) && Visited(t, rtc).status.base == Ready
    ensures !Meet(Visited(t, rtc).pending, Visited(t, rtc).waiting)
  {
    var u := Timed(Alarmed(t), rtc);
    assert Woken(u) == Visited(t, rtc) && u.status == t.status;
  }

  /** A task waits for two signals, is woken by the first, and the second is posted before it is resumed: the second is
      gone, although nobody has seen it. */
  lemma SecondSignalGone(t: Task, rtc: nat)
    requires TaskOk(t) && Is(t, Suspended) && t.ctx == AfterSignal(NONE.(u1 := true, u2 := true))
    requires t.pending == NONE && Within(NONE.(u1 := true, u2 := true), t.mask)
    ensures var woken := Visited(Notified(t, NONE.(u1 := true)), rtc);
            var posted := Notified(woken, NONE.(u2 := true));
            && Is(woken, Ready) && woken.pending == NONE && posted.pending == NONE.(u2 := true)
            && Resumed(posted, SignalOf(posted.ctx)).pending == NONE
  {
    var u := Notified(t, NONE.(u1 := true));
    assert Timed(Alarmed(u), rtc) == u;
  }

  /** A reserved signal posted to a living task is always pending afterwards. */
  lemma ReservedLands(s: State, t: nat, sig: Signals)
    requires Inv(s) && s.phase.Run? && 1 <= t < N && s.tasks[t].entry && Within(sig, RESERVED)
    ensures Within(sig, Called(s, Notify(t, sig)).tasks[t].pending)
  {
    assert TaskOk(s.tasks[t]);
  }

  /** A task suspended in a receive while its queue holds messages is made ready within N passes. */
  lemma ReceiverWakes(s: State, es: seq<Event>, t: nat) returns (k: nat)
    requires Inv(s) && 1 <= t < N && s.tasks[t].entry && Is(s.tasks[t], Suspended) && s.tasks[t].ctx.InReceive?
    requires var q := s.tasks[t].ctx.queue; q < |s.queues| && s.queues[q].items != []
    requires (forall i :: 0 <= i < |es| ==> Spares(es[i], t)) && |Picks(s, es)| >= N
    ensures k <= |es| && Awake(After(s, es[..k]), t)
  {
    assert TaskOk(s.tasks[t]) && Receiving(s, t);
    k := WokenInRun(s, es, t);
  }

  // ---- freezing ----

  /** Task t is frozen and not in control. */
  predicate OnIce(s: State, t: nat)
    requires |s.tasks| == N && t < N
  {
    s.tasks[t].entry && s.tasks[t].status.frozen && s.phase != Run(t)
  }

  /** The event does not unfreeze task t, and does not delete it. */
  predicate Leaves(e: Event, t: nat) {
    e.Syscall? ==> e.call != Unfreeze(t) && e.call != Delete(t)
  }

  lemma OnIceStep(s: State, e: Event, t: nat)
    requires Inv(s) && 1 <= t < N && OnIce(s, t) && Leaves(e, t)
    ensures Inv(Step(s, e)) && OnIce(Step(s, e), t) && !Chosen(s, e, t)
  {
    StepKeepsInv(s, e);
    if Passing(s, e) {
      PickFirst(s.tasks, s.current);
      var c := Pick(s.tasks, s.current);
      if c != 0 {
        TendsOne(s.(current := c), c, t);
        TendedPhase(s.(current := c), c);
      }
    } else if Enabled(s, e) && e.Syscall? && s.phase.Run? {
      OnIceCall(s, e.call, t);
    }
  }

  /** The scheduler gives control to nobody but the task it chose. */
  lemma TendedPhase(s: State, c: nat)
    requires c < |s.tasks|
    ensures Tended(s, c).phase.Run? ==> Tended(s, c).phase.p == c || Tended(s, c).phase == s.phase
  {
  }

  lemma OnIceCall(s: State, c: Call, t: nat)
    requires Inv(s) && s.phase.Run? && 1 <= t < N && OnIce(s, t) && Leaves(Syscall(c), t)
    ensures OnIce(Called(s, c), t)
  {
    if Changes(c) && Target(s.phase.p, c.id) == t {
      assert Changed(s.tasks[t], c).status.frozen && Changed(s.tasks[t], c).entry;
    }
  }

  /** As long as nobody unfreezes a frozen task, it is never chosen. */
  lemma {:induction false} StaysOnIce(s: State, es: seq<Event>, t: nat)
    requires Inv(s) && 1 <= t < N && OnIce(s, t) && forall i :: 0 <= i < |es| ==> Leaves(es[i], t)
    ensures OnIce(After(s, es), t) && t !in Picks(s, es)
    decreases |es|
  {
    if es != [] {
      OnIceStep(s, es[0], t);
      StaysOnIce(Step(s, es[0]), es[1..], t);
    }
  }

  /** Freezing a task other than the caller puts it on ice, and unfreezing it gives back what it was. */
  lemma FreezeUnfreeze(s: State, t: nat)
    requires Inv(s) && s.phase.Run? && 1 <= t < N && t != s.phase.p && s.tasks[t].entry
    ensures OnIce(Called(s, Freeze(t)), t)
    ensures !s.tasks[t].status.frozen ==> Called(Called(s, Freeze(t)), Unfreeze(t)) == s
  {
    if !s.tasks[t].status.frozen {
      var s1 := Called(s, Freeze(t));
      assert Unfrozen(Frozen(s.tasks[t])) == s.tasks[t];
      assert s1.tasks[t := s.tasks[t]] == s.tasks;
    }
  }

  /** A task that freezes itself and then waits is no longer frozen: waiting overwrites the whole status. */
  lemma SelfFreezeLost(s: State, sig: Signals)
    requires Inv(s) && s.phase.Run?
    ensures var p := s.phase.p;
            Called(s, Freeze(p)).tasks[p].status.frozen && !Called(Called(s, Freeze(p)), Wait(sig)).tasks[p].status.frozen
  {
  }

  /** The call makes the caller wait. */
  predicate GivesUp(s: State, c: Call) {
    || c.Wait? || c.WakeAfter? || c.Sleep?
    || (c.Receive? && c.blocking && c.q < |s.queues| && s.queues[c.q].items == [] && s.queues[c.q].waiter == 0)
  }

  /** The event ends the freeze of task t: it unfreezes or deletes it, or t itself waits. */
  predicate Thaws(s: State, e: Event, t: nat)
    requires s.phase.Run? ==> 0 < s.phase.p < N
  {
    && Enabled(s, e) && e.Syscall? && s.phase.Run?
    && ((s.phase.p == t && GivesUp(s, e.call))
        || ((e.call.Unfreeze? || e.call.Delete?) && Target(s.phase.p, e.call.id) == t))
  }

  /** In or out of control, a frozen task stays frozen in a step exactly if the step does not thaw it. */
  lemma FrozenStep(s: State, e: Event, t: nat)
    requires Inv(s) && 1 <= t < N && s.tasks[t].entry && s.tasks[t].status.frozen
    ensures Inv(Step(s, e))
    ensures Step(s, e).tasks[t].status.frozen <==> !Thaws(s, e, t)
    ensures Step(s, e).tasks[t].status.frozen ==> Step(s, e).tasks[t].entry
  {
    StepKeepsInv(s, e);
    if Passing(s, e) {
      PickFirst(s.tasks, s.current);
      var c := Pick(s.tasks, s.current);
      if c != 0 {
        TendsOne(s.(current := c), c, t);
      }
    } else if Enabled(s, e) && e.Syscall? && s.phase.Run? {
      FrozenCall(s, e.call, t);
    }
  }

  lemma FrozenCall(s: State, c: Call, t: nat)
    requires Inv(s) && s.phase.Run? && 1 <= t < N && s.tasks[t].entry && s.tasks[t].status.frozen
    ensures var t' := Called(s, c).tasks[t];
            && (t'.status.frozen ==> t'.entry)
            && (t'.status.frozen <==>
                  !((s.phase.p == t && GivesUp(s, c))
                    || ((c.Unfreeze? || c.Delete?) && Target(s.phase.p, c.id) == t)))
  {
    if Changes(c) {
      FrozenChange(s.tasks[t], c);
    }
  }

  lemma FrozenChange(t: Task, c: Call)
    requires t.entry && t.status.frozen && Changes(c)
    ensures Changed(t, c).status.frozen <==> !c.Unfreeze? && !c.Delete?
    ensures !c.Delete? ==> Changed(t, c).entry
  {
  }

  /** No event of the run thaws task t. */
  ghost predicate NeverThaws(s: State, es: seq<Event>, t: nat)
    requires Inv(s)
    decreases |es|
  {
    es != [] ==> !Thaws(s, es[0], t) && (StepKeepsInv(s, es[0]); NeverThaws(Step(s, es[0]), es[1..], t))
  }

  /** A frozen task is frozen all through a run exactly if no event thaws it. */
  lemma {:induction false} FrozenThroughout(s: State, es: seq<Event>, t: nat)
    requires Inv(s) && 1 <= t < N && s.tasks[t].entry && s.tasks[t].status.frozen
    ensures NeverThaws(s, es, t) <==> forall k :: 0 <= k <= |es| ==> After(s, es[..k]).tasks[t].status.frozen
    decreases |es|
  {
    if es == [] {
      assert es[..0] == [];
    } else {
      FrozenStep(s, es[0], t);
      var s', rest := Step(s, es[0]), es[1..];
      forall k | 0 <= k < |es| ensures After(s, es[..k + 1]) == After(s', rest[..k]) {
        AfterFirst(s, es, k);
      }
      assert After(s, es[..0]) == s && After(s', rest[..0]) == s';
      assert s'.tasks[t].status.frozen <==> After(s, es[..1]).tasks[t].status.frozen;
      if s'.tasks[t].status.frozen {
        FrozenThroughout(s', rest, t);
        if NeverThaws(s, es, t) {
          forall k | 0 <= k <= |es| ensures After(s, es[..k]).tasks[t].status.frozen {
            assert k > 0 ==> After(s, es[..(k - 1) + 1]) == After(s', rest[..k - 1]);
          }
        }
        if forall k :: 0 <= k <= |es| ==> After(s, es[..k]).tasks[t].status.frozen {
          forall k | 0 <= k <= |rest| ensures After(s', rest[..k]).tasks[t].status.frozen {
            assert After(s, es[..k + 1]).tasks[t].status.frozen;
          }
        }
      }
    }
  }

  // ---- masking, returning and restarting ----

  /** A masked user signal does not become pending; unmasking undoes masking. */
  lemma MaskedSignal(t: Task, sig: Signals)
    requires Both(sig, RESERVED) == NONE && Within(sig, t.mask)
    ensures Notified(Ignoring(t, sig), sig) == Ignoring(t, sig)
    ensures Allowing(Ignoring(t, sig), sig) == t
    ensures Within(sig, Notified(t, sig).pending)
  {
  }

  /** Task t has returned, and the scheduler has noticed. */
  predicate Dead(s: State, t: nat)
    requires |s.tasks| == N && t < N
  {
    s.tasks[t].entry && s.tasks[t].status.base == Zombie
  }

  /** The event neither restarts nor deletes task t. */
  predicate LetsRest(e: Event, t: nat) {
    e.Syscall? ==> e.call != Restart(t) && e.call != Delete(t)
  }

  lemma DeadStep(s: State, e: Event, t: nat)
    requires Inv(s) && 1 <= t < N && Dead(s, t) && LetsRest(e, t)
    ensures Inv(Step(s, e)) && Dead(Step(s, e), t) && !Chosen(s, e, t)
  {
    StepKeepsInv(s, e);
    if Passing(s, e) {
      PickFirst(s.tasks, s.current);
      var c := Pick(s.tasks, s.current);
      if c != 0 {
        TendsOne(s.(current := c), c, t);
      }
    } else if Enabled(s, e) && e.Syscall? && s.phase.Run? {
      DeadCall(s, e.call, t);
    }
  }

  lemma DeadCall(s: State, c: Call, t: nat)
    requires Inv(s) && s.phase.Run? && 1 <= t < N && Dead(s, t) && LetsRest(Syscall(c), t)
    ensures Dead(Called(s, c), t)
  {
    if Changes(c) && Target(s.phase.p, c.id) == t {
      assert Changed(s.tasks[t], c).status.base == Zombie && Changed(s.tasks[t], c).entry;
    }
  }

  /** As long as nobody restarts or deletes a dead task, it is never chosen. */
  lemma {:induction false} StaysDead(s: State, es: seq<Event>, t: nat)
    requires Inv(s) && 1 <= t < N && Dead(s, t) && forall i :: 0 <= i < |es| ==> LetsRest(es[i], t)
    ensures Dead(After(s, es), t) && t !in Picks(s, es)
    decreases |es|
  {
    if es != [] {
      DeadStep(s, es[0], t);
      StaysDead(Step(s, es[0]), es[1..], t);
    }
  }

  /** The visit to a task that returned. */
  lemma DiesWhenVisited(s: State, t: nat)
    requires Inv(s) && s.phase == Sched && 1 <= t < N && s.tasks[t].entry && Is(s.tasks[t], Running)
    requires Pick(s.tasks, s.current) == t
    ensures Inv(Passed(s)) && Dead(Passed(s), t)
  {
    PassKeepsInv(s);
  }

  /** A dead task that is restarted can be chosen, and will be started. */
  lemma RestartedStarts(s: State, t: nat)
    requires Inv(s) && s.phase.Run? && 1 <= t < N && Dead(s, t) && !s.tasks[t].status.frozen
    ensures var r := Called(s, Restart(t)).tasks[t]; Eligible(r) && !r.wkup && r.ctx.Nowhere?
  {
    assert TaskOk(s.tasks[t]);
  }

  /** A task that returned is not scheduled again after its next visit, until it is restarted; then it is started from
      its entry point when it is chosen. */
  lemma ReturnAndRestart(s: State, es: seq<Event>, t: nat)
    requires Inv(s) && s.phase == Sched && 1 <= t < N && s.tasks[t].entry && Is(s.tasks[t], Running)
    requires Pick(s.tasks, s.current) == t && forall i :: 0 <= i < |es| ==> LetsRest(es[i], t)
    ensures Inv(Passed(s)) && t !in Picks(Passed(s), es)
    ensures var d := After(Passed(s), es);
            && Dead(d, t)
            && (d.phase.Run? && !d.tasks[t].status.frozen ==>
                  var r := Called(d, Restart(t)).tasks[t]; Eligible(r) && !r.wkup && r.ctx.Nowhere?)
  {
    DiesWhenVisited(s, t);
    StaysDead(Passed(s), es, t);
    var d := After(Passed(s), es);
    if d.phase.Run? && !d.tasks[t].status.frozen {
      RestartedStarts(d, t);
    }
  }
}
