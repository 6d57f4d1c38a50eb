/**
 A task descriptor and everything the kernel does to a single one.
 */
module KernelTask {
  /** The status word: one of the base bits, and the frozen bit. */
  datatype Base = NotRunning | Ready | Running | Suspended | Zombie
  datatype Status = Status(base: Base, frozen: bool)

  /** A signal mask: the four reserved signals and the four user signals, bit by bit. */
  datatype Signals = Signals(wkp: bool, que: bool, alm: bool, tmr: bool, u1: bool, u2: bool, u3: bool, u4: bool)

  const NONE := Signals(false, false, false, false, false, false, false, false)
  const SIGQUE := NONE.(que := true)
  const SIGALM := NONE.(alm := true)
  const SIGTMR := NONE.(tmr := true)
  const RESERVED := Signals(true, true, true, true, false, false, false, false)
  const ALL := Signals(true, true, true, true, true, true, true, true)

  function Either(a: Signals, b: Signals): Signals {
    Signals(a.wkp || b.wkp, a.que || b.que, a.alm || b.alm, a.tmr || b.tmr,
            a.u1 || b.u1, a.u2 || b.u2, a.u3 || b.u3, a.u4 || b.u4)
  }

  function Both(a: Signals, b: Signals): Signals {
    Signals(a.wkp && b.wkp, a.que && b.que, a.alm && b.alm, a.tmr && b.tmr,
            a.u1 && b.u1, a.u2 && b.u2, a.u3 && b.u3, a.u4 && b.u4)
  }

  /** The signals of a that are not in b. */
  function Less(a: Signals, b: Signals): Signals {
    Signals(a.wkp && !b.wkp, a.que && !b.que, a.alm && !b.alm, a.tmr && !b.tmr,
            a.u1 && !b.u1, a.u2 && !b.u2, a.u3 && !b.u3, a.u4 && !b.u4)
  }

  predicate Meet(a: Signals, b: Signals) {
    Both(a, b) != NONE
  }

  predicate Within(a: Signals, b: Signals) {
    Both(a, b) == a
  }

  // ---- masks and status words as the kernel has them, in bits ----

  /** The mask that a byte stands for. */
  function FromBits(v: bv8): Signals {
    Signals(v & 0x01 != 0, v & 0x02 != 0, v & 0x04 != 0, v & 0x08 != 0,
            v & 0x10 != 0, v & 0x20 != 0, v & 0x40 != 0, v & 0x80 != 0)
  }

  /** The operations on masks are those on bytes. */
  lemma EitherBits(a: bv8, b: bv8)
    ensures FromBits(a | b) == Either(FromBits(a), FromBits(b))
  {
  }

  lemma BothBits(a: bv8, b: bv8)
    ensures FromBits(a & b) == Both(FromBits(a), FromBits(b))
  {
  }

  lemma LessBits(a: bv8, b: bv8)
    ensures FromBits(a & !b) == Less(FromBits(a), FromBits(b))
  {
  }

  lemma MeetBits(a: bv8, b: bv8)
    ensures a & b != 0 <==> Meet(FromBits(a), FromBits(b))
  {
  }

  lemma SignalNumbers()
    ensures FromBits(0) == NONE && FromBits(0xFF) == ALL && FromBits(0x0F) == RESERVED
    ensures FromBits(0x02) == SIGQUE && FromBits(0x04) == SIGALM && FromBits(0x08) == SIGTMR
  {
  }

  const WORD := 0x1_0000_0000_0000_0000 // range of the real-time counter

  /** A saved execution context that was not resumed yet: the place in the kernel where the task gave up control. */
  datatype Context = Nowhere | AfterSignal(sig: Signals) | InReceive(queue: nat)

  datatype Task = Task(
    entry: bool,       // has an entry point
    status: Status,
    wkup: bool,        // resume a saved context instead of starting
    tick: int,         // visits to sleep through
    timeout: nat,      // real time to wake up at, 0 if none
    mask: Signals,         // signals that may be posted
    pending: Signals,
    waiting: Signals,
    ctx: Context)

  /** The status word is a base bit and nothing else. */
  predicate Is(t: Task, base: Base) {
    t.status == Status(base, false)
  }

  // ---- life cycle ----

  function Deleted(t: Task): Task {
    t.(entry := false, mask := NONE, pending := NONE, waiting := NONE,
       status := Status(NotRunning, false), wkup := false, tick := 0, ctx := Nowhere)
  }

  const CREATED := Task(true, Status(Ready, false), false, 0, 0, ALL, NONE, NONE, Nowhere)

  function Frozen(t: Task): Task {
    t.(status := t.status.(frozen := true))
  }

  function Unfrozen(t: Task): Task {
    t.(status := t.status.(frozen := false))
  }

  function Restarted(t: Task): Task {
    if t.entry && Is(t, Zombie) then t.(status := Status(Ready, false)) else t
  }

  function StatusWord(s: Status): bv8 {
    (match s.base
     case NotRunning => 1
     case Ready => 2
     case Running => 4
     case Suspended => 8
     case Zombie => 16)
    | if s.frozen then 32 else 0
  }

  /** What is done to a status, and asked of it, is done to a word and asked of it. */
  lemma StatusBits(t: Task, u: Task)
    ensures StatusWord(Frozen(t).status) == StatusWord(t.status) | 32
    ensures StatusWord(Unfrozen(t).status) == StatusWord(t.status) & !32
    ensures StatusWord(Deleted(t).status) == 1 && StatusWord(CREATED.status) == 2
    ensures Is(t, Zombie) <==> StatusWord(t.status) == 16
    ensures StatusWord(t.status) & (2 | 4 | 8) != 0 <==> t.status.base in {Ready, Running, Suspended}
    ensures StatusWord(t.status) == StatusWord(u.status) <==> t.status == u.status
  {
  }

  // ---- signals ----

  function Notified(t: Task, sig: Signals): Task {
    t.(pending := Either(t.pending, Both(sig, t.mask)))
  }

  function Ignoring(t: Task, sig: Signals): Task {
    t.(mask := Less(t.mask, Less(sig, RESERVED)))
  }

  function Allowing(t: Task, sig: Signals): Task {
    t.(mask := Either(t.mask, Less(sig, RESERVED)))
  }

  /** The task waits for sig, at ctx. */
  function Waiting(t: Task, sig: Signals, ctx: Context): Task {
    t.(ctx := ctx, waiting := Either(t.waiting, sig),
       status := if t.status.base in {Ready, Running, Suspended} then Status(Suspended, false) else t.status)
  }

  /** 32 bits read as a signed number. */
  function Signed32(n: nat): (r: int)
    ensures n < 0x8000_0000 ==> r == n
    ensures 0x8000_0000 <= n < 0x1_0000_0000 ==> r < 0
  {
    var m := n % 0x1_0000_0000;
    if m < 0x8000_0000 then m else m - 0x1_0000_0000
  }

  /** The task sleeps through count visits. */
  function Dozing(t: Task, count: nat): Task {
    Waiting(t, SIGALM, AfterSignal(SIGALM)).(tick := Signed32(count))
  }

  /** The task sleeps for a span of real time. */
  function Sleeping(t: Task, rtc: nat, count: nat): Task {
    Waiting(t, SIGTMR, AfterSignal(SIGTMR)).(timeout := (rtc + count % 0x1_0000_0000) % WORD)
  }

  /** The task goes on behind the place where it waited for sig. */
  function Resumed(t: Task, sig: Signals): Task {
    t.(status := Status(Running, false), wkup := false,
       waiting := Less(t.waiting, sig), pending := Less(t.pending, sig), ctx := Nowhere)
  }

  function SignalOf(ctx: Context): Signals {
    match ctx
    case Nowhere => NONE
    case AfterSignal(sig) => sig
    case InReceive(_) => SIGQUE
  }

  // ---- a visit of the scheduler to a suspended task ----

  /** The alarm counts visits. */
  function Alarmed(t: Task): Task {
    if !Meet(t.waiting, SIGALM) then t
    else if t.tick > 0 then t.(tick := t.tick - 1)
    else t.(pending := Either(t.pending, SIGALM))
  }

  /** The timer compares times. */
  function Timed(t: Task, rtc: nat): Task {
    if Meet(t.waiting, SIGTMR) && t.timeout != 0 && rtc >= t.timeout then
      t.(pending := Either(t.pending, SIGTMR), timeout := 0)
    else t
  }

  function Woken(t: Task): Task {
    if Meet(t.pending, t.waiting) then
      t.(wkup := true, status := Status(Ready, false), pending := Less(t.pending, Both(t.pending, t.waiting)))
    else t
  }

  function Visited(t: Task, rtc: nat): Task {
    Woken(Timed(Alarmed(t), rtc))
  }

  // ---- what holds of every task ----

  /** The status is a known one. A context is saved exactly while the task is suspended, or ready to be resumed, and
      then it is the place where the task waits for what it says it waits for. Reserved signals are not masked. */
  predicate TaskOk(t: Task) {
    if !t.entry then t.status.base == NotRunning && !t.wkup && t.ctx == Nowhere
    else
      && t.status.base != NotRunning
      && (t.ctx.Nowhere? <==> t.status.base in {Running, Zombie} || (t.status.base == Ready && !t.wkup))
      && (t.wkup ==> t.status.base == Ready)
      && t.waiting == SignalOf(t.ctx)
      && Within(RESERVED, t.mask)
  }

  lemma MaskingKeepsTaskOk(t: Task, sig: Signals)
    requires TaskOk(t)
    ensures TaskOk(Ignoring(t, sig)) && TaskOk(Allowing(t, sig))
  {
  }

  /** What a running task may do to any task keeps it well formed. */
  lemma CallsKeepTaskOk(t: Task, sig: Signals)
    requires TaskOk(t)
    ensures TaskOk(Deleted(t)) && TaskOk(CREATED) && TaskOk(Frozen(t)) && TaskOk(Unfrozen(t)) && TaskOk(Restarted(t))
    ensures TaskOk(Notified(t, sig))
  {
  }

  /** A running task that gives up control keeps its place. */
  lemma WaitingKeepsTaskOk(t: Task, sig: Signals, ctx: Context, rtc: nat, count: nat)
    requires TaskOk(t) && t.entry && t.status.base == Running && SignalOf(ctx) == sig && !ctx.Nowhere?
    ensures TaskOk(Waiting(t, sig, ctx)) && Is(Waiting(t, sig, ctx), Suspended)
    ensures TaskOk(Dozing(t, count)) && TaskOk(Sleeping(t, rtc, count))
  {
  }

  /** A ready task can be run: resumed at its place if it has one, and otherwise started. */
  lemma DispatchKeepsTaskOk(t: Task)
    requires TaskOk(t) && t.entry && Is(t, Ready)
    ensures t.wkup <==> !t.ctx.Nowhere?
    ensures t.wkup ==> TaskOk(Resumed(t, SignalOf(t.ctx)))
    ensures !t.wkup ==> TaskOk(t.(status := Status(Running, false)))
  {
  }

  lemma VisitKeepsTaskOk(t: Task, rtc: nat)
    requires TaskOk(t) && t.entry && Is(t, Suspended)
    ensures TaskOk(Visited(t, rtc))
  {
    var u := Alarmed(t);
    assert TaskOk(u) && u.entry && Is(u, Suspended);
    var v := Timed(u, rtc);
    assert TaskOk(v) && v.entry && Is(v, Suspended);
  }
}
