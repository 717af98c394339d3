/** Threads and semaphores as a step system.
    The kernel runs on one processor.  A region with interrupts off is one
    atomic step, and only the thread on the processor (or an interrupt handler
    running on top of it) takes steps.  A thread that sleeps in sema_down comes
    back with interrupts still off, so its first step is to recheck the count. */
module Threads {
  import opened Containers

  type Tid = nat
  type SemaId = nat

  datatype Status = Running | Ready | Blocked | Dying

  datatype Sema = Sema(value: nat, waiters: seq<Tid>)

  /** `status` has every thread ever created, `cpu` is the thread whose stack the
      processor is on, `inDown` has the threads inside the wait loop of sema_down,
      and `freed` the dead threads whose pages were given back, in order. */
  datatype Kernel = Kernel(
    status: map<Tid, Status>,
    ready: seq<Tid>,
    cpu: Tid,
    idle: Tid,
    initial: Tid,
    nextTid: Tid,
    inDown: map<Tid, SemaId>,
    semas: map<SemaId, Sema>,
    freed: seq<Tid>)

  /** An atomic region, named by the operation it belongs to. */
  datatype Step =
    | Yield
    | Block
    | Unblock(t: Tid)
    | Create
    | Exit
    | Down(s: SemaId)
    | Recheck
    | TryDown(s: SemaId)
    | Up(s: SemaId)

  // ---------------------------------------------------------------- scheduler

  function NextThreadToRun(k: Kernel): Tid {
    if k.ready == [] then k.idle else k.ready[0]
  }

  /** thread_schedule_tail: the new thread is marked running, and only then is a
      dying predecessor freed.  A thread must never free the stack it runs on. */
  function ScheduleTail(k: Kernel, prev: Option<Tid>): Kernel
    requires prev.Some? ==> prev.value != k.cpu && prev.value in k.status
  {
    var k1 := k.(status := k.status[k.cpu := Running]);
    if prev.Some? && k.status[prev.value].Dying? && prev.value != k.initial
    then k1.(freed := k1.freed + [prev.value])
    else k1
  }

  function Schedule(k: Kernel): Kernel
    requires k.cpu in k.status
  {
    var next := NextThreadToRun(k);
    var rest := if k.ready == [] then [] else k.ready[1..];
    ScheduleTail(k.(cpu := next, ready := rest), if next == k.cpu then None else Some(k.cpu))
  }

  function MakeReady(k: Kernel, t: Tid): Kernel {
    k.(status := k.status[t := Ready], ready := k.ready + [t])
  }

  function StopYield(k: Kernel): Kernel {
    k.(status := k.status[k.cpu := Ready],
       ready := if k.cpu != k.idle then k.ready + [k.cpu] else k.ready)
  }

  function Stop(k: Kernel, st: Status): Kernel {
    k.(status := k.status[k.cpu := st])
  }

  // --------------------------------------------------------------- semaphores

  function SetValue(k: Kernel, s: SemaId, v: nat): Kernel
    requires s in k.semas
  {
    k.(semas := k.semas[s := k.semas[s].(value := v)])
  }

  /** The current thread joins the waiters of s and blocks. */
  function StopWait(k: Kernel, s: SemaId): Kernel
    requires s in k.semas
  {
    k.(status := k.status[k.cpu := Blocked],
       inDown := k.inDown[k.cpu := s],
       semas := k.semas[s := k.semas[s].(waiters := k.semas[s].waiters + [k.cpu])])
  }

  /** One turn of sema_down's loop: take the count, or sleep. */
  function DownTurn(k: Kernel, s: SemaId): Kernel
    requires s in k.semas && k.cpu in k.status
  {
    if k.semas[s].value == 0 then Schedule(StopWait(k, s))
    else SetValue(k, s, k.semas[s].value - 1).(inDown := k.inDown - {k.cpu})
  }

  function WakeFirst(k: Kernel, s: SemaId): Kernel
    requires s in k.semas
  {
    var q := k.semas[s];
    if q.waiters == [] then k
    else MakeReady(k.(semas := k.semas[s := q.(waiters := q.waiters[1..])]), q.waiters[0])
  }

  function SemaUp(k: Kernel, s: SemaId): Kernel
    requires s in k.semas
  {
    SetValue(WakeFirst(k, s), s, k.semas[s].value + 1)
  }

  // --------------------------------------------------------------------- runs

  /** When a step may be taken: what the code asserts of its callers, and that
      a thread woken inside sema_down does nothing but recheck. */
  predicate Enabled(k: Kernel, step: Step) {
    && k.cpu in k.status
    && (if step.Recheck? then k.cpu in k.inDown && k.inDown[k.cpu] in k.semas else k.cpu !in k.inDown)
    && match step
       case Yield => true
       case Block => true
       case Unblock(t) => t in k.status && k.status[t].Blocked? && t !in k.inDown && t != k.idle
       case Create => true
       case Exit => k.cpu != k.idle
       case Down(s) => s in k.semas && k.cpu != k.idle
       case Recheck => true
       case TryDown(s) => s in k.semas
       case Up(s) => s in k.semas
  }

  function Apply(k: Kernel, step: Step): Kernel
    requires Enabled(k, step)
  {
    match step
    case Yield => Schedule(StopYield(k))
    case Block => Schedule(Stop(k, Blocked))
    case Unblock(t) => MakeReady(k, t)
    case Create => MakeReady(k, k.nextTid).(nextTid := k.nextTid + 1)
    case Exit => Schedule(Stop(k, Dying))
    case Down(s) => DownTurn(k, s)
    case Recheck => DownTurn(k, k.inDown[k.cpu])
    case TryDown(s) => if k.semas[s].value > 0 then SetValue(k, s, k.semas[s].value - 1) else k
    case Up(s) => SemaUp(k, s)
  }

  /** The state when thread_start returns: the initial thread runs, the idle thread has
      blocked itself or was preempted before it could, and no semaphore has waiters. */
  predicate Init(k: Kernel) {
    && k.idle != k.initial && k.idle < k.nextTid && k.initial < k.nextTid
    && k.idle in k.status && (k.status[k.idle].Blocked? || k.status[k.idle].Ready?)
    && k.status == map[k.initial := Running, k.idle := k.status[k.idle]]
    && k.cpu == k.initial
    && k.ready == [] && k.inDown == map[] && k.freed == []
    && forall s <- k.semas :: k.semas[s].waiters == []
  }

  ghost predicate StepAt(trace: seq<Kernel>, steps: seq<Step>, i: nat)
    requires i < |steps| && |trace| == |steps| + 1
  {
    Enabled(trace[i], steps[i]) && trace[i + 1] == Apply(trace[i], steps[i])
  }

  ghost predicate Run(trace: seq<Kernel>, steps: seq<Step>) {
    && |trace| == |steps| + 1
    && Init(trace[0])
    && forall i :: 0 <= i < |steps| ==> StepAt(trace, steps, i)
  }

  // ---------------------------------------------------------------- invariant

  ghost predicate ThreadsOk(k: Kernel) {
    && k.cpu in k.status && k.idle in k.status && k.initial in k.status && k.idle != k.initial
    && k.status[k.idle] != Dying
    && forall t <- k.status :: t < k.nextTid
  }

  /** The ready list holds exactly the READY threads other than idle, once each. */
  ghost predicate ReadyOk(k: Kernel) {
    && Distinct(k.ready)
    && forall t: Tid :: t in k.ready <==> t in k.status && k.status[t].Ready? && t != k.idle
  }

  /** A wait list holds exactly the BLOCKED threads that are inside sema_down on it. */
  ghost predicate WaitersOk(k: Kernel, s: SemaId)
    requires s in k.semas
  {
    && Distinct(k.semas[s].waiters)
    && forall t: Tid :: t in k.semas[s].waiters <==>
        t in k.inDown && k.inDown[t] == s && t in k.status && k.status[t].Blocked?
  }

  ghost predicate WaitOk(k: Kernel) {
    && (forall s <- k.semas :: WaitersOk(k, s))
    && (forall t <- k.inDown :: t in k.status && k.inDown[t] in k.semas && t != k.idle && !k.status[t].Dying?)
  }

  /** Threads woken from s that have not yet rechecked its value. */
  ghost function Woken(k: Kernel, s: SemaId): set<Tid> {
    set t | t in k.inDown && k.inDown[t] == s && t in k.status && (k.status[t].Ready? || k.status[t].Running?)
  }

  ghost predicate CountOk(k: Kernel) {
    forall s <- k.semas :: k.semas[s].waiters != [] ==> k.semas[s].value <= |Woken(k, s)|
  }

  ghost predicate OneRunning(k: Kernel) {
    forall t <- k.status :: k.status[t].Running? <==> t == k.cpu
  }

  /** Exactly the dead threads other than the initial one have been freed, once
      each; while `pending` the current thread is dying and not yet freed. */
  ghost predicate FreedOk(k: Kernel, pending: bool) {
    && Distinct(k.freed)
    && forall t: Tid :: t in k.freed <==>
        t in k.status && k.status[t].Dying? && t != k.initial && !(pending && t == k.cpu)
  }

  ghost predicate Inv(k: Kernel) {
    ThreadsOk(k) && ReadyOk(k) && WaitOk(k) && CountOk(k) && OneRunning(k) && FreedOk(k, false)
  }

  /** Between giving up the processor and the next thread taking it. */
  ghost predicate Stopped(k: Kernel) {
    && ThreadsOk(k) && ReadyOk(k) && WaitOk(k) && CountOk(k) && FreedOk(k, true)
    && (forall t <- k.status :: !k.status[t].Running?)
  }

  /** Wait lists and woken sets depend only on the threads inside sema_down. */
  lemma WaitFrame(k: Kernel, k1: Kernel)
    requires WaitOk(k) && k1.semas == k.semas && k1.inDown == k.inDown && k1.idle == k.idle
    requires forall t <- k.inDown :: t in k1.status && !k1.status[t].Dying? &&
                                     (k1.status[t].Blocked? <==> k.status[t].Blocked?)
    ensures WaitOk(k1)
    ensures CountOk(k) ==> CountOk(k1)
  {
    forall s | s in k.semas
      ensures WaitersOk(k1, s) && Woken(k1, s) == Woken(k, s)
    {
      assert WaitersOk(k, s);
    }
  }

  lemma ScheduleKeepsReady(k: Kernel)
    requires ReadyOk(k) && ThreadsOk(k)
    requires forall t <- k.status :: !k.status[t].Running?
    ensures ReadyOk(Schedule(k)) && OneRunning(Schedule(k)) && ThreadsOk(Schedule(k))
  {
    if k.ready != [] {
      DropFirst(k.ready);
      assert k.ready[0] in k.ready;
    }
  }

  lemma ScheduleFrees(k: Kernel)
    requires ReadyOk(k) && ThreadsOk(k) && FreedOk(k, true)
    ensures FreedOk(Schedule(k), false)
  {
    var k' := Schedule(k);
    assert k.ready != [] ==> k.ready[0] in k.ready;
    assert k'.freed == k.freed || (k'.freed == k.freed + [k.cpu] && k.cpu !in k.freed);
  }

  lemma ScheduleRestores(k: Kernel)
    requires Stopped(k)
    ensures Inv(Schedule(k))
  {
    ScheduleKeepsReady(k);
    ScheduleFrees(k);
    assert Schedule(k).cpu == k.idle || Schedule(k).cpu in k.ready;
    WaitFrame(k, Schedule(k));
  }

  lemma YieldKeepsInv(k: Kernel)
    requires Inv(k) && k.cpu !in k.inDown
    ensures Inv(Schedule(StopYield(k)))
  {
    WaitFrame(k, StopYield(k));
    ScheduleRestores(StopYield(k));
  }

  lemma StopKeepsInv(k: Kernel, st: Status)
    requires Inv(k) && k.cpu !in k.inDown
    requires st.Blocked? || (st.Dying? && k.cpu != k.idle)
    ensures Inv(Schedule(Stop(k, st)))
  {
    WaitFrame(k, Stop(k, st));
    ScheduleRestores(Stop(k, st));
  }

  lemma MakeReadyKeepsInv(k: Kernel, t: Tid)
    requires Inv(k) && t <= k.nextTid
    requires t in k.status ==> k.status[t].Blocked? && t !in k.inDown && t != k.idle
    ensures Inv(MakeReady(k, t).(nextTid := if t == k.nextTid then t + 1 else k.nextTid))
  {
    WaitFrame(k, MakeReady(k, t).(nextTid := if t == k.nextTid then t + 1 else k.nextTid));
  }

  lemma StopWaitAt(k: Kernel, s: SemaId, r: SemaId)
    requires s in k.semas && r in k.semas && WaitersOk(k, r) && k.cpu in k.status && k.status[k.cpu].Running?
    requires k.cpu in k.inDown ==> k.inDown[k.cpu] == s
    ensures WaitersOk(StopWait(k, s), r) && (r != s ==> Woken(StopWait(k, s), r) == Woken(k, r))
  {
    assert k.cpu !in k.semas[r].waiters;
  }

  lemma StopWaitKeepsWaiters(k: Kernel, s: SemaId)
    requires Inv(k) && s in k.semas && k.cpu != k.idle
    requires k.cpu in k.inDown ==> k.inDown[k.cpu] == s
    requires k.semas[s].value == 0
    ensures WaitOk(StopWait(k, s)) && CountOk(StopWait(k, s))
  {
    hide WaitersOk, Woken, ReadyOk, FreedOk;
    var k1 := StopWait(k, s);
    forall r | r in k1.semas
      ensures WaitersOk(k1, r)
      ensures r != s ==> Woken(k1, r) == Woken(k, r)
    {
      StopWaitAt(k, s, r);
    }
  }

  lemma SleepKeepsInv(k: Kernel, s: SemaId)
    requires Inv(k) && s in k.semas && k.cpu != k.idle
    requires k.cpu in k.inDown ==> k.inDown[k.cpu] == s
    requires k.semas[s].value == 0
    ensures Inv(Schedule(StopWait(k, s)))
  {
    StopWaitKeepsWaiters(k, s);
    ScheduleRestores(StopWait(k, s));
  }

  lemma TakeKeepsInv(k: Kernel, s: SemaId)
    requires Inv(k) && s in k.semas && k.semas[s].value > 0
    requires k.cpu in k.inDown ==> k.inDown[k.cpu] == s
    ensures Inv(SetValue(k, s, k.semas[s].value - 1).(inDown := k.inDown - {k.cpu}))
  {
    hide WaitersOk, Woken;
    TakeKeepsWaiters(k, s);
  }

  lemma TakeAt(k: Kernel, s: SemaId, v: nat, r: SemaId)
    requires s in k.semas && r in k.semas && WaitersOk(k, r) && k.cpu in k.status && k.status[k.cpu].Running?
    requires k.cpu in k.inDown ==> k.inDown[k.cpu] == s
    ensures
      var k1 := SetValue(k, s, v).(inDown := k.inDown - {k.cpu});
      WaitersOk(k1, r) && Woken(k1, r) == Woken(k, r) - {k.cpu} && (r != s ==> k.cpu !in Woken(k, r))
  {
  }

  lemma TakeKeepsWaiters(k: Kernel, s: SemaId)
    requires Inv(k) && s in k.semas && k.semas[s].value > 0
    requires k.cpu in k.inDown ==> k.inDown[k.cpu] == s
    ensures
      var k1 := SetValue(k, s, k.semas[s].value - 1).(inDown := k.inDown - {k.cpu});
      WaitOk(k1) && CountOk(k1)
  {
    hide WaitersOk, Woken, ReadyOk, FreedOk;
    var k1 := SetValue(k, s, k.semas[s].value - 1).(inDown := k.inDown - {k.cpu});
    forall r | r in k1.semas
      ensures WaitersOk(k1, r)
      ensures Woken(k1, r) == Woken(k, r) - {k.cpu}
      ensures r != s ==> k.cpu !in Woken(k, r)
    {
      TakeAt(k, s, k.semas[s].value - 1, r);
    }
  }

  lemma ValueKeepsInv(k: Kernel, s: SemaId, v: nat)
    requires ThreadsOk(k) && ReadyOk(k) && WaitOk(k) && OneRunning(k) && FreedOk(k, false)
    requires forall r <- k.semas :: k.semas[r].waiters != [] ==>
        (if r == s then v else k.semas[r].value) <= |Woken(k, r)|
    requires s in k.semas
    ensures Inv(SetValue(k, s, v))
  {
    var k1 := SetValue(k, s, v);
    forall r | r in k1.semas
      ensures WaitersOk(k1, r) && Woken(k1, r) == Woken(k, r)
    {
      assert WaitersOk(k, r);
    }
  }

  lemma WakeKeepsWaiters(k: Kernel, s: SemaId)
    requires ThreadsOk(k) && WaitOk(k) && s in k.semas && k.semas[s].waiters != []
    ensures WaitOk(WakeFirst(k, s))
    ensures |Woken(WakeFirst(k, s), s)| == |Woken(k, s)| + 1
    ensures forall r <- k.semas :: r != s ==> Woken(WakeFirst(k, s), r) == Woken(k, r)
  {
    var k1 := WakeFirst(k, s);
    var q := k.semas[s].waiters;
    assert WaitersOk(k, s);
    DropFirst(q);
    assert q[0] in q;
    forall r | r in k1.semas
      ensures WaitersOk(k1, r)
    {
      assert WaitersOk(k, r);
    }
    assert Woken(k1, s) == Woken(k, s) + {q[0]} && q[0] !in Woken(k, s);
    assert forall r <- k.semas :: r != s ==> Woken(k1, r) == Woken(k, r);
  }

  lemma WakeKeepsReady(k: Kernel, s: SemaId)
    requires Inv(k) && s in k.semas && k.semas[s].waiters != []
    ensures var k1 := WakeFirst(k, s);
      ThreadsOk(k1) && ReadyOk(k1) && OneRunning(k1) && FreedOk(k1, false)
  {
    assert WaitersOk(k, s) && k.semas[s].waiters[0] in k.semas[s].waiters;
  }

  lemma UpKeepsInv(k: Kernel, s: SemaId)
    requires Inv(k) && s in k.semas
    ensures Inv(SemaUp(k, s))
  {
    var k1 := WakeFirst(k, s);
    if k.semas[s].waiters != [] {
      WakeKeepsReady(k, s);
      WakeKeepsWaiters(k, s);
    }
    ValueKeepsInv(k1, s, k.semas[s].value + 1);
  }

  lemma TurnKeepsInv(k: Kernel, s: SemaId)
    requires Inv(k) && s in k.semas && k.cpu != k.idle
    requires k.cpu in k.inDown ==> k.inDown[k.cpu] == s
    ensures Inv(DownTurn(k, s))
  {
    assert k.cpu in k.status;
    hide Inv;
    if k.semas[s].value == 0 { SleepKeepsInv(k, s); } else { TakeKeepsInv(k, s); }
  }

  /** Every atomic region keeps the invariant. */
  lemma StepKeepsInv(k: Kernel, step: Step)
    requires Inv(k) && Enabled(k, step)
    ensures Inv(Apply(k, step))
  {
    hide WaitersOk, Woken, CountOk, FreedOk, Schedule;
    match step
    case Yield => YieldKeepsInv(k);
    case Block => StopKeepsInv(k, Blocked);
    case Unblock(t) => MakeReadyKeepsInv(k, t);
    case Create => MakeReadyKeepsInv(k, k.nextTid);
    case Exit => StopKeepsInv(k, Dying);
    case Down(s) => TurnKeepsInv(k, s);
    case Recheck => TurnKeepsInv(k, k.inDown[k.cpu]);
    case TryDown(s) =>
      if k.semas[s].value > 0 {
        TakeKeepsInv(k, s);
        assert k.inDown - {k.cpu} == k.inDown;
      }
    case Up(s) => UpKeepsInv(k, s);
  }

  // -------------------------------------------------------- theorems over runs

  /** In every reachable state one thread runs, the ready list is exact, no
      thread is on two lists, and the freed threads are exactly the dead ones. */
  lemma {:induction false} RunKeepsInv(trace: seq<Kernel>, steps: seq<Step>, i: nat)
    requires Run(trace, steps) && i < |trace|
    ensures Inv(trace[i])
  {
    if i == 0 {
      assert forall s <- trace[0].semas :: WaitersOk(trace[0], s);
    } else {
      RunKeepsInv(trace, steps, i - 1);
      assert StepAt(trace, steps, i - 1);
      StepKeepsInv(trace[i - 1], steps[i - 1]);
    }
  }

  /** Wait lists and the ready list never share a thread. */
  lemma ListsAreDisjoint(trace: seq<Kernel>, steps: seq<Step>, i: nat, t: Tid, s: SemaId, r: SemaId)
    requires Run(trace, steps) && i < |trace|
    requires s in trace[i].semas && r in trace[i].semas && t in trace[i].semas[s].waiters
    ensures t !in trace[i].ready
    ensures t in trace[i].semas[r].waiters ==> r == s
  {
    RunKeepsInv(trace, steps, i);
    assert WaitersOk(trace[i], s) && WaitersOk(trace[i], r);
  }

  /** The step takes one unit from semaphore s. */
  ghost predicate Takes(k: Kernel, step: Step, s: SemaId) {
    && s in k.semas && k.semas[s].value > 0
    && (step == Down(s) || step == TryDown(s) || (step.Recheck? && k.cpu in k.inDown && k.inDown[k.cpu] == s))
  }

  ghost function Downs(trace: seq<Kernel>, steps: seq<Step>, s: SemaId, n: nat): nat
    requires n <= |steps| <= |trace|
  {
    if n == 0 then 0
    else Downs(trace, steps, s, n - 1) + if Takes(trace[n - 1], steps[n - 1], s) then 1 else 0
  }

  ghost function Ups(steps: seq<Step>, s: SemaId, n: nat): nat
    requires n <= |steps|
  {
    if n == 0 then 0 else Ups(steps, s, n - 1) + if steps[n - 1] == Up(s) then 1 else 0
  }

  lemma StepMovesValue(k: Kernel, step: Step, s: SemaId)
    requires Enabled(k, step) && s in k.semas
    ensures s in Apply(k, step).semas
    ensures Apply(k, step).semas[s].value ==
      k.semas[s].value + (if step == Up(s) then 1 else 0) - (if Takes(k, step, s) then 1 else 0)
  {
  }

  /** value = initial + ups - downs, throughout every run. */
  lemma {:induction false} ValueIsConserved(trace: seq<Kernel>, steps: seq<Step>, s: SemaId, n: nat)
    requires Run(trace, steps) && n < |trace| && s in trace[0].semas
    ensures s in trace[n].semas
    ensures trace[n].semas[s].value == trace[0].semas[s].value + Ups(steps, s, n) - Downs(trace, steps, s, n)
  {
    if n > 0 {
      ValueIsConserved(trace, steps, s, n - 1);
      assert StepAt(trace, steps, n - 1);
      StepMovesValue(trace[n - 1], steps[n - 1], s);
    }
  }

  /** The step calls schedule(). */
  ghost predicate Decides(k: Kernel, step: Step) {
    match step
    case Yield => true
    case Block => true
    case Exit => true
    case Down(s) => s in k.semas && k.semas[s].value == 0
    case Recheck => k.cpu in k.inDown && k.inDown[k.cpu] in k.semas && k.semas[k.inDown[k.cpu]].value == 0
    case _ => false
  }

  ghost function Decisions(trace: seq<Kernel>, steps: seq<Step>, i: nat, j: nat): nat
    requires i <= j <= |steps| <= |trace|
    decreases j - i
  {
    if i == j then 0
    else (if Decides(trace[i], steps[i]) then 1 else 0) + Decisions(trace, steps, i + 1, j)
  }

  lemma StepMovesQueue(k: Kernel, step: Step, p: nat)
    requires Enabled(k, step) && p < |k.ready|
    ensures var k1 := Apply(k, step);
      if !Decides(k, step) then p < |k1.ready| && k1.ready[p] == k.ready[p] && k1.cpu == k.cpu
      else if p == 0 then k1.cpu == k.ready[0]
      else p - 1 < |k1.ready| && k1.ready[p - 1] == k.ready[p] && k1.cpu == k.ready[0]
  {
  }

  /** Round robin: the thread at ready position p gets the processor within
      p + 1 scheduling decisions; m is the first moment it has it. */
  lemma {:induction false} RoundRobin(trace: seq<Kernel>, steps: seq<Step>, i: nat, j: nat, p: nat) returns (m: nat)
    requires Run(trace, steps) && i <= j <= |steps|
    requires p < |trace[i].ready| && Decisions(trace, steps, i, j) > p
    ensures i < m <= j && trace[m].cpu == trace[i].ready[p]
    ensures forall n :: i <= n < m ==> trace[n].cpu != trace[i].ready[p]
    decreases j - i
  {
    assert StepAt(trace, steps, i);
    assert trace[i].cpu != trace[i].ready[p] by {
      RunKeepsInv(trace, steps, i);
      assert trace[i].ready[p] in trace[i].ready;
    }
    StepMovesQueue(trace[i], steps[i], p);
    if Decides(trace[i], steps[i]) && p == 0 {
      m := i + 1;
    } else {
      m := RoundRobin(trace, steps, i + 1, j, if Decides(trace[i], steps[i]) then p - 1 else p);
    }
  }

  /** A thread leaves the wait loop of a semaphore only when it has the processor. */
  lemma {:induction false} InDownIsStable(trace: seq<Kernel>, steps: seq<Step>, i: nat, m: nat, t: Tid)
    requires Run(trace, steps) && i <= m < |trace| && t in trace[i].inDown
    requires forall n :: i <= n < m ==> trace[n].cpu != t
    ensures t in trace[m].inDown && trace[m].inDown[t] == trace[i].inDown[t]
  {
    if i < m {
      InDownIsStable(trace, steps, i, m - 1, t);
      assert StepAt(trace, steps, m - 1);
    }
  }

  lemma SomeoneIsWoken(k: Kernel, s: SemaId) returns (t: Tid)
    requires Inv(k) && s in k.semas && k.semas[s].value > 0 && k.semas[s].waiters != []
    ensures t in k.inDown && k.inDown[t] == s && (t == k.cpu || t in k.ready)
  {
    assert |Woken(k, s)| > 0;
    t :| t in Woken(k, s);
  }

  /** No wakeup is lost, even though an arriving thread may take the count
      first: while a semaphore is positive and has sleepers, a thread woken from
      it rechecks within as many decisions as the ready list is long. */
  lemma NoLostWakeup(trace: seq<Kernel>, steps: seq<Step>, i: nat, j: nat, s: SemaId) returns (m: nat)
    requires Run(trace, steps) && i <= j <= |steps|
    requires s in trace[i].semas && trace[i].semas[s].value > 0 && trace[i].semas[s].waiters != []
    requires Decisions(trace, steps, i, j) >= |trace[i].ready|
    ensures i <= m <= j
    ensures trace[m].cpu in trace[m].inDown && trace[m].inDown[trace[m].cpu] == s
    ensures m < |steps| ==> steps[m].Recheck?
  {
    RunKeepsInv(trace, steps, i);
    var t := SomeoneIsWoken(trace[i], s);
    if t == trace[i].cpu {
      m := i;
    } else {
      var p :| 0 <= p < |trace[i].ready| && trace[i].ready[p] == t;
      m := RoundRobin(trace, steps, i, j, p);
      InDownIsStable(trace, steps, i, m, t);
    }
    assert m < |steps| ==> StepAt(trace, steps, m);
  }

  /** Sleepers keep their place in a wait list until an up takes the front one. */
  lemma StepMovesWaiters(k: Kernel, step: Step, s: SemaId, p: nat)
    requires Enabled(k, step) && s in k.semas && p < |k.semas[s].waiters|
    requires step == Up(s) ==> p > 0
    ensures s in Apply(k, step).semas
    ensures var p1 := if step == Up(s) then p - 1 else p;
      var q := Apply(k, step).semas[s].waiters;
      p1 < |q| && q[p1] == k.semas[s].waiters[p]
  {
  }

  lemma UpWakesFront(k: Kernel, s: SemaId)
    requires WaitOk(k) && Enabled(k, Up(s)) && k.semas[s].waiters != []
    ensures k.semas[s].waiters[0] in Woken(Apply(k, Up(s)), s)
  {
    assert WaitersOk(k, s) && k.semas[s].waiters[0] in k.semas[s].waiters;
  }

  /** The sleeper at wait position p is woken by the (p+1)-th up that follows. */
  lemma {:induction false} WaitersAreFifo(trace: seq<Kernel>, steps: seq<Step>, i: nat, j: nat, s: SemaId, p: nat)
    returns (m: nat)
    requires Run(trace, steps) && i <= j <= |steps|
    requires s in trace[i].semas && p < |trace[i].semas[s].waiters|
    requires Ups(steps, s, j) - Ups(steps, s, i) > p
    ensures i < m <= j && steps[m - 1] == Up(s)
    ensures trace[i].semas[s].waiters[p] in Woken(trace[m], s)
    ensures Ups(steps, s, m) - Ups(steps, s, i) == p + 1
    decreases j - i
  {
    assert StepAt(trace, steps, i);
    assert Ups(steps, s, i + 1) == Ups(steps, s, i) + if steps[i] == Up(s) then 1 else 0;
    if steps[i] == Up(s) && p == 0 {
      m := i + 1;
      assert trace[i].semas[s].waiters[p] in Woken(trace[m], s) by {
        RunKeepsInv(trace, steps, i);
        UpWakesFront(trace[i], s);
      }
    } else {
      StepMovesWaiters(trace[i], steps[i], s, p);
      m := WaitersAreFifo(trace, steps, i + 1, j, s, if steps[i] == Up(s) then p - 1 else p);
    }
  }

  /** A thread that exits is freed in that step, after the processor has left
      its stack; the initial thread is not freed. */
  lemma ExitFreesOnce(trace: seq<Kernel>, steps: seq<Step>, i: nat)
    requires Run(trace, steps) && i < |steps| && steps[i] == Exit
    ensures trace[i + 1].cpu != trace[i].cpu
    ensures trace[i].cpu !in trace[i].freed
    ensures trace[i + 1].freed ==
      if trace[i].cpu == trace[i].initial then trace[i].freed else trace[i].freed + [trace[i].cpu]
  {
    RunKeepsInv(trace, steps, i);
    assert StepAt(trace, steps, i);
    assert trace[i].ready != [] ==> trace[i].ready[0] in trace[i].ready;
  }

  lemma StepKeepsFreed(k: Kernel, step: Step)
    requires Enabled(k, step)
    ensures k.freed <= Apply(k, step).freed
  {
  }

  lemma DeadDoesNotRun(k: Kernel, t: Tid)
    requires Inv(k) && t in k.freed
    ensures k.cpu != t && t !in k.ready
  {
  }

  /** A freed thread stays freed, is never on the ready list and never runs. */
  lemma {:induction false} FreedStaysDead(trace: seq<Kernel>, steps: seq<Step>, i: nat, j: nat, t: Tid)
    requires Run(trace, steps) && i <= j < |trace| && t in trace[i].freed
    ensures t in trace[j].freed && trace[j].cpu != t && t !in trace[j].ready
  {
    if i < j {
      FreedStaysDead(trace, steps, i, j - 1, t);
      assert StepAt(trace, steps, j - 1);
      StepKeepsFreed(trace[j - 1], steps[j - 1]);
    }
    assert trace[j].cpu != t && t !in trace[j].ready by {
      RunKeepsInv(trace, steps, j);
      DeadDoesNotRun(trace[j], t);
    }
  }

  // --------------------------------------------------- what the regions are for

  /** The processor went to the first of `queue`, or to the idle thread if there is none,
      and the rest of the queue is ready. */
  ghost predicate Switched(k: Kernel, k1: Kernel, queue: seq<Tid>) {
    && k1.cpu == (if queue == [] then k.idle else queue[0]) && k1.ready == (if queue == [] then [] else queue[1..])
    && k1.cpu in k1.status && k1.status[k1.cpu].Running?
  }

  /** Threads other than t, and the one that now runs, are as they were. */
  ghost predicate OthersSame(k: Kernel, k1: Kernel, t: Tid) {
    forall u :: u in k.status && u != t && u != k1.cpu ==> u in k1.status && k1.status[u] == k.status[u]
  }

  /** The thread that ran went to the end of the ready list, and runs on only if nobody else
      was ready; nobody else's state and no semaphore changed. */
  ghost predicate Yielded(k: Kernel, k1: Kernel) {
    var t := k.cpu;
    && Switched(k, k1, if t == k.idle then k.ready else k.ready + [t]) && OthersSame(k, k1, t)
    && t in k1.status && (t != k1.cpu ==> k1.status[t].Ready?)
    && k1.semas == k.semas && k1.inDown == k.inDown && k1.freed == k.freed
  }

  lemma YieldDoes(k: Kernel)
    requires Inv(k) && Enabled(k, Yield)
    ensures Yielded(k, Apply(k, Yield))
  {
    hide ReadyOk, WaitOk, CountOk, FreedOk;
  }

  /** A thread that yields goes last. */
  lemma YieldGoesLast(trace: seq<Kernel>, steps: seq<Step>, i: nat)
    requires Run(trace, steps) && i < |steps| && steps[i] == Yield
    ensures Yielded(trace[i], trace[i + 1])
  {
    hide Inv, Apply, Yielded;
    RunKeepsInv(trace, steps, i);
    assert StepAt(trace, steps, i);
    YieldDoes(trace[i]);
  }

  /** So it runs again within as many decisions as threads were ready before it. */
  lemma YielderRunsAgain(trace: seq<Kernel>, steps: seq<Step>, i: nat, j: nat) returns (m: nat)
    requires Run(trace, steps) && i < j <= |steps| && steps[i] == Yield && trace[i].cpu != trace[i].idle
    requires Decisions(trace, steps, i + 1, j) >= |trace[i].ready|
    ensures i < m <= j && trace[m].cpu == trace[i].cpu
  {
    YieldGoesLast(trace, steps, i);
    m := i + 1;
    if trace[i].ready != [] {
      m := RoundRobin(trace, steps, i + 1, j, |trace[i].ready| - 1);
    }
  }

  /** The thread that ran gave the processor to the next one and is blocked and on no list. */
  ghost predicate WentOff(k: Kernel, k1: Kernel) {
    var t := k.cpu;
    && Switched(k, k1, k.ready) && OthersSame(k, k1, t) && t in k1.status && t !in k1.inDown
    && (t != k.idle ==> t != k1.cpu && k1.status[t].Blocked?)
    && (t == k.idle && k.ready != [] ==> k1.status[t].Blocked?)
    && k1.semas == k.semas && k1.inDown == k.inDown && k1.freed == k.freed
  }

  lemma BlockDoes(k: Kernel)
    requires Inv(k) && Enabled(k, Block)
    ensures WentOff(k, Apply(k, Block))
  {
    assert k.ready != [] ==> k.ready[0] in k.ready;
    hide WaitOk, CountOk, FreedOk;
  }

  lemma BlockSleeps(trace: seq<Kernel>, steps: seq<Step>, i: nat)
    requires Run(trace, steps) && i < |steps| && steps[i] == Block
    ensures WentOff(trace[i], trace[i + 1])
  {
    hide Inv, Apply, WentOff;
    RunKeepsInv(trace, steps, i);
    assert StepAt(trace, steps, i);
    BlockDoes(trace[i]);
  }

  /** The step wakes t. */
  ghost predicate Wakes(k: Kernel, step: Step, t: Tid) {
    || step == Unblock(t)
    || (step.Up? && step.s in k.semas && k.semas[step.s].waiters != [] && k.semas[step.s].waiters[0] == t)
  }

  lemma StillBlocked(k: Kernel, step: Step, t: Tid)
    requires Inv(k) && Enabled(k, step) && t in k.status && k.status[t].Blocked? && t != k.idle && !Wakes(k, step, t)
    ensures var k1 := Apply(k, step); t in k1.status && k1.status[t].Blocked? && k1.cpu != t
  {
    assert t !in k.ready && k.cpu != t && t < k.nextTid;
    hide Inv, WakeFirst, SemaUp, Schedule;
    match step
    case Yield => ScheduleLeaves(StopYield(k), t);
    case Block => ScheduleLeaves(Stop(k, Blocked), t);
    case Unblock(_) =>
    case Create =>
    case Exit => ScheduleLeaves(Stop(k, Dying), t);
    case Down(s) => ScheduleLeaves(StopWait(k, s), t);
    case Recheck => ScheduleLeaves(StopWait(k, k.inDown[k.cpu]), t);
    case TryDown(_) =>
    case Up(s) => UpWakesOnlyFront(k, s, t);
  }

  lemma ScheduleLeaves(k: Kernel, t: Tid)
    requires k.cpu in k.status && t in k.status && t != k.idle && t !in k.ready
    ensures var k1 := Schedule(k); t in k1.status && k1.status[t] == k.status[t] && k1.cpu != t
  {
    assert k.ready != [] ==> k.ready[0] in k.ready;
  }

  lemma UpWakesOnlyFront(k: Kernel, s: SemaId, t: Tid)
    requires s in k.semas && t in k.status && (k.semas[s].waiters == [] || k.semas[s].waiters[0] != t)
    ensures var k1 := SemaUp(k, s); t in k1.status && k1.status[t] == k.status[t] && k1.cpu == k.cpu
  {
  }

  /** It does not run until somebody unblocks it, or raises the semaphore it waits on while
      it is first in line. */
  lemma {:induction false} SleepsUntilWoken(trace: seq<Kernel>, steps: seq<Step>, i: nat, j: nat, t: Tid)
    requires Run(trace, steps) && i <= j < |trace|
    requires t in trace[i].status && trace[i].status[t].Blocked? && t != trace[i].idle
    requires forall n :: i <= n < j ==> !Wakes(trace[n], steps[n], t)
    ensures t in trace[j].status && trace[j].status[t].Blocked? && trace[j].cpu != t && t != trace[j].idle
    decreases j
  {
    hide Inv, Apply, Enabled, Wakes;
    if i < j {
      SleepsUntilWoken(trace, steps, i, j - 1, t);
      RunKeepsInv(trace, steps, j - 1);
      assert StepAt(trace, steps, j - 1);
      StillBlocked(trace[j - 1], steps[j - 1], t);
      SameIdle(trace[j - 1], steps[j - 1]);
    } else {
      RunKeepsInv(trace, steps, j);
      BlockedIsOff(trace[j], t);
    }
  }

  lemma SameIdle(k: Kernel, step: Step)
    requires Enabled(k, step)
    ensures Apply(k, step).idle == k.idle && Apply(k, step).initial == k.initial
  {
  }

  lemma BlockedIsOff(k: Kernel, t: Tid)
    requires Inv(k) && t in k.status && k.status[t].Blocked?
    ensures k.cpu != t
  {
  }

  /** A thread that is unblocked, or created, becomes ready, last in line; the thread that
      runs runs on and nothing else changes. */
  lemma ReadiesLast(trace: seq<Kernel>, steps: seq<Step>, i: nat, t: Tid)
    requires Run(trace, steps) && i < |steps|
    requires steps[i] == Unblock(t) || (steps[i] == Create && t == trace[i].nextTid)
    ensures
      var k, k1 := trace[i], trace[i + 1];
      && k1.ready == k.ready + [t] && t in k1.status && k1.status[t].Ready? && k1.cpu == k.cpu
      && (forall u :: u in k.status && u != t ==> u in k1.status && k1.status[u] == k.status[u])
      && k1.semas == k.semas && k1.inDown == k.inDown && k1.freed == k.freed
      && (steps[i] == Create ==> t !in k.status && k1.nextTid > t)
  {
    RunKeepsInv(trace, steps, i);
    assert StepAt(trace, steps, i);
    hide ReadyOk, WaitOk, CountOk, FreedOk;
  }

  /** A thread that exits gives the processor away, is dead and on no list. */
  lemma ExitGoes(trace: seq<Kernel>, steps: seq<Step>, i: nat)
    requires Run(trace, steps) && i < |steps| && steps[i] == Exit
    ensures
      var k, k1 := trace[i], trace[i + 1];
      var t := k.cpu;
      && Switched(k, k1, k.ready) && OthersSame(k, k1, t) && t in k1.status && k1.status[t].Dying? && t !in k1.inDown
      && k1.semas == k.semas && k1.inDown == k.inDown
  {
    RunKeepsInv(trace, steps, i);
    assert StepAt(trace, steps, i);
    assert trace[i].ready != [] ==> trace[i].ready[0] in trace[i].ready;
    hide WaitOk, CountOk, FreedOk;
  }

  // ------------------------------------------------------------------- sema_down

  /** A turn of sema_down's loop on s by the thread that runs. */
  ghost predicate Turns(k: Kernel, step: Step, s: SemaId) {
    step == Down(s) || (step.Recheck? && k.cpu in k.inDown && k.inDown[k.cpu] == s)
  }

  /** One was taken from the count of s, and the thread that runs has left sema_down. */
  ghost predicate Took(k: Kernel, k1: Kernel, s: SemaId) {
    && s in k.semas && k.semas[s].value > 0 && k1.semas == k.semas[s := Sema(k.semas[s].value - 1, k.semas[s].waiters)]
    && k1.inDown == k.inDown - {k.cpu} && k1.cpu == k.cpu && k1.ready == k.ready && k1.status == k.status
  }

  /** The count of s is 0; the thread that ran is blocked inside sema_down, last in line. */
  ghost predicate Slept(k: Kernel, k1: Kernel, s: SemaId) {
    && s in k.semas && k.semas[s].value == 0 && k1.semas == k.semas[s := Sema(0, k.semas[s].waiters + [k.cpu])]
    && k1.inDown == k.inDown[k.cpu := s] && k.cpu in k1.status && k1.status[k.cpu].Blocked? && k1.cpu != k.cpu
    && Switched(k, k1, k.ready) && OthersSame(k, k1, k.cpu)
  }

  lemma TurnDoes(k: Kernel, s: SemaId)
    requires s in k.semas && k.cpu in k.status && k.cpu != k.idle && k.cpu !in k.ready
    ensures if k.semas[s].value > 0 then Took(k, DownTurn(k, s), s) else Slept(k, DownTurn(k, s), s)
  {
    assert k.ready != [] ==> k.ready[0] in k.ready;
    if k.semas[s].value > 0 {
    }
  }

  lemma TurnIsOff(k: Kernel, step: Step, s: SemaId)
    requires Inv(k) && Enabled(k, step) && Turns(k, step, s)
    ensures s in k.semas && k.cpu in k.status && k.cpu != k.idle && k.cpu !in k.ready && Apply(k, step) == DownTurn(k, s)
  {
    hide CountOk, FreedOk, WaitersOk, DownTurn;
  }

  /** A turn takes one from the count and leaves sema_down, if there is one to take;
      otherwise the thread is blocked, last in the line for s, and the next one runs. */
  lemma DownOrSleep(trace: seq<Kernel>, steps: seq<Step>, i: nat, s: SemaId)
    requires Run(trace, steps) && i < |steps| && Turns(trace[i], steps[i], s)
    ensures if Takes(trace[i], steps[i], s) then Took(trace[i], trace[i + 1], s) else Slept(trace[i], trace[i + 1], s)
  {
    hide Inv, Apply, DownTurn, Took, Slept, Enabled;
    RunKeepsInv(trace, steps, i);
    assert StepAt(trace, steps, i);
    TurnIsOff(trace[i], steps[i], s);
    TurnDoes(trace[i], s);
  }

  /** How often t took from s between i and j. */
  ghost function TakenBy(trace: seq<Kernel>, steps: seq<Step>, s: SemaId, t: Tid, i: nat, j: nat): nat
    requires i <= j <= |steps| <= |trace|
    decreases j
  {
    if i == j then 0
    else TakenBy(trace, steps, s, t, i, j - 1) +
         if trace[j - 1].cpu == t && Takes(trace[j - 1], steps[j - 1], s) then 1 else 0
  }

  /** t is inside sema_down on s all the time between i and j. */
  ghost predicate Inside(trace: seq<Kernel>, s: SemaId, t: Tid, i: nat, j: nat)
    requires j <= |trace|
  {
    forall n :: i < n < j ==> t in trace[n].inDown
  }

  lemma OthersStayIn(k: Kernel, step: Step, t: Tid)
    requires Enabled(k, step) && t != k.cpu && t in k.inDown
    ensures var k1 := Apply(k, step); t in k1.inDown && k1.inDown[t] == k.inDown[t]
  {
  }

  /** While it is inside it has taken nothing. */
  lemma {:induction false} NothingTakenInside(trace: seq<Kernel>, steps: seq<Step>, s: SemaId, t: Tid, i: nat, j: nat)
    requires Run(trace, steps) && i < j < |trace| && steps[i] == Down(s) && trace[i].cpu == t && Inside(trace, s, t, i, j)
    ensures t in trace[j].inDown ==> trace[j].inDown[t] == s && TakenBy(trace, steps, s, t, i, j) == 0
    ensures t !in trace[j].inDown ==> TakenBy(trace, steps, s, t, i, j) == 1
    decreases j
  {
    assert StepAt(trace, steps, j - 1);
    if j == i + 1 {
      DownOrSleep(trace, steps, i, s);
      assert TakenBy(trace, steps, s, t, i, i) == 0;
    } else {
      NothingTakenInside(trace, steps, s, t, i, j - 1);
      var k, step := trace[j - 1], steps[j - 1];
      if k.cpu == t {
        assert step.Recheck?;
        DownOrSleep(trace, steps, j - 1, s);
      } else {
        hide Apply;
        OthersStayIn(k, step, t);
      }
    }
  }

  /** sema_down, called at i by t and over at j, has taken exactly one from the count. */
  lemma DownTakesOnce(trace: seq<Kernel>, steps: seq<Step>, s: SemaId, t: Tid, i: nat, j: nat)
    requires Run(trace, steps) && i < j < |trace| && steps[i] == Down(s) && trace[i].cpu == t && Inside(trace, s, t, i, j)
    requires t !in trace[j].inDown
    ensures TakenBy(trace, steps, s, t, i, j) == 1 && trace[j - 1].cpu == t && Takes(trace[j - 1], steps[j - 1], s)
  {
    hide Apply;
    NothingTakenInside(trace, steps, s, t, i, j);
    if j > i + 1 {
      NothingTakenInside(trace, steps, s, t, i, j - 1);
    }
    assert TakenBy(trace, steps, s, t, i, i) == 0;
  }

  /** sema_try_down takes one if there is one, and never gives up the processor; sema_up
      adds one and makes the first in line ready, last in its line. */
  lemma TryAndUp(trace: seq<Kernel>, steps: seq<Step>, i: nat, s: SemaId)
    requires Run(trace, steps) && i < |steps| && (steps[i] == TryDown(s) || steps[i] == Up(s))
    ensures s in trace[i].semas && s in trace[i + 1].semas
    ensures
      var k, k1 := trace[i], trace[i + 1];
      var q, q1 := k.semas[s], k1.semas[s];
      && k1.cpu == k.cpu && k1.inDown == k.inDown && k1.freed == k.freed
      && if steps[i] == TryDown(s) then
           && q1 == (if q.value > 0 then Sema(q.value - 1, q.waiters) else q)
           && k1.ready == k.ready && k1.status == k.status
         else if q.waiters == [] then
           q1 == Sema(q.value + 1, []) && k1.ready == k.ready && k1.status == k.status
         else
           && q1 == Sema(q.value + 1, q.waiters[1..]) && k1.ready == k.ready + [q.waiters[0]]
           && k1.status == k.status[q.waiters[0] := Ready]
    ensures forall r :: r in trace[i].semas && r != s ==> r in trace[i + 1].semas && trace[i + 1].semas[r] == trace[i].semas[r]
  {
    assert StepAt(trace, steps, i);
  }

  /** The thread on the processor can always go on: inside sema_down with its recheck, and
      otherwise by yielding, and by any semaphore operation. */
  lemma CanGoOn(trace: seq<Kernel>, steps: seq<Step>, i: nat, s: SemaId)
    requires Run(trace, steps) && i < |trace|
    ensures
      var k := trace[i];
      if k.cpu in k.inDown then Enabled(k, Recheck) else
        && Enabled(k, Yield) && Enabled(k, Block) && Enabled(k, Create) && (k.cpu != k.idle ==> Enabled(k, Exit))
        && (s in k.semas ==> Enabled(k, TryDown(s)) && Enabled(k, Up(s)) && (k.cpu != k.idle ==> Enabled(k, Down(s))))
  {
    RunKeepsInv(trace, steps, i);
  }

  // ---------------------------------------------------- the code, run in place

  /** The globals of thread.c and the semaphores, updated in place by the
      atomic regions; each region is one step of the system above. */
  class Machine {
    var status: map<Tid, Status>
    var ready: seq<Tid>
    var cpu: Tid
    const idle: Tid
    const initial: Tid
    var nextTid: Tid
    var inDown: map<Tid, SemaId>
    var semas: map<SemaId, Sema>
    var freed: seq<Tid>

    ghost function Snapshot(): Kernel
      reads this
    {
      Kernel(status, ready, cpu, idle, initial, nextTid, inDown, semas, freed)
    }

    constructor (initial: Tid, idle: Tid, preempted: bool, values: map<SemaId, nat>)
      requires idle != initial
      ensures Init(Snapshot()) && Inv(Snapshot())
      ensures this.idle == idle && idle in status && status[idle] == if preempted then Ready else Blocked
      ensures semas.Keys == values.Keys && forall s <- values :: semas[s].value == values[s]
    {
      this.initial, this.idle := initial, idle;
      status := map[initial := Running, idle := if preempted then Ready else Blocked];
      ready, cpu, inDown, freed := [], initial, map[], [];
      nextTid := if idle < initial then initial + 1 else idle + 1;
      semas := map s | s in values :: Sema(values[s], []);
      new;
      assert forall s <- semas :: WaitersOk(Snapshot(), s);
    }

    method Switch()
      requires cpu in status
      modifies this
      ensures Snapshot() == Schedule(old(Snapshot()))
    {
      var prev := cpu;
      if ready == [] {
        cpu := idle;
      } else {
        cpu, ready := ready[0], ready[1..];
      }
      var prevIsDying := status[prev].Dying?;
      status := status[cpu := Running];
      if prev != cpu && prevIsDying && prev != initial {
        freed := freed + [prev];
      }
    }

    method ThreadYield()
      requires Inv(Snapshot()) && Enabled(Snapshot(), Yield)
      modifies this
      ensures Snapshot() == Apply(old(Snapshot()), Yield) && Inv(Snapshot())
      ensures Yielded(old(Snapshot()), Snapshot())
    {
      StepKeepsInv(Snapshot(), Yield);
      YieldDoes(Snapshot());
      if cpu != idle {
        ready := ready + [cpu];
      }
      status := status[cpu := Ready];
      Switch();
    }

    method ThreadBlock()
      requires Inv(Snapshot()) && Enabled(Snapshot(), Block)
      modifies this
      ensures Snapshot() == Apply(old(Snapshot()), Block) && Inv(Snapshot())
      ensures WentOff(old(Snapshot()), Snapshot())
    {
      StepKeepsInv(Snapshot(), Block);
      BlockDoes(Snapshot());
      status := status[cpu := Blocked];
      Switch();
    }

    method ThreadUnblock(t: Tid)
      requires Inv(Snapshot()) && Enabled(Snapshot(), Unblock(t))
      modifies this
      ensures Snapshot() == Apply(old(Snapshot()), Unblock(t)) && Inv(Snapshot())
    {
      StepKeepsInv(Snapshot(), Unblock(t));
      ready := ready + [t];
      status := status[t := Ready];
    }

    method ThreadCreate() returns (tid: Tid)
      requires Inv(Snapshot()) && Enabled(Snapshot(), Create)
      modifies this
      ensures Snapshot() == Apply(old(Snapshot()), Create) && Inv(Snapshot())
      ensures tid !in old(status) && tid in status && status[tid].Ready?
    {
      StepKeepsInv(Snapshot(), Create);
      tid := nextTid;
      nextTid := nextTid + 1;
      ready := ready + [tid];
      status := status[tid := Ready];
    }

    method ThreadExit()
      requires Inv(Snapshot()) && Enabled(Snapshot(), Exit)
      modifies this
      ensures Snapshot() == Apply(old(Snapshot()), Exit) && Inv(Snapshot())
    {
      StepKeepsInv(Snapshot(), Exit);
      status := status[cpu := Dying];
      Switch();
    }

    method Sleep(s: SemaId)
      requires s in semas && cpu in status
      modifies this
      ensures Snapshot() == Schedule(StopWait(old(Snapshot()), s))
    {
      semas := semas[s := semas[s].(waiters := semas[s].waiters + [cpu])];
      inDown := inDown[cpu := s];
      status := status[cpu := Blocked];
      Switch();
    }

    method Take(s: SemaId)
      requires s in semas && semas[s].value > 0 && cpu in status
      modifies this
      ensures Snapshot() == DownTurn(old(Snapshot()), s)
    {
      semas := semas[s := semas[s].(value := semas[s].value - 1)];
      inDown := inDown - {cpu};
    }

    /** One turn of sema_down's loop, from the test to the decrement or to the
        switch away; a sleeper takes its next turn when it runs again. */
    method SemaDownTurn(s: SemaId) returns (done: bool)
      requires Inv(Snapshot()) && s in semas && cpu != idle
      requires cpu in inDown ==> inDown[cpu] == s
      modifies this
      ensures Snapshot() == DownTurn(old(Snapshot()), s) && Inv(Snapshot())
      ensures if done then Took(old(Snapshot()), Snapshot(), s) else Slept(old(Snapshot()), Snapshot(), s)
    {
      TurnKeepsInv(Snapshot(), s);
      TurnIsOff(Snapshot(), if cpu in inDown then Recheck else Down(s), s);
      TurnDoes(Snapshot(), s);
      done := semas[s].value > 0;
      if done {
        Take(s);
      } else {
        Sleep(s);
      }
    }

    method SemaTryDown(s: SemaId) returns (success: bool)
      requires Inv(Snapshot()) && Enabled(Snapshot(), TryDown(s))
      modifies this
      ensures Snapshot() == Apply(old(Snapshot()), TryDown(s)) && Inv(Snapshot())
      ensures success == (old(semas[s].value) > 0)
    {
      StepKeepsInv(Snapshot(), TryDown(s));
      success := semas[s].value > 0;
      if success {
        semas := semas[s := semas[s].(value := semas[s].value - 1)];
      }
    }

    method WakeFront(s: SemaId)
      requires s in semas
      modifies this
      ensures Snapshot() == WakeFirst(old(Snapshot()), s)
    {
      var q := semas[s].waiters;
      if q != [] {
        semas := semas[s := semas[s].(waiters := q[1..])];
        ready := ready + [q[0]];
        status := status[q[0] := Ready];
      }
    }

    method SemaRaise(s: SemaId)
      requires Inv(Snapshot()) && Enabled(Snapshot(), Up(s))
      modifies this
      ensures Snapshot() == Apply(old(Snapshot()), Up(s)) && Inv(Snapshot())
    {
      UpKeepsInv(Snapshot(), s);
      WakeFront(s);
      semas := semas[s := semas[s].(value := semas[s].value + 1)];
    }
  }
}
