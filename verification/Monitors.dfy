/** Locks and condition variables on top of semaphores.
    Every thread has a position inside lock_acquire, lock_release, cond_wait,
    cond_signal or cond_broadcast.  A step is one semaphore operation or one
    assignment, and any thread that is not asleep may take the next step, so the
    holder field lags behind the semaphore exactly as it does in the code. */
module Monitors {
  import opened Containers
  import T = Threads

  type Tid = T.Tid
  type LockId = nat
  type CondId = nat
  type WaiterId = nat

  /** Where a thread is.  In lock_acquire: at its sema_down, or past it with the
      holder not yet written.  In lock_release: the holder cleared, its sema_up to
      come.  In cond_wait: w queued and the holder to be cleared, the lock's
      sema_up to come, at sema_down on w's semaphore, then taking the lock again.
      In cond_signal or, with all set, cond_broadcast: w taken off the list, its
      sema_up to come. */
  datatype Pc =
    | Outside
    | AcqDown(l: LockId)
    | AcqHolder(l: LockId)
    | RelUp(l: LockId)
    | WaitClear(c: CondId, w: WaiterId)
    | WaitUp(c: CondId, w: WaiterId)
    | WaitDown(c: CondId, w: WaiterId)
    | WaitAcqDown(c: CondId, w: WaiterId)
    | WaitAcqHolder(c: CondId, w: WaiterId)
    | SigUp(c: CondId, w: WaiterId, all: bool)
    | Broadcasting(c: CondId)

  datatype Lock = Lock(sema: T.Sema, holder: Option<Tid>)

  /** A condition is used with one lock. */
  datatype Cond = Cond(lock: LockId, waiters: seq<WaiterId>)

  /** The semaphore_elem on a waiting thread's stack.  The history fields say how
      often it has been taken off a condition's list, and who did so last. */
  datatype Waiter = Waiter(owner: Tid, sema: T.Sema, pops: nat, popper: Tid)

  /** `inside` remembers the threads between a lock's down and its up, and `tries` what
      each thread's last lock_try_acquire returned. */
  datatype State = State(
    pc: map<Tid, Pc>,
    locks: map<LockId, Lock>,
    inside: map<LockId, set<Tid>>,
    conds: map<CondId, Cond>,
    waiters: map<WaiterId, Waiter>,
    nextWaiter: WaiterId,
    tries: map<Tid, bool>)

  datatype Action =
    | Acquire(l: LockId)
    | TryAcquire(l: LockId)
    | Release(l: LockId)
    | Wait(c: CondId)
    | Signal(c: CondId)
    | Broadcast(c: CondId)
    | Continue

  datatype Step = Step(t: Tid, a: Action)

  // -------------------------------------------------------------------- steps

  predicate Ids(m: State) {
    && m.inside.Keys == m.locks.Keys
    && forall c <- m.conds :: m.conds[c].lock in m.locks
  }

  /** The lock and the waiter the position refers to exist. */
  predicate PcIds(m: State, p: Pc) {
    match p
    case Outside => true
    case AcqDown(l) => l in m.locks
    case AcqHolder(l) => l in m.locks
    case RelUp(l) => l in m.locks
    case WaitClear(c, w) => c in m.conds && w in m.waiters
    case WaitUp(c, w) => c in m.conds && w in m.waiters
    case WaitDown(c, w) => c in m.conds && w in m.waiters
    case WaitAcqDown(c, w) => c in m.conds && w in m.waiters
    case WaitAcqHolder(c, w) => c in m.conds && w in m.waiters
    case SigUp(c, w, _) => c in m.conds && w in m.waiters
    case Broadcasting(c) => c in m.conds
  }

  predicate Asleep(m: State, t: Tid) {
    || (exists l <- m.locks :: t in m.locks[l].sema.waiters)
    || (exists w <- m.waiters :: t in m.waiters[w].sema.waiters)
  }

  predicate Holds(m: State, t: Tid, l: LockId) {
    l in m.locks && m.locks[l].holder == Some(t)
  }

  predicate Enabled(m: State, step: Step) {
    var t := step.t;
    && Ids(m) && t in m.pc && PcIds(m, m.pc[t]) && !Asleep(m, t)
    && (if step.a.Continue? then !m.pc[t].Outside? else m.pc[t].Outside?)
    && match step.a
       case Acquire(l) => l in m.locks && !Holds(m, t, l)
       case TryAcquire(l) => l in m.locks && !Holds(m, t, l)
       case Release(l) => Holds(m, t, l)
       case Wait(c) => c in m.conds && Holds(m, t, m.conds[c].lock) && m.nextWaiter !in m.waiters
       case Signal(c) => c in m.conds && Holds(m, t, m.conds[c].lock) && QueueIds(m, c)
       case Broadcast(c) => c in m.conds && (Holds(m, t, m.conds[c].lock) || m.conds[c].waiters == [])
       case Continue => m.pc[t].Broadcasting? ==> QueueIds(m, m.pc[t].c)
  }

  predicate QueueIds(m: State, c: CondId)
    requires c in m.conds
  {
    forall w <- m.conds[c].waiters :: w in m.waiters
  }

  function At(m: State, t: Tid, p: Pc): State {
    m.(pc := m.pc[t := p])
  }

  /** lock_try_acquire's result. */
  function Note(m: State, t: Tid, ok: bool): State {
    m.(tries := m.tries[t := ok])
  }

  function SetHolder(m: State, l: LockId, h: Option<Tid>): State
    requires l in m.locks
  {
    m.(locks := m.locks[l := m.locks[l].(holder := h)])
  }

  /** sema_up: wake the first sleeper, if any, and raise the value. */
  function Up(s: T.Sema): T.Sema {
    T.Sema(s.value + 1, if s.waiters == [] then [] else s.waiters[1..])
  }

  /** One turn of sema_down's loop by t. */
  function Down(s: T.Sema, t: Tid): T.Sema {
    if s.value == 0 then s.(waiters := s.waiters + [t]) else s.(value := s.value - 1)
  }

  /** Thread t takes a turn at the lock's semaphore and moves to p if it gets it. */
  function LockDown(m: State, t: Tid, l: LockId, p: Pc): State
    requires l in m.locks && l in m.inside
  {
    var m1 := m.(locks := m.locks[l := m.locks[l].(sema := Down(m.locks[l].sema, t))]);
    if m.locks[l].sema.value == 0 then m1
    else At(m1, t, p).(inside := m.inside[l := m.inside[l] + {t}])
  }

  function LockUp(m: State, t: Tid, l: LockId, p: Pc): State
    requires l in m.locks && l in m.inside
  {
    At(m, t, p).(locks := m.locks[l := m.locks[l].(sema := Up(m.locks[l].sema))],
                 inside := m.inside[l := m.inside[l] - {t}])
  }

  /** cond_signal's list_pop_front; with an empty list it moves to `none`. */
  function Pop(m: State, t: Tid, c: CondId, all: bool, none: Pc): State
    requires c in m.conds && QueueIds(m, c)
  {
    var q := m.conds[c].waiters;
    if q == [] then At(m, t, none)
    else
      var w := q[0];
      At(m, t, SigUp(c, w, all)).(
        conds := m.conds[c := m.conds[c].(waiters := q[1..])],
        waiters := m.waiters[w := m.waiters[w].(pops := m.waiters[w].pops + 1, popper := t)])
  }

  /** cond_wait puts a new waiter, with a semaphore at 0, at the end of the list. */
  function Enqueue(m: State, t: Tid, c: CondId): State
    requires c in m.conds
  {
    var w := m.nextWaiter;
    At(m, t, WaitClear(c, w)).(
      conds := m.conds[c := m.conds[c].(waiters := m.conds[c].waiters + [w])],
      waiters := m.waiters[w := Waiter(t, T.Sema(0, []), 0, t)],
      nextWaiter := w + 1)
  }

  function WaiterSema(m: State, w: WaiterId, s: T.Sema): State
    requires w in m.waiters
  {
    m.(waiters := m.waiters[w := m.waiters[w].(sema := s)])
  }

  function WaiterDown(m: State, t: Tid, c: CondId, w: WaiterId): State
    requires w in m.waiters
  {
    var m1 := WaiterSema(m, w, Down(m.waiters[w].sema, t));
    if m.waiters[w].sema.value == 0 then m1 else At(m1, t, WaitAcqDown(c, w))
  }

  function Post(m: State, t: Tid, w: WaiterId, p: Pc): State
    requires w in m.waiters
  {
    At(WaiterSema(m, w, Up(m.waiters[w].sema)), t, p)
  }

  /** The first step of a call. */
  function Begin(m: State, t: Tid, a: Action): State
    requires Enabled(m, Step(t, a)) && !a.Continue?
  {
    match a
    case Acquire(l) => At(m, t, AcqDown(l))
    case TryAcquire(l) =>
      if m.locks[l].sema.value > 0 then LockDown(Note(m, t, true), t, l, AcqHolder(l)) else Note(m, t, false)
    case Release(l) => At(SetHolder(m, l, None), t, RelUp(l))
    case Wait(c) => Enqueue(m, t, c)
    case Signal(c) => Pop(m, t, c, false, Outside)
    case Broadcast(c) => if Holds(m, t, m.conds[c].lock) then At(m, t, Broadcasting(c)) else m
  }

  /** The next step of the call t is in. */
  function Resume(m: State, t: Tid): State
    requires Enabled(m, Step(t, Continue))
  {
    match m.pc[t]
    case AcqDown(l) => LockDown(m, t, l, AcqHolder(l))
    case AcqHolder(l) => At(SetHolder(m, l, Some(t)), t, Outside)
    case RelUp(l) => LockUp(m, t, l, Outside)
    case WaitClear(c, w) => At(SetHolder(m, m.conds[c].lock, None), t, WaitUp(c, w))
    case WaitUp(c, w) => LockUp(m, t, m.conds[c].lock, WaitDown(c, w))
    case WaitDown(c, w) => WaiterDown(m, t, c, w)
    case WaitAcqDown(c, w) => LockDown(m, t, m.conds[c].lock, WaitAcqHolder(c, w))
    case WaitAcqHolder(c, w) => At(SetHolder(m, m.conds[c].lock, Some(t)), t, Outside)
    case SigUp(c, w, all) => Post(m, t, w, if all then Broadcasting(c) else Outside)
    case Broadcasting(c) => Pop(m, t, c, true, Outside)
  }

  function Apply(m: State, step: Step): State
    requires Enabled(m, step)
  {
    if step.a.Continue? then Resume(m, step.t) else Begin(m, step.t, step.a)
  }

  predicate Init(m: State) {
    && Ids(m)
    && (forall t <- m.pc :: m.pc[t].Outside?)
    && (forall l <- m.locks :: m.locks[l] == Lock(T.Sema(1, []), None) && m.inside[l] == {})
    && (forall c <- m.conds :: m.conds[c].waiters == [])
    && m.waiters == map[]
  }

  ghost predicate StepAt(trace: seq<State>, steps: seq<Step>, i: nat)
    requires i < |steps| && |trace| == |steps| + 1
  {
    Enabled(trace[i], steps[i]) && trace[i + 1] == Apply(trace[i], steps[i])
  }

  ghost predicate Run(trace: seq<State>, steps: seq<Step>) {
    && |trace| == |steps| + 1
    && Init(trace[0])
    && forall i :: 0 <= i < |steps| ==> StepAt(trace, steps, i)
  }

  // ---------------------------------------------------------------- invariant

  /** The lock the position is about. */
  function LockOf(m: State, p: Pc): LockId
    requires !p.Outside? && PcIds(m, p)
  {
    if p.AcqDown? || p.AcqHolder? || p.RelUp? then p.l else m.conds[p.c].lock
  }

  /** At sema_down on a lock. */
  predicate AtLockDown(p: Pc) { p.AcqDown? || p.WaitAcqDown? }

  /** Between the semaphore operation and the write of holder, or the reverse. */
  predicate InTransit(p: Pc) { p.AcqHolder? || p.RelUp? || p.WaitUp? || p.WaitAcqHolder? }

  predicate TransitOn(m: State, p: Pc, l: LockId) {
    InTransit(p) && PcIds(m, p) && LockOf(m, p) == l
  }

  predicate OutsideLock(p: Pc) { AtLockDown(p) || p.WaitDown? }

  /** In cond_wait with its waiter not yet passed. */
  predicate Pending(p: Pc) { p.WaitClear? || p.WaitUp? || p.WaitDown? }

  ghost predicate LockOk(m: State, l: LockId)
    requires l in m.locks && l in m.inside
  {
    var lk := m.locks[l];
    && lk.sema.value + |m.inside[l]| == 1
    && (forall t <- m.inside[l] :: t in m.pc)
    && Distinct(lk.sema.waiters)
    && (forall t <- lk.sema.waiters :: t in m.pc && AtLockDown(m.pc[t]) && PcIds(m, m.pc[t]) && LockOf(m, m.pc[t]) == l)
    && (forall t: Tid :: lk.holder == Some(t) <==> t in m.inside[l] && !TransitOn(m, m.pc[t], l))
  }

  ghost predicate PcLock(m: State, t: Tid)
    requires t in m.pc && Ids(m)
  {
    && PcIds(m, m.pc[t])
    && (!m.pc[t].Outside? ==> (t in m.inside[LockOf(m, m.pc[t])] <==> !OutsideLock(m.pc[t])))
  }

  /** A waiter in line, or popped, or posted; popped at most once. */
  ghost predicate WaiterPending(m: State, c: CondId, w: WaiterId, t: Tid)
    requires c in m.conds && w in m.waiters
  {
    var x := m.waiters[w];
    && x.owner == t && x.sema.value <= x.pops <= 1
    && (x.pops == 0 <==> w in m.conds[c].waiters)
    && (x.sema.waiters != [] ==> x.sema.value == 0)
    && (x.pops == 1 && x.sema.value == 0 ==>
          x.popper in m.pc && m.pc[x.popper].SigUp? && m.pc[x.popper].c == c && m.pc[x.popper].w == w)
  }

  ghost predicate WaiterDone(m: State, c: CondId, w: WaiterId, t: Tid)
    requires c in m.conds && w in m.waiters
  {
    var x := m.waiters[w];
    x.owner == t && x.pops == 1 && x.sema == T.Sema(0, []) && w !in m.conds[c].waiters
  }

  /** The waiter being posted still belongs to a thread at its sema_down, so the
      stack frame it lives in is still there. */
  ghost predicate WaiterPosting(m: State, c: CondId, w: WaiterId, t: Tid)
    requires c in m.conds && w in m.waiters
  {
    var x := m.waiters[w];
    && x.pops == 1 && x.sema.value == 0 && x.popper == t && w !in m.conds[c].waiters
    && x.owner in m.pc && m.pc[x.owner] == WaitDown(c, w)
  }

  ghost predicate PcWait(m: State, t: Tid)
    requires t in m.pc && PcIds(m, m.pc[t])
  {
    var p := m.pc[t];
    && (Pending(p) ==> WaiterPending(m, p.c, p.w, t))
    && (p.WaitAcqDown? || p.WaitAcqHolder? ==> WaiterDone(m, p.c, p.w, t))
    && (p.SigUp? ==> WaiterPosting(m, p.c, p.w, t))
  }

  ghost predicate QueueOk(m: State, c: CondId)
    requires c in m.conds
  {
    var q := m.conds[c].waiters;
    && Distinct(q)
    && forall w <- q :: w in m.waiters && m.waiters[w].owner in m.pc &&
                        Pending(m.pc[m.waiters[w].owner]) &&
                        m.pc[m.waiters[w].owner].c == c && m.pc[m.waiters[w].owner].w == w
  }

  ghost predicate WaiterOk(m: State, w: WaiterId)
    requires w in m.waiters
  {
    var x := m.waiters[w];
    && w < m.nextWaiter
    && (x.sema.waiters != [] ==> x.sema.waiters == [x.owner] && x.owner in m.pc &&
                                 m.pc[x.owner].WaitDown? && m.pc[x.owner].w == w)
  }

  ghost predicate LocksOk(m: State)
    requires Ids(m)
  {
    forall l {:trigger LockOk(m, l)} :: l in m.locks ==> LockOk(m, l)
  }

  ghost predicate PcLocksOk(m: State)
    requires Ids(m)
  {
    forall t {:trigger PcLock(m, t)} :: t in m.pc ==> PcLock(m, t)
  }

  ghost predicate WaitsOk(m: State)
    requires Ids(m) && PcLocksOk(m)
  {
    && (forall t {:trigger PcWait(m, t)} :: t in m.pc ==> PcLock(m, t) && PcWait(m, t))
    && (forall c {:trigger QueueOk(m, c)} :: c in m.conds ==> QueueOk(m, c))
    && (forall w {:trigger WaiterOk(m, w)} :: w in m.waiters ==> WaiterOk(m, w))
  }

  ghost predicate Inv(m: State) {
    Ids(m) && LocksOk(m) && PcLocksOk(m) && WaitsOk(m)
  }

  // ------------------------------------------------------------------- frames

  /** m1 differs from m in the position of t, and not in which locks and
      conditions there are; waiters may have been added. */
  ghost predicate Moves(m: State, m1: State, t: Tid) {
    && Ids(m) && Ids(m1) && t in m.pc && t in m1.pc
    && m1.locks.Keys == m.locks.Keys
    && m1.pc == m.pc[t := m1.pc[t]]
    && m1.conds.Keys == m.conds.Keys && (forall c <- m.conds :: m1.conds[c].lock == m.conds[c].lock)
    && m.waiters.Keys <= m1.waiters.Keys
  }

  lemma TransitFrame(m: State, m1: State, t: Tid, l: LockId, u: Tid)
    requires Moves(m, m1, t) && u in m.pc && u != t && PcLock(m, u)
    ensures PcIds(m1, m.pc[u]) && (!m.pc[u].Outside? ==> LockOf(m1, m.pc[u]) == LockOf(m, m.pc[u]))
    ensures TransitOn(m1, m1.pc[u], l) <==> TransitOn(m, m.pc[u], l)
  {
  }

  lemma LockFrame(m: State, m1: State, t: Tid, l: LockId)
    requires Moves(m, m1, t) && l in m.locks && LockOk(m, l) && PcLocksOk(m)
    requires m1.locks[l] == m.locks[l] && m1.inside[l] == m.inside[l]
    requires t !in m.locks[l].sema.waiters
    requires t in m.inside[l] ==> (TransitOn(m1, m1.pc[t], l) <==> TransitOn(m, m.pc[t], l))
    ensures LockOk(m1, l)
  {
    forall u | u in m.locks[l].sema.waiters
      ensures u in m1.pc && AtLockDown(m1.pc[u]) && PcIds(m1, m1.pc[u]) && LockOf(m1, m1.pc[u]) == l
    {
      assert PcLock(m, u);
      TransitFrame(m, m1, t, l, u);
    }
    forall u | u in m.inside[l]
      ensures u in m1.pc && (TransitOn(m1, m1.pc[u], l) <==> TransitOn(m, m.pc[u], l))
    {
      assert PcLock(m, u);
      if u != t { TransitFrame(m, m1, t, l, u); }
    }
  }

  lemma PcLocksFrame(m: State, m1: State, t: Tid)
    requires Moves(m, m1, t) && PcLocksOk(m)
    requires forall l <- m.locks :: m1.inside[l] - {t} == m.inside[l] - {t}
    requires PcLock(m1, t)
    ensures PcLocksOk(m1)
  {
    forall u | u in m1.pc
      ensures PcLock(m1, u)
    {
      if u != t {
        assert PcLock(m, u);
        assert forall l <- m.locks :: u in m1.inside[l] <==> u in m1.inside[l] - {t};
      }
    }
  }

  /** Thread t keeps its place in cond_wait's protocol with its waiter. */
  ghost predicate SameWait(p: Pc, p1: Pc) {
    && !p.SigUp? && !p1.SigUp?
    && (Pending(p) <==> Pending(p1)) && (Pending(p) ==> p1.c == p.c && p1.w == p.w)
    && (p1.WaitAcqDown? || p1.WaitAcqHolder? ==>
          (p.WaitAcqDown? || p.WaitAcqHolder?) && p1.c == p.c && p1.w == p.w)
    && (p.WaitDown? ==> p1 == p)
  }

  lemma WaitsFrame(m: State, m1: State, t: Tid)
    requires Moves(m, m1, t) && PcLocksOk(m) && PcLocksOk(m1) && WaitsOk(m)
    requires m1.conds == m.conds && m1.waiters == m.waiters && m1.nextWaiter == m.nextWaiter
    requires SameWait(m.pc[t], m1.pc[t])
    ensures WaitsOk(m1)
  {
    forall u | u in m1.pc
      ensures PcLock(m1, u) && PcWait(m1, u)
    {
      assert PcLock(m1, u) && PcLock(m, u) && PcWait(m, u);
    }
    forall c | c in m1.conds
      ensures QueueOk(m1, c)
    {
      assert QueueOk(m, c);
    }
    forall w | w in m1.waiters
      ensures WaiterOk(m1, w)
    {
      assert WaiterOk(m, w);
    }
  }

  lemma Singleton<A>(s: set<A>, a: A, b: A)
    requires |s| == 1 && a in s && b in s
    ensures a == b
  {
    assert |s - {a}| == 0;
  }

  // -------------------------------------------------------------------- steps

  /** A step of t that touches lock l only, and no waiter. */
  lemma LockStep(m: State, m1: State, t: Tid, l: LockId)
    requires Inv(m) && Moves(m, m1, t) && !Asleep(m, t) && l in m.locks
    requires m1.conds == m.conds && m1.waiters == m.waiters && m1.nextWaiter == m.nextWaiter
    requires m1.locks == m.locks[l := m1.locks[l]]
    requires m1.inside == m.inside[l := m1.inside[l]] && m1.inside[l] - {t} == m.inside[l] - {t}
    requires SameWait(m.pc[t], m1.pc[t]) && PcLock(m1, t) && LockOk(m1, l)
    requires InTransit(m.pc[t]) ==> TransitOn(m, m.pc[t], l)
    requires InTransit(m1.pc[t]) ==> TransitOn(m1, m1.pc[t], l)
    ensures Inv(m1)
  {
    PcLocksFrame(m, m1, t);
    WaitsFrame(m, m1, t);
    forall r | r in m1.locks
      ensures LockOk(m1, r)
    {
      if r != l {
        LockFrame(m, m1, t, r);
      }
    }
  }

  /** Steps that only move t: the start of lock_acquire and of cond_broadcast,
      and a signal that finds nobody waiting. */
  lemma MoveKeepsInv(m: State, t: Tid, p: Pc)
    requires Inv(m) && t in m.pc && !Asleep(m, t)
    requires SameWait(m.pc[t], p) && !InTransit(p) && !InTransit(m.pc[t])
    requires PcIds(m, p) && PcLock(At(m, t, p), t)
    ensures Inv(At(m, t, p))
  {
    var m1 := At(m, t, p);
    PcLocksFrame(m, m1, t);
    WaitsFrame(m, m1, t);
    forall l | l in m1.locks
      ensures LockOk(m1, l)
    {
      LockFrame(m, m1, t, l);
    }
  }

  lemma NoteKeepsInv(m: State, t: Tid, ok: bool)
    requires Inv(m) && t in m.pc && !Asleep(m, t) && m.pc[t].Outside?
    ensures Inv(Note(m, t, ok)) && !Asleep(Note(m, t, ok), t)
  {
    var m1 := Note(m, t, ok);
    assert PcLock(m1, t);
    PcLocksFrame(m, m1, t);
    WaitsFrame(m, m1, t);
    forall l | l in m1.locks
      ensures LockOk(m1, l)
    {
      LockFrame(m, m1, t, l);
    }
  }

  lemma ClearHolderKeepsLock(m: State, t: Tid, l: LockId, p: Pc)
    requires Ids(m) && t in m.pc && Holds(m, t, l) && LockOk(m, l) && t !in m.locks[l].sema.waiters
    requires TransitOn(m, p, l)
    ensures LockOk(At(SetHolder(m, l, None), t, p), l)
  {
    forall u | u in m.inside[l]
      ensures u == t
    {
      Singleton(m.inside[l], u, t);
    }
  }

  lemma WriteHolderKeepsLock(m: State, t: Tid, l: LockId)
    requires Ids(m) && t in m.pc && TransitOn(m, m.pc[t], l) && t in m.inside[l] && LockOk(m, l)
    ensures LockOk(At(SetHolder(m, l, Some(t)), t, Outside), l)
  {
    forall u | u in m.inside[l]
      ensures u == t
    {
      Singleton(m.inside[l], u, t);
    }
  }

  lemma ClearHolderKeepsInv(m: State, t: Tid, l: LockId, p: Pc)
    requires Inv(m) && t in m.pc && !Asleep(m, t) && Holds(m, t, l)
    requires SameWait(m.pc[t], p) && TransitOn(m, p, l) && !InTransit(m.pc[t])
    ensures Inv(At(SetHolder(m, l, None), t, p))
  {
    assert LockOk(m, l);
    ClearHolderKeepsLock(m, t, l, p);
    LockStep(m, At(SetHolder(m, l, None), t, p), t, l);
  }

  lemma WriteHolderKeepsInv(m: State, t: Tid, l: LockId)
    requires Inv(m) && t in m.pc && !Asleep(m, t) && TransitOn(m, m.pc[t], l)
    requires m.pc[t].AcqHolder? || m.pc[t].WaitAcqHolder?
    ensures Inv(At(SetHolder(m, l, Some(t)), t, Outside))
  {
    assert LockOk(m, l) && PcLock(m, t);
    WriteHolderKeepsLock(m, t, l);
    LockStep(m, At(SetHolder(m, l, Some(t)), t, Outside), t, l);
  }

  lemma SleepKeepsLock(m: State, t: Tid, l: LockId)
    requires Ids(m) && t in m.pc && l in m.locks && LockOk(m, l) && t !in m.locks[l].sema.waiters
    requires AtLockDown(m.pc[t]) && PcIds(m, m.pc[t]) && LockOf(m, m.pc[t]) == l
    requires m.locks[l].sema.value == 0
    ensures LockOk(LockDown(m, t, l, m.pc[t]), l)
  {
  }

  lemma TakeKeepsLock(m: State, t: Tid, l: LockId, p: Pc)
    requires Ids(m) && t in m.pc && l in m.locks && LockOk(m, l) && t !in m.locks[l].sema.waiters
    requires t !in m.inside[l] && TransitOn(m, p, l)
    requires m.locks[l].sema.value > 0
    ensures LockOk(LockDown(m, t, l, p), l)
  {
    assert m.inside[l] == {};
  }

  lemma TakeKeepsInv(m: State, t: Tid, l: LockId, p: Pc)
    requires Inv(m) && t in m.pc && !Asleep(m, t) && l in m.locks && t !in m.inside[l]
    requires TransitOn(m, p, l) && SameWait(m.pc[t], p) && !InTransit(m.pc[t])
    requires m.locks[l].sema.value > 0
    ensures Inv(LockDown(m, t, l, p))
  {
    assert LockOk(m, l);
    TakeKeepsLock(m, t, l, p);
    LockStep(m, LockDown(m, t, l, p), t, l);
  }

  lemma SleepKeepsInv(m: State, t: Tid, l: LockId, p: Pc)
    requires Inv(m) && t in m.pc && !Asleep(m, t) && l in m.locks
    requires AtLockDown(m.pc[t]) && PcIds(m, m.pc[t]) && LockOf(m, m.pc[t]) == l
    requires m.locks[l].sema.value == 0
    ensures Inv(LockDown(m, t, l, p))
  {
    assert LockOk(m, l) && PcLock(m, t);
    SleepKeepsLock(m, t, l);
    LockStep(m, LockDown(m, t, l, p), t, l);
  }

  lemma UpKeepsLock(m: State, t: Tid, l: LockId, p: Pc)
    requires Ids(m) && t in m.pc && TransitOn(m, m.pc[t], l) && t in m.inside[l] && LockOk(m, l)
    requires t !in m.locks[l].sema.waiters
    ensures LockOk(LockUp(m, t, l, p), l)
  {
    assert m.inside[l] - {t} == {} by {
      assert |m.inside[l] - {t}| == 0;
    }
    if m.locks[l].sema.waiters != [] {
      DropFirst(m.locks[l].sema.waiters);
    }
  }

  lemma UpKeepsInv(m: State, t: Tid, l: LockId, p: Pc)
    requires Inv(m) && t in m.pc && !Asleep(m, t) && TransitOn(m, m.pc[t], l)
    requires m.pc[t].RelUp? || m.pc[t].WaitUp?
    requires PcIds(m, p) && SameWait(m.pc[t], p)
    requires p.Outside? || (p.WaitDown? && LockOf(m, p) == l)
    ensures Inv(LockUp(m, t, l, p))
  {
    assert LockOk(m, l) && PcLock(m, t);
    UpKeepsLock(m, t, l, p);
    LockStep(m, LockUp(m, t, l, p), t, l);
  }

  /** A step of t that touches waiters and condition lists, and no lock. */
  lemma WaiterStep(m: State, m1: State, t: Tid)
    requires Inv(m) && Moves(m, m1, t) && !Asleep(m, t)
    requires m1.locks == m.locks && m1.inside == m.inside
    requires !InTransit(m.pc[t]) && !InTransit(m1.pc[t]) && PcLock(m1, t)
    ensures LocksOk(m1) && PcLocksOk(m1)
  {
    PcLocksFrame(m, m1, t);
    forall l | l in m1.locks
      ensures LockOk(m1, l)
    {
      assert LockOk(m, l);
      LockFrame(m, m1, t, l);
    }
  }

  /** What u's position says of its waiter is not disturbed by a step of t that
      leaves that waiter, its place in line, and u's position alone. */
  lemma PcWaitFrame(m: State, m1: State, t: Tid, u: Tid)
    requires Moves(m, m1, t) && u in m.pc && u != t && PcLock(m, u) && PcWait(m, u) && PcLock(m1, u)
    requires var p := m.pc[u]; (Pending(p) || p.WaitAcqDown? || p.WaitAcqHolder? || p.SigUp?) ==>
      && m1.waiters[p.w] == m.waiters[p.w]
      && (p.w in m1.conds[p.c].waiters <==> p.w in m.conds[p.c].waiters)
    requires Pending(m.pc[u]) ==> m.pc[t].SigUp? ==> m.pc[t].w != m.pc[u].w
    requires m.pc[u].SigUp? ==> m.pc[t].WaitDown? ==> m1.pc[t] == m.pc[t] || m.pc[t].w != m.pc[u].w
    ensures PcWait(m1, u)
  {
  }

  lemma EnqueueQueue(m: State, t: Tid, c: CondId, d: CondId)
    requires c in m.conds && d in m.conds && QueueOk(m, d) && m.nextWaiter !in m.waiters && t in m.pc && m.pc[t].Outside?
    ensures m.nextWaiter !in m.conds[d].waiters && QueueOk(Enqueue(m, t, c), d)
  {
  }

  lemma EnqueueWaiter(m: State, t: Tid, c: CondId, v: WaiterId)
    requires c in m.conds && t in m.pc && m.pc[t].Outside? && v in Enqueue(m, t, c).waiters
    requires v in m.waiters ==> WaiterOk(m, v)
    requires m.nextWaiter !in m.waiters
    ensures WaiterOk(Enqueue(m, t, c), v)
  {
  }

  lemma EnqueuePc(m: State, t: Tid, c: CondId, u: Tid)
    requires Ids(m) && t in m.pc && c in m.conds && m.pc[t].Outside? && m.nextWaiter !in m.waiters
    requires (forall d :: d in m.conds ==> m.nextWaiter !in m.conds[d].waiters)
    requires Moves(m, Enqueue(m, t, c), t) && u in m.pc && PcLock(m, u) && PcWait(m, u) && PcLock(Enqueue(m, t, c), u)
    ensures PcWait(Enqueue(m, t, c), u)
  {
    if u != t { PcWaitFrame(m, Enqueue(m, t, c), t, u); }
  }

  lemma EnqueueKeepsWaits(m: State, t: Tid, c: CondId)
    requires Ids(m) && PcLocksOk(m) && WaitsOk(m) && t in m.pc && c in m.conds
    requires m.pc[t].Outside? && m.nextWaiter !in m.waiters
    requires Moves(m, Enqueue(m, t, c), t) && PcLocksOk(Enqueue(m, t, c))
    ensures WaitsOk(Enqueue(m, t, c))
  {
    hide PcWait, QueueOk, WaiterOk;
    var m1 := Enqueue(m, t, c);
    forall d | d in m1.conds
      ensures QueueOk(m1, d) && m.nextWaiter !in m.conds[d].waiters
    {
      EnqueueQueue(m, t, c, d);
    }
    forall u | u in m1.pc
      ensures PcLock(m1, u) && PcWait(m1, u)
    {
      assert PcLock(m1, u) && PcLock(m, u) && PcWait(m, u);
      EnqueuePc(m, t, c, u);
    }
    forall v | v in m1.waiters
      ensures WaiterOk(m1, v)
    {
      EnqueueWaiter(m, t, c, v);
    }
  }

  lemma FreshWaiter(m: State)
    requires Inv(m)
    ensures m.nextWaiter !in m.waiters
  {
    assert m.nextWaiter in m.waiters ==> WaiterOk(m, m.nextWaiter);
  }

  /** cond_wait queues its waiter while it still holds the lock. */
  lemma EnqueueKeepsInv(m: State, t: Tid, c: CondId)
    requires Inv(m) && t in m.pc && !Asleep(m, t) && m.pc[t].Outside?
    requires c in m.conds && Holds(m, t, m.conds[c].lock)
    ensures Inv(Enqueue(m, t, c))
  {
    FreshWaiter(m);
    assert LockOk(m, m.conds[c].lock);
    WaiterStep(m, Enqueue(m, t, c), t);
    EnqueueKeepsWaits(m, t, c);
  }

  /** The thread whose waiter is at the front has given up the lock: it is at
      its sema_down, or asleep in it. */
  lemma FrontIsWaiting(m: State, t: Tid, c: CondId)
    requires Inv(m) && t in m.pc && c in m.conds && t in m.inside[m.conds[c].lock]
    requires !Pending(m.pc[t]) && m.conds[c].waiters != []
    ensures var w := m.conds[c].waiters[0];
      && w in m.waiters && m.waiters[w].owner in m.pc && m.pc[m.waiters[w].owner] == WaitDown(c, w)
      && m.waiters[w].pops == 0 && m.waiters[w].sema.value == 0
  {
    var w := m.conds[c].waiters[0];
    assert QueueOk(m, c) && w in m.conds[c].waiters;
    var o := m.waiters[w].owner;
    assert PcWait(m, o) && PcLock(m, o);
    if !m.pc[o].WaitDown? {
      assert LockOk(m, m.conds[c].lock);
      Singleton(m.inside[m.conds[c].lock], o, t);
    }
  }

  lemma PopKeepsWaits(m: State, t: Tid, c: CondId, all: bool, none: Pc)
    requires Ids(m) && PcLocksOk(m) && WaitsOk(m) && t in m.pc && c in m.conds && QueueIds(m, c)
    requires m.conds[c].waiters != []
    requires !Pending(m.pc[t]) && !m.pc[t].SigUp? && !m.pc[t].WaitDown?
    requires var w := m.conds[c].waiters[0];
      && w in m.waiters && m.waiters[w].owner in m.pc && m.pc[m.waiters[w].owner] == WaitDown(c, w)
      && m.waiters[w].pops == 0 && m.waiters[w].sema.value == 0
    requires Moves(m, Pop(m, t, c, all, none), t) && PcLocksOk(Pop(m, t, c, all, none))
    ensures WaitsOk(Pop(m, t, c, all, none))
  {
    var m1 := Pop(m, t, c, all, none);
    var w := m.conds[c].waiters[0];
    assert QueueOk(m, c);
    DropFirst(m.conds[c].waiters);
    forall u | u in m1.pc
      ensures PcLock(m1, u) && PcWait(m1, u)
    {
      assert PcLock(m1, u) && PcLock(m, u) && PcWait(m, u);
      if u != t && u != m.waiters[w].owner {
        PcWaitFrame(m, m1, t, u);
      }
    }
    forall d | d in m1.conds
      ensures QueueOk(m1, d)
    {
      assert QueueOk(m, d);
    }
    forall v | v in m1.waiters
      ensures WaiterOk(m1, v)
    {
      assert WaiterOk(m, v);
    }
  }

  lemma PopMoves(m: State, t: Tid, c: CondId, all: bool, none: Pc)
    requires Ids(m) && t in m.pc && c in m.conds && t in m.inside[m.conds[c].lock] && PcLock(m, t)
    requires m.conds[c].waiters != [] && QueueIds(m, c)
    ensures Moves(m, Pop(m, t, c, all, none), t) && PcLock(Pop(m, t, c, all, none), t)
  {
  }

  lemma PopKeepsInv(m: State, t: Tid, c: CondId, all: bool, none: Pc)
    requires Inv(m) && t in m.pc && !Asleep(m, t) && c in m.conds && t in m.inside[m.conds[c].lock]
    requires m.pc[t].Outside? || m.pc[t].Broadcasting?
    requires m.conds[c].waiters != [] && QueueIds(m, c)
    ensures Inv(Pop(m, t, c, all, none))
  {
    FrontIsWaiting(m, t, c);
    assert PcLock(m, t);
    PopMoves(m, t, c, all, none);
    hide LockOk, PcLock, PcWait, QueueOk, WaiterOk, Asleep;
    WaiterStep(m, Pop(m, t, c, all, none), t);
    PopKeepsWaits(m, t, c, all, none);
  }

  lemma WaiterDownKeepsWaits(m: State, t: Tid, c: CondId, w: WaiterId)
    requires Ids(m) && PcLocksOk(m) && WaitsOk(m) && t in m.pc && !Asleep(m, t)
    requires m.pc[t] == WaitDown(c, w) && w in m.waiters
    requires Moves(m, WaiterDown(m, t, c, w), t) && PcLocksOk(WaiterDown(m, t, c, w))
    ensures WaitsOk(WaiterDown(m, t, c, w))
  {
    var m1 := WaiterDown(m, t, c, w);
    assert PcLock(m, t) && PcWait(m, t) && WaiterOk(m, w);
    forall u | u in m1.pc
      ensures PcLock(m1, u) && PcWait(m1, u)
    {
      assert PcLock(m1, u) && PcLock(m, u) && PcWait(m, u);
    }
    forall d | d in m1.conds
      ensures QueueOk(m1, d)
    {
      assert QueueOk(m, d);
    }
    forall v | v in m1.waiters
      ensures WaiterOk(m1, v)
    {
      assert WaiterOk(m, v);
    }
  }

  lemma WaiterDownKeepsInv(m: State, t: Tid, c: CondId, w: WaiterId)
    requires Inv(m) && t in m.pc && !Asleep(m, t) && m.pc[t] == WaitDown(c, w) && w in m.waiters
    ensures Inv(WaiterDown(m, t, c, w))
  {
    assert PcLock(m, t);
    WaiterStep(m, WaiterDown(m, t, c, w), t);
    WaiterDownKeepsWaits(m, t, c, w);
  }

  lemma PostKeepsWaits(m: State, t: Tid, w: WaiterId, p: Pc)
    requires Ids(m) && PcLocksOk(m) && WaitsOk(m) && t in m.pc
    requires m.pc[t].SigUp? && m.pc[t].w == w && w in m.waiters
    requires p.Outside? || p.Broadcasting?
    requires Moves(m, Post(m, t, w, p), t) && PcLocksOk(Post(m, t, w, p))
    ensures WaitsOk(Post(m, t, w, p))
  {
    var m1 := Post(m, t, w, p);
    assert PcLock(m, t) && PcWait(m, t) && WaiterOk(m, w);
    forall u | u in m1.pc
      ensures PcLock(m1, u) && PcWait(m1, u)
    {
      assert PcLock(m1, u) && PcLock(m, u) && PcWait(m, u);
    }
    forall d | d in m1.conds
      ensures QueueOk(m1, d)
    {
      assert QueueOk(m, d);
    }
    forall v | v in m1.waiters
      ensures WaiterOk(m1, v)
    {
      assert WaiterOk(m, v);
    }
  }

  lemma PostKeepsInv(m: State, t: Tid, w: WaiterId, p: Pc)
    requires Inv(m) && t in m.pc && !Asleep(m, t) && m.pc[t].SigUp? && m.pc[t].w == w && w in m.waiters
    requires p.Outside? || p == Broadcasting(m.pc[t].c)
    ensures Inv(Post(m, t, w, p))
  {
    assert PcLock(m, t);
    WaiterStep(m, Post(m, t, w, p), t);
    PostKeepsWaits(m, t, w, p);
  }

  lemma ContinueKeepsInv(m: State, t: Tid)
    requires Inv(m) && Enabled(m, Step(t, Continue))
    ensures Inv(Apply(m, Step(t, Continue)))
  {
    assert PcLock(m, t) && PcWait(m, t);
    hide Asleep, Up, Down;
    match m.pc[t]
    case AcqDown(l) =>
      if m.locks[l].sema.value == 0 { SleepKeepsInv(m, t, l, AcqHolder(l)); } else { TakeKeepsInv(m, t, l, AcqHolder(l)); }
    case AcqHolder(l) => WriteHolderKeepsInv(m, t, l);
    case RelUp(l) => UpKeepsInv(m, t, l, Outside);
    case WaitClear(c, w) =>
      assert LockOk(m, m.conds[c].lock);
      ClearHolderKeepsInv(m, t, m.conds[c].lock, WaitUp(c, w));
    case WaitUp(c, w) => UpKeepsInv(m, t, m.conds[c].lock, WaitDown(c, w));
    case WaitDown(c, w) => WaiterDownKeepsInv(m, t, c, w);
    case WaitAcqDown(c, w) =>
      var l := m.conds[c].lock;
      if m.locks[l].sema.value == 0 { SleepKeepsInv(m, t, l, WaitAcqHolder(c, w)); } else { TakeKeepsInv(m, t, l, WaitAcqHolder(c, w)); }
    case WaitAcqHolder(c, w) => WriteHolderKeepsInv(m, t, m.conds[c].lock);
    case SigUp(c, w, all) => PostKeepsInv(m, t, w, if all then Broadcasting(c) else Outside);
    case Broadcasting(c) =>
      if m.conds[c].waiters == [] { MoveKeepsInv(m, t, Outside); } else { PopKeepsInv(m, t, c, true, Outside); }
  }

  lemma StartKeepsInv(m: State, step: Step)
    requires Inv(m) && Enabled(m, step) && !step.a.Continue?
    ensures Inv(Apply(m, step))
  {
    var t := step.t;
    match step.a
    case Acquire(l) =>
      assert LockOk(m, l);
      MoveKeepsInv(m, t, AcqDown(l));
    case TryAcquire(l) =>
      var ok := m.locks[l].sema.value > 0;
      NoteKeepsInv(m, t, ok);
      assert LockOk(Note(m, t, ok), l);
      if ok { TakeKeepsInv(Note(m, t, ok), t, l, AcqHolder(l)); }
    case Release(l) => ClearHolderKeepsInv(m, t, l, RelUp(l));
    case Wait(c) => EnqueueKeepsInv(m, t, c);
    case Signal(c) =>
      assert LockOk(m, m.conds[c].lock);
      if m.conds[c].waiters == [] {
        assert At(m, t, Outside) == m;
      } else {
        PopKeepsInv(m, t, c, false, Outside);
      }
    case Broadcast(c) =>
      if Holds(m, t, m.conds[c].lock) {
        assert LockOk(m, m.conds[c].lock);
        MoveKeepsInv(m, t, Broadcasting(c));
      }
  }

  /** Every step keeps the invariant. */
  lemma StepKeepsInv(m: State, step: Step)
    requires Inv(m) && Enabled(m, step)
    ensures Inv(Apply(m, step))
  {
    if step.a.Continue? {
      assert step == Step(step.t, Continue);
      ContinueKeepsInv(m, step.t);
    } else {
      StartKeepsInv(m, step);
    }
  }

  // -------------------------------------------------------- theorems over runs

  lemma {:induction false} RunKeepsInv(trace: seq<State>, steps: seq<Step>, i: nat)
    requires Run(trace, steps) && i < |trace|
    ensures Inv(trace[i])
  {
    if i > 0 {
      RunKeepsInv(trace, steps, i - 1);
      assert StepAt(trace, steps, i - 1);
      StepKeepsInv(trace[i - 1], steps[i - 1]);
    }
  }

  /** A lock's value is 0 or 1, it is 1 exactly when no thread is between its
      down and its up, and there is never more than one such thread. */
  lemma MutualExclusion(trace: seq<State>, steps: seq<Step>, i: nat, l: LockId, t: Tid, u: Tid)
    requires Run(trace, steps) && i < |trace| && l in trace[i].locks
    ensures l in trace[i].inside && trace[i].locks[l].sema.value in {0, 1}
    ensures trace[i].locks[l].sema.value == 1 <==> trace[i].inside[l] == {}
    ensures t in trace[i].inside[l] && u in trace[i].inside[l] ==> t == u
  {
    RunKeepsInv(trace, steps, i);
    assert LockOk(trace[i], l);
    if t in trace[i].inside[l] && u in trace[i].inside[l] {
      Singleton(trace[i].inside[l], t, u);
    }
  }

  /** holder names the thread inside, or nobody while that thread is between the
      semaphore operation and its write of holder. */
  lemma HolderIsInside(trace: seq<State>, steps: seq<Step>, i: nat, l: LockId, t: Tid)
    requires Run(trace, steps) && i < |trace| && l in trace[i].locks
    ensures l in trace[i].inside
    ensures Holds(trace[i], t, l) <==> t in trace[i].inside[l] && t in trace[i].pc && !TransitOn(trace[i], trace[i].pc[t], l)
  {
    RunKeepsInv(trace, steps, i);
    assert LockOk(trace[i], l);
  }

  /** The step takes waiter w off a condition's list. */
  ghost predicate PopsWaiter(m: State, step: Step, w: WaiterId) {
    exists c <- m.conds :: m.conds[c].waiters != [] && m.conds[c].waiters[0] == w &&
      (step.a == Signal(c) || (step.a.Continue? && step.t in m.pc && m.pc[step.t] == Broadcasting(c)))
  }

  ghost function PopCount(trace: seq<State>, steps: seq<Step>, w: WaiterId, n: nat): nat
    requires n <= |steps| <= |trace|
  {
    if n == 0 then 0
    else PopCount(trace, steps, w, n - 1) + if PopsWaiter(trace[n - 1], steps[n - 1], w) then 1 else 0
  }

  lemma StepMovesPops(m: State, step: Step, w: WaiterId)
    requires Inv(m) && Enabled(m, step) && w in m.waiters
    ensures w in Apply(m, step).waiters
    ensures Apply(m, step).waiters[w].pops == m.waiters[w].pops + if PopsWaiter(m, step, w) then 1 else 0
    ensures Apply(m, step).waiters[w].popper == if PopsWaiter(m, step, w) then step.t else m.waiters[w].popper
  {
    FreshWaiter(m);
    if step.a.Signal? {
      assert PopsWaiter(m, step, w) <==> m.conds[step.a.c].waiters != [] && m.conds[step.a.c].waiters[0] == w;
    } else if step.a.Continue? && m.pc[step.t].Broadcasting? {
      var c := m.pc[step.t].c;
      assert PopsWaiter(m, step, w) <==> m.conds[c].waiters != [] && m.conds[c].waiters[0] == w;
    }
  }

  lemma PoppedExists(m: State, step: Step, w: WaiterId)
    requires Inv(m) && PopsWaiter(m, step, w)
    ensures w in m.waiters
  {
    var c :| c in m.conds && m.conds[c].waiters != [] && m.conds[c].waiters[0] == w;
    assert QueueOk(m, c) && w in m.conds[c].waiters;
  }

  lemma ResumeAddsNone(m: State, t: Tid, w: WaiterId)
    requires Enabled(m, Step(t, Continue)) && w in Resume(m, t).waiters
    ensures w in m.waiters
  {
    hide Asleep, Holds, Up, Down;
    match m.pc[t]
    case AcqDown(_) =>
    case AcqHolder(_) =>
    case RelUp(_) =>
    case WaitClear(_, _) =>
    case WaitUp(_, _) =>
    case WaitDown(_, _) =>
    case WaitAcqDown(_, _) =>
    case WaitAcqHolder(_, _) =>
    case SigUp(_, _, _) =>
    case Broadcasting(_) =>
  }

  lemma NewWaiterUnpopped(m: State, step: Step, w: WaiterId)
    requires Enabled(m, step) && w !in m.waiters && w in Apply(m, step).waiters
    ensures Apply(m, step).waiters[w].pops == 0
  {
    hide Resume, Asleep, Holds, Down;
    if step.a.Continue? { ResumeAddsNone(m, step.t, w); }
  }

  /** The history field counts the signals and broadcasts that popped w. */
  lemma {:induction false} PopsAreCounted(trace: seq<State>, steps: seq<Step>, w: WaiterId, n: nat)
    requires Run(trace, steps) && n < |trace|
    ensures PopCount(trace, steps, w, n) == if w in trace[n].waiters then trace[n].waiters[w].pops else 0
  {
    if n > 0 {
      var m, step := trace[n - 1], steps[n - 1];
      PopsAreCounted(trace, steps, w, n - 1);
      assert StepAt(trace, steps, n - 1);
      RunKeepsInv(trace, steps, n - 1);
      if w in m.waiters {
        StepMovesPops(m, step, w);
      } else {
        if PopsWaiter(m, step, w) { PoppedExists(m, step, w); }
        if w in trace[n].waiters { NewWaiterUnpopped(m, step, w); }
      }
    }
  }

  /** A signal is not lost, wherever it lands between cond_wait's queueing and its
      down: a popped waiter's semaphore is up already, or its popper is about to
      post it; and a posted waiter is not asleep. */
  lemma SignalIsNotLost(trace: seq<State>, steps: seq<Step>, i: nat, t: Tid, c: CondId, w: WaiterId)
    requires Run(trace, steps) && i < |trace| && t in trace[i].pc
    requires Pending(trace[i].pc[t]) && trace[i].pc[t].c == c && trace[i].pc[t].w == w
    ensures c in trace[i].conds && w in trace[i].waiters
    ensures PopCount(trace, steps, w, i) <= 1
    ensures PopCount(trace, steps, w, i) == 0 <==> w in trace[i].conds[c].waiters
    ensures var x := trace[i].waiters[w]; PopCount(trace, steps, w, i) == 1 ==>
      || (x.sema.value == 1 && x.sema.waiters == [])
      || (x.popper in trace[i].pc && trace[i].pc[x.popper].SigUp? && trace[i].pc[x.popper].w == w)
  {
    RunKeepsInv(trace, steps, i);
    assert PcLock(trace[i], t) && PcWait(trace[i], t);
    PopsAreCounted(trace, steps, w, i);
  }

  /** While a signaller posts a waiter, the thread whose stack holds it is still
      at its sema_down, so the post never touches a dead frame. */
  lemma PostedFrameIsAlive(trace: seq<State>, steps: seq<Step>, i: nat, u: Tid)
    requires Run(trace, steps) && i < |trace| && u in trace[i].pc && trace[i].pc[u].SigUp?
    ensures var p := trace[i].pc[u];
      && p.w in trace[i].waiters && trace[i].waiters[p.w].owner in trace[i].pc
      && trace[i].pc[trace[i].waiters[p.w].owner] == WaitDown(p.c, p.w)
  {
    RunKeepsInv(trace, steps, i);
    assert PcLock(trace[i], u) && PcWait(trace[i], u);
  }

  lemma StepKeepsQueued(m: State, step: Step, c: CondId, w: WaiterId)
    requires Enabled(m, step) && c in m.conds && w in m.conds[c].waiters
    ensures c in Apply(m, step).conds
    ensures w in Apply(m, step).conds[c].waiters || PopsWaiter(m, step, w)
  {
    var q := m.conds[c].waiters;
    assert q == [q[0]] + q[1..];
  }

  // ------------------------------------------------------------------ broadcast

  /** t is inside cond_signal or cond_broadcast of c, and holds its lock. */
  predicate Signalling(m: State, t: Tid, c: CondId) {
    t in m.pc && c in m.conds && (m.pc[t] == Broadcasting(c) || (m.pc[t].SigUp? && m.pc[t].c == c))
  }

  predicate InBroadcast(m: State, t: Tid, c: CondId) {
    && t in m.pc && c in m.conds
    && (m.pc[t] == Broadcasting(c) || (m.pc[t].SigUp? && m.pc[t].c == c && m.pc[t].all))
  }

  /** Nobody else is inside the lock. */
  lemma OthersAreOut(m: State, t: Tid, c: CondId, u: Tid)
    requires Inv(m) && Signalling(m, t, c) && u in m.pc && u != t
    ensures m.conds[c].lock in m.locks && !Holds(m, u, m.conds[c].lock)
    ensures m.pc[u] != Broadcasting(c)
  {
    var l := m.conds[c].lock;
    assert PcLock(m, t) && PcLock(m, u) && LockOk(m, l);
    if u in m.inside[l] { Singleton(m.inside[l], t, u); }
  }

  /** So nobody else joins or leaves the line. */
  lemma OthersLeaveQueue(m: State, step: Step, t: Tid, c: CondId)
    requires Inv(m) && Enabled(m, step) && Signalling(m, t, c) && step.t != t
    ensures t in Apply(m, step).pc && Apply(m, step).pc[t] == m.pc[t]
    ensures c in Apply(m, step).conds && Apply(m, step).conds[c].waiters == m.conds[c].waiters
  {
    OthersAreOut(m, t, c, step.t);
    hide Inv, Asleep, Up, Down;
  }

  /** The broadcaster takes the front of the line off, or posts it; it stops only when
      there is no front. */
  lemma BroadcastGoesOn(m: State, step: Step, t: Tid, c: CondId)
    requires Enabled(m, step) && InBroadcast(m, t, c) && step.t == t
    ensures var n := Apply(m, step);
      && t in n.pc && c in n.conds
      && (InBroadcast(n, t, c) || (n.pc[t].Outside? && n.conds[c].waiters == []))
      && (n.conds[c].waiters == m.conds[c].waiters || (m.conds[c].waiters != [] && n.conds[c].waiters == m.conds[c].waiters[1..]))
  {
  }

  /** w is still in line, or t has taken it off. */
  predicate Reached(m: State, t: Tid, c: CondId, w: WaiterId) {
    && w in m.waiters && c in m.conds
    && (w in m.conds[c].waiters || (m.waiters[w].pops > 0 && m.waiters[w].popper == t))
  }

  lemma PoppedOnlyOnce(m: State, step: Step, w: WaiterId)
    requires Inv(m) && PopsWaiter(m, step, w)
    ensures w in m.waiters && m.waiters[w].pops == 0
  {
    var c :| c in m.conds && m.conds[c].waiters != [] && m.conds[c].waiters[0] == w;
    assert w in m.conds[c].waiters;
    QueuedIsUnpopped(m, c, w);
  }

  lemma StepReaches(m: State, step: Step, t: Tid, c: CondId, w: WaiterId)
    requires Inv(m) && Enabled(m, step) && InBroadcast(m, t, c) && Reached(m, t, c, w)
    ensures Reached(Apply(m, step), t, c, w)
  {
    hide Inv, Apply, Enabled;
    StepMovesPops(m, step, w);
    if w !in m.conds[c].waiters {
      if PopsWaiter(m, step, w) { PoppedOnlyOnce(m, step, w); }
      hide PopsWaiter;
      StepFrame(m, step, t, c);
    } else if step.t == t {
      hide PopsWaiter;
      StepKeepsQueued(m, step, c, w);
    } else {
      OthersLeaveQueue(m, step, t, c);
    }
  }

  /** A step of u leaves alone where another thread t is, what its last try returned, and
      which lock a condition is used with. */
  predicate Frame(m: State, n: State, u: Tid, t: Tid, c: CondId) {
    && (t in m.pc && t != u ==> t in n.pc && n.pc[t] == m.pc[t])
    && (t in m.tries && t != u ==> t in n.tries && n.tries[t] == m.tries[t])
    && (c in m.conds ==> c in n.conds && n.conds[c].lock == m.conds[c].lock)
  }

  lemma BeginFrame(m: State, u: Tid, a: Action, t: Tid, c: CondId)
    requires Enabled(m, Step(u, a)) && !a.Continue?
    ensures Frame(m, Begin(m, u, a), u, t, c)
  {
  }

  lemma ResumeFrame(m: State, u: Tid, t: Tid, c: CondId)
    requires Enabled(m, Step(u, Continue))
    ensures Frame(m, Resume(m, u), u, t, c)
  {
    hide Asleep, Holds, Up, Down;
  }

  lemma StepFrame(m: State, step: Step, t: Tid, c: CondId)
    requires Enabled(m, step)
    ensures Frame(m, Apply(m, step), step.t, t, c)
  {
    hide Begin, Resume, Enabled, Frame;
    if step.a.Continue? {
      assert step == Step(step.t, Continue);
      ResumeFrame(m, step.t, t, c);
    } else {
      assert step == Step(step.t, step.a);
      BeginFrame(m, step.t, step.a, t, c);
    }
  }

  /** t has been in a call all the time between i and j. */
  ghost predicate Away(trace: seq<State>, t: Tid, i: nat, j: nat)
    requires j <= |trace|
  {
    forall k :: i < k < j ==> t in trace[k].pc && !trace[k].pc[t].Outside?
  }

  /** Nobody joins the line during the broadcast, and it ends with the line empty. */
  lemma {:induction false} BroadcastProgress(trace: seq<State>, steps: seq<Step>, i: nat, j: nat, t: Tid, c: CondId) returns (d: nat)
    requires Run(trace, steps) && i < j < |trace| && steps[i] == Step(t, Broadcast(c)) && Away(trace, t, i, j)
    ensures c in trace[i].conds && c in trace[j].conds && t in trace[j].pc
    ensures InBroadcast(trace[j], t, c) || (trace[j].pc[t].Outside? && trace[j].conds[c].waiters == [])
    ensures d <= |trace[i].conds[c].waiters| && trace[j].conds[c].waiters == trace[i].conds[c].waiters[d..]
    decreases j
  {
    if j == i + 1 {
      assert StepAt(trace, steps, i);
      d := 0;
    } else {
      d := BroadcastProgress(trace, steps, i, j - 1, t, c);
      RunKeepsInv(trace, steps, j - 1);
      assert StepAt(trace, steps, j - 1);
      hide Inv, Apply, Enabled;
      var m, step := trace[j - 1], steps[j - 1];
      if step.t == t {
        BroadcastGoesOn(m, step, t, c);
        if trace[j].conds[c].waiters != m.conds[c].waiters { d := d + 1; }
      } else {
        OthersLeaveQueue(m, step, t, c);
      }
    }
  }

  lemma {:induction false} BroadcastReaches(trace: seq<State>, steps: seq<Step>, i: nat, j: nat, t: Tid, c: CondId, w: WaiterId)
    requires Run(trace, steps) && i < j < |trace| && steps[i] == Step(t, Broadcast(c)) && Away(trace, t, i, j)
    requires c in trace[i].conds && w in trace[i].conds[c].waiters
    ensures Reached(trace[j], t, c, w)
    decreases j
  {
    RunKeepsInv(trace, steps, j - 1);
    assert StepAt(trace, steps, j - 1);
    if j == i + 1 {
      assert QueueOk(trace[i], c);
    } else {
      hide Inv, Apply, Enabled;
      BroadcastReaches(trace, steps, i, j - 1, t, c, w);
      var d := BroadcastProgress(trace, steps, i, j - 1, t, c);
      StepReaches(trace[j - 1], steps[j - 1], t, c, w);
    }
  }

  /** The waiter's semaphore was raised: its thread has passed its sema_down, or is awake
      and will. */
  predicate Woken(m: State, w: WaiterId) {
    && w in m.waiters
    && var o := m.waiters[w].owner;
       o in m.pc && Pending(m.pc[o]) && m.pc[o].w == w ==> m.waiters[w].sema == T.Sema(1, [])
  }

  lemma PostedIsWoken(m: State, t: Tid, w: WaiterId)
    requires Inv(m) && w in m.waiters && m.waiters[w].pops > 0 && m.waiters[w].popper == t
    requires t in m.pc && m.pc[t].Outside?
    ensures Woken(m, w)
  {
    var o := m.waiters[w].owner;
    if o in m.pc && Pending(m.pc[o]) && m.pc[o].w == w {
      assert PcLock(m, o) && PcWait(m, o);
    }
  }

  /** A broadcast, started at i and over at j, has taken everyone off the list who was in
      line when it started, raised their semaphores, and left the list empty. */
  lemma BroadcastReachesAll(trace: seq<State>, steps: seq<Step>, i: nat, j: nat, t: Tid, c: CondId)
    requires Run(trace, steps) && i < j < |trace| && steps[i] == Step(t, Broadcast(c)) && Away(trace, t, i, j)
    requires t in trace[j].pc && trace[j].pc[t].Outside?
    ensures c in trace[i].conds && c in trace[j].conds && trace[j].conds[c].waiters == []
    ensures forall w :: w in trace[i].conds[c].waiters ==>
      PopCount(trace, steps, w, i) == 0 && PopCount(trace, steps, w, j) > 0 && Woken(trace[j], w)
  {
    hide Apply, Enabled, Woken, PopCount, Inv;
    var d := BroadcastProgress(trace, steps, i, j, t, c);
    RunKeepsInv(trace, steps, i);
    RunKeepsInv(trace, steps, j);
    forall w | w in trace[i].conds[c].waiters
      ensures PopCount(trace, steps, w, i) == 0 && PopCount(trace, steps, w, j) > 0 && Woken(trace[j], w)
    {
      QueuedIsUnpopped(trace[i], c, w);
      PopsAreCounted(trace, steps, w, i);
      BroadcastReaches(trace, steps, i, j, t, c, w);
      PopsAreCounted(trace, steps, w, j);
      PostedIsWoken(trace[j], t, w);
    }
  }

  lemma QueuedIsUnpopped(m: State, c: CondId, w: WaiterId)
    requires Inv(m) && c in m.conds && w in m.conds[c].waiters
    ensures w in m.waiters && m.waiters[w].pops == 0
  {
    assert QueueOk(m, c);
    var o := m.waiters[w].owner;
    assert PcLock(m, o) && PcWait(m, o);
  }

  // ----------------------------------------------------------------- whole calls

  /** A call under way: with the lock it is about, the waiter it queued or took off, and
      for a signal what is left of the line. */
  datatype Call =
    | Acquiring(l: LockId) | Trying(l: LockId) | Releasing(l: LockId)
    | Waiting(c: CondId, l: LockId, w: WaiterId) | Posting(c: CondId, w: WaiterId, rest: seq<WaiterId>)

  /** Thread t is inside the call. */
  predicate InCall(m: State, t: Tid, k: Call) {
    && t in m.pc
    && match k
       case Acquiring(l) => m.pc[t] == AcqDown(l) || m.pc[t] == AcqHolder(l)
       case Trying(l) => m.pc[t] == AcqHolder(l) && t in m.tries && m.tries[t]
       case Releasing(l) => m.pc[t] == RelUp(l)
       case Waiting(c, l, w) =>
         && c in m.conds && m.conds[c].lock == l
         && (m.pc[t] == WaitClear(c, w) || m.pc[t] == WaitUp(c, w) || m.pc[t] == WaitDown(c, w) ||
             m.pc[t] == WaitAcqDown(c, w) || m.pc[t] == WaitAcqHolder(c, w))
       case Posting(c, w, rest) => m.pc[t] == SigUp(c, w, false) && c in m.conds && m.conds[c].waiters == rest
  }

  /** Thread t has just come back from it. */
  predicate Back(m: State, t: Tid, k: Call) {
    && t in m.pc && m.pc[t].Outside?
    && match k
       case Acquiring(l) => Holds(m, t, l)
       case Trying(l) => t in m.tries && m.tries[t] && Holds(m, t, l)
       case Releasing(l) => l in m.inside && t !in m.inside[l] && !Holds(m, t, l)
       case Waiting(c, l, w) => Holds(m, t, l) && w in m.waiters && m.waiters[w].pops == 1
       case Posting(c, w, rest) =>
         && c in m.conds && m.conds[c].waiters == rest
         && w in m.waiters && m.waiters[w].pops > 0 && m.waiters[w].popper == t
  }

  lemma OthersKeepCall(m: State, step: Step, t: Tid, k: Call)
    requires Inv(m) && Enabled(m, step) && InCall(m, t, k) && step.t != t
    ensures InCall(Apply(m, step), t, k)
  {
    hide Inv, Apply, Enabled;
    if k.Posting? { OthersLeaveQueue(m, step, t, k.c); }
    StepFrame(m, step, t, if k.Waiting? then k.c else 0);
  }

  lemma LockCallGoesOn(m: State, t: Tid, k: Call)
    requires Inv(m) && Enabled(m, Step(t, Continue)) && InCall(m, t, k) && (k.Acquiring? || k.Trying? || k.Releasing?)
    ensures InCall(Apply(m, Step(t, Continue)), t, k) || Back(Apply(m, Step(t, Continue)), t, k)
  {
    assert LockOk(m, k.l) && PcLock(m, t);
    hide Inv, LockOk;
  }

  lemma WaitGoesOn(m: State, t: Tid, k: Call)
    requires Inv(m) && Enabled(m, Step(t, Continue)) && InCall(m, t, k) && k.Waiting?
    ensures InCall(Apply(m, Step(t, Continue)), t, k) || Back(Apply(m, Step(t, Continue)), t, k)
  {
    assert PcLock(m, t) && PcWait(m, t);
    hide Inv;
  }

  lemma PostGoesOn(m: State, t: Tid, k: Call)
    requires Inv(m) && Enabled(m, Step(t, Continue)) && InCall(m, t, k) && k.Posting?
    ensures Back(Apply(m, Step(t, Continue)), t, k)
  {
    assert PcLock(m, t) && PcWait(m, t);
    hide Inv;
  }

  lemma CallGoesOn(m: State, step: Step, t: Tid, k: Call)
    requires Inv(m) && Enabled(m, step) && InCall(m, t, k)
    ensures InCall(Apply(m, step), t, k) || Back(Apply(m, step), t, k)
  {
    hide Inv, Apply, Back;
    if step.t != t {
      OthersKeepCall(m, step, t, k);
    } else {
      assert step == Step(t, Continue);
      if k.Waiting? {
        WaitGoesOn(m, t, k);
      } else if k.Posting? {
        PostGoesOn(m, t, k);
      } else {
        LockCallGoesOn(m, t, k);
      }
    }
  }

  lemma {:induction false} CallProgress(trace: seq<State>, steps: seq<Step>, i: nat, j: nat, t: Tid, k: Call)
    requires Run(trace, steps) && i < j < |trace| && Away(trace, t, i, j)
    requires InCall(trace[i + 1], t, k) || Back(trace[i + 1], t, k)
    ensures InCall(trace[j], t, k) || Back(trace[j], t, k)
    decreases j
  {
    if i + 1 < j {
      hide Inv, Apply, Enabled;
      CallProgress(trace, steps, i, j - 1, t, k);
      RunKeepsInv(trace, steps, j - 1);
      assert StepAt(trace, steps, j - 1);
      CallGoesOn(trace[j - 1], steps[j - 1], t, k);
    }
  }

  /** lock_acquire, called at i and back at j, returns with the lock held. */
  lemma AcquireReturns(trace: seq<State>, steps: seq<Step>, i: nat, j: nat, t: Tid, l: LockId)
    requires Run(trace, steps) && i < j < |trace| && steps[i] == Step(t, Acquire(l)) && Away(trace, t, i, j)
    requires t in trace[j].pc && trace[j].pc[t].Outside?
    ensures Holds(trace[j], t, l)
  {
    assert StepAt(trace, steps, i);
    hide Run;
    CallProgress(trace, steps, i, j, t, Acquiring(l));
  }

  /** lock_try_acquire returns true just when the semaphore was up, and then and only then
      with the lock held. */
  lemma TryAcquireReturns(trace: seq<State>, steps: seq<Step>, i: nat, j: nat, t: Tid, l: LockId)
    requires Run(trace, steps) && i < j < |trace| && steps[i] == Step(t, TryAcquire(l)) && Away(trace, t, i, j)
    requires t in trace[j].pc && trace[j].pc[t].Outside?
    ensures l in trace[i].locks && t in trace[j].tries
    ensures trace[j].tries[t] <==> Holds(trace[j], t, l)
    ensures trace[j].tries[t] <==> trace[i].locks[l].sema.value > 0
    ensures !trace[j].tries[t] ==> trace[i + 1].locks == trace[i].locks && trace[i + 1].inside == trace[i].inside
  {
    assert StepAt(trace, steps, i);
    if trace[i].locks[l].sema.value > 0 {
      hide Run;
      CallProgress(trace, steps, i, j, t, Trying(l));
    }
  }

  /** cond_wait, called at i and back at j, queues a waiter of its own at the end of the
      line, and returns holding the lock after exactly one signal or broadcast took that
      waiter off the list. */
  lemma CondWaitReturns(trace: seq<State>, steps: seq<Step>, i: nat, j: nat, t: Tid, c: CondId)
    requires Run(trace, steps) && i < j < |trace| && steps[i] == Step(t, Wait(c)) && Away(trace, t, i, j)
    requires t in trace[j].pc && trace[j].pc[t].Outside?
    ensures c in trace[i].conds && Holds(trace[i], t, trace[i].conds[c].lock)
    ensures Holds(trace[j], t, trace[i].conds[c].lock)
    ensures
      var w := trace[i].nextWaiter;
      && c in trace[i + 1].conds && trace[i + 1].conds[c].waiters == trace[i].conds[c].waiters + [w]
      && PopCount(trace, steps, w, i) == 0 && PopCount(trace, steps, w, j) == 1
  {
    var w := trace[i].nextWaiter;
    assert StepAt(trace, steps, i);
    RunKeepsInv(trace, steps, i);
    FreshWaiter(trace[i]);
    PopsAreCounted(trace, steps, w, i);
    hide Inv;
    CallProgress(trace, steps, i, j, t, Waiting(c, trace[i].conds[c].lock, w));
    hide Apply;
    PopsAreCounted(trace, steps, w, j);
  }

  /** cond_signal takes the first in line off and raises its semaphore, and leaves the rest
      of the line alone. */
  lemma SignalReturns(trace: seq<State>, steps: seq<Step>, i: nat, j: nat, t: Tid, c: CondId)
    requires Run(trace, steps) && i < j < |trace| && steps[i] == Step(t, Signal(c)) && Away(trace, t, i, j)
    requires t in trace[j].pc && trace[j].pc[t].Outside?
    ensures c in trace[i].conds && c in trace[j].conds
    ensures
      var q := trace[i].conds[c].waiters;
      if q == [] then trace[j].conds[c].waiters == [] else
        && trace[j].conds[c].waiters == q[1..]
        && PopCount(trace, steps, q[0], i) == 0 && PopCount(trace, steps, q[0], j) > 0 && Woken(trace[j], q[0])
  {
    assert StepAt(trace, steps, i);
    var q := trace[i].conds[c].waiters;
    if q != [] {
      RunKeepsInv(trace, steps, i);
      QueuedIsUnpopped(trace[i], c, q[0]);
      PopsAreCounted(trace, steps, q[0], i);
      CallProgress(trace, steps, i, j, t, Posting(c, q[0], q[1..]));
      hide Inv, Apply, Woken;
      RunKeepsInv(trace, steps, j);
      PopsAreCounted(trace, steps, q[0], j);
      PostedIsWoken(trace[j], t, q[0]);
    }
  }

  // ------------------------------------------------------- sleeping and waking up

  /** t is awake at the sema_down of lock l. */
  predicate AtDoor(m: State, t: Tid, l: LockId) {
    t in m.pc && AtLockDown(m.pc[t]) && PcIds(m, m.pc[t]) && LockOf(m, m.pc[t]) == l && !Asleep(m, t)
  }

  lemma OnlyInOwnLine(m: State, t: Tid, l: LockId)
    requires Inv(m) && l in m.locks && t in m.pc && AtLockDown(m.pc[t]) && PcIds(m, m.pc[t]) && LockOf(m, m.pc[t]) == l
    requires t !in m.locks[l].sema.waiters
    ensures !Asleep(m, t)
  {
    forall r | r in m.locks ensures t !in m.locks[r].sema.waiters {
      assert LockOk(m, r);
    }
    forall w | w in m.waiters ensures t !in m.waiters[w].sema.waiters {
      assert WaiterOk(m, w);
    }
  }

  /** The step gives lock l up: the up of lock_release or of cond_wait. */
  predicate GivesUp(m: State, step: Step, l: LockId) {
    && step.a.Continue? && step.t in m.pc && (m.pc[step.t].RelUp? || m.pc[step.t].WaitUp?)
    && PcIds(m, m.pc[step.t]) && LockOf(m, m.pc[step.t]) == l
  }

  lemma GiveUpDoes(m: State, step: Step, l: LockId)
    requires Inv(m) && Enabled(m, step) && GivesUp(m, step, l)
    ensures var n := Apply(m, step); var q := m.locks[l].sema;
      && l in n.locks && m.locks[l].sema.value == 0 && n.locks[l].sema == T.Sema(1, if q.waiters == [] then [] else q.waiters[1..])
      && (forall t :: t in m.pc && t != step.t ==> t in n.pc && n.pc[t] == m.pc[t])
      && n.conds == m.conds && n.waiters == m.waiters && n.locks.Keys == m.locks.Keys
  {
    assert PcLock(m, step.t) && LockOk(m, l);
    hide Inv, LockOk, Asleep;
  }

  lemma FrontComesUp(m: State, step: Step, l: LockId)
    requires Inv(m) && Enabled(m, step) && GivesUp(m, step, l) && m.locks[l].sema.waiters != []
    ensures AtDoor(Apply(m, step), m.locks[l].sema.waiters[0], l)
  {
    var n, q := Apply(m, step), m.locks[l].sema.waiters;
    GiveUpDoes(m, step, l);
    StepKeepsInv(m, step);
    assert LockOk(m, l) && q[0] in q;
    assert !Asleep(m, step.t) && step.t !in q;
    DropFirst(q);
    hide Apply, Inv, Asleep;
    OnlyInOwnLine(n, q[0], l);
  }

  /** Giving a lock up frees it and wakes the first thread asleep at its door, which then
      is awake there; the rest of the line keeps its order. */
  lemma ReleaseWakesFirst(trace: seq<State>, steps: seq<Step>, i: nat, l: LockId)
    requires Run(trace, steps) && i < |steps| && GivesUp(trace[i], steps[i], l)
    ensures l in trace[i].locks && l in trace[i + 1].locks && trace[i + 1].locks[l].sema.value == 1
    ensures
      var q := trace[i].locks[l].sema.waiters;
      && trace[i + 1].locks[l].sema.waiters == (if q == [] then [] else q[1..])
      && (q != [] ==> q[0] !in trace[i + 1].locks[l].sema.waiters && AtDoor(trace[i + 1], q[0], l))
  {
    hide Inv, Apply, Enabled, AtDoor;
    RunKeepsInv(trace, steps, i);
    assert StepAt(trace, steps, i);
    GiveUpDoes(trace[i], steps[i], l);
    var q := trace[i].locks[l].sema.waiters;
    if q != [] {
      FrontComesUp(trace[i], steps[i], l);
      InLineOnce(trace[i], l);
    }
  }

  /** lock_release, called at i and back at j, returns with the caller outside the lock; its
      last step frees the lock and wakes the first thread asleep at the door. */
  lemma ReleaseReturns(trace: seq<State>, steps: seq<Step>, i: nat, j: nat, t: Tid, l: LockId)
    requires Run(trace, steps) && i < j < |trace| && steps[i] == Step(t, Release(l)) && Away(trace, t, i, j)
    requires t in trace[j].pc && trace[j].pc[t].Outside?
    ensures Holds(trace[i], t, l)
    ensures l in trace[j].inside && t !in trace[j].inside[l] && !Holds(trace[j], t, l)
    ensures l in trace[j - 1].locks && l in trace[j].locks && trace[j].locks[l].sema.value == 1
    ensures
      var q := trace[j - 1].locks[l].sema.waiters;
      && trace[j].locks[l].sema.waiters == (if q == [] then [] else q[1..])
      && (q != [] ==> q[0] !in trace[j].locks[l].sema.waiters && AtDoor(trace[j], q[0], l))
  {
    hide Inv, AtDoor, Apply, Enabled;
    assert StepAt(trace, steps, i) && StepAt(trace, steps, j - 1);
    hide Run;
    ReleaseStarts(trace[i], t, l);
    CallProgress(trace, steps, i, j, t, Releasing(l));
    CallProgress(trace, steps, i, j - 1, t, Releasing(l));
    ReleaseEnds(trace[j - 1], steps[j - 1], t, l);
    ReleaseWakesFirst(trace, steps, j - 1, l);
  }

  lemma ReleaseStarts(m: State, t: Tid, l: LockId)
    requires Enabled(m, Step(t, Release(l)))
    ensures Holds(m, t, l) && InCall(Apply(m, Step(t, Release(l))), t, Releasing(l))
  {
  }

  lemma ReleaseEnds(m: State, step: Step, t: Tid, l: LockId)
    requires Enabled(m, step) && InCall(m, t, Releasing(l)) && !InCall(Apply(m, step), t, Releasing(l))
    ensures step.t == t && GivesUp(m, step, l)
  {
    hide Apply;
    StepFrame(m, step, t, 0);
  }

  lemma InLineOnce(m: State, l: LockId)
    requires Inv(m) && l in m.locks && m.locks[l].sema.waiters != []
    ensures m.locks[l].sema.waiters[0] !in m.locks[l].sema.waiters[1..]
  {
    assert LockOk(m, l);
  }

  /** At the door a thread takes the lock if it is free and otherwise falls asleep, last in
      line. */
  lemma DoorTurn(trace: seq<State>, steps: seq<Step>, i: nat, l: LockId)
    requires Run(trace, steps) && i < |steps| && steps[i].a.Continue? && AtDoor(trace[i], steps[i].t, l)
    ensures l in trace[i].locks && l in trace[i + 1].locks && l in trace[i + 1].inside && steps[i].t in trace[i + 1].pc
    ensures
      var t, q, q1 := steps[i].t, trace[i].locks[l].sema, trace[i + 1].locks[l].sema;
      if q.value > 0 then q1 == T.Sema(q.value - 1, q.waiters) && t in trace[i + 1].inside[l] && InTransit(trace[i + 1].pc[t])
      else q1 == T.Sema(0, q.waiters + [t]) && trace[i + 1].pc[t] == trace[i].pc[t] && Asleep(trace[i + 1], t)
  {
    assert StepAt(trace, steps, i);
    var t := steps[i].t;
    if trace[i].locks[l].sema.value == 0 {
      assert t in trace[i + 1].locks[l].sema.waiters;
    }
  }

  /** In cond_wait's own sema_down the thread goes on if it was posted and otherwise falls
      asleep. */
  lemma WaitTurn(trace: seq<State>, steps: seq<Step>, i: nat, c: CondId, w: WaiterId)
    requires Run(trace, steps) && i < |steps| && steps[i].a.Continue?
    requires steps[i].t in trace[i].pc && trace[i].pc[steps[i].t] == WaitDown(c, w)
    ensures w in trace[i].waiters && w in trace[i + 1].waiters && steps[i].t in trace[i + 1].pc
    ensures
      var t, q, q1 := steps[i].t, trace[i].waiters[w].sema, trace[i + 1].waiters[w].sema;
      if q.value > 0 then q1 == T.Sema(q.value - 1, q.waiters) && trace[i + 1].pc[t] == WaitAcqDown(c, w)
      else q1 == T.Sema(0, q.waiters + [t]) && trace[i + 1].pc[t] == WaitDown(c, w) && Asleep(trace[i + 1], t)
  {
    assert StepAt(trace, steps, i);
    var t := steps[i].t;
    if trace[i].waiters[w].sema.value == 0 {
      assert t in trace[i + 1].waiters[w].sema.waiters;
    }
  }

  /** While a lock is free and threads are asleep at its door, one is awake there. */
  ghost predicate DoorWatched(m: State, l: LockId) {
    l in m.locks && m.locks[l].sema.value > 0 && m.locks[l].sema.waiters != [] ==> exists t :: AtDoor(m, t, l)
  }

  /** What a step may do to a lock it does not give up: take it, sleep at it, or leave its
      semaphore alone. */
  predicate TakenOrSame(m: State, n: State, l: LockId) {
    l in m.locks && l in n.locks && (n.locks[l].sema.value == 0 || n.locks[l].sema == m.locks[l].sema)
  }

  lemma BeginMoves(m: State, t: Tid, a: Action, l: LockId)
    requires Enabled(m, Step(t, a)) && !a.Continue? && l in m.locks && m.locks[l].sema.value <= 1
    ensures TakenOrSame(m, Begin(m, t, a), l)
  {
    hide Asleep;
  }

  lemma ResumeMoves(m: State, t: Tid, l: LockId)
    requires Enabled(m, Step(t, Continue)) && l in m.locks && m.locks[l].sema.value <= 1 && !GivesUp(m, Step(t, Continue), l)
    ensures TakenOrSame(m, Resume(m, t), l)
  {
    hide Asleep, Holds;
  }

  lemma SemaMoves(m: State, step: Step, l: LockId)
    requires Inv(m) && Enabled(m, step) && l in m.locks && !GivesUp(m, step, l)
    ensures TakenOrSame(m, Apply(m, step), l)
  {
    assert LockOk(m, l);
    hide Inv, LockOk, Begin, Resume, Enabled, GivesUp, TakenOrSame;
    if step.a.Continue? {
      assert step == Step(step.t, Continue);
      ResumeMoves(m, step.t, l);
    } else {
      assert step == Step(step.t, step.a);
      BeginMoves(m, step.t, step.a, l);
    }
  }

  lemma StaysAtDoor(m: State, step: Step, l: LockId, t: Tid)
    requires Inv(m) && Enabled(m, step) && AtDoor(m, t, l) && l in m.locks && m.locks[l].sema.value > 0
    requires l in Apply(m, step).locks && Apply(m, step).locks[l].sema == m.locks[l].sema
    ensures AtDoor(Apply(m, step), t, l)
  {
    var n := Apply(m, step);
    var c: CondId := if m.pc[t].WaitAcqDown? then m.pc[t].c else 0;
    StepFrame(m, step, t, c);
    if step.t != t {
      StepKeepsInv(m, step);
      assert PcLock(n, t);
      assert t !in m.locks[l].sema.waiters;
      hide Apply, Inv, Asleep;
      OnlyInOwnLine(n, t, l);
    }
  }

  lemma StepKeepsWatch(m: State, step: Step, l: LockId)
    requires Inv(m) && Enabled(m, step) && l in m.locks && DoorWatched(m, l)
    ensures l in Apply(m, step).locks && DoorWatched(Apply(m, step), l)
  {
    hide Inv, Apply, Enabled, AtDoor;
    if GivesUp(m, step, l) {
      GiveUpDoes(m, step, l);
      if m.locks[l].sema.waiters != [] { FrontComesUp(m, step, l); }
    } else {
      SemaMoves(m, step, l);
      var n := Apply(m, step);
      if n.locks[l].sema.value > 0 && n.locks[l].sema.waiters != [] {
        var t :| AtDoor(m, t, l);
        StaysAtDoor(m, step, l, t);
      }
    }
  }

  /** No wakeup is lost at a lock: in every state of every interleaving, while it is free
      and threads are asleep at its door, an awake thread is there to take it. */
  lemma {:induction false} NoLockWakeupLost(trace: seq<State>, steps: seq<Step>, i: nat, l: LockId)
    requires Run(trace, steps) && i < |trace| && l in trace[0].locks
    ensures l in trace[i].locks && DoorWatched(trace[i], l)
  {
    if i > 0 {
      hide Inv, Apply, Enabled, DoorWatched;
      NoLockWakeupLost(trace, steps, i - 1, l);
      RunKeepsInv(trace, steps, i - 1);
      assert StepAt(trace, steps, i - 1);
      StepKeepsWatch(trace[i - 1], steps[i - 1], l);
    }
  }

  /** No operation gets stuck halfway: an awake thread can always take its next step. */
  lemma AwakeCanContinue(m: State, t: Tid)
    requires Inv(m) && t in m.pc && !Asleep(m, t) && !m.pc[t].Outside?
    ensures Enabled(m, Step(t, Continue))
  {
    assert PcLock(m, t);
    if m.pc[t].Broadcasting? {
      assert QueueOk(m, m.pc[t].c);
    }
  }
}
