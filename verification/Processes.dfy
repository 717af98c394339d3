/** Starting, waiting for and ending processes: the handshake between a parent in
    exec or wait and the child it created, as a system of interleaved steps. */
module Processes {
  import opened Containers

  type Tid = nat

  /** The first process, which nobody waits for. */
  const INITIAL: Tid := 1

  /** Where a process is. The child's start-up comes first, then user code and the
      calls it makes. */
  datatype Pc =
    | LoadStart | LoadOpen | LoadBody | LoadFinish(ok: bool) | LoadMark(ok: bool) | LoadPost(ok: bool)
    | User
    | ExecLock | ExecCreate | ExecAdd(child: Tid) | ExecPublish(child: Tid, rec: nat)
    | ExecRelease(child: Tid, rec: nat, sema: nat) | ExecDown(child: Tid, rec: nat, sema: nat)
    | ExecCheck(child: Tid, rec: nat, sema: nat)
    | WaitFind(pid: Tid) | WaitDown(pid: Tid, rec: nat) | WaitFree(pid: Tid, rec: nat)
    | ExitLock(status: int) | ExitClose(status: int) | ExitReport(status: int) | ExitUp(status: int)
    | Gone

  /** What parent and child share about the child. `posted` and `exited` record that
      the child has raised its load and its exit semaphore. */
  datatype Record = Record(
    pid: Tid, parent: Tid, loadStatus: Option<nat>, failed: bool, exitStatus: int, done: nat,
    posted: bool, exited: bool)

  datatype Proc = Proc(pc: Pc, childData: Option<nat>, children: seq<nat>)

  /** Records and load semaphores are in the maps while they are allocated. `outcome`
      and `exits` remember how each load ended and what each process passed to exit;
      `parentOf` who created each process, `reaped` the processes that were waited for,
      `results` what each process's last exec or wait returned, and `crashed` that a
      step followed a pointer to nothing. */
  datatype Machine = Machine(
    procs: map<Tid, Proc>, records: map<nat, Record>, semas: map<nat, nat>, lock: Option<Tid>,
    nextTid: Tid, nextRecord: nat, nextSema: nat,
    outcome: map<Tid, bool>, exits: map<Tid, int>, parentOf: map<Tid, Tid>, reaped: set<Tid>,
    results: map<Tid, int>, crashed: bool)

  /** A process's next step; the choices are how loading ends and what user code calls. */
  datatype Act = Go | FailEarly | Finish(ok: bool) | CallExec | CallWait(pid: Tid) | CallExit(status: int)

  datatype Step = Step(t: Tid, act: Act)

  // ---------------------------------------------------------------------- steps

  function At(m: Machine, t: Tid): Pc
    requires t in m.procs
  {
    m.procs[t].pc
  }

  function Move(m: Machine, t: Tid, pc: Pc): Machine
    requires t in m.procs
  {
    m.(procs := m.procs[t := m.procs[t].(pc := pc)])
  }

  /** Taking or giving the lock on the way. */
  function MoveLock(m: Machine, t: Tid, pc: Pc, lock: Option<Tid>): Machine
    requires t in m.procs
  {
    m.(procs := m.procs[t := m.procs[t].(pc := pc)], lock := lock)
  }

  function Crash(m: Machine): Machine { m.(crashed := true) }

  /** The child's record, if its pointer leads to one. */
  function Data(m: Machine, t: Tid): Option<nat>
    requires t in m.procs
  {
    if m.procs[t].childData.Some? && m.procs[t].childData.value in m.records then m.procs[t].childData else None
  }

  /** The record of a child in its parent's list. */
  function FindChild(m: Machine, children: seq<nat>, pid: Tid): (r: Option<nat>)
    ensures r.Some? ==> r.value in children && r.value in m.records && m.records[r.value].pid == pid
    ensures r.None? ==> forall x :: x in children && x in m.records ==> m.records[x].pid != pid
  {
    if children == [] then None
    else if children[0] in m.records && m.records[children[0]].pid == pid then Some(children[0])
    else FindChild(m, children[1..], pid)
  }

  predicate TakesLock(pc: Pc) { pc.LoadStart? || pc.LoadFinish? || pc.ExecLock? || pc.ExitLock? }

  /** The step can be taken now. */
  predicate Enabled(m: Machine, s: Step) {
    && !m.crashed && s.t in m.procs
    && var pc := At(m, s.t);
       match s.act
       case FailEarly => pc.LoadStart?
       case Finish(_) => pc.LoadBody?
       case CallExec => pc.User?
       case CallWait(_) => pc.User?
       case CallExit(_) => pc.User? && m.procs[s.t].children == []
       case Go =>
         && !pc.LoadBody? && !pc.User? && !pc.Gone?
         && (TakesLock(pc) ==> m.lock.None?)
         && (pc.ExecDown? ==> pc.sema in m.semas ==> m.semas[pc.sema] > 0)
         && (pc.WaitDown? ==> pc.rec in m.records ==> m.records[pc.rec].done > 0)
  }

  /** A load that failed says so in its record. */
  function MarkStep(m: Machine, t: Tid): Machine
    requires t in m.procs
  {
    if Data(m, t).None? then Crash(m)
    else var r := Data(m, t).value;
      Move(m, t, LoadPost(false)).(lock := None, records := m.records[r := m.records[r].(failed := true)])
  }

  /** The load semaphore is raised; after a failure the process exits. */
  function PostStep(m: Machine, t: Tid, ok: bool): Machine
    requires t in m.procs
  {
    if Data(m, t).None? then Crash(m)
    else var r := Data(m, t).value;
      var s := m.records[r].loadStatus;
      if s.None? || s.value !in m.semas then Crash(m)
      else
        var next := Move(m, t, if ok then User else ExitLock(-1));
        next.(semas := m.semas[s.value := m.semas[s.value] + 1],
              records := m.records[r := m.records[r].(posted := true)],
              exits := if ok then m.exits else m.exits[t := -1])
  }

  /** load's start and finish under the lock, and the report to the parent. */
  function LoadStep(m: Machine, t: Tid): Machine
    requires t in m.procs
  {
    match At(m, t)
    case LoadStart => MoveLock(m, t, LoadOpen, Some(t))
    case LoadOpen => MoveLock(m, t, LoadBody, None)
    case LoadFinish(ok) => MoveLock(m, t, LoadMark(ok), Some(t))
    case LoadMark(ok) => if ok then MoveLock(m, t, LoadPost(ok), None) else MarkStep(m, t)
    case LoadPost(ok) => PostStep(m, t, ok)
    case _ => m
  }

  /** thread_create. */
  function CreateStep(m: Machine, t: Tid): Machine
    requires t in m.procs
  {
    var c := m.nextTid;
    var next := Move(m, t, ExecAdd(c));
    next.(procs := next.procs[c := Proc(LoadStart, None, [])], nextTid := c + 1)
  }

  /** add_child_to_list. */
  function AddStep(m: Machine, t: Tid, c: Tid): Machine
    requires t in m.procs
  {
    if c !in m.procs || At(m, c).Gone? || c == t then Crash(m)
    else
      var r := m.nextRecord;
      m.(procs := m.procs[t := m.procs[t].(pc := ExecPublish(c, r), children := m.procs[t].children + [r])]
                         [c := m.procs[c].(childData := Some(r))],
         records := m.records[r := Record(c, t, None, false, 0, 0, false, false)], nextRecord := r + 1,
         parentOf := m.parentOf[c := t])
  }

  /** The load semaphore is made and can be found through the record. */
  function PublishStep(m: Machine, t: Tid, c: Tid, r: nat): Machine
    requires t in m.procs
  {
    if r !in m.records then Crash(m)
    else
      var s := m.nextSema;
      Move(m, t, ExecRelease(c, r, s)).(semas := m.semas[s := 0], nextSema := s + 1,
        records := m.records[r := m.records[r].(loadStatus := Some(s))])
  }

  function DownStep(m: Machine, t: Tid, c: Tid, r: nat, s: nat): Machine
    requires t in m.procs
  {
    if s !in m.semas || m.semas[s] == 0 then Crash(m)
    else Move(m, t, ExecCheck(c, r, s)).(semas := m.semas[s := m.semas[s] - 1])
  }

  /** exec returns; its load semaphore goes with its stack frame. */
  function CheckStep(m: Machine, t: Tid, c: Tid, r: nat, s: nat): Machine
    requires t in m.procs
  {
    if r !in m.records then Crash(m)
    else Move(m, t, User).(semas := m.semas - {s}, results := m.results[t := if m.records[r].failed then -1 else c])
  }

  /** exec: the lock is held from before the child exists until its record and the load
      semaphore can be found through it. */
  function ExecStep(m: Machine, t: Tid): Machine
    requires t in m.procs
  {
    match At(m, t)
    case ExecLock => MoveLock(m, t, ExecCreate, Some(t))
    case ExecCreate => CreateStep(m, t)
    case ExecAdd(c) => AddStep(m, t, c)
    case ExecPublish(c, r) => PublishStep(m, t, c, r)
    case ExecRelease(c, r, s) => MoveLock(m, t, ExecDown(c, r, s), None)
    case ExecDown(c, r, s) => DownStep(m, t, c, r, s)
    case ExecCheck(c, r, s) => CheckStep(m, t, c, r, s)
    case _ => m
  }

  /** wait takes the child's exit semaphore. */
  function TakeStep(m: Machine, t: Tid, pid: Tid, r: nat): Machine
    requires t in m.procs
  {
    if r !in m.records || m.records[r].done == 0 then Crash(m)
    else Move(m, t, WaitFree(pid, r)).(records := m.records[r := m.records[r].(done := m.records[r].done - 1)])
  }

  /** wait frees the child's record and returns the status in it. */
  function FreeStep(m: Machine, t: Tid, r: nat): Machine
    requires t in m.procs
  {
    if r !in m.records then Crash(m)
    else
      m.(procs := m.procs[t := m.procs[t].(pc := User, children := Unlisted(m.procs[t].children, r))],
         records := m.records - {r}, reaped := m.reaped + {m.records[r].pid},
         results := m.results[t := m.records[r].exitStatus])
  }

  function WaitStep(m: Machine, t: Tid): Machine
    requires t in m.procs
  {
    match At(m, t)
    case WaitFind(pid) =>
      var r := FindChild(m, m.procs[t].children, pid);
      if r.None? then Move(m, t, User).(results := m.results[t := -1]) else Move(m, t, WaitDown(pid, r.value))
    case WaitDown(pid, r) => TakeStep(m, t, pid, r)
    case WaitFree(_, r) => FreeStep(m, t, r)
    case _ => m
  }

  /** exit writes its status in the record. */
  function ReportStep(m: Machine, t: Tid, st: int): Machine
    requires t in m.procs
  {
    if Data(m, t).None? then Crash(m)
    else
      var r := Data(m, t).value;
      Move(m, t, ExitUp(st)).(records := m.records[r := m.records[r].(exitStatus := st)])
  }

  /** exit raises the exit semaphore. */
  function UpStep(m: Machine, t: Tid): Machine
    requires t in m.procs
  {
    if Data(m, t).None? then Crash(m)
    else
      var r := Data(m, t).value;
      Move(m, t, Gone).(records := m.records[r := m.records[r].(done := m.records[r].done + 1, exited := true)])
  }

  function ExitStep(m: Machine, t: Tid): Machine
    requires t in m.procs
  {
    match At(m, t)
    case ExitLock(st) => MoveLock(m, t, ExitClose(st), Some(t))
    case ExitClose(st) => MoveLock(m, t, if m.procs[t].childData.None? then Gone else ExitReport(st), None)
    case ExitReport(st) => ReportStep(m, t, st)
    case ExitUp(_) => UpStep(m, t)
    case _ => m
  }

  function Apply(m: Machine, s: Step): Machine
    requires Enabled(m, s)
  {
    match s.act
    case FailEarly => Move(m, s.t, LoadFinish(false)).(outcome := m.outcome[s.t := false])
    case Finish(ok) => Move(m, s.t, LoadFinish(ok)).(outcome := m.outcome[s.t := ok])
    case CallExec => Move(m, s.t, ExecLock)
    case CallWait(pid) => Move(m, s.t, WaitFind(pid))
    case CallExit(status) => Move(m, s.t, ExitLock(status)).(exits := m.exits[s.t := status])
    case Go =>
      var pc := At(m, s.t);
      if pc.LoadStart? || pc.LoadOpen? || pc.LoadFinish? || pc.LoadMark? || pc.LoadPost? then LoadStep(m, s.t)
      else if pc.WaitFind? || pc.WaitDown? || pc.WaitFree? then WaitStep(m, s.t)
      else if pc.ExitLock? || pc.ExitClose? || pc.ExitReport? || pc.ExitUp? then ExitStep(m, s.t)
      else ExecStep(m, s.t)
  }

  /** Only the first process, in user code. */
  predicate Init(m: Machine) {
    && m.procs == map[INITIAL := Proc(User, None, [])] && m.records == map[] && m.semas == map[] && m.lock.None?
    && m.nextTid > INITIAL && m.outcome == map[] && m.exits == map[] && m.parentOf == map[]
    && m.reaped == {} && m.results == map[] && !m.crashed
  }

  ghost predicate StepAt(trace: seq<Machine>, steps: seq<Step>, i: nat)
    requires i < |steps| && |trace| == |steps| + 1
  {
    Enabled(trace[i], steps[i]) && trace[i + 1] == Apply(trace[i], steps[i])
  }

  /** A run: the states before, between and after the steps. */
  ghost predicate Run(trace: seq<Machine>, steps: seq<Step>) {
    && |trace| == |steps| + 1 && Init(trace[0])
    && forall i {:trigger StepAt(trace, steps, i)} :: 0 <= i < |steps| ==> StepAt(trace, steps, i)
  }

  // ------------------------------------------------------------------ invariant

  /** The lock is held at these points. */
  predicate Holding(pc: Pc) {
    pc.LoadOpen? || pc.LoadMark? || pc.ExecCreate? || pc.ExecAdd? || pc.ExecPublish? || pc.ExecRelease? || pc.ExitClose?
  }

  /** A child that has not got the lock yet. */
  predicate Early(pc: Pc) { pc.LoadStart? || pc == LoadFinish(false) }

  predicate Loading(pc: Pc) {
    pc.LoadStart? || pc.LoadOpen? || pc.LoadBody? || pc.LoadFinish? || pc.LoadMark? || pc.LoadPost?
  }

  /** Only a process with a parent gets here. */
  predicate ChildOnly(pc: Pc) { Loading(pc) || pc.ExitReport? || pc.ExitUp? }

  predicate Leaving(pc: Pc) { pc.ExitLock? || pc.ExitClose? || pc.ExitReport? || pc.ExitUp? || pc.Gone? }

  /** The load's end, once decided, is remembered, and told to the parent. */
  predicate OutcomeOk(m: Machine, t: Tid, pc: Pc, failed: bool) {
    match pc
    case LoadStart => !failed
    case LoadOpen => !failed
    case LoadBody => !failed
    case LoadFinish(ok) => !failed && t in m.outcome && m.outcome[t] == ok
    case LoadMark(ok) => !failed && t in m.outcome && m.outcome[t] == ok
    case LoadPost(ok) => failed == !ok && t in m.outcome && m.outcome[t] == ok
    case _ => t in m.outcome && failed == !m.outcome[t]
  }

  /** The status passed to exit is remembered, and told to the parent. */
  predicate StatusOk(m: Machine, t: Tid, pc: Pc) {
    match pc
    case ExitLock(st) => t in m.exits && m.exits[t] == st
    case ExitClose(st) => t in m.exits && m.exits[t] == st
    case ExitReport(st) => t in m.exits && m.exits[t] == st
    case ExitUp(st) => t in m.exits && m.exits[t] == st
    case _ => true
  }

  /** The lock holder is the parent that is making child c known. */
  predicate Hatching(m: Machine, c: Tid) {
    && m.lock.Some? && m.lock.value in m.procs
    && (At(m, m.lock.value) == ExecAdd(c) ||
        (At(m, m.lock.value).ExecPublish? && At(m, m.lock.value).child == c))
  }

  /** A child that has not ended can find its record, and the load semaphore in it, from
      the time it first gets the lock. */
  ghost predicate ChildOk(m: Machine, t: Tid)
    requires t in m.procs
  {
    var pc := At(m, t);
    pc.Gone? ||
    match m.procs[t].childData
    case None => Early(pc) && Hatching(m, t) && OutcomeOk(m, t, pc, false)
    case Some(r) =>
      && r in m.records && m.records[r].pid == t
      && (m.records[r].loadStatus.None? ==> Early(pc) && Hatching(m, t))
      && (m.records[r].posted <==> !Loading(pc))
      && !m.records[r].exited
      && OutcomeOk(m, t, pc, m.records[r].failed)
      && StatusOk(m, t, pc)
      && (pc.ExitUp? ==> m.records[r].exitStatus == pc.status)
  }

  /** A parent's calls refer to records in its list. */
  ghost predicate CallOk(m: Machine, t: Tid)
    requires t in m.procs
  {
    var kids := m.procs[t].children;
    match At(m, t)
    case ExecAdd(c) =>
      c in m.procs && c != t && c != INITIAL && m.procs[c].childData.None? && Early(At(m, c))
    case ExecPublish(c, r) =>
      r in kids && r in m.records && m.records[r].pid == c && m.records[r].loadStatus.None? && !m.records[r].posted
    case ExecRelease(c, r, s) => InFrame(m, kids, c, r, s)
    case ExecDown(c, r, s) => InFrame(m, kids, c, r, s)
    case ExecCheck(c, r, s) =>
      && r in kids && r in m.records && m.records[r].pid == c && m.records[r].posted && m.records[r].loadStatus == Some(s)
      && s in m.semas && m.semas[s] == 0
    case WaitDown(pid, r) => r in kids && r in m.records && m.records[r].pid == pid
    case WaitFree(pid, r) => r in kids && r in m.records && m.records[r].pid == pid && m.records[r].exited
    case _ => true
  }

  /** The load semaphore is up just when the child has posted. */
  ghost predicate InFrame(m: Machine, kids: seq<nat>, c: Tid, r: nat, s: nat) {
    && r in kids && r in m.records && m.records[r].pid == c && m.records[r].loadStatus == Some(s)
    && s in m.semas && m.semas[s] == if m.records[r].posted then 1 else 0
  }

  ghost predicate ProcOk(m: Machine, t: Tid)
    requires t in m.procs
  {
    && t < m.nextTid
    && (Holding(At(m, t)) <==> m.lock == Some(t))
    && (t == INITIAL ==> m.procs[t].childData.None? && !ChildOnly(At(m, t)))
    && (t != INITIAL ==> ChildOk(m, t))
    && (Leaving(At(m, t)) || Loading(At(m, t)) ==> m.procs[t].children == [])
    && Distinct(m.procs[t].children)
    && (forall r :: r in m.procs[t].children ==> r in m.records && m.records[r].parent == t)
    && CallOk(m, t)
  }

  /** A record is in its parent's list, its child points to it, and its exit semaphore
      is up from the child's exit until the parent takes it. */
  ghost predicate RecordOk(m: Machine, r: nat)
    requires r in m.records
  {
    var d := m.records[r];
    && r < m.nextRecord
    && d.parent in m.procs && r in m.procs[d.parent].children
    && d.pid in m.procs && d.pid != INITIAL && m.procs[d.pid].childData == Some(r) && d.pid !in m.reaped
    && d.pid in m.parentOf && m.parentOf[d.pid] == d.parent
    && (d.loadStatus.Some? ==> d.loadStatus.value < m.nextSema)
    && (d.loadStatus.Some? && !d.posted ==> d.loadStatus.value in m.semas && m.semas[d.loadStatus.value] == 0)
    && (d.posted ==> d.loadStatus.Some? && d.pid in m.outcome && d.failed == !m.outcome[d.pid])
    && (d.exited <==> At(m, d.pid).Gone?)
    && (d.exited ==> d.posted && d.pid in m.exits && d.exitStatus == m.exits[d.pid])
    && d.done == (if d.exited && At(m, d.parent) != WaitFree(d.pid, r) then 1 else 0)
  }

  /** Every process that was created and not waited for has a record. */
  ghost predicate Kept(m: Machine, t: Tid) {
    && t in m.procs && m.procs[t].childData.Some? && m.procs[t].childData.value in m.records
    && m.records[m.procs[t].childData.value].pid == t
  }

  ghost predicate Inv(m: Machine) {
    && !m.crashed && m.nextTid > INITIAL
    && (m.lock.Some? ==> m.lock.value in m.procs)
    && (forall t {:trigger ProcOk(m, t)} :: t in m.procs ==> ProcOk(m, t))
    && (forall r {:trigger RecordOk(m, r)} :: r in m.records ==> RecordOk(m, r))
    && (forall r, q :: r in m.records && q in m.records && r != q && m.records[r].loadStatus.Some?
          ==> m.records[r].loadStatus != m.records[q].loadStatus)
    && (forall s :: s in m.semas ==> s < m.nextSema)
    && (forall t :: t in m.reaped ==> t in m.procs && At(m, t).Gone?)
    && (forall t {:trigger Kept(m, t)} :: t in m.parentOf && t !in m.reaped ==> Kept(m, t))
  }

  lemma InitKeepsInv(m: Machine)
    requires Init(m)
    ensures Inv(m)
  {
    forall t | t in m.procs ensures ProcOk(m, t) {
    }
  }

  // ------------------------------------- steps that move one process and the lock

  /** Process t moved; records and semaphores did not change, nor who knows whom. */
  ghost predicate Moved(m: Machine, n: Machine, t: Tid) {
    && t in m.procs && t in n.procs && n.procs == m.procs[t := m.procs[t].(pc := At(n, t))]
    && n == m.(procs := n.procs, lock := n.lock, outcome := n.outcome, exits := n.exits, results := n.results)
    && var a, b := At(m, t), At(n, t);
       && !a.ExecAdd? && !a.ExecPublish? && !a.WaitFree? && !b.WaitFree? && !a.Gone?
       && (b.Gone? ==> m.procs[t].childData.None?)
       && (n.lock == m.lock || (m.lock == Some(t) && n.lock.None?) || (m.lock.None? && n.lock == Some(t)))
       && (Early(a) && !Early(b) ==> m.lock.None?)
       && (n.outcome == m.outcome || (Loading(a) && t in n.outcome && n.outcome == m.outcome[t := n.outcome[t]]))
       && (n.exits == m.exits || (t in n.exits && n.exits == m.exits[t := n.exits[t]]))
       && ResultOf(m, n, t)
  }

  /** No call but t's returned. */
  ghost predicate ResultOf(m: Machine, n: Machine, t: Tid) {
    n.results == m.results || (t in n.results && n.results == m.results[t := n.results[t]])
  }

  /** What a step of t leaves alone: where the others are and what their calls returned;
      and processes are created by exec and reaped by wait only. */
  ghost predicate Frame(m: Machine, n: Machine, t: Tid) {
    && t in m.procs && t in n.procs
    && (forall p :: p in m.procs && p != t ==> p in n.procs && At(n, p) == At(m, p))
    && ResultOf(m, n, t)
    && (n.reaped == m.reaped || (At(m, t).WaitFree? && n.reaped == m.reaped + {At(m, t).pid}))
    && (n.parentOf == m.parentOf || (At(m, t).ExecAdd? && n.parentOf == m.parentOf[At(m, t).child := t]))
  }

  /** Pointers to records, and whose records they are, did not change. */
  lemma StillKept(m: Machine, n: Machine)
    requires Inv(m) && n.parentOf == m.parentOf && n.reaped == m.reaped
    requires forall t :: t in m.procs ==> t in n.procs && n.procs[t].childData == m.procs[t].childData
    requires forall r :: r in m.records ==> r in n.records && n.records[r].pid == m.records[r].pid
    ensures forall t {:trigger Kept(n, t)} :: t in n.parentOf && t !in n.reaped ==> Kept(n, t)
  {
    hide ProcOk, RecordOk;
    forall t | t in n.parentOf && t !in n.reaped ensures Kept(n, t) {
      assert Kept(m, t);
    }
  }

  lemma OtherChildKept(m: Machine, n: Machine, t: Tid, u: Tid)
    requires Inv(m) && Moved(m, n, t) && u in m.procs && u != t && ChildOk(m, u)
    ensures ChildOk(n, u)
  {
    hide ProcOk, RecordOk, Inv;
    assert At(n, u) == At(m, u);
    assert Hatching(m, u) ==> Hatching(n, u);
  }

  lemma OtherCallKept(m: Machine, n: Machine, t: Tid, u: Tid)
    requires Inv(m) && Moved(m, n, t) && u in m.procs && u != t && CallOk(m, u) && (Holding(At(m, u)) ==> m.lock == Some(u))
    ensures CallOk(n, u)
  {
    hide ProcOk, RecordOk, Inv, ChildOk;
    assert At(n, u) == At(m, u);
  }

  lemma OtherProcKept(m: Machine, n: Machine, t: Tid, u: Tid)
    requires Inv(m) && Moved(m, n, t) && u in m.procs && u != t
    ensures u in n.procs && ProcOk(n, u)
  {
    hide ChildOk, CallOk, RecordOk;
    assert ProcOk(m, u);
    if u != INITIAL { OtherChildKept(m, n, t, u); }
    OtherCallKept(m, n, t, u);
  }

  lemma RecordsKept(m: Machine, n: Machine, t: Tid, r: nat)
    requires Inv(m) && Moved(m, n, t) && r in m.records
    ensures RecordOk(n, r)
  {
    hide CallOk;
    assert RecordOk(m, r);
    assert ProcOk(m, m.records[r].pid);
  }

  lemma MovedKeeps(m: Machine, n: Machine, t: Tid)
    requires Inv(m) && Moved(m, n, t) && t in n.procs && ProcOk(n, t)
    ensures Inv(n) && Frame(m, n, t)
  {
    hide ProcOk, RecordOk, Kept;
    StillKept(m, n);
    forall u | u in n.procs ensures ProcOk(n, u) {
      if u != t { OtherProcKept(m, n, t, u); }
    }
    forall r | r in n.records ensures RecordOk(n, r) {
      RecordsKept(m, n, t, r);
    }
  }

  lemma MovedSelf(m: Machine, n: Machine, t: Tid)
    requires t in m.procs && ProcOk(m, t) && Moved(m, n, t) && (t != INITIAL ==> ChildOk(n, t)) && CallOk(n, t)
    requires Holding(At(n, t)) <==> n.lock == Some(t)
    requires Leaving(At(n, t)) || Loading(At(n, t)) ==> m.procs[t].children == []
    requires t == INITIAL ==> !ChildOnly(At(n, t))
    ensures ProcOk(n, t)
  {
    hide ChildOk, CallOk;
  }

  // User code's calls.

  lemma CallExecKeeps(m: Machine, s: Step)
    requires Inv(m) && Enabled(m, s) && s.act.CallExec?
    ensures Inv(Apply(m, s)) && Frame(m, Apply(m, s), s.t)
  {
    hide Inv, RecordOk, LoadStep, ExecStep, WaitStep, ExitStep;
    var n := Apply(m, s);
    var t := s.t;
    ProcIsOk(m, t);
    assert Moved(m, n, t) by { hide CallOk, Hatching, OutcomeOk, StatusOk; }
    assert t != INITIAL ==> ChildOk(n, t) by { hide CallOk, Distinct, Moved; }
    assert CallOk(n, t) by { hide ChildOk, Distinct, Moved; }
    MovedSelf(m, n, t);
    MovedKeeps(m, n, t);
  }

  lemma CallWaitKeeps(m: Machine, s: Step)
    requires Inv(m) && Enabled(m, s) && s.act.CallWait?
    ensures Inv(Apply(m, s)) && Frame(m, Apply(m, s), s.t)
  {
    hide Inv, RecordOk, LoadStep, ExecStep, WaitStep, ExitStep;
    var n := Apply(m, s);
    var t := s.t;
    ProcIsOk(m, t);
    assert Moved(m, n, t) by { hide CallOk, Hatching, OutcomeOk, StatusOk; }
    assert t != INITIAL ==> ChildOk(n, t) by { hide CallOk, Distinct, Moved; }
    assert CallOk(n, t) by { hide ChildOk, Distinct, Moved; }
    MovedSelf(m, n, t);
    MovedKeeps(m, n, t);
  }

  lemma CallExitKeeps(m: Machine, s: Step)
    requires Inv(m) && Enabled(m, s) && s.act.CallExit?
    ensures Inv(Apply(m, s)) && Frame(m, Apply(m, s), s.t)
  {
    hide Inv, RecordOk, LoadStep, ExecStep, WaitStep, ExitStep;
    var n := Apply(m, s);
    var t := s.t;
    ProcIsOk(m, t);
    assert Moved(m, n, t) by { hide CallOk, Hatching, OutcomeOk, StatusOk; }
    assert t != INITIAL ==> ChildOk(n, t) by { hide CallOk, Distinct, Moved; }
    assert CallOk(n, t) by { hide ChildOk, Distinct, Moved; }
    MovedSelf(m, n, t);
    MovedKeeps(m, n, t);
  }

  /** The end of loading, early or late. */
  lemma LoadEndKeeps(m: Machine, s: Step)
    requires Inv(m) && Enabled(m, s) && (s.act.FailEarly? || s.act.Finish?)
    ensures Inv(Apply(m, s)) && Frame(m, Apply(m, s), s.t)
  {
    hide Inv, RecordOk, LoadStep, ExecStep, WaitStep, ExitStep;
    var n := Apply(m, s);
    var t := s.t;
    ProcIsOk(m, t);
    assert Moved(m, n, t) by { hide CallOk, Hatching, OutcomeOk, StatusOk; }
    assert t != INITIAL ==> ChildOk(n, t) by { hide CallOk, Distinct, Moved; }
    assert CallOk(n, t) by { hide ChildOk, Distinct, Moved; }
    MovedSelf(m, n, t);
    MovedKeeps(m, n, t);
  }

  lemma ProcIsOk(m: Machine, t: Tid)
    requires Inv(m) && t in m.procs
    ensures ProcOk(m, t) && !m.crashed
  {
  }

  lemma RecordIsOk(m: Machine, r: nat)
    requires Inv(m) && r in m.records
    ensures RecordOk(m, r)
  {
  }

  /** Taking and giving the lock during loading. */
  lemma LoadLockKeeps(m: Machine, t: Tid)
    requires Inv(m) && Enabled(m, Step(t, Go))
    requires At(m, t).LoadStart? || At(m, t).LoadOpen? || At(m, t).LoadFinish? || At(m, t) == LoadMark(true)
    ensures Inv(LoadStep(m, t)) && Frame(m, LoadStep(m, t), t)
  {
    hide Inv, RecordOk, Apply;
    var n := LoadStep(m, t);
    ProcIsOk(m, t);
    assert Moved(m, n, t) by { hide CallOk, Hatching, OutcomeOk, StatusOk; }
    assert t != INITIAL ==> ChildOk(n, t) by { hide CallOk, Distinct, Moved; }
    assert CallOk(n, t) by { hide ChildOk, Distinct, Moved; }
    MovedSelf(m, n, t);
    MovedKeeps(m, n, t);
  }

  lemma ExecLockKeeps(m: Machine, t: Tid)
    requires Inv(m) && t in m.procs && At(m, t).ExecLock? && m.lock.None?
    ensures Inv(ExecStep(m, t)) && Frame(m, ExecStep(m, t), t)
  {
    hide Inv, RecordOk;
    var n := ExecStep(m, t);
    ProcIsOk(m, t);
    assert Moved(m, n, t) by { hide CallOk, Hatching, OutcomeOk, StatusOk; }
    assert t != INITIAL ==> ChildOk(n, t) by { hide CallOk, Distinct, Moved; }
    assert CallOk(n, t) by { hide ChildOk, Distinct, Moved; }
    MovedSelf(m, n, t);
    MovedKeeps(m, n, t);
  }

  lemma ExecReleaseKeeps(m: Machine, t: Tid)
    requires Inv(m) && t in m.procs && At(m, t).ExecRelease?
    ensures Inv(ExecStep(m, t)) && Frame(m, ExecStep(m, t), t)
  {
    hide Inv, RecordOk;
    var n := ExecStep(m, t);
    ProcIsOk(m, t);
    assert Moved(m, n, t) by { hide CallOk, Hatching, OutcomeOk, StatusOk; }
    assert t != INITIAL ==> ChildOk(n, t) by { hide CallOk, Distinct, Moved; }
    assert CallOk(n, t) by { hide ChildOk, Distinct, Moved; }
    MovedSelf(m, n, t);
    MovedKeeps(m, n, t);
  }

  lemma WaitMissKeeps(m: Machine, n: Machine, t: Tid)
    requires Inv(m) && t in m.procs && At(m, t).WaitFind? && n == Move(m, t, User).(results := m.results[t := -1])
    ensures Inv(n) && Frame(m, n, t)
  {
    hide Inv, RecordOk;
    ProcIsOk(m, t);
    assert Moved(m, n, t) by { hide ProcOk; }
    assert t != INITIAL ==> ChildOk(n, t) by { hide CallOk, Distinct, Moved; }
    assert CallOk(n, t) by { hide ChildOk, Distinct, Moved; }
    MovedSelf(m, n, t);
    MovedKeeps(m, n, t);
  }

  lemma WaitHitKeeps(m: Machine, n: Machine, t: Tid, pid: Tid, r: nat)
    requires Inv(m) && t in m.procs && At(m, t).WaitFind? && n == Move(m, t, WaitDown(pid, r))
    requires r in m.procs[t].children && r in m.records && m.records[r].pid == pid
    ensures Inv(n) && Frame(m, n, t)
  {
    hide Inv, RecordOk;
    ProcIsOk(m, t);
    assert Moved(m, n, t) by { hide ProcOk; }
    assert t != INITIAL ==> ChildOk(n, t) by { hide CallOk, Distinct, Moved; }
    assert CallOk(n, t) by { hide ChildOk, Distinct, Moved; }
    MovedSelf(m, n, t);
    MovedKeeps(m, n, t);
  }

  lemma WaitFindKeeps(m: Machine, t: Tid)
    requires Inv(m) && t in m.procs && At(m, t).WaitFind?
    ensures Inv(WaitStep(m, t)) && Frame(m, WaitStep(m, t), t)
  {
    hide Inv, Frame, FindChild, Move;
    var r := FindChild(m, m.procs[t].children, At(m, t).pid);
    if r.None? {
      WaitMissKeeps(m, WaitStep(m, t), t);
    } else {
      WaitHitKeeps(m, WaitStep(m, t), t, At(m, t).pid, r.value);
    }
  }

  lemma ExitLockKeeps(m: Machine, t: Tid)
    requires Inv(m) && t in m.procs && At(m, t).ExitLock? && m.lock.None?
    ensures Inv(ExitStep(m, t)) && Frame(m, ExitStep(m, t), t)
  {
    hide Inv, RecordOk, Apply;
    var n := ExitStep(m, t);
    ProcIsOk(m, t);
    assert Moved(m, n, t) by { hide CallOk, Hatching, OutcomeOk, StatusOk; }
    assert t != INITIAL ==> ChildOk(n, t) by { hide CallOk, Distinct, Moved; }
    assert CallOk(n, t) by { hide ChildOk, Distinct, Moved; }
    MovedSelf(m, n, t);
    MovedKeeps(m, n, t);
  }

  lemma ExitCloseKeeps(m: Machine, t: Tid)
    requires Inv(m) && t in m.procs && At(m, t).ExitClose?
    ensures Inv(ExitStep(m, t)) && Frame(m, ExitStep(m, t), t)
  {
    hide Inv, RecordOk, Apply;
    var n := ExitStep(m, t);
    ProcIsOk(m, t);
    assert Moved(m, n, t) by { hide CallOk, Hatching, OutcomeOk, StatusOk; }
    assert t != INITIAL ==> ChildOk(n, t) by { hide CallOk, Distinct, Moved; }
    assert CallOk(n, t) by { hide ChildOk, Distinct, Moved; }
    MovedSelf(m, n, t);
    MovedKeeps(m, n, t);
  }

  // ----------------------------------------- a child that writes its own record

  /** Process t moved and wrote its record r: not whose it is or where its load
      semaphore is, and the semaphore itself only to raise it. */
  ghost predicate Wrote(m: Machine, n: Machine, t: Tid, r: nat) {
    && t in m.procs && t in n.procs && n.procs == m.procs[t := m.procs[t].(pc := At(n, t))]
    && r in m.records && r in n.records && n.records == m.records[r := n.records[r]]
    && m.procs[t].childData == Some(r) && m.records[r].pid == t && m.records[r].loadStatus.Some?
    && n.records[r].pid == t && n.records[r].parent == m.records[r].parent
    && n.records[r].loadStatus == m.records[r].loadStatus
    && n == m.(procs := n.procs, records := n.records, semas := n.semas, lock := n.lock, exits := n.exits)
    && !m.records[r].exited && !At(m, t).WaitFree? && !At(n, t).WaitFree? && !Early(At(m, t))
    && !At(m, t).ExecAdd? && !At(m, t).ExecPublish? && !At(m, t).Gone?
    && (n.lock == m.lock || (m.lock == Some(t) && n.lock.None?))
    && (n.exits == m.exits || (t in n.exits && n.exits == m.exits[t := n.exits[t]]))
    && var s := m.records[r].loadStatus.value;
       if n.records[r].posted == m.records[r].posted then n.semas == m.semas
       else !m.records[r].posted && s in m.semas && m.semas[s] == 0 && n.semas == m.semas[s := 1]
  }

  lemma WroteOtherChild(m: Machine, n: Machine, t: Tid, r: nat, u: Tid)
    requires Wrote(m, n, t, r) && u in m.procs && u != t && ChildOk(m, u)
    ensures ChildOk(n, u)
  {
    assert At(n, u) == At(m, u);
    assert Hatching(m, u) ==> Hatching(n, u);
  }

  lemma WroteOtherCall(m: Machine, n: Machine, t: Tid, r: nat, u: Tid)
    requires Inv(m) && Wrote(m, n, t, r) && u in m.procs && u != t && CallOk(m, u)
    ensures CallOk(n, u)
  {
    hide ProcOk, RecordOk, ChildOk;
    assert At(n, u) == At(m, u);
  }

  lemma WroteOtherProc(m: Machine, n: Machine, t: Tid, r: nat, u: Tid)
    requires Inv(m) && Wrote(m, n, t, r) && u in m.procs && u != t
    ensures u in n.procs && ProcOk(n, u)
  {
    hide ChildOk, CallOk, RecordOk;
    assert ProcOk(m, u);
    if u != INITIAL { WroteOtherChild(m, n, t, r, u); }
    WroteOtherCall(m, n, t, r, u);
  }

  lemma WroteOtherRecord(m: Machine, n: Machine, t: Tid, r: nat, q: nat)
    requires Inv(m) && Wrote(m, n, t, r) && q in m.records && q != r
    ensures RecordOk(n, q)
  {
    hide ProcOk, ChildOk, CallOk;
    assert RecordOk(m, q);
    assert m.records[q].pid != t;
  }

  lemma WroteKeeps(m: Machine, n: Machine, t: Tid, r: nat)
    requires Inv(m) && Wrote(m, n, t, r) && ProcOk(n, t) && RecordOk(n, r)
    ensures Inv(n) && Frame(m, n, t)
  {
    hide ProcOk, RecordOk, Kept;
    StillKept(m, n);
    forall u | u in n.procs ensures ProcOk(n, u) {
      if u != t { WroteOtherProc(m, n, t, r, u); }
    }
    forall q | q in n.records ensures RecordOk(n, q) {
      if q != r { WroteOtherRecord(m, n, t, r, q); }
    }
    StillGone(m, n, t);
  }

  /** A process that was reaped is another one, and still gone. */
  lemma StillGone(m: Machine, n: Machine, t: Tid)
    requires Inv(m) && t in m.procs && t in n.procs && m.procs.Keys <= n.procs.Keys && n.reaped == m.reaped
    requires forall u :: u in m.procs && u != t ==> At(n, u) == At(m, u)
    requires !At(m, t).Gone?
    ensures forall u :: u in n.reaped ==> u in n.procs && At(n, u).Gone?
  {
  }

  /** The child's record, found through its pointer. */
  lemma OwnRecord(m: Machine, t: Tid) returns (r: nat)
    requires Inv(m) && t in m.procs && (At(m, t).LoadMark? || At(m, t).LoadPost? || At(m, t).ExitReport? || At(m, t).ExitUp?)
    ensures t != INITIAL && m.procs[t].childData == Some(r) && r in m.records && Data(m, t) == Some(r)
    ensures m.records[r].pid == t && m.records[r].loadStatus.Some? && !m.records[r].exited
    ensures m.records[r].posted <==> !Loading(At(m, t))
    ensures !m.records[r].posted ==> m.records[r].loadStatus.value in m.semas && m.semas[m.records[r].loadStatus.value] == 0
  {
    assert ProcOk(m, t);
    r := m.procs[t].childData.value;
    assert RecordOk(m, r);
  }

  /** A load that failed is noted in the record before the lock is given back. */
  lemma LoadMarkKeeps(m: Machine, t: Tid)
    requires Inv(m) && t in m.procs && At(m, t) == LoadMark(false)
    ensures Inv(LoadStep(m, t)) && Frame(m, LoadStep(m, t), t)
  {
    hide Inv;
    var r := OwnRecord(m, t);
    var n := LoadStep(m, t);
    ProcIsOk(m, t);
    RecordIsOk(m, r);
    assert Wrote(m, n, t, r) by { hide ProcOk, RecordOk; }
    assert ProcOk(n, t) by { hide RecordOk, Wrote; }
    assert RecordOk(n, r) by { hide CallOk, Wrote; }
    WroteKeeps(m, n, t, r);
  }

  /** The load semaphore is raised once, while the parent waits on it. */
  lemma LoadPostKeeps(m: Machine, t: Tid)
    requires Inv(m) && t in m.procs && At(m, t).LoadPost?
    ensures Inv(LoadStep(m, t)) && Frame(m, LoadStep(m, t), t)
  {
    hide Inv;
    var r := OwnRecord(m, t);
    var n := LoadStep(m, t);
    ProcIsOk(m, t);
    RecordIsOk(m, r);
    assert Wrote(m, n, t, r) by { hide ProcOk, RecordOk; }
    assert ProcOk(n, t) by { hide RecordOk, Wrote; }
    assert RecordOk(n, r) by { hide CallOk, Wrote; }
    WroteKeeps(m, n, t, r);
  }

  lemma ExitReportKeeps(m: Machine, t: Tid)
    requires Inv(m) && t in m.procs && At(m, t).ExitReport?
    ensures Inv(ExitStep(m, t)) && Frame(m, ExitStep(m, t), t)
  {
    hide Inv;
    var r := OwnRecord(m, t);
    var n := ExitStep(m, t);
    ProcIsOk(m, t);
    RecordIsOk(m, r);
    assert Wrote(m, n, t, r) by { hide ProcOk, RecordOk; }
    assert ProcOk(n, t) by { hide RecordOk, Wrote; }
    assert RecordOk(n, r) by { hide CallOk, Wrote; }
    WroteKeeps(m, n, t, r);
  }

  /** Raising the exit semaphore is the last a child does with its record. */
  lemma ExitUpKeeps(m: Machine, t: Tid)
    requires Inv(m) && t in m.procs && At(m, t).ExitUp?
    ensures Inv(ExitStep(m, t)) && Frame(m, ExitStep(m, t), t)
  {
    hide Inv;
    var r := OwnRecord(m, t);
    var n := ExitStep(m, t);
    ProcIsOk(m, t);
    RecordIsOk(m, r);
    ParentNotFreeing(m, r);
    assert Wrote(m, n, t, r) by { hide ProcOk, RecordOk; }
    assert ProcOk(n, t) by { hide RecordOk, Wrote; }
    assert RecordOk(n, r) by { hide CallOk, Wrote; }
    WroteKeeps(m, n, t, r);
  }

  lemma ParentNotFreeing(m: Machine, r: nat)
    requires Inv(m) && r in m.records && !m.records[r].exited
    ensures m.records[r].parent in m.procs && At(m, m.records[r].parent) != WaitFree(m.records[r].pid, r)
  {
    assert RecordOk(m, r);
    assert ProcOk(m, m.records[r].parent);
  }

  // ------------------------------------- a parent that writes one of its records

  /** Parent p moved and wrote record r of its list: it may set the load semaphore, for
      the child it is making known, or take a unit from a semaphore. */
  ghost predicate Took(m: Machine, n: Machine, p: Tid, r: nat) {
    && p in m.procs && p in n.procs && n.procs == m.procs[p := m.procs[p].(pc := At(n, p))]
    && r in m.records && r in n.records && n.records == m.records[r := n.records[r]]
    && r in m.procs[p].children && m.records[r].parent == p
    && n.records[r] == m.records[r].(loadStatus := n.records[r].loadStatus, done := n.records[r].done)
    && (n.records[r].loadStatus == m.records[r].loadStatus ||
        (At(m, p) == ExecPublish(m.records[r].pid, r) && n.records[r].loadStatus == Some(m.nextSema)))
    && n == m.(procs := n.procs, records := n.records, semas := n.semas, nextSema := n.nextSema, results := n.results)
    && n.nextSema >= m.nextSema && (n.records[r].loadStatus != m.records[r].loadStatus ==> n.nextSema > m.nextSema)
    && (forall s :: s in m.semas && Some(s) != m.records[r].loadStatus ==> s in n.semas && n.semas[s] == m.semas[s])
    && (forall s :: s in n.semas ==> s in m.semas || s < n.nextSema)
    && !At(m, p).Gone? && !At(m, p).ExecAdd? && (At(m, p).ExecPublish? ==> At(m, p).child == m.records[r].pid)
    && !At(m, p).WaitFree? && (At(n, p).WaitFree? ==> At(n, p) == WaitFree(m.records[r].pid, r))
    && ResultOf(m, n, p)
    && !At(n, p).Gone? && !Early(At(m, p)) && (At(m, p).ExecPublish? ==> n.records[r].loadStatus.Some?)
  }

  lemma TookOtherChild(m: Machine, n: Machine, p: Tid, r: nat, u: Tid)
    requires Took(m, n, p, r) && u in m.procs && u != p && ChildOk(m, u)
    requires m.records[r].pid in m.procs && m.procs[m.records[r].pid].childData == Some(r)
    ensures ChildOk(n, u)
  {
    assert At(n, u) == At(m, u);
    if u != m.records[r].pid || !At(m, p).ExecPublish? {
      assert Hatching(m, u) ==> Hatching(n, u);
    }
  }

  lemma TookOtherCall(m: Machine, n: Machine, p: Tid, r: nat, u: Tid)
    requires Inv(m) && Took(m, n, p, r) && u in m.procs && u != p && CallOk(m, u)
    requires forall q :: q in m.procs[u].children ==> q in m.records && m.records[q].parent == u
    ensures CallOk(n, u)
  {
    hide ProcOk, RecordOk, ChildOk;
    assert At(n, u) == At(m, u);
  }

  lemma TookOtherProc(m: Machine, n: Machine, p: Tid, r: nat, u: Tid)
    requires Inv(m) && Took(m, n, p, r) && u in m.procs && u != p
    ensures u in n.procs && ProcOk(n, u)
  {
    hide ChildOk, CallOk;
    assert ProcOk(m, u);
    assert RecordOk(m, r);
    if u != INITIAL { TookOtherChild(m, n, p, r, u); }
    TookOtherCall(m, n, p, r, u);
  }

  lemma TookOtherRecord(m: Machine, n: Machine, p: Tid, r: nat, q: nat)
    requires Inv(m) && Took(m, n, p, r) && q in m.records && q != r
    ensures RecordOk(n, q)
  {
    hide ProcOk, ChildOk, CallOk;
    assert RecordOk(m, q);
  }

  lemma TookKeeps(m: Machine, n: Machine, p: Tid, r: nat)
    requires Inv(m) && Took(m, n, p, r) && ProcOk(n, p) && RecordOk(n, r)
    ensures Inv(n) && Frame(m, n, p)
  {
    hide ProcOk, RecordOk, Kept;
    StillKept(m, n);
    forall u | u in n.procs ensures ProcOk(n, u) {
      if u != p { TookOtherProc(m, n, p, r, u); }
    }
    forall q | q in n.records ensures RecordOk(n, q) {
      if q != r { TookOtherRecord(m, n, p, r, q); }
    }
    StillGone(m, n, p);
    SemasBelow(m);
  }

  lemma SemasBelow(m: Machine)
    requires Inv(m)
    ensures forall q :: q in m.records && m.records[q].loadStatus.Some? ==> m.records[q].loadStatus.value < m.nextSema
  {
    forall q | q in m.records && m.records[q].loadStatus.Some? ensures m.records[q].loadStatus.value < m.nextSema {
      assert RecordOk(m, q);
    }
  }

  lemma ExecPublishKeeps(m: Machine, p: Tid)
    requires Inv(m) && p in m.procs && At(m, p).ExecPublish?
    ensures Inv(ExecStep(m, p)) && Frame(m, ExecStep(m, p), p)
  {
    hide Inv;
    ProcIsOk(m, p);
    var r := At(m, p).rec;
    var n := ExecStep(m, p);
    RecordIsOk(m, r);
    SemasAreBelow(m);
    assert Took(m, n, p, r) by { hide ChildOk, Distinct; }
    assert ProcOk(n, p) by { hide RecordOk, Took; }
    assert RecordOk(n, r) by { hide ChildOk, Took, Distinct; }
    TookKeeps(m, n, p, r);
  }

  lemma SemasAreBelow(m: Machine)
    requires Inv(m)
    ensures forall s :: s in m.semas ==> s < m.nextSema
  {
  }

  lemma ExecDownKeeps(m: Machine, p: Tid)
    requires Inv(m) && p in m.procs && At(m, p).ExecDown? && (At(m, p).sema in m.semas ==> m.semas[At(m, p).sema] > 0)
    ensures Inv(ExecStep(m, p)) && Frame(m, ExecStep(m, p), p)
  {
    hide Inv;
    ProcIsOk(m, p);
    var r := At(m, p).rec;
    var n := ExecStep(m, p);
    RecordIsOk(m, r);
    assert Took(m, n, p, r) by { hide ChildOk, Distinct, RecordOk; }
    assert ProcOk(n, p) by { hide RecordOk, Took; }
    assert RecordOk(n, r) by { hide ChildOk, Took, Distinct; }
    TookKeeps(m, n, p, r);
  }

  lemma ExecCheckKeeps(m: Machine, p: Tid)
    requires Inv(m) && p in m.procs && At(m, p).ExecCheck?
    ensures Inv(ExecStep(m, p)) && Frame(m, ExecStep(m, p), p)
  {
    hide Inv;
    ProcIsOk(m, p);
    var r := At(m, p).rec;
    var n := ExecStep(m, p);
    RecordIsOk(m, r);
    assert Took(m, n, p, r) by { hide ChildOk, Distinct, RecordOk; }
    assert ProcOk(n, p) by { hide RecordOk, Took; }
    assert RecordOk(n, r) by { hide ChildOk, Took, Distinct; }
    TookKeeps(m, n, p, r);
  }

  lemma WaitDownKeeps(m: Machine, p: Tid)
    requires Inv(m) && p in m.procs && At(m, p).WaitDown?
    requires At(m, p).rec in m.records ==> m.records[At(m, p).rec].done > 0
    ensures Inv(WaitStep(m, p)) && Frame(m, WaitStep(m, p), p)
  {
    hide Inv;
    ProcIsOk(m, p);
    var r := At(m, p).rec;
    var n := WaitStep(m, p);
    RecordIsOk(m, r);
    assert Took(m, n, p, r) by { hide ChildOk, Distinct, RecordOk; }
    assert ProcOk(n, p) by { hide Took; }
    assert RecordOk(n, r) by { hide ChildOk, Took, Distinct; }
    TookKeeps(m, n, p, r);
  }

  // ----------------------------------------------------- children come and go

  /** Process c is new. */
  ghost predicate Created(m: Machine, n: Machine, p: Tid, c: Tid) {
    && p in m.procs && At(m, p).ExecCreate? && c == m.nextTid && c !in m.procs
    && n.procs == m.procs[p := m.procs[p].(pc := ExecAdd(c))][c := Proc(LoadStart, None, [])]
    && n == m.(procs := n.procs, nextTid := c + 1)
  }

  lemma CreateOther(m: Machine, n: Machine, p: Tid, c: Tid, u: Tid)
    requires Inv(m) && Created(m, n, p, c) && u in m.procs && u != p
    ensures u in n.procs && ProcOk(n, u)
  {
    hide Inv, RecordOk, Distinct;
    ProcIsOk(m, u);
    ProcIsOk(m, p);
    assert n.procs[u] == m.procs[u] && !Hatching(m, u);
    assert u != INITIAL ==> ChildOk(n, u) by { hide CallOk; }
    assert CallOk(n, u) by { hide ChildOk; }
    SameProc(m, n, u);
  }

  lemma CreateKeeps(m: Machine, n: Machine, p: Tid, c: Tid)
    requires Inv(m) && Created(m, n, p, c)
    ensures Inv(n) && Frame(m, n, p)
  {
    hide RecordOk, ProcOk, Kept;
    StillKept(m, n);
    CreatedChild(m, n, p, c);
    forall u | u in n.procs ensures ProcOk(n, u) {
      if u != c && u != p { CreateOther(m, n, p, c, u); }
    }
    forall q | q in n.records ensures RecordOk(n, q) {
      CreateRecord(m, n, p, c, q);
    }
  }

  /** The new child is known to nobody but its parent, who holds the lock. */
  lemma ExecCreateKeeps(m: Machine, p: Tid)
    requires Inv(m) && p in m.procs && At(m, p).ExecCreate?
    ensures Inv(ExecStep(m, p)) && Frame(m, ExecStep(m, p), p)
  {
    hide Inv, Frame;
    NewTid(m);
    CreateKeeps(m, ExecStep(m, p), p, m.nextTid);
  }

  lemma NewTid(m: Machine)
    requires Inv(m)
    ensures m.nextTid !in m.procs
  {
    assert m.nextTid in m.procs ==> ProcOk(m, m.nextTid);
  }

  lemma CreatedChild(m: Machine, n: Machine, p: Tid, c: Tid)
    requires Inv(m) && Created(m, n, p, c)
    ensures p in n.procs && c in n.procs && ProcOk(n, p) && ProcOk(n, c)
  {
    hide Inv, RecordOk;
    ProcIsOk(m, p);
    InitialIsOld(m);
    assert p != INITIAL ==> ChildOk(n, p) by { hide CallOk, Distinct; }
    assert ProcOk(n, c);
    assert CallOk(n, p) by { hide ChildOk, Distinct; }
    assert ProcOk(n, p) by { hide ChildOk, CallOk, Distinct; }
  }

  lemma InitialIsOld(m: Machine)
    requires Inv(m)
    ensures m.nextTid > INITIAL
  {
  }

  lemma CreateRecord(m: Machine, n: Machine, p: Tid, c: Tid, q: nat)
    requires Inv(m) && Created(m, n, p, c) && q in m.records
    ensures q in n.records && RecordOk(n, q)
  {
    hide Inv, ProcOk;
    RecordIsOk(m, q);
  }

  /** The child that p created has got record r, in p's list and through its pointer. */
  ghost predicate Added(m: Machine, n: Machine, p: Tid, c: Tid, r: nat) {
    && p in m.procs && At(m, p) == ExecAdd(c) && c in m.procs && c != p && c != INITIAL && Early(At(m, c))
    && r == m.nextRecord && r !in m.records && m.procs[c].childData.None?
    && n.procs == m.procs[p := m.procs[p].(pc := ExecPublish(c, r), children := m.procs[p].children + [r])]
                         [c := m.procs[c].(childData := Some(r))]
    && n.records == m.records[r := Record(c, p, None, false, 0, 0, false, false)]
    && n.parentOf == m.parentOf[c := p]
    && n == m.(procs := n.procs, records := n.records, nextRecord := r + 1, parentOf := n.parentOf)
  }

  lemma AddIsAdded(m: Machine, p: Tid)
    requires Inv(m) && p in m.procs && At(m, p).ExecAdd?
    ensures Added(m, ExecStep(m, p), p, At(m, p).child, m.nextRecord)
  {
    hide Inv, ChildOk, Distinct;
    ProcIsOk(m, p);
    NewRecord(m);
  }

  lemma AddOther(m: Machine, n: Machine, p: Tid, c: Tid, r: nat, u: Tid)
    requires Inv(m) && Added(m, n, p, c, r) && u in m.procs && u != p && u != c
    ensures u in n.procs && ProcOk(n, u)
  {
    hide Inv, RecordOk, Distinct;
    ProcIsOk(m, u);
    ProcIsOk(m, p);
    assert n.procs[u] == m.procs[u] && !Hatching(m, u);
    assert u != INITIAL ==> ChildOk(n, u) by { hide CallOk; }
    assert CallOk(n, u) by { hide ChildOk; }
    SameProc(m, n, u);
  }

  lemma NewRecord(m: Machine)
    requires Inv(m)
    ensures m.nextRecord !in m.records
  {
    assert m.nextRecord in m.records ==> RecordOk(m, m.nextRecord);
  }

  lemma AddedBoth(m: Machine, n: Machine, p: Tid, c: Tid, r: nat)
    requires Inv(m) && Added(m, n, p, c, r)
    ensures !n.crashed && c in n.procs && p in n.procs && r in n.records
    ensures ProcOk(n, p) && ProcOk(n, c) && RecordOk(n, r)
  {
    hide Inv, RecordOk;
    ProcIsOk(m, p);
    ProcIsOk(m, c);
    AppendDistinct(m.procs[p].children, r);
    assert ProcOk(n, c) by { hide Distinct; }
    assert ProcOk(n, p);
    assert RecordOk(n, r) by { NotReaped(m, c); AddedRecord(m, n, p, c, r); }
  }

  lemma NotReaped(m: Machine, t: Tid)
    requires Inv(m) && t in m.procs && !At(m, t).Gone?
    ensures t !in m.reaped
  {
  }

  lemma AddedRecord(m: Machine, n: Machine, p: Tid, c: Tid, r: nat)
    requires Added(m, n, p, c, r) && c !in m.reaped
    ensures r in n.records && RecordOk(n, r)
  {
  }

  lemma AppendDistinct(q: seq<nat>, x: nat)
    requires Distinct(q) && x !in q
    ensures Distinct(q + [x]) && forall y :: y in q + [x] <==> y in q || y == x
  {
  }

  lemma AddRecord(m: Machine, n: Machine, p: Tid, c: Tid, r: nat, q: nat)
    requires Inv(m) && Added(m, n, p, c, r) && q in m.records
    ensures q in n.records && RecordOk(n, q)
  {
    hide Inv, ProcOk;
    RecordIsOk(m, q);
  }

  lemma AddKept(m: Machine, n: Machine, p: Tid, c: Tid, r: nat)
    requires Inv(m) && Added(m, n, p, c, r)
    ensures forall t {:trigger Kept(n, t)} :: t in n.parentOf && t !in n.reaped ==> Kept(n, t)
  {
    hide RecordOk, ProcOk;
    forall t | t in n.parentOf && t !in n.reaped ensures Kept(n, t) {
      if t != c { assert Kept(m, t); }
    }
  }

  lemma AddKeeps(m: Machine, n: Machine, p: Tid, c: Tid, r: nat)
    requires Inv(m) && Added(m, n, p, c, r)
    ensures Inv(n) && Frame(m, n, p)
  {
    hide RecordOk, ProcOk, Kept;
    AddedBoth(m, n, p, c, r);
    AddKept(m, n, p, c, r);
    forall u | u in n.procs ensures ProcOk(n, u) {
      if u != c && u != p { AddOther(m, n, p, c, r, u); }
    }
    forall q | q in n.records ensures RecordOk(n, q) {
      if q != r { AddRecord(m, n, p, c, r, q); }
    }
  }

  /** The child gets its record while its parent holds the lock. */
  lemma ExecAddKeeps(m: Machine, p: Tid)
    requires Inv(m) && p in m.procs && At(m, p).ExecAdd?
    ensures Inv(ExecStep(m, p)) && Frame(m, ExecStep(m, p), p)
  {
    hide Inv, Frame, Added;
    AddIsAdded(m, p);
    AddKeeps(m, ExecStep(m, p), p, At(m, p).child, m.nextRecord);
  }

  /** The record to be freed: its child is gone. */
  lemma FreedRecord(m: Machine, p: Tid)
    requires Inv(m) && p in m.procs && At(m, p).WaitFree?
    ensures
      var r := At(m, p).rec;
      && r in m.records && m.records[r].parent == p && r in m.procs[p].children && m.records[r].exited
      && m.records[r].pid == At(m, p).pid
      && m.records[r].pid in m.procs && At(m, m.records[r].pid).Gone? && m.procs[m.records[r].pid].childData == Some(r)
      && Distinct(m.procs[p].children) && m.records[r].pid != p
  {
    assert ProcOk(m, p);
    assert RecordOk(m, At(m, p).rec);
  }

  lemma SameProc(m: Machine, n: Machine, u: Tid)
    requires u in m.procs && u in n.procs && n.procs[u] == m.procs[u] && ProcOk(m, u)
    requires n.lock == m.lock && n.nextTid >= m.nextTid && (u != INITIAL ==> ChildOk(n, u)) && CallOk(n, u)
    requires forall r :: r in m.procs[u].children ==> r in n.records && n.records[r].parent == u
    ensures ProcOk(n, u)
  {
    hide ChildOk, CallOk, Distinct;
  }

  /** Record r is gone from the heap and from its parent's list; p went back to user
      code. */
  ghost predicate Freed(m: Machine, n: Machine, p: Tid, r: nat) {
    && p in m.procs && p in n.procs && n.procs == m.procs[p := n.procs[p]] && n.records == m.records - {r}
    && n == m.(procs := n.procs, records := n.records, reaped := n.reaped, results := n.results)
    && r in m.records && m.records[r].parent == p && m.records[r].exited
    && At(m, p).WaitFree? && At(n, p).User? && n.procs[p].childData == m.procs[p].childData
    && n.reaped == m.reaped + {At(m, p).pid} && ResultOf(m, n, p)
  }

  lemma FreeOtherChild(m: Machine, n: Machine, p: Tid, r: nat, u: Tid)
    requires Freed(m, n, p, r) && u in m.procs && u != p && ChildOk(m, u)
    ensures ChildOk(n, u)
  {
    assert n.procs[u] == m.procs[u];
    assert Hatching(m, u) ==> Hatching(n, u);
  }

  lemma FreeOtherCall(m: Machine, n: Machine, p: Tid, r: nat, u: Tid)
    requires Freed(m, n, p, r) && u in m.procs && u != p && CallOk(m, u)
    requires forall q :: q in m.procs[u].children ==> q in m.records && m.records[q].parent == u
    ensures CallOk(n, u)
  {
    assert n.procs[u] == m.procs[u];
  }

  lemma FreeOther(m: Machine, p: Tid, u: Tid)
    requires Inv(m) && p in m.procs && At(m, p).WaitFree? && u in m.procs && u != p
    ensures u in WaitStep(m, p).procs && ProcOk(WaitStep(m, p), u)
  {
    hide Inv, RecordOk, Distinct, Unlisted, ChildOk, CallOk;
    var n := WaitStep(m, p);
    FreedRecord(m, p);
    ProcIsOk(m, u);
    var r := At(m, p).rec;
    assert Freed(m, n, p, r);
    if u != INITIAL { FreeOtherChild(m, n, p, r, u); }
    FreeOtherCall(m, n, p, r, u);
    SameProc(m, n, u);
  }

  lemma FreeSelf(m: Machine, p: Tid)
    requires Inv(m) && p in m.procs && At(m, p).WaitFree?
    ensures p in WaitStep(m, p).procs && ProcOk(WaitStep(m, p), p)
  {
    hide Inv, RecordOk, Unlisted;
    var n := WaitStep(m, p);
    FreedRecord(m, p);
    ProcIsOk(m, p);
    UnlistedIs(m.procs[p].children, At(m, p).rec);
    assert p != INITIAL ==> ChildOk(n, p) by { hide CallOk, Distinct; }
    assert CallOk(n, p) by { hide ChildOk, Distinct; }
    assert ProcOk(n, p) by { hide ChildOk, CallOk, Distinct; }
  }

  lemma FreeRecord(m: Machine, p: Tid, q: nat)
    requires Inv(m) && p in m.procs && At(m, p).WaitFree? && q in m.records && q != At(m, p).rec
    ensures q in WaitStep(m, p).records && RecordOk(WaitStep(m, p), q)
  {
    hide ProcOk;
    FreedRecord(m, p);
    assert RecordOk(m, q);
    UnlistedIs(m.procs[p].children, At(m, p).rec);
  }

  lemma FreeKept(m: Machine, p: Tid)
    requires Inv(m) && p in m.procs && At(m, p).WaitFree?
    ensures var n := WaitStep(m, p); forall t {:trigger Kept(n, t)} :: t in n.parentOf && t !in n.reaped ==> Kept(n, t)
  {
    hide RecordOk, ProcOk, Unlisted;
    var n := WaitStep(m, p);
    FreedRecord(m, p);
    forall t | t in n.parentOf && t !in n.reaped ensures Kept(n, t) {
      assert Kept(m, t);
    }
  }

  lemma WaitFreeKeeps(m: Machine, p: Tid)
    requires Inv(m) && p in m.procs && At(m, p).WaitFree?
    ensures Inv(WaitStep(m, p)) && Frame(m, WaitStep(m, p), p)
  {
    hide RecordOk, ProcOk, Kept;
    var n := WaitStep(m, p);
    FreedRecord(m, p);
    FreeSelf(m, p);
    FreeKept(m, p);
    forall u | u in n.procs ensures ProcOk(n, u) {
      if u != p { FreeOther(m, p, u); }
    }
    forall q | q in n.records ensures RecordOk(n, q) {
      FreeRecord(m, p, q);
    }
  }

  // ----------------------------------------------------------------------- runs

  lemma GoKeeps(m: Machine, t: Tid)
    requires Inv(m) && Enabled(m, Step(t, Go))
    ensures Inv(Apply(m, Step(t, Go))) && Frame(m, Apply(m, Step(t, Go)), t)
  {
    hide Inv, Frame, LoadStep, ExecStep, WaitStep, ExitStep;
    match At(m, t)
    case LoadStart => LoadLockKeeps(m, t);
    case LoadOpen => LoadLockKeeps(m, t);
    case LoadFinish(_) => LoadLockKeeps(m, t);
    case LoadMark(ok) => if ok { LoadLockKeeps(m, t); } else { LoadMarkKeeps(m, t); }
    case LoadPost(_) => LoadPostKeeps(m, t);
    case ExecLock => ExecLockKeeps(m, t);
    case ExecCreate => ExecCreateKeeps(m, t);
    case ExecAdd(_) => ExecAddKeeps(m, t);
    case ExecPublish(_, _) => ExecPublishKeeps(m, t);
    case ExecRelease(_, _, _) => ExecReleaseKeeps(m, t);
    case ExecDown(_, _, _) => ExecDownKeeps(m, t);
    case ExecCheck(_, _, _) => ExecCheckKeeps(m, t);
    case WaitFind(_) => WaitFindKeeps(m, t);
    case WaitDown(_, _) => WaitDownKeeps(m, t);
    case WaitFree(_, _) => WaitFreeKeeps(m, t);
    case ExitLock(_) => ExitLockKeeps(m, t);
    case ExitClose(_) => ExitCloseKeeps(m, t);
    case ExitReport(_) => ExitReportKeeps(m, t);
    case ExitUp(_) => ExitUpKeeps(m, t);
  }

  lemma StepKeepsInv(m: Machine, s: Step)
    requires Inv(m) && Enabled(m, s)
    ensures Inv(Apply(m, s)) && Frame(m, Apply(m, s), s.t)
  {
    hide Inv, Frame, Enabled, Apply;
    match s.act
    case Go => GoKeeps(m, s.t);
    case FailEarly => LoadEndKeeps(m, s);
    case Finish(_) => LoadEndKeeps(m, s);
    case CallExec => CallExecKeeps(m, s);
    case CallWait(_) => CallWaitKeeps(m, s);
    case CallExit(_) => CallExitKeeps(m, s);
  }

  lemma {:induction false} RunKeepsInv(trace: seq<Machine>, steps: seq<Step>, i: nat)
    requires Run(trace, steps) && i < |trace|
    ensures Inv(trace[i])
  {
    hide Inv, Frame, Enabled, Apply;
    if i == 0 {
      InitKeepsInv(trace[0]);
    } else {
      RunKeepsInv(trace, steps, i - 1);
      assert StepAt(trace, steps, i - 1);
      StepKeepsInv(trace[i - 1], steps[i - 1]);
    }
  }

  /** In no interleaving does a step follow a pointer that is null or freed. */
  lemma NeverCrashes(trace: seq<Machine>, steps: seq<Step>, i: nat)
    requires Run(trace, steps) && i < |trace|
    ensures !trace[i].crashed
  {
    RunKeepsInv(trace, steps, i);
  }

  /** A child that is about to use its record finds it, with the load semaphore set;
      and that semaphore is still there when it is about to be raised. */
  lemma ChildFindsItsRecord(trace: seq<Machine>, steps: seq<Step>, i: nat, t: Tid)
    requires Run(trace, steps) && i < |trace| && t in trace[i].procs
    requires
      var pc := At(trace[i], t);
      pc.LoadMark? || pc.LoadPost? || pc.ExitReport? || pc.ExitUp?
    ensures
      var m := trace[i];
      && Data(m, t).Some? && m.records[Data(m, t).value].pid == t
      && m.records[Data(m, t).value].loadStatus.Some?
      && (At(m, t).LoadPost? ==> m.records[Data(m, t).value].loadStatus.value in m.semas)
  {
    hide Inv, Enabled, Apply;
    RunKeepsInv(trace, steps, i);
    var r := OwnRecord(trace[i], t);
  }

  /** When exec is about to return, what it reports is how the child's load ended. */
  lemma ExecReportsLoad(trace: seq<Machine>, steps: seq<Step>, i: nat, p: Tid)
    requires Run(trace, steps) && i < |trace| && p in trace[i].procs && At(trace[i], p).ExecCheck?
    ensures
      var m := trace[i];
      var pc := At(m, p);
      && pc.rec in m.records && m.records[pc.rec].pid == pc.child
      && pc.child in m.outcome && m.records[pc.rec].failed == !m.outcome[pc.child]
  {
    hide Enabled, Apply, ChildOk;
    RunKeepsInv(trace, steps, i);
    assert ProcOk(trace[i], p);
    assert RecordOk(trace[i], At(trace[i], p).rec);
  }

  /** A parent waiting for the load can go on just when the child has reported. */
  lemma ExecWaitsForReport(trace: seq<Machine>, steps: seq<Step>, i: nat, p: Tid)
    requires Run(trace, steps) && i < |trace| && p in trace[i].procs && At(trace[i], p).ExecDown?
    ensures
      var m := trace[i];
      var pc := At(m, p);
      pc.rec in m.records && pc.child in m.procs && (Enabled(m, Step(p, Go)) <==> !Loading(At(m, pc.child)))
  {
    hide Apply;
    RunKeepsInv(trace, steps, i);
    var m := trace[i];
    assert ProcOk(m, p);
    assert RecordOk(m, At(m, p).rec);
    assert ProcOk(m, At(m, p).child);
  }

  /** A child in the list that has exited can be waited for at once. */
  lemma ExitedCanBeWaited(trace: seq<Machine>, steps: seq<Step>, i: nat, p: Tid)
    requires Run(trace, steps) && i < |trace| && p in trace[i].procs && At(trace[i], p).WaitDown?
    ensures
      var m := trace[i];
      var pc := At(m, p);
      && pc.rec in m.records && m.records[pc.rec].parent == p && m.records[pc.rec].pid == pc.pid && pc.pid in m.procs
      && (Enabled(m, Step(p, Go)) <==> At(m, pc.pid).Gone?)
  {
    hide Apply, ChildOk;
    RunKeepsInv(trace, steps, i);
    assert ProcOk(trace[i], p);
    assert RecordOk(trace[i], At(trace[i], p).rec);
  }

  // ------------------------------------------- how loads end and what exit is told

  /** The step ended no load and gave nobody an exit status. */
  predicate NotesKept(m: Machine, n: Machine) { n.outcome == m.outcome && n.exits == m.exits }

  /** Nor did it touch a load semaphore. */
  predicate Quiet(m: Machine, n: Machine) { NotesKept(m, n) && n.semas == m.semas }

  /** After a step from pc there are only semaphores that were there before and are not in
      the frame that exec left, and the one that exec made. */
  ghost predicate SemasFrom(m: Machine, n: Machine, pc: Pc) {
    forall s :: s in n.semas ==>
      || (s in m.semas && !(pc.ExecCheck? && pc.sema == s))
      || (pc.ExecPublish? && s == m.nextSema)
  }

  lemma LockNotes(m: Machine, t: Tid, pc: Pc, lock: Option<Tid>)
    requires t in m.procs
    ensures Quiet(m, MoveLock(m, t, pc, lock))
    ensures t in MoveLock(m, t, pc, lock).procs && At(MoveLock(m, t, pc, lock), t) == pc
  {
  }

  lemma AddNotes(m: Machine, t: Tid, c: Tid)
    requires t in m.procs
    ensures Quiet(m, AddStep(m, t, c))
  {
    if c !in m.procs || At(m, c).Gone? || c == t { }
  }

  lemma PublishNotes(m: Machine, t: Tid, c: Tid, r: nat)
    requires t in m.procs
    ensures NotesKept(m, PublishStep(m, t, c, r)) && PublishStep(m, t, c, r).semas.Keys <= m.semas.Keys + {m.nextSema}
  {
    if r in m.records { }
  }

  lemma DownNotes(m: Machine, t: Tid, c: Tid, r: nat, s: nat)
    requires t in m.procs
    ensures NotesKept(m, DownStep(m, t, c, r, s)) && DownStep(m, t, c, r, s).semas.Keys <= m.semas.Keys
  {
    if s !in m.semas || m.semas[s] == 0 { }
  }

  lemma CheckNotes(m: Machine, t: Tid, c: Tid, r: nat, s: nat)
    requires t in m.procs
    ensures NotesKept(m, CheckStep(m, t, c, r, s))
    ensures CheckStep(m, t, c, r, s).crashed || CheckStep(m, t, c, r, s).semas == m.semas - {s}
  {
    if r in m.records { }
  }

  lemma ExecNotes(m: Machine, t: Tid)
    requires t in m.procs
    ensures NotesKept(m, ExecStep(m, t)) && (ExecStep(m, t).crashed || SemasFrom(m, ExecStep(m, t), At(m, t)))
  {
    hide AddStep, PublishStep, DownStep, CheckStep, MoveLock;
    match At(m, t)
    case ExecLock => LockNotes(m, t, ExecCreate, Some(t));
    case ExecRelease(c, r, s) => LockNotes(m, t, ExecDown(c, r, s), None);
    case ExecAdd(c) => AddNotes(m, t, c);
    case ExecPublish(c, r) => PublishNotes(m, t, c, r);
    case ExecDown(c, r, s) => DownNotes(m, t, c, r, s);
    case ExecCheck(c, r, s) => CheckNotes(m, t, c, r, s);
    case _ =>
  }

  lemma TakeNotes(m: Machine, t: Tid, pid: Tid, r: nat)
    requires t in m.procs
    ensures Quiet(m, TakeStep(m, t, pid, r))
  {
    if r !in m.records || m.records[r].done == 0 { }
  }

  lemma FreeNotes(m: Machine, t: Tid, r: nat)
    requires t in m.procs
    ensures Quiet(m, FreeStep(m, t, r))
  {
    hide Unlisted;
    if r in m.records { }
  }

  lemma WaitNotes(m: Machine, t: Tid)
    requires t in m.procs
    ensures Quiet(m, WaitStep(m, t))
  {
    hide FindChild, TakeStep, FreeStep;
    match At(m, t)
    case WaitFind(pid) => if FindChild(m, m.procs[t].children, pid).None? { }
    case WaitDown(pid, r) => TakeNotes(m, t, pid, r);
    case WaitFree(_, r) => FreeNotes(m, t, r);
    case _ =>
  }

  lemma ReportNotes(m: Machine, t: Tid, st: int)
    requires t in m.procs
    ensures Quiet(m, ReportStep(m, t, st))
    ensures t in ReportStep(m, t, st).procs && At(ReportStep(m, t, st), t) in {At(m, t), ExitUp(st)}
  {
    hide Data;
    if Data(m, t).None? { }
  }

  lemma UpNotes(m: Machine, t: Tid)
    requires t in m.procs
    ensures Quiet(m, UpStep(m, t)) && t in UpStep(m, t).procs && At(UpStep(m, t), t) in {At(m, t), Gone}
  {
    hide Data;
    if Data(m, t).None? { }
  }

  /** A process that is leaving goes on leaving. */
  lemma ExitNotes(m: Machine, t: Tid)
    requires t in m.procs && Leaving(At(m, t))
    ensures Quiet(m, ExitStep(m, t)) && t in ExitStep(m, t).procs && Leaving(At(ExitStep(m, t), t))
  {
    hide ReportStep, UpStep, MoveLock;
    match At(m, t)
    case ExitReport(st) => ReportNotes(m, t, st);
    case ExitUp(_) => UpNotes(m, t);
    case ExitLock(st) => LockNotes(m, t, ExitClose(st), Some(t));
    case ExitClose(st) => LockNotes(m, t, if m.procs[t].childData.None? then Gone else ExitReport(st), None);
    case Gone =>
  }

  lemma MarkNotes(m: Machine, t: Tid)
    requires t in m.procs
    ensures Quiet(m, MarkStep(m, t)) && t in MarkStep(m, t).procs
    ensures MarkStep(m, t).crashed || At(MarkStep(m, t), t) == LoadPost(false)
  {
    if Data(m, t).Some? { }
  }

  lemma PostNotes(m: Machine, t: Tid, ok: bool)
    requires t in m.procs
    ensures t in PostStep(m, t, ok).procs && PostStep(m, t, ok).outcome == m.outcome
    ensures PostStep(m, t, ok).semas.Keys <= m.semas.Keys
    ensures PostStep(m, t, ok).crashed || PostStep(m, t, ok).exits == if ok then m.exits else m.exits[t := -1]
    ensures PostStep(m, t, ok).crashed || At(PostStep(m, t, ok), t) == if ok then User else ExitLock(-1)
  {
    if Data(m, t).Some? {
      var s := m.records[Data(m, t).value].loadStatus;
      if s.Some? && s.value in m.semas {
        if ok { }
      }
    }
  }

  /** A loading process whose end is decided keeps it; a failed one goes on to exit with
      -1, any other to user code. */
  lemma LoadNotes(m: Machine, t: Tid)
    requires t in m.procs && Loading(At(m, t)) && !At(m, t).LoadBody? && !LoadStep(m, t).crashed
    ensures t in LoadStep(m, t).procs && LoadStep(m, t).outcome == m.outcome && LoadStep(m, t).semas.Keys <= m.semas.Keys
    ensures LoadStep(m, t).exits == if At(m, t) == LoadPost(false) then m.exits[t := -1] else m.exits
    ensures
      var pc := At(LoadStep(m, t), t);
      match At(m, t)
      case LoadFinish(ok) => pc == LoadMark(ok)
      case LoadMark(ok) => pc == LoadPost(ok)
      case LoadPost(ok) => pc == if ok then User else ExitLock(-1)
      case _ => true
  {
    hide MarkStep, PostStep, MoveLock;
    match At(m, t)
    case LoadStart => LockNotes(m, t, LoadOpen, Some(t));
    case LoadOpen => LockNotes(m, t, LoadBody, None);
    case LoadFinish(ok) => LockNotes(m, t, LoadMark(ok), Some(t));
    case LoadMark(ok) => if ok { LockNotes(m, t, LoadPost(ok), None); } else { MarkNotes(m, t); }
    case LoadPost(ok) => PostNotes(m, t, ok);
  }

  lemma GoNotes(m: Machine, t: Tid)
    requires Inv(m) && Enabled(m, Step(t, Go))
    ensures Apply(m, Step(t, Go)).outcome == m.outcome
    ensures Apply(m, Step(t, Go)).exits == if At(m, t) == LoadPost(false) then m.exits[t := -1] else m.exits
    ensures SemasFrom(m, Apply(m, Step(t, Go)), At(m, t))
  {
    hide Inv, LoadStep, ExecStep, WaitStep, ExitStep;
    StepKeepsInv(m, Step(t, Go));
    NoCrash(Apply(m, Step(t, Go)));
    ExecNotes(m, t);
    WaitNotes(m, t);
    if Loading(At(m, t)) {
      LoadNotes(m, t);
    } else if Leaving(At(m, t)) {
      ExitNotes(m, t);
    }
  }

  /** What a step notes of how loads end and of exit statuses. */
  ghost predicate Noted(m: Machine, n: Machine, s: Step)
    requires s.t in m.procs
  {
    && SemasFrom(m, n, At(m, s.t))
    && match s.act
       case FailEarly => n.outcome == m.outcome[s.t := false] && n.exits == m.exits
       case Finish(ok) => n.outcome == m.outcome[s.t := ok] && n.exits == m.exits
       case CallExit(status) => n.outcome == m.outcome && n.exits == m.exits[s.t := status]
       case Go =>
         && n.outcome == m.outcome
         && n.exits == (if At(m, s.t) == LoadPost(false) then m.exits[s.t := -1] else m.exits)
       case _ => NotesKept(m, n)
  }

  lemma StepNotes(m: Machine, s: Step)
    requires Inv(m) && Enabled(m, s)
    ensures Noted(m, Apply(m, s), s)
  {
    hide Inv, LoadStep, ExecStep, WaitStep, ExitStep;
    match s.act
    case Go => hide Apply; GoNotes(m, s.t);
    case FailEarly =>
    case Finish(_) =>
    case CallExit(_) =>
    case CallExec =>
    case CallWait(_) =>
  }

  /** The load of pid has ended, well or not; one that failed never gets to user code, and
      has exited with -1 if it has exited. */
  predicate Ended(m: Machine, pid: Tid, ok: bool) {
    && pid in m.procs && pid in m.outcome && m.outcome[pid] == ok
    && (!ok && pid in m.exits ==> m.exits[pid] == -1)
    && match At(m, pid)
       case LoadStart => false
       case LoadOpen => false
       case LoadBody => false
       case LoadFinish(b) => b == ok
       case LoadMark(b) => b == ok
       case LoadPost(b) => b == ok
       case pc => ok || Leaving(pc)
  }

  /** pid is in exit, or has been, with this status. */
  predicate Exiting(m: Machine, pid: Tid, status: int) {
    pid in m.procs && Leaving(At(m, pid)) && pid in m.exits && m.exits[pid] == status
  }

  /** Only a process's own steps end its load and give its exit status. */
  lemma OthersNote(m: Machine, s: Step, pid: Tid)
    requires Inv(m) && Enabled(m, s) && s.t != pid
    ensures pid in Apply(m, s).outcome <==> pid in m.outcome
    ensures pid in m.outcome ==> Apply(m, s).outcome[pid] == m.outcome[pid]
    ensures pid in Apply(m, s).exits <==> pid in m.exits
    ensures pid in m.exits ==> Apply(m, s).exits[pid] == m.exits[pid]
    ensures pid in m.procs ==> pid in Apply(m, s).procs && At(Apply(m, s), pid) == At(m, pid)
  {
    hide Inv, Enabled, Apply;
    StepKeepsInv(m, s);
    StepNotes(m, s);
  }

  lemma EndedStays(m: Machine, s: Step, pid: Tid, ok: bool)
    requires Inv(m) && Enabled(m, s) && Ended(m, pid, ok)
    ensures Ended(Apply(m, s), pid, ok)
  {
    hide Inv, LoadStep, ExecStep, WaitStep, ExitStep;
    if s.t != pid {
      hide Apply, Enabled;
      OthersNote(m, s, pid);
    } else if s.act.Go? {
      hide Apply, Enabled;
      EndedGoesOn(m, pid, ok);
    }
  }

  lemma EndedGoesOn(m: Machine, pid: Tid, ok: bool)
    requires Inv(m) && Enabled(m, Step(pid, Go)) && Ended(m, pid, ok)
    ensures Ended(Apply(m, Step(pid, Go)), pid, ok)
  {
    hide Inv, LoadStep, ExecStep, WaitStep, ExitStep;
    StepKeepsInv(m, Step(pid, Go));
    NoCrash(Apply(m, Step(pid, Go)));
    GoNotes(m, pid);
    if Loading(At(m, pid)) {
      LoadNotes(m, pid);
    } else if Leaving(At(m, pid)) {
      ExitNotes(m, pid);
    } else {
      hide Apply;
      NoLoadAgain(m, pid);
    }
  }

  lemma FreeMoves(m: Machine, t: Tid, r: nat)
    requires t in m.procs && !FreeStep(m, t, r).crashed
    ensures t in FreeStep(m, t, r).procs && At(FreeStep(m, t, r), t).User?
  {
    hide Unlisted;
    if r in m.records { }
  }

  lemma FindMoves(m: Machine, t: Tid)
    requires t in m.procs && At(m, t).WaitFind?
    ensures t in WaitStep(m, t).procs && (At(WaitStep(m, t), t).User? || At(WaitStep(m, t), t).WaitDown?)
  {
    hide FindChild;
    if FindChild(m, m.procs[t].children, At(m, t).pid).None? { }
  }

  lemma WaitStaysOut(m: Machine, t: Tid)
    requires t in m.procs && !WaitStep(m, t).crashed && (At(m, t).WaitFind? || At(m, t).WaitDown? || At(m, t).WaitFree?)
    ensures t in WaitStep(m, t).procs && !Loading(At(WaitStep(m, t), t))
  {
    hide FindChild, TakeStep, FreeStep;
    match At(m, t)
    case WaitFind(_) => hide WaitStep; FindMoves(m, t);
    case WaitDown(pid, r) => TakeMoves(m, t, pid, r);
    case WaitFree(_, r) => FreeMoves(m, t, r);
  }

  lemma CreateMoves(m: Machine, t: Tid)
    requires t in m.procs && t != m.nextTid
    ensures t in CreateStep(m, t).procs && At(CreateStep(m, t), t) == ExecAdd(m.nextTid)
  {
  }

  lemma AddMoves(m: Machine, t: Tid, c: Tid)
    requires t in m.procs && !AddStep(m, t, c).crashed
    ensures t in AddStep(m, t, c).procs && At(AddStep(m, t, c), t) == ExecPublish(c, m.nextRecord)
  {
    if c !in m.procs || At(m, c).Gone? || c == t { }
  }

  lemma CheckMoves(m: Machine, t: Tid, c: Tid, r: nat, s: nat)
    requires t in m.procs && !CheckStep(m, t, c, r, s).crashed
    ensures t in CheckStep(m, t, c, r, s).procs && At(CheckStep(m, t, c, r, s), t).User?
  {
    if r in m.records { }
  }

  lemma ExecStaysOut(m: Machine, t: Tid)
    requires Inv(m) && t in m.procs && !ExecStep(m, t).crashed && !Loading(At(m, t))
    ensures t in ExecStep(m, t).procs && !Loading(At(ExecStep(m, t), t))
  {
    hide Inv, CreateStep, AddStep, PublishStep, DownStep, CheckStep, MoveLock;
    match At(m, t)
    case ExecLock => LockNotes(m, t, ExecCreate, Some(t));
    case ExecRelease(c, r, s) => LockNotes(m, t, ExecDown(c, r, s), None);
    case ExecCreate => NewTid(m); CreateMoves(m, t);
    case ExecAdd(c) => AddMoves(m, t, c);
    case ExecPublish(c, r) => PublishMoves(m, t, c, r);
    case ExecDown(c, r, s) => DownMoves(m, t, c, r, s);
    case ExecCheck(c, r, s) => CheckMoves(m, t, c, r, s);
    case _ =>
  }

  /** Nobody in user code or in a call starts loading. */
  lemma NoLoadAgain(m: Machine, t: Tid)
    requires Inv(m) && Enabled(m, Step(t, Go)) && !Loading(At(m, t)) && !Leaving(At(m, t))
    ensures t in Apply(m, Step(t, Go)).procs && !Loading(At(Apply(m, Step(t, Go)), t))
  {
    hide Inv, LoadStep, ExitStep, ExecStep, WaitStep;
    StepKeepsInv(m, Step(t, Go));
    NoCrash(Apply(m, Step(t, Go)));
    if At(m, t).WaitFind? || At(m, t).WaitDown? || At(m, t).WaitFree? {
      WaitStaysOut(m, t);
    } else {
      ExecStaysOut(m, t);
    }
  }

  lemma ExitingStays(m: Machine, s: Step, pid: Tid, status: int)
    requires Inv(m) && Enabled(m, s) && Exiting(m, pid, status)
    ensures Exiting(Apply(m, s), pid, status)
  {
    hide Inv, LoadStep, ExecStep, WaitStep, ExitStep;
    if s.t != pid {
      hide Apply;
      OthersNote(m, s, pid);
    } else {
      ExitNotes(m, pid);
    }
  }

  /** Once a process has ended its load in one way, that stands for the rest of the run. */
  lemma {:induction false} LoadEndsOnce(trace: seq<Machine>, steps: seq<Step>, i: nat, j: nat, pid: Tid, ok: bool)
    requires Run(trace, steps) && i < j < |trace|
    requires steps[i] == Step(pid, Finish(ok)) || (!ok && steps[i] == Step(pid, FailEarly))
    ensures Ended(trace[j], pid, ok)
    decreases j
  {
    hide Inv, LoadStep, ExecStep, WaitStep, ExitStep;
    RunKeepsInv(trace, steps, j - 1);
    assert StepAt(trace, steps, j - 1);
    if j == i + 1 {
      NotYetExited(trace, steps, i, pid);
    } else {
      hide Apply, Ended;
      LoadEndsOnce(trace, steps, i, j - 1, pid, ok);
      EndedStays(trace[j - 1], steps[j - 1], pid, ok);
    }
  }

  /** A process that has called exit with a status is out of user code for good, and that
      is the status its parent is told. */
  lemma {:induction false} ExitIsFinal(trace: seq<Machine>, steps: seq<Step>, i: nat, j: nat, pid: Tid, status: int)
    requires Run(trace, steps) && i < j < |trace| && steps[i] == Step(pid, CallExit(status))
    ensures Exiting(trace[j], pid, status)
    decreases j
  {
    hide Inv, LoadStep, ExecStep, WaitStep, ExitStep;
    RunKeepsInv(trace, steps, j - 1);
    assert StepAt(trace, steps, j - 1);
    if j > i + 1 {
      hide Apply, Exiting;
      ExitIsFinal(trace, steps, i, j - 1, pid, status);
      ExitingStays(trace[j - 1], steps[j - 1], pid, status);
    }
  }

  /** Before j, process pid ended its load this way. */
  ghost predicate LoadEnded(steps: seq<Step>, j: nat, pid: Tid, ok: bool) {
    exists k :: 0 <= k < j && k < |steps| && (steps[k] == Step(pid, Finish(ok)) || (!ok && steps[k] == Step(pid, FailEarly)))
  }

  /** Before j, process pid called exit with this status, or its load failed and it is -1. */
  ghost predicate ExitedWith(steps: seq<Step>, j: nat, pid: Tid, status: int) {
    || (exists k :: 0 <= k < j && k < |steps| && steps[k] == Step(pid, CallExit(status)))
    || (status == -1 && LoadEnded(steps, j, pid, false))
  }

  /** Nothing is remembered of how a load ended but what its process did. */
  lemma {:induction false} OutcomeWasTaken(trace: seq<Machine>, steps: seq<Step>, j: nat, pid: Tid)
    requires Run(trace, steps) && j < |trace| && pid in trace[j].outcome
    ensures LoadEnded(steps, j, pid, trace[j].outcome[pid])
  {
    hide Inv, Apply;
    if j > 0 {
      var k := j - 1;
      RunKeepsInv(trace, steps, k);
      assert StepAt(trace, steps, k);
      StepNotes(trace[k], steps[k]);
      if pid in trace[k].outcome && trace[k].outcome[pid] == trace[j].outcome[pid] {
        OutcomeWasTaken(trace, steps, k, pid);
      }
    }
  }

  /** Nor of an exit status but what the process passed to exit, or -1 for a failed load. */
  lemma {:induction false} StatusWasPassed(trace: seq<Machine>, steps: seq<Step>, j: nat, pid: Tid)
    requires Run(trace, steps) && j < |trace| && pid in trace[j].exits
    ensures ExitedWith(steps, j, pid, trace[j].exits[pid])
  {
    hide Inv, Apply;
    if j > 0 {
      var k := j - 1;
      RunKeepsInv(trace, steps, k);
      assert StepAt(trace, steps, k);
      StepNotes(trace[k], steps[k]);
      if pid in trace[k].exits && trace[k].exits[pid] == trace[j].exits[pid] {
        StatusWasPassed(trace, steps, k, pid);
      } else if steps[k] == Step(pid, Go) {
        FailureIsNoted(trace[k], pid);
        OutcomeWasTaken(trace, steps, k, pid);
      }
    }
  }

  lemma FailureIsNoted(m: Machine, t: Tid)
    requires Inv(m) && t in m.procs && At(m, t) == LoadPost(false)
    ensures t in m.outcome && !m.outcome[t]
  {
    hide CallOk;
    assert ProcOk(m, t);
  }

  /** A process that is still loading has no exit status. */
  lemma {:induction false} NotYetExited(trace: seq<Machine>, steps: seq<Step>, j: nat, pid: Tid)
    requires Run(trace, steps) && j < |trace| && pid in trace[j].procs && Loading(At(trace[j], pid))
    ensures pid !in trace[j].exits
  {
    if pid in trace[j].exits {
      ExitedIsLeaving(trace, steps, j, pid);
    }
  }

  lemma {:induction false} ExitedIsLeaving(trace: seq<Machine>, steps: seq<Step>, j: nat, pid: Tid)
    requires Run(trace, steps) && j < |trace| && pid in trace[j].exits
    ensures Exiting(trace[j], pid, trace[j].exits[pid])
  {
    hide Inv, Apply;
    if j > 0 {
      var k := j - 1;
      RunKeepsInv(trace, steps, k);
      assert StepAt(trace, steps, k);
      if pid in trace[k].exits {
        ExitedIsLeaving(trace, steps, k, pid);
        ExitingStays(trace[k], steps[k], pid, trace[k].exits[pid]);
      } else {
        StepNotes(trace[k], steps[k]);
        StartsLeaving(trace[k], steps[k]);
      }
    }
  }

  lemma StartsLeaving(m: Machine, s: Step)
    requires Inv(m) && Enabled(m, s) && (s.act.CallExit? || (s.act.Go? && At(m, s.t) == LoadPost(false)))
    ensures s.t in Apply(m, s).procs && Leaving(At(Apply(m, s), s.t))
  {
    hide Inv, LoadStep, ExecStep, WaitStep, ExitStep;
    if s.act.Go? {
      StepKeepsInv(m, s);
      NoCrash(Apply(m, s));
      LoadNotes(m, s.t);
    }
  }

  /** When wait is about to return, what it returns is what the child passed to exit. */
  lemma WaitReturnsStatus(trace: seq<Machine>, steps: seq<Step>, i: nat, p: Tid)
    requires Run(trace, steps) && i < |trace| && p in trace[i].procs && At(trace[i], p).WaitFree?
    ensures
      var m := trace[i];
      var pc := At(m, p);
      && pc.rec in m.records && m.records[pc.rec].pid == pc.pid
      && ExitedWith(steps, i, pc.pid, m.records[pc.rec].exitStatus)
  {
    hide Enabled, Apply, ChildOk, ExitedWith;
    RunKeepsInv(trace, steps, i);
    assert ProcOk(trace[i], p);
    assert RecordOk(trace[i], At(trace[i], p).rec);
    StatusWasPassed(trace, steps, i, At(trace[i], p).pid);
  }

  // ------------------------------------------------------- whole calls, over runs

  /** p created pid and has not waited for it. */
  predicate UnreapedChild(m: Machine, p: Tid, pid: Tid) {
    pid in m.parentOf && m.parentOf[pid] == p && pid !in m.reaped
  }

  lemma FoundIsChild(m: Machine, p: Tid, pid: Tid)
    requires Inv(m) && p in m.procs && FindChild(m, m.procs[p].children, pid).Some?
    ensures UnreapedChild(m, p, pid)
  {
    hide ChildOk, CallOk, FindChild;
    assert ProcOk(m, p);
    assert RecordOk(m, FindChild(m, m.procs[p].children, pid).value);
  }

  lemma ChildIsFound(m: Machine, p: Tid, pid: Tid)
    requires Inv(m) && p in m.procs && UnreapedChild(m, p, pid)
    ensures FindChild(m, m.procs[p].children, pid).Some?
  {
    hide ProcOk, FindChild;
    assert Kept(m, pid);
    assert RecordOk(m, m.procs[pid].childData.value);
  }

  /** Waiting finds a process just when it is an unreaped child of the caller. */
  lemma WaitFindsChildren(trace: seq<Machine>, steps: seq<Step>, i: nat, p: Tid, pid: Tid)
    requires Run(trace, steps) && i < |trace| && p in trace[i].procs
    ensures FindChild(trace[i], trace[i].procs[p].children, pid).Some? <==> UnreapedChild(trace[i], p, pid)
  {
    hide Inv, Enabled, Apply, FindChild, UnreapedChild;
    RunKeepsInv(trace, steps, i);
    FindIsExact(trace[i], p, pid);
  }

  lemma FindIsExact(m: Machine, p: Tid, pid: Tid)
    requires Inv(m) && p in m.procs
    ensures FindChild(m, m.procs[p].children, pid).Some? <==> UnreapedChild(m, p, pid)
  {
    hide Inv, FindChild, UnreapedChild;
    if UnreapedChild(m, p, pid) { ChildIsFound(m, p, pid); }
    if FindChild(m, m.procs[p].children, pid).Some? { FoundIsChild(m, p, pid); }
  }

  /** A process that exec is about to make known was nobody's child. */
  lemma NobodysChild(m: Machine, t: Tid)
    requires Inv(m) && t in m.procs && At(m, t).ExecAdd?
    ensures At(m, t).child !in m.parentOf
  {
    hide RecordOk, ChildOk;
    var c := At(m, t).child;
    assert ProcOk(m, t);
    NotReaped(m, c);
    assert c in m.parentOf ==> Kept(m, c);
  }

  lemma ReapedOwn(m: Machine, t: Tid)
    requires Inv(m) && t in m.procs && At(m, t).WaitFree?
    ensures At(m, t).pid in m.parentOf && m.parentOf[At(m, t).pid] == t
  {
    FreedRecord(m, t);
    assert RecordOk(m, At(m, t).rec);
  }

  /** Other processes cannot make pid p's child, nor reap it. */
  lemma OthersKeepChild(m: Machine, n: Machine, t: Tid, p: Tid, pid: Tid)
    requires Inv(m) && Frame(m, n, t) && t != p
    ensures UnreapedChild(n, p, pid) <==> UnreapedChild(m, p, pid)
  {
    hide Inv;
    if At(m, t).ExecAdd? { NobodysChild(m, t); }
    if At(m, t).WaitFree? { ReapedOwn(m, t); }
  }

  /** p is inside wait(pid); child says whether pid was its unreaped child at the call. */
  predicate InWait(m: Machine, p: Tid, pid: Tid, child: bool) {
    && p in m.procs
    && match At(m, p)
       case WaitFind(q) => q == pid && (UnreapedChild(m, p, pid) <==> child)
       case WaitDown(q, _) => q == pid && child
       case WaitFree(q, _) => q == pid && child
       case _ => false
  }

  /** wait(pid) has just returned the child's exit status, or -1. */
  predicate WaitDone(m: Machine, p: Tid, pid: Tid, child: bool) {
    && p in m.procs && At(m, p).User? && p in m.results
    && if child then pid in m.exits && m.results[p] == m.exits[pid] && pid in m.reaped else m.results[p] == -1
  }

  lemma WaitFindGoesOn(m: Machine, p: Tid, pid: Tid, child: bool)
    requires Inv(m) && InWait(m, p, pid, child) && At(m, p).WaitFind?
    ensures InWait(WaitStep(m, p), p, pid, child) || WaitDone(WaitStep(m, p), p, pid, child)
  {
    hide Inv, FindChild, UnreapedChild;
    FindIsExact(m, p, pid);
  }

  lemma WaitFreeGoesOn(m: Machine, p: Tid, pid: Tid, child: bool)
    requires Inv(m) && InWait(m, p, pid, child) && At(m, p).WaitFree?
    ensures WaitDone(WaitStep(m, p), p, pid, child)
  {
    hide Inv, UnreapedChild, Unlisted;
    FreedRecord(m, p);
    RecordIsOk(m, At(m, p).rec);
  }

  lemma TakeMoves(m: Machine, p: Tid, pid: Tid, r: nat)
    requires p in m.procs && !TakeStep(m, p, pid, r).crashed
    ensures p in TakeStep(m, p, pid, r).procs && At(TakeStep(m, p, pid, r), p) == WaitFree(pid, r)
  {
    if r in m.records && m.records[r].done > 0 {
    }
  }

  lemma WaitDownGoesOn(m: Machine, p: Tid, pid: Tid, child: bool)
    requires InWait(m, p, pid, child) && At(m, p).WaitDown? && !WaitStep(m, p).crashed
    ensures InWait(WaitStep(m, p), p, pid, child)
  {
    hide UnreapedChild, FindChild, FreeStep, TakeStep;
    TakeMoves(m, p, pid, At(m, p).rec);
  }

  lemma WaitGoesOn(m: Machine, s: Step, p: Tid, pid: Tid, child: bool)
    requires Inv(m) && Enabled(m, s) && InWait(m, p, pid, child)
    ensures InWait(Apply(m, s), p, pid, child) || WaitDone(Apply(m, s), p, pid, child)
  {
    hide Inv, LoadStep, ExecStep, WaitStep, ExitStep, UnreapedChild;
    StepKeepsInv(m, s);
    if s.t != p {
      hide Apply;
      OthersKeepChild(m, Apply(m, s), s.t, p, pid);
    } else {
      NoCrash(Apply(m, s));
      match At(m, p)
      case WaitFind(_) => WaitFindGoesOn(m, p, pid, child);
      case WaitDown(_, _) => WaitDownGoesOn(m, p, pid, child);
      case WaitFree(_, _) => WaitFreeGoesOn(m, p, pid, child);
    }
  }

  lemma NoCrash(m: Machine)
    requires Inv(m)
    ensures !m.crashed
  {
  }

  /** p has not been back in user code between i and j. */
  ghost predicate Away(trace: seq<Machine>, p: Tid, i: nat, j: nat)
    requires j <= |trace|
  {
    forall k :: i < k < j ==> p in trace[k].procs && !At(trace[k], p).User?
  }

  lemma {:induction false} WaitProgress(trace: seq<Machine>, steps: seq<Step>, i: nat, j: nat, p: Tid, pid: Tid)
    requires Run(trace, steps) && i < j < |trace| && steps[i] == Step(p, CallWait(pid)) && Away(trace, p, i, j)
    ensures var child := UnreapedChild(trace[i], p, pid);
      InWait(trace[j], p, pid, child) || WaitDone(trace[j], p, pid, child)
    decreases j
  {
    hide Inv;
    if j == i + 1 {
      assert StepAt(trace, steps, i);
    } else {
      hide Enabled, Apply;
      WaitProgress(trace, steps, i, j - 1, p, pid);
      RunKeepsInv(trace, steps, j - 1);
      assert StepAt(trace, steps, j - 1);
      WaitGoesOn(trace[j - 1], steps[j - 1], p, pid, UnreapedChild(trace[i], p, pid));
    }
  }

  /** A call of wait(pid), made at i and back in user code at j, returns what pid passed to
      exit if pid was a child of the caller not waited for, and -1 otherwise. */
  lemma WaitResult(trace: seq<Machine>, steps: seq<Step>, i: nat, j: nat, p: Tid, pid: Tid)
    requires Run(trace, steps) && i < j < |trace| && steps[i] == Step(p, CallWait(pid)) && Away(trace, p, i, j)
    requires p in trace[j].procs && At(trace[j], p).User?
    ensures p in trace[j].results
    ensures UnreapedChild(trace[i], p, pid) ==>
      && ExitedWith(steps, j, pid, trace[j].results[p])
      && pid in trace[j].reaped && pid in trace[j].procs && At(trace[j], pid).Gone?
    ensures !UnreapedChild(trace[i], p, pid) ==> trace[j].results[p] == -1
  {
    hide Run, ExitedWith, Inv;
    WaitProgress(trace, steps, i, j, p, pid);
    if UnreapedChild(trace[i], p, pid) {
      StatusWasPassed(trace, steps, j, pid);
      RunKeepsInv(trace, steps, j);
      ReapedIsGone(trace[j], pid);
    }
  }

  lemma ReapedIsGone(m: Machine, pid: Tid)
    requires Inv(m) && pid in m.reaped
    ensures pid in m.procs && At(m, pid).Gone?
  {
  }

  /** There is only one such status: a process exits once, and one whose load failed never
      calls exit with another. */
  lemma {:induction false} ExitStatusIsOne(trace: seq<Machine>, steps: seq<Step>, j: nat, pid: Tid, v: int, w: int)
    requires Run(trace, steps) && j < |trace| && ExitedWith(steps, j, pid, v) && ExitedWith(steps, j, pid, w)
    ensures v == w
  {
    hide Run, Ended;
    if exists k :: 0 <= k < j && k < |steps| && steps[k] == Step(pid, CallExit(v)) {
      var k :| 0 <= k < j && k < |steps| && steps[k] == Step(pid, CallExit(v));
      OneStatus(trace, steps, j, pid, k, v, w);
    } else if exists k :: 0 <= k < j && k < |steps| && steps[k] == Step(pid, CallExit(w)) {
      var k :| 0 <= k < j && k < |steps| && steps[k] == Step(pid, CallExit(w));
      OneStatus(trace, steps, j, pid, k, w, v);
    }
  }

  lemma OneStatus(trace: seq<Machine>, steps: seq<Step>, j: nat, pid: Tid, k: nat, v: int, w: int)
    requires Run(trace, steps) && k < j < |trace| && k < |steps| && steps[k] == Step(pid, CallExit(v))
    requires ExitedWith(steps, j, pid, w)
    ensures v == w
  {
    hide Run;
    ExitIsFinal(trace, steps, k, j, pid, v);
    if l :| 0 <= l < j && l < |steps| && steps[l] == Step(pid, CallExit(w)) {
      ExitIsFinal(trace, steps, l, j, pid, w);
    } else {
      var l :| 0 <= l < j && l < |steps| && (steps[l] == Step(pid, Finish(false)) || steps[l] == Step(pid, FailEarly));
      LoadEndsOnce(trace, steps, l, j, pid, false);
    }
  }

  /** The first wait that finds the child returns its status, and every later wait for it,
      by whomever, returns -1. */
  lemma LaterWaitsFail(trace: seq<Machine>, steps: seq<Step>, i: nat, j: nat, p: Tid, k: nat, l: nat, q: Tid, pid: Tid)
    requires Run(trace, steps) && i < j <= k < l < |trace| && UnreapedChild(trace[i], p, pid)
    requires steps[i] == Step(p, CallWait(pid)) && Away(trace, p, i, j) && p in trace[j].procs && At(trace[j], p).User?
    requires steps[k] == Step(q, CallWait(pid)) && Away(trace, q, k, l) && q in trace[l].procs && At(trace[l], q).User?
    ensures p in trace[j].results && ExitedWith(steps, j, pid, trace[j].results[p])
    ensures q in trace[l].results && trace[l].results[q] == -1
  {
    hide Run, ExitedWith;
    WaitResult(trace, steps, i, j, p, pid);
    ReapedOnward(trace, steps, j, k, pid);
    WaitResult(trace, steps, k, l, q, pid);
  }

  lemma {:induction false} ReapedOnward(trace: seq<Machine>, steps: seq<Step>, i: nat, j: nat, pid: Tid)
    requires Run(trace, steps) && i <= j < |trace| && pid in trace[i].reaped
    ensures pid in trace[j].reaped
    decreases j
  {
    hide Inv, Enabled, Apply;
    if i < j {
      ReapedOnward(trace, steps, i, j - 1, pid);
      RunKeepsInv(trace, steps, j - 1);
      assert StepAt(trace, steps, j - 1);
      StepKeepsInv(trace[j - 1], steps[j - 1]);
    }
  }

  /** Only the end of a wait for it, by the process that created it, reaps a process. */
  lemma {:induction false} ReapedWasWaited(trace: seq<Machine>, steps: seq<Step>, k: nat, pid: Tid) returns (j: nat)
    requires Run(trace, steps) && k < |trace| && pid in trace[k].reaped
    ensures j < k && steps[j].t in trace[j].procs && At(trace[j], steps[j].t).WaitFree?
    ensures At(trace[j], steps[j].t).pid == pid && UnreapedChild(trace[j], steps[j].t, pid)
  {
    hide Inv, Enabled, Apply;
    if k > 0 {
      j := k - 1;
      RunKeepsInv(trace, steps, j);
      assert StepAt(trace, steps, j);
      StepKeepsInv(trace[j], steps[j]);
      if pid in trace[j].reaped {
        j := ReapedWasWaited(trace, steps, j, pid);
      } else {
        ReapedOwn(trace[j], steps[j].t);
      }
    }
  }

  /** p is inside exec; the child, once there is one, is not among the processes before. */
  predicate InExec(m: Machine, p: Tid, before: set<Tid>) {
    && p in m.procs && before <= m.procs.Keys
    && match At(m, p)
       case ExecLock => true
       case ExecCreate => true
       case ExecAdd(c) => c !in before
       case ExecPublish(c, _) => NewChild(m, p, before, c)
       case ExecRelease(c, _, _) => NewChild(m, p, before, c)
       case ExecDown(c, _, _) => NewChild(m, p, before, c)
       case ExecCheck(c, _, _) => NewChild(m, p, before, c)
       case _ => false
  }

  predicate NewChild(m: Machine, p: Tid, before: set<Tid>, c: Tid) {
    c !in before && c in m.parentOf && m.parentOf[c] == p
  }

  /** exec has just returned the new child's id, or -1 if the child's load failed. */
  predicate ExecDone(m: Machine, p: Tid, before: set<Tid>, c: Tid) {
    && p in m.procs && At(m, p).User? && p in m.results && NewChild(m, p, before, c)
    && c in m.outcome && m.results[p] == if m.outcome[c] then c else -1
  }

  lemma ExecCreateGoesOn(m: Machine, p: Tid, before: set<Tid>)
    requires Inv(m) && InExec(m, p, before) && (At(m, p).ExecLock? || At(m, p).ExecCreate?)
    ensures InExec(ExecStep(m, p), p, before)
  {
    hide Inv;
    NewTid(m);
  }

  lemma ExecAddGoesOn(m: Machine, p: Tid, before: set<Tid>)
    requires Inv(m) && InExec(m, p, before) && At(m, p).ExecAdd?
    ensures InExec(ExecStep(m, p), p, before)
  {
    hide Inv, ExecStep;
    AddIsAdded(m, p);
  }

  lemma PublishMoves(m: Machine, p: Tid, c: Tid, r: nat)
    requires p in m.procs && !PublishStep(m, p, c, r).crashed
    ensures p in PublishStep(m, p, c, r).procs && At(PublishStep(m, p, c, r), p) == ExecRelease(c, r, m.nextSema)
  {
    if r in m.records {
    }
  }

  lemma DownMoves(m: Machine, p: Tid, c: Tid, r: nat, s: nat)
    requires p in m.procs && !DownStep(m, p, c, r, s).crashed
    ensures p in DownStep(m, p, c, r, s).procs && At(DownStep(m, p, c, r, s), p) == ExecCheck(c, r, s)
  {
    if s in m.semas && m.semas[s] > 0 {
    }
  }

  /** Between making the child known and the check, exec keeps the child it created. */
  lemma ExecMoves(m: Machine, p: Tid)
    requires p in m.procs && !ExecStep(m, p).crashed
    requires At(m, p).ExecPublish? || At(m, p).ExecRelease? || At(m, p).ExecDown?
    ensures p in ExecStep(m, p).procs
    ensures
      var pc := At(ExecStep(m, p), p);
      (pc.ExecRelease? || pc.ExecDown? || pc.ExecCheck?) && pc.child == At(m, p).child
  {
    hide CreateStep, AddStep, CheckStep, PublishStep, DownStep;
    match At(m, p)
    case ExecPublish(c, r) => PublishMoves(m, p, c, r);
    case ExecRelease(_, _, _) =>
    case ExecDown(c, r, s) => DownMoves(m, p, c, r, s);
  }

  lemma ExecMiddleGoesOn(m: Machine, p: Tid, before: set<Tid>)
    requires InExec(m, p, before) && !ExecStep(m, p).crashed && Frame(m, ExecStep(m, p), p)
    requires At(m, p).ExecPublish? || At(m, p).ExecRelease? || At(m, p).ExecDown?
    ensures InExec(ExecStep(m, p), p, before)
  {
    hide ExecStep;
    ExecMoves(m, p);
  }

  lemma ExecCheckGoesOn(m: Machine, p: Tid, before: set<Tid>)
    requires Inv(m) && InExec(m, p, before) && At(m, p).ExecCheck?
    ensures ExecDone(ExecStep(m, p), p, before, At(m, p).child)
  {
    hide Inv, ChildOk;
    ProcIsOk(m, p);
    RecordIsOk(m, At(m, p).rec);
  }

  lemma OthersKeepExec(m: Machine, n: Machine, t: Tid, p: Tid, before: set<Tid>)
    requires Inv(m) && Frame(m, n, t) && t != p && InExec(m, p, before)
    ensures InExec(n, p, before)
  {
    hide Inv;
    if At(m, t).ExecAdd? { NobodysChild(m, t); }
  }

  lemma ExecGoesOn(m: Machine, s: Step, p: Tid, before: set<Tid>)
    requires Inv(m) && Enabled(m, s) && InExec(m, p, before)
    ensures InExec(Apply(m, s), p, before) || exists c :: ExecDone(Apply(m, s), p, before, c)
  {
    hide Inv, LoadStep, ExecStep, WaitStep, ExitStep, NewChild;
    StepKeepsInv(m, s);
    if s.t != p {
      hide Apply;
      OthersKeepExec(m, Apply(m, s), s.t, p, before);
    } else {
      NoCrash(Apply(m, s));
      match At(m, p)
      case ExecLock => ExecCreateGoesOn(m, p, before);
      case ExecCreate => ExecCreateGoesOn(m, p, before);
      case ExecAdd(_) => ExecAddGoesOn(m, p, before);
      case ExecPublish(_, _) => ExecMiddleGoesOn(m, p, before);
      case ExecRelease(_, _, _) => ExecMiddleGoesOn(m, p, before);
      case ExecDown(_, _, _) => ExecMiddleGoesOn(m, p, before);
      case ExecCheck(_, _, _) => ExecCheckGoesOn(m, p, before);
    }
  }

  lemma {:induction false} ExecProgress(trace: seq<Machine>, steps: seq<Step>, i: nat, j: nat, p: Tid)
    requires Run(trace, steps) && i < j < |trace| && steps[i] == Step(p, CallExec) && Away(trace, p, i, j)
    ensures InExec(trace[j], p, trace[i].procs.Keys) || exists c :: ExecDone(trace[j], p, trace[i].procs.Keys, c)
    decreases j
  {
    hide Inv, NewChild;
    if j == i + 1 {
      assert StepAt(trace, steps, i);
    } else {
      hide Enabled, Apply;
      ExecProgress(trace, steps, i, j - 1, p);
      RunKeepsInv(trace, steps, j - 1);
      assert StepAt(trace, steps, j - 1);
      ExecGoesOn(trace[j - 1], steps[j - 1], p, trace[i].procs.Keys);
    }
  }

  /** A call of exec, made at i and back in user code at j, has created a child of the
      caller; it returns the child's id if the child's load succeeded and -1 if not. */
  lemma ExecResult(trace: seq<Machine>, steps: seq<Step>, i: nat, j: nat, p: Tid) returns (c: Tid)
    requires Run(trace, steps) && i < j < |trace| && steps[i] == Step(p, CallExec) && Away(trace, p, i, j)
    requires p in trace[j].procs && At(trace[j], p).User?
    ensures c !in trace[i].procs && c in trace[j].parentOf && trace[j].parentOf[c] == p
    ensures p in trace[j].results && (trace[j].results[p] == c || trace[j].results[p] == -1)
    ensures LoadEnded(steps, j, c, trace[j].results[p] == c)
  {
    hide Run, LoadEnded;
    ExecProgress(trace, steps, i, j, p);
    c :| ExecDone(trace[j], p, trace[i].procs.Keys, c);
    OutcomeWasTaken(trace, steps, j, c);
  }

  /** A load ends one way only. */
  lemma LoadEndIsOne(trace: seq<Machine>, steps: seq<Step>, j: nat, pid: Tid)
    requires Run(trace, steps) && j < |trace|
    ensures !LoadEnded(steps, j, pid, true) || !LoadEnded(steps, j, pid, false)
  {
    hide Run;
    if LoadEnded(steps, j, pid, true) && LoadEnded(steps, j, pid, false) {
      var k :| 0 <= k < j && k < |steps| && steps[k] == Step(pid, Finish(true));
      var l :| 0 <= l < j && l < |steps| && (steps[l] == Step(pid, Finish(false)) || steps[l] == Step(pid, FailEarly));
      LoadEndsOnce(trace, steps, k, j, pid, true);
      LoadEndsOnce(trace, steps, l, j, pid, false);
      assert false;
    }
  }

  // ------------------------------------------------------------------- progress

  /** A process's next step, whatever its user code or its load decides. */
  function Next(pc: Pc): Act {
    if pc.LoadBody? then Finish(true) else if pc.User? then CallExec else Go
  }

  /** A process that has not ended can go on unless it waits for the lock, which its holder
      can give back, for its new child to load, or for its child to end. */
  lemma CanGoOn(trace: seq<Machine>, steps: seq<Step>, i: nat, t: Tid)
    requires Run(trace, steps) && i < |trace| && t in trace[i].procs && !At(trace[i], t).Gone?
    ensures
      var m := trace[i];
      var pc := At(m, t);
      Enabled(m, Step(t, Next(pc))) || (TakesLock(pc) && m.lock.Some?)
      || (pc.ExecDown? && pc.child in m.procs && Loading(At(m, pc.child)))
      || (pc.WaitDown? && pc.pid in m.procs && !At(m, pc.pid).Gone?)
    ensures var lock := trace[i].lock; lock.Some? ==> Enabled(trace[i], Step(lock.value, Go))
  {
    hide Inv;
    RunKeepsInv(trace, steps, i);
    NoCrash(trace[i]);
    if At(trace[i], t).ExecDown? { ExecWaitsForReport(trace, steps, i, t); }
    if At(trace[i], t).WaitDown? { ExitedCanBeWaited(trace, steps, i, t); }
    if trace[i].lock.Some? { HolderHolds(trace[i]); }
  }

  lemma HolderHolds(m: Machine)
    requires Inv(m) && m.lock.Some?
    ensures m.lock.value in m.procs && Holding(At(m, m.lock.value))
  {
    hide ChildOk, CallOk;
    assert ProcOk(m, m.lock.value);
  }

  // ------------------------------------------------------ load semaphores and frames

  /** p is in an exec whose frame holds semaphore s. */
  predicate HasFrame(m: Machine, p: Tid, s: nat) {
    && p in m.procs && (At(m, p).ExecRelease? || At(m, p).ExecDown? || At(m, p).ExecCheck?)
    && At(m, p).sema == s
  }

  ghost predicate Framed(m: Machine) { forall s :: s in m.semas ==> exists p :: HasFrame(m, p, s) }

  /** exec keeps its frame until it returns. */
  lemma FrameGoesOn(m: Machine, t: Tid)
    requires Inv(m) && Enabled(m, Step(t, Go)) && (At(m, t).ExecPublish? || At(m, t).ExecRelease? || At(m, t).ExecDown?)
    ensures HasFrame(Apply(m, Step(t, Go)), t, if At(m, t).ExecPublish? then m.nextSema else At(m, t).sema)
  {
    hide Inv, CreateStep, AddStep, PublishStep, DownStep, CheckStep, MoveLock;
    StepKeepsInv(m, Step(t, Go));
    NoCrash(Apply(m, Step(t, Go)));
    match At(m, t)
    case ExecPublish(c, r) => PublishMoves(m, t, c, r);
    case ExecRelease(c, r, s) => LockNotes(m, t, ExecDown(c, r, s), None);
    case ExecDown(c, r, s) => DownMoves(m, t, c, r, s);
  }

  lemma FramedStays(m: Machine, s: Step)
    requires Inv(m) && Enabled(m, s) && Framed(m)
    ensures Framed(Apply(m, s))
  {
    hide Inv, Apply;
    var n, t := Apply(m, s), s.t;
    StepKeepsInv(m, s);
    StepNotes(m, s);
    if At(m, t).ExecPublish? || At(m, t).ExecRelease? || At(m, t).ExecDown? { FrameGoesOn(m, t); }
    forall x | x in n.semas ensures exists p :: HasFrame(n, p, x) {
      if At(m, t).ExecPublish? && x == m.nextSema {
        assert HasFrame(n, t, x);
      } else {
        var p :| HasFrame(m, p, x);
        assert HasFrame(n, p, x);
      }
    }
  }

  /** In every state of every interleaving a load semaphore is there only while the exec
      whose frame holds it has not returned. */
  lemma {:induction false} SemasDieWithFrames(trace: seq<Machine>, steps: seq<Step>, i: nat)
    requires Run(trace, steps) && i < |trace|
    ensures Framed(trace[i])
  {
    hide Inv, Apply, Enabled;
    if i > 0 {
      SemasDieWithFrames(trace, steps, i - 1);
      RunKeepsInv(trace, steps, i - 1);
      assert StepAt(trace, steps, i - 1);
      FramedStays(trace[i - 1], steps[i - 1]);
    }
  }
}
