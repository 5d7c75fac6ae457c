/** Wait queues, semaphores, mutexes and mailboxes over the scheduler's state machine
    (kernel/wait_queue.c, semaphore.c, mutex.c, mailbox.c), and the proof that no wake-up is lost. */
module SyncModel {
  import opened ProcessModel
  import opened ProcessCore
  import opened RunOrder
  import opened SchedulerModel
  import opened SchedulerSafety

  // ---------------------------------------------------------------- what one operation does to the other slots

  lemma CalmerTrans(a: Process, b: Process, c: Process)
    requires Calmer(a, b) && Calmer(b, c)
    ensures Calmer(a, c)
  {
  }

  /** Every slot but `x` changed calmly. */
  ghost predicate CalmBut(ps: seq<Process>, ps': seq<Process>, x: nat) {
    |ps'| == |ps| && forall i :: 0 <= i < |ps| && i != x ==> Calmer(ps[i], ps'[i])
  }

  lemma CalmButTrans(a: seq<Process>, b: seq<Process>, c: seq<Process>, x: nat)
    requires CalmBut(a, b, x) && CalmBut(b, c, x)
    ensures CalmBut(a, c, x)
  {
    forall i | 0 <= i < |a| && i != x ensures Calmer(a[i], c[i]) { CalmerTrans(a[i], b[i], c[i]); }
  }

  lemma {:induction false} TicksAreCalm(s: Sys, count: nat, x: nat)
    ensures CalmBut(s.procs, Ticks(s, count).procs, x)
  {
    if count > 0 {
      TicksAreCalm(s, count - 1, x);
      WokenIsCalmer(Ticks(s, count - 1).procs, p => SleepOver(p, Ticks(s, count - 1).clock + 1));
      CalmButTrans(s.procs, Ticks(s, count - 1).procs, Ticks(s, count).procs, x);
    }
  }

  /** While a process yields, all others change calmly; so does the process itself unless it is a zombie. */
  lemma YieldIsCalm(s: Sys, ticks: nat, x: nat)
    requires Yielding(s) && (x == s.current || s.procs[s.current].state != Zombie)
    ensures CalmBut(s.procs, Yielded(s, ticks).procs, x)
  {
    hide TableOk, HasSleepers;
    TicksKeepYielding(s, ticks);
    TicksKeepSize(s, ticks);
    TicksAreCalm(s, ticks, x);
    var s1 := Ticks(s, ticks);
    CountKeepsYielding(s1);
    var s2 := CountedYield(s1);
    CalmButTrans(s.procs, s1.procs, s2.procs, x);
    DispatchIsCalm(s2, x);
    CalmButTrans(s.procs, s2.procs, Dispatched(s2).procs, x);
  }

  lemma DispatchIsCalm(s: Sys, x: nat)
    requires Yielding(s) && (x == s.current || s.procs[s.current].state != Zombie)
    ensures CalmBut(s.procs, Dispatched(s).procs, x)
  {
    hide TableOk, HasSleepers, RunsBefore;
    PickIsFirst(s);
    var next := Pick(s);
    if next != NONE { assert next in s.queued; }
  }

  /** The one slot that an operation may disturb. */
  function Subject(s: Sys, op: Op): nat
    requires Sized(s)
  {
    match op
    case Spawn(_, _) => FindFreeSlot(s.procs)
    case Kill(pid, _, _) => FindIndexByPid(s.procs, pid)
    case Reap(pid) =>
      var i := FindIndexByPid(s.procs, pid);
      if i != NONE && s.procs[i].state == Zombie then i else NONE
    case Wait(target, _) =>
      var child := FindWaitableChild(s.procs, CurrentPid(s), target);
      if child != NONE then child else s.current
    case Block(pid, _) => FindIndexByPid(s.procs, pid)
    case Exit(_, _) => s.current
    case Sleep(_, _) => s.current
    case WaitOn(_, _) => s.current
    case _ => NONE
  }

  lemma BlockAndYieldIsCalm(s: Sys, reason: WaitReason, channel: nat, wakeTick: nat, target: nat, ticks: nat)
    requires Sized(s) && s.current < |s.procs| && Yielding(BlockedAt(s, s.current, reason, channel, wakeTick, target))
    ensures CalmBut(s.procs, Yielded(BlockedAt(s, s.current, reason, channel, wakeTick, target), ticks).procs, s.current)
    ensures Calmer(Suspended(s.procs[s.current], reason, channel, wakeTick, target),
                   Yielded(BlockedAt(s, s.current, reason, channel, wakeTick, target), ticks).procs[s.current])
  {
    hide Yielding, Yielded;
    var s1 := BlockedAt(s, s.current, reason, channel, wakeTick, target);
    YieldFromBlocked(s1, ticks);
    CalmButTrans(s.procs, s1.procs, Yielded(s1, ticks).procs, s.current);
  }

  lemma YieldFromBlocked(s: Sys, ticks: nat)
    requires Yielding(s) && s.procs[s.current].state == Blocked
    ensures CalmBut(s.procs, Yielded(s, ticks).procs, s.current)
    ensures CalmBut(s.procs, Yielded(s, ticks).procs, NONE)
  {
    YieldIsCalm(s, ticks, s.current);
    YieldIsCalm(s, ticks, NONE);
  }

  lemma ExitIsCalm(s: Sys, code: int, ticks: nat)
    requires Inv(s) && s.mode == Normal
    ensures Sized(s) && s.current < |s.procs| && CalmBut(s.procs, Exited(s, code, ticks).procs, s.current)
  {
    hide TableOk, QueueOk, Yielding, Yielded;
    ExitIsYielding(s, code);
    var z := Zombified(s, s.current, code);
    YieldIsCalm(z, ticks, s.current);
    CalmButTrans(s.procs, z.procs, Yielded(z, ticks).procs, s.current);
  }

  lemma StepIsCalm(s: Sys, op: Op)
    requires Inv(s)
    ensures CalmBut(s.procs, Step(s, op).procs, Subject(s, op))
  {
    var x := Subject(s, op);
    if s.mode == Normal {
      hide TableOk, QueueOk, Yielding, Yielded, BlockedAt, Ticks, Tick, Exited, WaitRound, Slept,
        ManuallyBlocked, ChannelWaited, Killed, Spawned, Reaped, ManuallyWoken, ChannelWokenFirst, FirstFrom;
      match op
      case Exit(code, ticks) => ExitIsCalm(s, code, ticks);
      case Kill(pid, code, ticks) => KillIsCalm(s, pid, code, ticks);
      case Spawn(role, allowed) => SpawnIsCalm(s, role, allowed);
      case Reap(pid) => ReapIsCalm(s, pid);
      case Wake(pid) => WakeIsCalm(s, pid, x);
      case WakeOne(channel) => WakeOneIsCalm(s, channel, x);
      case Wait(target, ticks) => WaitIsCalm(s, target, ticks);
      case Sleep(duration, ticks) => SleepIsCalm(s, duration, ticks);
      case Block(pid, ticks) => BlockIsCalm(s, pid, ticks);
      case WaitOn(channel, ticks) => ChannelWaitIsCalm(s, channel, ticks);
      case Yield(ticks) => NormalYieldIsCalm(s, ticks, x);
      case WakeAll(channel) => WokenIsCalmer(s.procs, p => WaitsOn(p, channel));
      case TimerTick => TickIsCalm(s, x);
      case _ =>
    } else if s.mode == Starting {
      match op
      case TimerTick => TickIsCalm(s, x);
      case Run(ticks) => StartIsCalm(s, ticks, x);
      case Spawn(role, allowed) => SpawnIsCalm(s, role, allowed);
      case _ =>
    } else if s.mode == Idle && op.IdleWake? {
      IdleIsCalm(s, op.ticks, x);
    }
  }

  lemma ChannelWaitIsCalm(s: Sys, channel: nat, ticks: nat)
    requires Inv(s) && s.mode == Normal
    ensures CalmBut(s.procs, ChannelWaited(s, channel, ticks).procs, s.current)
    ensures Calmer(Suspended(s.procs[s.current], WaitEventChannel, channel, 0, 0), ChannelWaited(s, channel, ticks).procs[s.current])
  {
    hide TableOk, QueueOk, Yielding, Yielded, BlockedAt;
    BlockIsYielding(s, WaitEventChannel, channel, 0);
    BlockAndYieldIsCalm(s, WaitEventChannel, channel, 0, 0, ticks);
  }

  lemma TickIsCalm(s: Sys, x: nat)
    ensures CalmBut(s.procs, Tick(s).procs, x)
  {
    WokenIsCalmer(s.procs, p => SleepOver(p, s.clock + 1));
  }

  lemma KillIsCalm(s: Sys, pid: nat, code: int, ticks: nat)
    requires Inv(s) && s.mode == Normal
    ensures CalmBut(s.procs, Killed(s, pid, code, ticks).procs, FindIndexByPid(s.procs, pid))
  {
    hide TableOk, QueueOk, Exited;
    if FindIndexByPid(s.procs, pid) == s.current { ExitIsCalm(s, code, ticks); }
  }

  lemma SpawnIsCalm(s: Sys, role: nat, allowed: bool)
    requires Sized(s)
    ensures CalmBut(s.procs, Spawned(s, role, allowed).procs, FindFreeSlot(s.procs))
  {
  }

  lemma ReapIsCalm(s: Sys, pid: nat)
    requires Sized(s)
    ensures CalmBut(s.procs, Reaped(s, pid).procs, Subject(s, Reap(pid)))
  {
  }

  lemma WakeIsCalm(s: Sys, pid: nat, x: nat)
    requires Sized(s)
    ensures CalmBut(s.procs, ManuallyWoken(s, pid).procs, x)
  {
  }

  lemma WakeOneIsCalm(s: Sys, channel: nat, x: nat)
    requires Sized(s)
    ensures CalmBut(s.procs, ChannelWokenFirst(s, channel).procs, x)
  {
  }

  lemma NormalYieldIsCalm(s: Sys, ticks: nat, x: nat)
    requires Inv(s) && s.mode == Normal
    ensures CalmBut(s.procs, Yielded(s, ticks).procs, x)
  {
    hide TableOk, QueueOk, Yielded;
    NormalIsYielding(s);
    YieldIsCalm(s, ticks, x);
  }

  lemma WaitIsCalm(s: Sys, target: nat, ticks: nat)
    requires Inv(s) && s.mode == Normal
    ensures CalmBut(s.procs, WaitRound(s, target, ticks).procs, Subject(s, Wait(target, ticks)))
  {
    hide TableOk, QueueOk, Yielding, Yielded, BlockedAt;
    var child := FindWaitableChild(s.procs, CurrentPid(s), target);
    if child == NONE && HasChild(s.procs, CurrentPid(s), target) {
      WaitIsYielding(s, target);
      BlockAndYieldIsCalm(s, WaitChild, target, 0, target, ticks);
    }
  }

  lemma SleepIsCalm(s: Sys, duration: nat, ticks: nat)
    requires Inv(s) && s.mode == Normal
    ensures CalmBut(s.procs, Slept(s, duration, ticks).procs, s.current)
  {
    hide TableOk, QueueOk, Yielding, Yielded, BlockedAt;
    if duration == 0 {
      NormalYieldIsCalm(s, ticks, s.current);
    } else {
      BlockIsYielding(s, WaitSleepTicks, duration, s.clock + duration);
      BlockAndYieldIsCalm(s, WaitSleepTicks, duration, s.clock + duration, 0, ticks);
    }
  }

  lemma BlockIsCalm(s: Sys, pid: nat, ticks: nat)
    requires Inv(s) && s.mode == Normal
    ensures CalmBut(s.procs, ManuallyBlocked(s, pid, ticks).procs, FindIndexByPid(s.procs, pid))
  {
    hide TableOk, QueueOk, Yielding, Yielded;
    var i := FindIndexByPid(s.procs, pid);
    if i == s.current {
      BlockIsYielding(s, WaitManual, pid, 0);
      BlockAndYieldIsCalm(s, WaitManual, pid, 0, 0, ticks);
    }
  }

  lemma StartIsCalm(s: Sys, ticks: nat, x: nat)
    requires Inv(s) && s.mode == Starting
    ensures CalmBut(s.procs, Started(s, ticks).procs, x)
  {
    hide TableOk;
    TicksKeepSize(s, ticks);
    TicksKeepStarting(s, ticks);
    TicksAreCalm(s, ticks, x);
    var s1 := Ticks(s, ticks);
    PickIsFirst(s1);
    CalmButTrans(s.procs, s1.procs, Started(s, ticks).procs, x);
  }

  lemma ContinueIsCalm(s: Sys, next: nat, x: nat)
    requires Sized(s) && s.current < |s.procs| && next < |s.procs| && s.procs[next].state == Ready
    ensures CalmBut(s.procs, Continued(s, next).procs, x)
  {
  }

  lemma IdleIsCalm(s: Sys, ticks: nat, x: nat)
    requires Inv(s) && s.mode == Idle
    ensures CalmBut(s.procs, IdleRound(s, ticks).procs, x)
  {
    hide TableOk, RunsBefore;
    TicksKeepSize(s, ticks);
    TicksKeepTable(s, ticks);
    TicksAreCalm(s, ticks, x);
    var s1 := Synced(Ticks(s, ticks));
    PickIsFirst(s1);
    if Pick(s1) != NONE {
      assert s1.procs[Pick(s1)].state == Ready;
      ContinueIsCalm(s1, Pick(s1), x);
    }
    hide Continued, OneRunning;
    CalmButTrans(s.procs, s1.procs, IdleRound(s, ticks).procs, x);
  }

  // ---------------------------------------------------------------- wait queues

  /** A kernel_wait_queue; `inside` are the slots that have begun kernel_wait_queue_wait on it and
      have not come back to its last step yet. */
  datatype WaitQ = WaitQ(channel: nat, waiters: nat, inside: set<nat>)

  predicate CanBeInside(p: Process, channel: nat) {
    WaitsOn(p, channel) || p.state == Ready || p.state == Running
  }

  ghost predicate QueueInv(ps: seq<Process>, q: WaitQ) {
    && q.waiters == |q.inside|
    && (forall i :: i in q.inside ==> i < |ps| && CanBeInside(ps[i], q.channel))
    && (forall i :: 0 <= i < |ps| && WaitsOn(ps[i], q.channel) ==> i in q.inside)
  }

  /** Blocked on the queue, and woken but not resumed. */
  function Asleep(ps: seq<Process>, q: WaitQ): set<nat> {
    set i | i in q.inside && i < |ps| && WaitsOn(ps[i], q.channel)
  }

  function Awake(ps: seq<Process>, q: WaitQ): set<nat> {
    q.inside - Asleep(ps, q)
  }

  /** What the rest of the system may do around a wait queue: a process inside a wait does nothing
      else, is not killed and not blocked by hand, and nobody else uses the queue's channel to wait. */
  predicate LeavesAlone(s: Sys, op: Op, q: WaitQ)
    requires Sized(s)
  {
    && (s.mode == Normal && op != TimerTick ==> s.current !in q.inside)
    && match op
       case Kill(pid, _, _) => FindIndexByPid(s.procs, pid) !in q.inside
       case Block(pid, _) => FindIndexByPid(s.procs, pid) !in q.inside
       case WaitOn(channel, _) => channel != q.channel
       case _ => true
  }

  lemma SubjectIsOutside(s: Sys, op: Op, q: WaitQ)
    requires Inv(s) && QueueInv(s.procs, q) && LeavesAlone(s, op, q) && s.mode == Normal
    ensures Subject(s, op) !in q.inside
  {
    hide TableOk, QueueOk;
    assert NONE !in q.inside;
  }

  /** The disturbed slot does not end up waiting on the channel. */
  lemma SubjectWaitsElsewhere(s: Sys, op: Op, channel: nat)
    requires Inv(s) && s.mode == Normal && Subject(s, op) < |s.procs|
    requires !WaitsOn(s.procs[Subject(s, op)], channel) && (op.WaitOn? ==> op.channel != channel)
    ensures |Step(s, op).procs| == |s.procs| && !WaitsOn(Step(s, op).procs[Subject(s, op)], channel)
  {
    hide TableOk, QueueOk, Yielding, Yielded, BlockedAt, Slept, WaitRound, ManuallyBlocked, ChannelWaited, Killed, Exited;
    StepKeepsSize(s, op);
    match op
    case Exit(code, ticks) => ExitEndsZombie(s, code, ticks);
    case Kill(pid, code, ticks) => KillEndsZombie(s, pid, code, ticks, channel);
    case Wait(target, ticks) => WaitElsewhere(s, target, ticks, channel);
    case Sleep(duration, ticks) => SleepElsewhere(s, duration, ticks, channel);
    case Block(pid, ticks) => BlockElsewhere(s, pid, ticks, channel);
    case WaitOn(c, ticks) => ChannelWaitIsCalm(s, c, ticks);
    case _ =>
  }

  lemma ExitEndsZombie(s: Sys, code: int, ticks: nat)
    requires Inv(s) && s.mode == Normal
    ensures |Exited(s, code, ticks).procs| == |s.procs| && Exited(s, code, ticks).procs[s.current].state != Blocked
  {
    hide TableOk, QueueOk;
    ExitIsYielding(s, code);
    var z := Zombified(s, s.current, code);
    TicksKeepYielding(z, ticks);
    TicksKeepSize(z, ticks);
    YieldKeepsSize(z, ticks);
  }

  lemma KillEndsZombie(s: Sys, pid: nat, code: int, ticks: nat, channel: nat)
    requires Inv(s) && s.mode == Normal && FindIndexByPid(s.procs, pid) < |s.procs|
    requires !WaitsOn(s.procs[FindIndexByPid(s.procs, pid)], channel)
    ensures |Killed(s, pid, code, ticks).procs| == |s.procs|
    ensures !WaitsOn(Killed(s, pid, code, ticks).procs[FindIndexByPid(s.procs, pid)], channel)
  {
    hide TableOk, QueueOk, Exited;
    if FindIndexByPid(s.procs, pid) == s.current { ExitEndsZombie(s, code, ticks); }
  }

  lemma WaitElsewhere(s: Sys, target: nat, ticks: nat, channel: nat)
    requires Inv(s) && s.mode == Normal
    ensures var s', x := WaitRound(s, target, ticks), Subject(s, Wait(target, ticks));
      |s'.procs| == |s.procs| && x < |s.procs| && !WaitsOn(s'.procs[x], channel)
  {
    hide TableOk, QueueOk, Yielding, Yielded, BlockedAt;
    var child := FindWaitableChild(s.procs, CurrentPid(s), target);
    if child == NONE && HasChild(s.procs, CurrentPid(s), target) {
      WaitIsYielding(s, target);
      BlockAndYieldIsCalm(s, WaitChild, target, 0, target, ticks);
    }
  }

  lemma SleepElsewhere(s: Sys, duration: nat, ticks: nat, channel: nat)
    requires Inv(s) && s.mode == Normal
    ensures |Slept(s, duration, ticks).procs| == |s.procs| && !WaitsOn(Slept(s, duration, ticks).procs[s.current], channel)
  {
    hide TableOk, QueueOk, Yielding, Yielded, BlockedAt;
    if duration == 0 {
      NormalYieldIsCalm(s, ticks, NONE);
    } else {
      BlockIsYielding(s, WaitSleepTicks, duration, s.clock + duration);
      BlockAndYieldIsCalm(s, WaitSleepTicks, duration, s.clock + duration, 0, ticks);
    }
  }

  lemma BlockElsewhere(s: Sys, pid: nat, ticks: nat, channel: nat)
    requires Inv(s) && s.mode == Normal && FindIndexByPid(s.procs, pid) < |s.procs|
    requires !WaitsOn(s.procs[FindIndexByPid(s.procs, pid)], channel)
    ensures |ManuallyBlocked(s, pid, ticks).procs| == |s.procs|
    ensures !WaitsOn(ManuallyBlocked(s, pid, ticks).procs[FindIndexByPid(s.procs, pid)], channel)
  {
    hide TableOk, QueueOk, Yielding, Yielded;
    if FindIndexByPid(s.procs, pid) == s.current {
      BlockIsYielding(s, WaitManual, pid, 0);
      BlockAndYieldIsCalm(s, WaitManual, pid, 0, 0, ticks);
    }
  }

  /** A calm change of everything but a slot outside: nobody new is asleep, nobody disappears. */
  lemma CalmKeepsQueue(ps: seq<Process>, ps': seq<Process>, x: nat, q: WaitQ)
    requires QueueInv(ps, q) && CalmBut(ps, ps', x) && x !in q.inside
    requires x < |ps'| ==> !WaitsOn(ps'[x], q.channel)
    ensures QueueInv(ps', q) && Asleep(ps', q) <= Asleep(ps, q)
  {
    assert forall i :: 0 <= i < |ps| && i != x ==> Calmer(ps[i], ps'[i]);
  }

  /** Whatever else happens in the system, it only wakes waiters of the queue. */
  lemma OthersKeepQueue(s: Sys, op: Op, q: WaitQ)
    requires Inv(s) && QueueInv(s.procs, q) && LeavesAlone(s, op, q)
    ensures QueueInv(Step(s, op).procs, q) && Asleep(Step(s, op).procs, q) <= Asleep(s.procs, q)
  {
    hide TableOk, QueueOk, Step;
    StepIsCalm(s, op);
    if s.mode == Normal {
      SubjectIsOutside(s, op, q);
      if Subject(s, op) < |s.procs| { SubjectWaitsElsewhere(s, op, q.channel); }
      CalmKeepsQueue(s.procs, Step(s, op).procs, Subject(s, op), q);
    } else {
      OtherModesAreCalm(s, op, q);
    }
  }

  lemma OtherModesAreCalm(s: Sys, op: Op, q: WaitQ)
    requires Inv(s) && QueueInv(s.procs, q) && s.mode != Normal
    ensures QueueInv(Step(s, op).procs, q) && Asleep(Step(s, op).procs, q) <= Asleep(s.procs, q)
  {
    hide TableOk;
    if op.Spawn? {
      SpawnIsCalm(s, op.role, op.allowed);
      CalmKeepsQueue(s.procs, Step(s, op).procs, FindFreeSlot(s.procs), q);
    } else if s.mode == Starting && op.TimerTick? {
      TickIsCalm(s, NONE);
      CalmKeepsQueue(s.procs, Tick(s).procs, NONE, q);
    } else if s.mode == Starting && op.Run? {
      StartIsCalm(s, op.ticks, NONE);
      CalmKeepsQueue(s.procs, Step(s, op).procs, NONE, q);
    } else if s.mode == Idle && op.IdleWake? {
      IdleIsCalm(s, op.ticks, NONE);
      CalmKeepsQueue(s.procs, Step(s, op).procs, NONE, q);
    }
  }
}
