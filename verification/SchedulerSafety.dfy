/** What every operation of the scheduler keeps, over all runs. */
module SchedulerSafety {
  import opened ProcessModel
  import opened ProcessCore
  import opened RunOrder
  import opened SchedulerModel

  // ---------------------------------------------------------------- the invariant

  /** pids at or above the limit have not been handed out yet. */
  function Limit(s: Sys): nat { if s.nextPid == 0 then UINT32 else s.nextPid }

  ghost predicate PidsOk(s: Sys) {
    && (forall i :: 0 <= i < |s.procs| && s.procs[i].state == Unused ==> s.procs[i] == EMPTY_SLOT)
    && (forall i :: 0 <= i < |s.procs| && s.procs[i].state != Unused ==> s.procs[i].pid in s.spawned)
    && (forall i, j :: 0 <= i < j < |s.procs| && s.procs[i].state != Unused && s.procs[j].state != Unused ==>
         s.procs[i].pid != s.procs[j].pid)
    && (forall p :: p in s.spawned ==> 0 < p < Limit(s))
    && s.nextPid < UINT32
  }

  /** Every exit code set belongs to a process that existed; every code collected is the one set;
      a live process has no exit code yet, a zombie's own code has not been collected yet. */
  ghost predicate HistoryOk(s: Sys) {
    && s.exits.Keys <= s.spawned && s.reaps.Keys <= s.exits.Keys
    && (forall p :: p in s.reaps ==> s.reaps[p] == s.exits[p])
    && (forall i :: 0 <= i < |s.procs| && s.procs[i].state != Unused && s.procs[i].state != Zombie ==>
         s.procs[i].pid !in s.exits)
    && (forall i :: 0 <= i < |s.procs| && s.procs[i].state == Zombie ==>
         && s.procs[i].pid in s.exits && s.exits[s.procs[i].pid] == s.procs[i].exitCode
         && s.procs[i].pid !in s.reaps)
  }

  predicate IsLiveChild(p: Process, parent: nat, target: nat) {
    IsChild(p, parent, target) && p.state != Zombie
  }

  predicate IsDeadChild(p: Process, parent: nat, target: nat) {
    IsChild(p, parent, target) && p.state == Zombie
  }

  ghost predicate HasLiveChild(ps: seq<Process>, parent: nat, target: nat) {
    exists j :: 0 <= j < |ps| && IsLiveChild(ps[j], parent, target)
  }

  ghost predicate HasDeadChild(ps: seq<Process>, parent: nat, target: nat) {
    exists j :: 0 <= j < |ps| && IsDeadChild(ps[j], parent, target)
  }

  predicate InWaitpid(p: Process) {
    p.state == Blocked && p.waitReason == WaitChild
  }

  /** Whoever waits for a child has a live one to wait for, and none to collect. */
  ghost predicate WaitsOk(ps: seq<Process>) {
    forall i :: 0 <= i < |ps| && InWaitpid(ps[i]) ==>
      HasLiveChild(ps, ps[i].pid, ps[i].waitTarget) && !HasDeadChild(ps, ps[i].pid, ps[i].waitTarget)
  }

  /** Waiting stays in order when whoever still waits was waiting before, and its children kept
      their kind; dead children may disappear and live ones appear. */
  lemma WaitsFrame(ps: seq<Process>, ps': seq<Process>)
    requires |ps'| == |ps| && WaitsOk(ps)
    requires forall i :: 0 <= i < |ps| && InWaitpid(ps'[i]) ==>
      InWaitpid(ps[i]) && ps'[i].pid == ps[i].pid && ps'[i].waitTarget == ps[i].waitTarget
    requires forall i, j :: 0 <= i < |ps| && 0 <= j < |ps| && InWaitpid(ps'[i]) ==>
      IsLiveChild(ps[j], ps[i].pid, ps[i].waitTarget) ==> IsLiveChild(ps'[j], ps[i].pid, ps[i].waitTarget)
    requires forall i, j :: 0 <= i < |ps| && 0 <= j < |ps| && InWaitpid(ps'[i]) ==>
      IsDeadChild(ps'[j], ps[i].pid, ps[i].waitTarget) ==> IsDeadChild(ps[j], ps[i].pid, ps[i].waitTarget)
    ensures WaitsOk(ps')
  {
    forall i | 0 <= i < |ps'| && InWaitpid(ps'[i])
      ensures HasLiveChild(ps', ps'[i].pid, ps'[i].waitTarget) && !HasDeadChild(ps', ps'[i].pid, ps'[i].waitTarget)
    {
      assert HasLiveChild(ps, ps[i].pid, ps[i].waitTarget) && !HasDeadChild(ps, ps[i].pid, ps[i].waitTarget);
    }
  }

  /** No sleeper is overdue. */
  ghost predicate SleepersOk(ps: seq<Process>, clock: nat) {
    forall i :: 0 <= i < |ps| && Sleeps(ps[i]) ==> ps[i].wakeTick > clock
  }

  ghost predicate TableOk(s: Sys) {
    Sized(s) && PidsOk(s) && HistoryOk(s) && WaitsOk(s.procs) && SleepersOk(s.procs, s.clock)
  }

  /** At most the current process is RUNNING. */
  ghost predicate OneRunning(s: Sys) {
    forall i :: 0 <= i < |s.procs| && s.procs[i].state == Running ==> i == s.current
  }

  ghost predicate QueueInRange(s: Sys) {
    forall k :: k in s.queued ==> k < |s.procs|
  }

  /** The queue is the READY set, except that a process which picked itself stays queued, in front. */
  ghost predicate QueueOk(s: Sys)
    requires Sized(s)
  {
    || s.queued == ReadySet(s.procs)
    || (s.queued == ReadySet(s.procs) + {s.current} && IsFirst(Ranks(s.vruntime, s.procs), s.queued, s.current))
  }

  ghost predicate Inv(s: Sys) {
    && Sized(s)
    && match s.mode
       case Panicked => true
       case Starting => TableOk(s) && s.current == NONE && OneRunning(s) && s.queued == ReadySet(s.procs)
       case Normal => TableOk(s) && OneRunning(s) && s.current < |s.procs| && s.procs[s.current].state == Running && QueueOk(s)
       case Idle => TableOk(s) && OneRunning(s) && s.current < |s.procs|
                    && s.procs[s.current].state != Unused && s.procs[s.current].state != Running && s.queued == {}
  }

  // ---------------------------------------------------------------- harmless changes

  /** `p'` is the same process, and if it is still blocked it waits for the same thing. */
  predicate Calmer(p: Process, p': Process) {
    && p'.pid == p.pid && p'.parentPid == p.parentPid && p'.exitCode == p.exitCode
    && (p.state == Unused ==> p' == p) && (p'.state == Unused ==> p.state == Unused)
    && (p'.state == Zombie <==> p.state == Zombie)
    && (p'.state == Blocked ==> p.state == Blocked)
    && (p'.state == Blocked ==> p'.waitReason == p.waitReason && p'.waitTarget == p.waitTarget)
    && (p'.state == Blocked ==> p'.wakeTick == p.wakeTick && p'.waitChannel == p.waitChannel)
  }

  ghost predicate CalmerTable(ps: seq<Process>, ps': seq<Process>) {
    |ps'| == |ps| && forall i :: 0 <= i < |ps| ==> Calmer(ps[i], ps'[i])
  }

  lemma CalmerWaits(ps: seq<Process>, ps': seq<Process>)
    requires CalmerTable(ps, ps') && WaitsOk(ps)
    ensures WaitsOk(ps')
  {
    assert forall i :: 0 <= i < |ps| ==> Calmer(ps[i], ps'[i]);
    WaitsFrame(ps, ps');
  }

  lemma CalmerKeeps(s: Sys, s': Sys)
    requires TableOk(s) && Sized(s') && CalmerTable(s.procs, s'.procs)
    requires s'.nextPid == s.nextPid && s'.spawned == s.spawned && s'.exits == s.exits && s'.reaps == s.reaps
    requires SleepersOk(s'.procs, s'.clock)
    ensures TableOk(s')
  {
    CalmerWaits(s.procs, s'.procs);
    assert forall i :: 0 <= i < |s.procs| ==> Calmer(s.procs[i], s'.procs[i]);
  }

  lemma TableFrame(s: Sys, s': Sys)
    requires TableOk(s) && Sized(s') && s'.procs == s.procs && s'.clock == s.clock
    requires s'.nextPid == s.nextPid && s'.spawned == s.spawned && s'.exits == s.exits && s'.reaps == s.reaps
    ensures TableOk(s')
  {
  }

  lemma CalmerSleepers(ps: seq<Process>, ps': seq<Process>, clock: nat)
    requires CalmerTable(ps, ps') && SleepersOk(ps, clock)
    ensures SleepersOk(ps', clock)
  {
    assert forall i :: 0 <= i < |ps| ==> Calmer(ps[i], ps'[i]);
  }

  lemma WokenIsCalmer(ps: seq<Process>, who: Process -> bool)
    ensures CalmerTable(ps, Woken(ps, who))
  {
  }

  // ---------------------------------------------------------------- ticks

  /** What can be in force while process_yield looks for the next process. */
  ghost predicate Yielding(s: Sys) {
    && Sized(s) && TableOk(s) && OneRunning(s) && QueueInRange(s)
    && s.current < |s.procs| && s.procs[s.current].state != Unused
    && (forall k :: k in s.queued && s.procs[k].state != Ready ==> k == s.current)
    && (s.current in s.queued && s.procs[s.current].state != Ready ==>
         IsFirst(Ranks(s.vruntime, s.procs), s.queued, s.current))
    && (s.procs[s.current].state == Zombie || ReadySet(s.procs) <= s.queued)
  }

  lemma TickKeepsTable(s: Sys)
    requires TableOk(s)
    ensures TableOk(Tick(s))
    ensures OneRunning(s) ==> OneRunning(Tick(s))
    ensures forall i :: 0 <= i < |s.procs| && s.procs[i].state != Blocked ==> Tick(s).procs[i] == s.procs[i]
  {
    WokenIsCalmer(s.procs, p => SleepOver(p, s.clock + 1));
    CalmerKeeps(s, Tick(s));
  }

  lemma {:induction false} TicksKeepYielding(s: Sys, count: nat)
    requires Yielding(s)
    ensures Yielding(Ticks(s, count))
    ensures |Ticks(s, count).procs| == |s.procs|
    ensures s.procs[s.current].state == Zombie <==> Ticks(s, count).procs[s.current].state == Zombie
    ensures count > 0 ==> Ticks(s, count).queued == ReadySet(Ticks(s, count).procs)
  {
    hide PidsOk, HistoryOk, WaitsOk, SleepersOk;
    TicksKeepSize(s, count);
    if count > 0 {
      TicksKeepYielding(s, count - 1);
      TicksKeepSize(s, count - 1);
      TickKeepsTable(Ticks(s, count - 1));
    }
  }

  // ---------------------------------------------------------------- process_yield

  lemma SwitchKeepsInv(s: Sys, next: nat)
    requires Yielding(s) && next < |s.procs| && next != s.current && s.procs[next].state == Ready
    ensures Inv(Switched(s, next)) && Switched(s, next).mode == Normal && Switched(s, next).current == next
  {
    var s' := Switched(s, next);
    assert CalmerTable(s.procs, s'.procs);
    CalmerSleepers(s.procs, s'.procs, s.clock);
    CalmerKeeps(s, s');
  }

  lemma RanksFrame(v: seq<nat>, ps: seq<Process>, ps': seq<Process>)
    requires |v| == |ps| == |ps'|
    requires forall i :: 0 <= i < |ps| ==> ps'[i].pid == ps[i].pid
    ensures Ranks(v, ps') == Ranks(v, ps)
  {
  }

  /** A process that is itself the first in the queue goes on, and stays queued. */
  lemma ResumeKeepsInv(s: Sys)
    requires Yielding(s) && s.procs[s.current].state != Zombie
    requires s.current in s.queued && IsFirst(Ranks(s.vruntime, s.procs), s.queued, s.current)
    ensures Inv(Continued(s, s.current)) && Continued(s, s.current).mode == Normal
  {
    hide PidsOk, HistoryOk, WaitsOk, SleepersOk, RunsBefore, Ranks, IsFirst;
    var y := Continued(s, s.current);
    assert CalmerTable(s.procs, y.procs);
    CalmerSleepers(s.procs, y.procs, s.clock);
    CalmerKeeps(s, y);
    RanksFrame(s.vruntime, s.procs, y.procs);
    assert s.queued == ReadySet(y.procs) + {s.current};
  }

  /** Coming back from process_yield leaves everything in order, unless the caller is a zombie. */
  lemma DispatchKeepsInv(s: Sys)
    requires Yielding(s)
    ensures var y := Dispatched(s);
      && (y.mode == s.mode || y.mode == Normal || y.mode == Idle || y.mode == Panicked)
      && (s.mode == Normal && (s.procs[s.current].state != Zombie || y.current != s.current || y.mode != Normal) ==> Inv(y))
  {
    hide PidsOk, HistoryOk, WaitsOk, SleepersOk, RunsBefore;
    PickIsFirst(s);
    var next := Pick(s);
    if next != NONE {
      assert next in s.queued;
      if next == s.current {
        if s.procs[s.current].state != Zombie { ResumeKeepsInv(s); }
      } else {
        assert s.procs[next].state == Ready;
        SwitchKeepsInv(s, next);
      }
    } else if s.procs[s.current].state == Running {
      assert ReadySet(s.procs) == {};
    } else {
      TableFrame(s, s.(mode := Idle));
    }
  }

  lemma CountKeepsYielding(s: Sys)
    requires Yielding(s)
    ensures Yielding(CountedYield(s))
  {
    var s' := CountedYield(s);
    assert CalmerTable(s.procs, s'.procs);
    CalmerSleepers(s.procs, s'.procs, s.clock);
    CalmerKeeps(s, s');
    RanksFrame(s.vruntime, s.procs, s'.procs);
    assert ReadySet(s'.procs) == ReadySet(s.procs);
  }

  /** A running process that is not picked is not queued, so charging it moves no key in the queue. */
  lemma PickedWhileRunning(s: Sys)
    requires Yielding(s)
    ensures Pick(s) != s.current && s.procs[s.current].state == Running ==> s.current !in s.queued
  {
    PickIsFirst(s);
    if s.current in s.queued && s.procs[s.current].state == Running {
      FirstIsUnique(Ranks(s.vruntime, s.procs), s.queued, Pick(s), s.current);
    }
  }

  lemma FreeSlotIsUnqueued(s: Sys)
    requires Inv(s) && (s.mode == Normal || s.mode == Starting)
    ensures var i := FindFreeSlot(s.procs); i != NONE ==> i < |s.procs| && i !in s.queued && i != s.current
    ensures s.nextPid != 0 ==> s.nextPid !in s.spawned
  {
  }

  lemma YieldKeepsInv(s: Sys, ticks: nat)
    requires Yielding(s) && s.mode == Normal
    ensures var y := Yielded(s, ticks);
      s.procs[s.current].state != Zombie || y.current != s.current || y.mode != Normal ==> Inv(y)
  {
    hide PidsOk, HistoryOk, WaitsOk, SleepersOk, RunsBefore, Dispatched;
    TicksKeepYielding(s, ticks);
    TicksKeepSize(s, ticks);
    var s2 := CountedYield(Ticks(s, ticks));
    CountKeepsYielding(Ticks(s, ticks));
    DispatchKeepsInv(s2);
  }

  // ---------------------------------------------------------------- operations

  lemma NormalIsYielding(s: Sys)
    requires Inv(s) && s.mode == Normal
    ensures Yielding(s)
  {
  }

  lemma SpawnKeepsTable(s: Sys, i: nat, p: Process, v: nat)
    requires TableOk(s) && i < |s.procs| && s.procs[i].state == Unused && s.nextPid != 0
    requires p.state == Ready && p.pid == s.nextPid
    ensures TableOk(s.(procs := s.procs[i := p], nextPid := Increment(s.nextPid), vruntime := s.vruntime[i := v],
                       execStart := s.execStart[i := 0], spawned := s.spawned + {s.nextPid}, queued := ReadySet(s.procs[i := p])))
  {
    var s' := s.(procs := s.procs[i := p], nextPid := Increment(s.nextPid), vruntime := s.vruntime[i := v],
                 execStart := s.execStart[i := 0], spawned := s.spawned + {s.nextPid}, queued := ReadySet(s.procs[i := p]));
    assert s.nextPid !in s.spawned;
    assert Increment(s.nextPid) == 0 ==> s.nextPid == UINT32 - 1;
    assert PidsOk(s');
    assert HistoryOk(s');
    WaitsFrame(s.procs, s'.procs);
  }

  lemma SpawnKeepsInv(s: Sys, role: nat, allowed: bool)
    requires Inv(s) && (s.mode == Normal || s.mode == Starting)
    ensures Inv(Spawned(s, role, allowed))
  {
    hide PidsOk, HistoryOk, WaitsOk, SleepersOk, MinVruntime, Pick;
    var i := FindFreeSlot(s.procs);
    if allowed && i != NONE && s.nextPid != 0 {
      var p := Process(s.nextPid, CurrentPid(s), role, Ready, 0, 0, 0, 0, 0, WaitNone, 0);
      SpawnKeepsTable(s, i, p, MinVruntime(s));
    }
  }

  /** Blocking a process for a reason that is in order. */
  lemma BlockKeepsTable(s: Sys, i: nat, reason: WaitReason, channel: nat, wakeTick: nat, target: nat)
    requires TableOk(s) && i < |s.procs| && (s.procs[i].state == Ready || s.procs[i].state == Running)
    requires reason == WaitSleepTicks ==> wakeTick > s.clock
    requires reason == WaitChild ==>
      HasLiveChild(s.procs, s.procs[i].pid, target) && !HasDeadChild(s.procs, s.procs[i].pid, target)
    ensures TableOk(BlockedAt(s, i, reason, channel, wakeTick, target))
  {
    var s' := BlockedAt(s, i, reason, channel, wakeTick, target);
    forall k | 0 <= k < |s'.procs| && InWaitpid(s'.procs[k])
      ensures HasLiveChild(s'.procs, s'.procs[k].pid, s'.procs[k].waitTarget)
      ensures !HasDeadChild(s'.procs, s'.procs[k].pid, s'.procs[k].waitTarget)
    {
      var pid, t := s'.procs[k].pid, s'.procs[k].waitTarget;
      assert HasLiveChild(s.procs, pid, t) && !HasDeadChild(s.procs, pid, t);
      var j :| 0 <= j < |s.procs| && IsLiveChild(s.procs[j], pid, t);
      assert IsLiveChild(s'.procs[j], pid, t);
      forall j | 0 <= j < |s.procs| ensures !IsDeadChild(s'.procs[j], pid, t) {
        assert !IsDeadChild(s.procs[j], pid, t);
      }
    }
  }

  lemma BlockIsYielding(s: Sys, reason: WaitReason, channel: nat, wakeTick: nat)
    requires Inv(s) && s.mode == Normal && reason != WaitChild
    requires reason == WaitSleepTicks ==> wakeTick > s.clock
    ensures s.current < |s.procs| && BlockedAt(s, s.current, reason, channel, wakeTick, 0).mode == Normal
    ensures Yielding(BlockedAt(s, s.current, reason, channel, wakeTick, 0))
  {
    BlockKeepsTable(s, s.current, reason, channel, wakeTick, 0);
  }

  lemma WaitIsYielding(s: Sys, target: nat)
    requires Inv(s) && s.mode == Normal && HasChild(s.procs, CurrentPid(s), target)
    requires FindWaitableChild(s.procs, CurrentPid(s), target) == NONE
    ensures Yielding(BlockedAt(s, s.current, WaitChild, target, 0, target))
  {
    BlockKeepsTable(s, s.current, WaitChild, target, 0, target);
  }

  /** The current process blocks and gives way. */
  lemma BlockAndYieldKeepsInv(s: Sys, reason: WaitReason, channel: nat, wakeTick: nat, target: nat, ticks: nat)
    requires Inv(s) && s.mode == Normal
    requires reason == WaitSleepTicks ==> wakeTick > s.clock
    requires reason == WaitChild ==>
      HasLiveChild(s.procs, s.procs[s.current].pid, target) && !HasDeadChild(s.procs, s.procs[s.current].pid, target)
    ensures Inv(Yielded(BlockedAt(s, s.current, reason, channel, wakeTick, target), ticks))
  {
    BlockKeepsTable(s, s.current, reason, channel, wakeTick, target);
    var s1 := BlockedAt(s, s.current, reason, channel, wakeTick, target);
    assert Yielding(s1);
    YieldKeepsInv(s1, ticks);
  }

  lemma ZombieKeepsWaits(ps: seq<Process>, i: nat, code: int)
    requires WaitsOk(ps) && i < |ps| && ps[i].state != Unused
    ensures WaitsOk(WokenParents(ps[i := ps[i].(state := Zombie, exitCode := code)], ps[i].pid))
  {
    var ps' := WokenParents(ps[i := ps[i].(state := Zombie, exitCode := code)], ps[i].pid);
    assert forall k :: 0 <= k < |ps| && k != i ==> ps'[k] == ps[k] || ps'[k] == MadeReady(ps[k]);
    WaitsFrame(ps, ps');
  }

  lemma ZombieKeepsTable(s: Sys, i: nat, code: int)
    requires TableOk(s) && i < |s.procs| && s.procs[i].state != Unused && s.procs[i].state != Zombie
    ensures TableOk(Zombified(s, i, code))
    ensures forall k :: 0 <= k < |s.procs| && k != i && s.procs[k].state != Blocked ==> Zombified(s, i, code).procs[k] == s.procs[k]
    ensures OneRunning(s) ==> OneRunning(Zombified(s, i, code))
    ensures Zombified(s, i, code).procs[i] == s.procs[i].(state := Zombie, exitCode := code)
  {
    var s' := Zombified(s, i, code);
    ZombieKeepsWaits(s.procs, i, code);
    assert s'.procs[i] == s.procs[i].(state := Zombie, exitCode := code);
    assert forall k :: 0 <= k < |s.procs| && k != i ==> Calmer(s.procs[k], s'.procs[k]);
    hide WaitsOk, WokenParents;
    assert PidsOk(s');
    assert HistoryOk(s');
  }

  lemma ExitIsYielding(s: Sys, code: int)
    requires Inv(s) && s.mode == Normal
    ensures s.current < |s.procs| && Zombified(s, s.current, code).mode == Normal
    ensures Zombified(s, s.current, code).current == s.current
    ensures Yielding(Zombified(s, s.current, code))
  {
    ZombieKeepsTable(s, s.current, code);
    var s1 := Zombified(s, s.current, code);
    RanksFrame(s.vruntime, s.procs, s1.procs);
    assert forall k :: k in s.queued && k != s.current ==> s.procs[k].state == Ready;
  }

  lemma ExitKeepsInv(s: Sys, code: int, ticks: nat)
    requires Inv(s) && s.mode == Normal
    ensures Inv(Exited(s, code, ticks))
  {
    var s1 := Zombified(s, s.current, code);
    ExitIsYielding(s, code);
    YieldKeepsInv(s1, ticks);
    YieldKeepsSize(s1, ticks);
  }

  lemma YieldKeepsSize(s: Sys, ticks: nat)
    requires Sized(s) && s.current < |s.procs|
    ensures Sized(Yielded(s, ticks)) && |Yielded(s, ticks).procs| == |s.procs|
  {
    TicksKeepSize(s, ticks);
  }

  lemma KillKeepsInv(s: Sys, pid: nat, code: int, ticks: nat)
    requires Inv(s) && s.mode == Normal
    ensures Inv(Killed(s, pid, code, ticks))
  {
    var i := FindIndexByPid(s.procs, pid);
    if i == NONE {
    } else if i == s.current {
      ExitKeepsInv(s, code, ticks);
    } else if s.procs[i].state != Zombie {
      ZombieKeepsTable(s, i, code);
      assert TableOk(Killed(s, pid, code, ticks));
    }
  }

  lemma CollectKeepsInv(s: Sys, i: nat)
    requires Inv(s) && s.mode == Normal && i < |s.procs| && s.procs[i].state == Zombie
    ensures Inv(Collected(s, i))
  {
    var s' := Collected(s, i);
    assert forall k :: 0 <= k < |s.procs| && k != i ==> s'.procs[k] == s.procs[k];
    assert s'.procs[i] == EMPTY_SLOT;
    WaitsFrame(s.procs, s'.procs);
    assert PidsOk(s') && HistoryOk(s') && SleepersOk(s'.procs, s'.clock);
    assert i !in s.queued && ReadySet(s'.procs) == ReadySet(s.procs);
    CollectKeepsFirst(s, i);
  }

  lemma CollectKeepsFirst(s: Sys, i: nat)
    requires Sized(s) && i < |s.procs| && i !in s.queued && i != s.current && s.current < |s.procs|
    requires ReadySet(Collected(s, i).procs) == ReadySet(s.procs) && QueueOk(s)
    ensures QueueOk(Collected(s, i))
  {
    var s' := Collected(s, i);
    var r, r' := Ranks(s.vruntime, s.procs), Ranks(s'.vruntime, s'.procs);
    assert forall k :: 0 <= k < |r| && k != i ==> r'[k] == r[k];
    if s.queued != ReadySet(s.procs) {
      assert s'.queued == s.queued;
      assert IsFirst(r', s'.queued, s.current);
    }
  }

  /** A table update that keeps the current process running, followed by a sync. */
  lemma CalmSyncKeepsInv(s: Sys, ps: seq<Process>)
    requires Inv(s) && s.mode == Normal && CalmerTable(s.procs, ps)
    requires ps[s.current] == s.procs[s.current]
    requires forall i :: 0 <= i < |ps| && ps[i].state == Running ==> s.procs[i].state == Running
    ensures Inv(Synced(s.(procs := ps)))
  {
    CalmerSleepers(s.procs, ps, s.clock);
    CalmerKeeps(s, Synced(s.(procs := ps)));
  }

  lemma WakeKeepsInv(s: Sys, i: nat)
    requires Inv(s) && s.mode == Normal && i < |s.procs|
    ensures Inv(Synced(s.(procs := s.procs[i := MadeReady(s.procs[i])])))
  {
    hide TableOk, QueueOk;
    CalmSyncKeepsInv(s, s.procs[i := MadeReady(s.procs[i])]);
  }

  lemma WakeAllKeepsInv(s: Sys, channel: nat)
    requires Inv(s) && s.mode == Normal
    ensures Inv(ChannelWoken(s, channel))
  {
    hide TableOk, QueueOk;
    WokenIsCalmer(s.procs, p => WaitsOn(p, channel));
    CalmSyncKeepsInv(s, WokenChannel(s.procs, channel));
  }

  lemma WakeOneKeepsInv(s: Sys, channel: nat)
    requires Inv(s) && s.mode == Normal
    ensures Inv(ChannelWokenFirst(s, channel))
  {
    hide TableOk, QueueOk;
    CalmSyncKeepsInv(s, WokenFirst(s.procs, channel, s.current));
  }

  lemma TickKeepsInv(s: Sys)
    requires Inv(s) && (s.mode == Normal || s.mode == Starting)
    ensures Inv(Tick(s))
  {
    hide PidsOk, HistoryOk, WaitsOk, SleepersOk;
    TickKeepsTable(s);
  }

  lemma WaitKeepsInv(s: Sys, target: nat, ticks: nat)
    requires Inv(s) && s.mode == Normal
    ensures Inv(WaitRound(s, target, ticks))
  {
    var me := CurrentPid(s);
    if me != 0 {
      var child := FindWaitableChild(s.procs, me, target);
      if child != NONE {
        CollectKeepsInv(s, child);
      } else if HasChild(s.procs, me, target) {
        BlockAndYieldKeepsInv(s, WaitChild, target, 0, target, ticks);
      }
    }
  }

  lemma ManualBlockKeepsInv(s: Sys, pid: nat, ticks: nat)
    requires Inv(s) && s.mode == Normal
    ensures Inv(ManuallyBlocked(s, pid, ticks))
  {
    var i := FindIndexByPid(s.procs, pid);
    if i != NONE && (s.procs[i].state == Ready || s.procs[i].state == Running) {
      if i == s.current {
        BlockAndYieldKeepsInv(s, WaitManual, pid, 0, 0, ticks);
      } else {
        BlockKeepsTable(s, i, WaitManual, pid, 0, 0);
      }
    }
  }

  lemma StartKeepsInv(s: Sys, ticks: nat)
    requires Inv(s) && s.mode == Starting
    ensures Inv(Started(s, ticks))
  {
    TicksKeepStarting(s, ticks);
    var s1 := Ticks(s, ticks);
    PickIsFirst(s1);
    if Pick(s1) != NONE {
      var s' := Started(s, ticks);
      assert CalmerTable(s1.procs, s'.procs);
      CalmerSleepers(s1.procs, s'.procs, s1.clock);
      CalmerKeeps(s1, s');
    }
  }

  lemma {:induction false} TicksKeepStarting(s: Sys, count: nat)
    requires Inv(s) && s.mode == Starting
    ensures Inv(Ticks(s, count)) && Ticks(s, count).mode == Starting
  {
    if count > 0 {
      TicksKeepStarting(s, count - 1);
      TickKeepsTable(Ticks(s, count - 1));
    }
  }

  lemma IdleKeepsInv(s: Sys, ticks: nat)
    requires Inv(s) && s.mode == Idle
    ensures Inv(IdleRound(s, ticks))
  {
    hide PidsOk, HistoryOk, WaitsOk, SleepersOk, RunsBefore, Continued, Ranks;
    TicksKeepSize(s, ticks);
    TicksKeepTable(s, ticks);
    var s1 := Synced(Ticks(s, ticks));
    TableFrame(Ticks(s, ticks), s1);
    PickIsFirst(s1);
    var next := Pick(s1);
    if next != NONE {
      assert s1.procs[next].state == Ready;
      assert Yielding(s1);
      if next == s1.current {
        ResumeKeepsInv(s1);
      } else {
        ContinuedElsewhere(s1, next);
        SwitchKeepsInv(s1, next);
      }
    }
  }

  lemma ContinuedElsewhere(s: Sys, next: nat)
    requires Sized(s) && s.current < |s.procs| && next < |s.procs| && next != s.current
    ensures Continued(s, next) == Switched(s, next)
  {
  }

  lemma {:induction false} TicksKeepTable(s: Sys, count: nat)
    requires TableOk(s) && OneRunning(s)
    requires s.current < |s.procs| && s.procs[s.current].state != Running && s.procs[s.current].state != Unused
    ensures var s' := Ticks(s, count);
      && TableOk(s') && OneRunning(s') && s'.current == s.current && |s'.procs| == |s.procs|
      && s'.procs[s.current].state != Running && s'.procs[s.current].state != Unused
  {
    hide PidsOk, HistoryOk, WaitsOk, SleepersOk, Sized;
    TicksKeepSize(s, count);
    if count > 0 {
      TicksKeepSize(s, count - 1);
      TicksKeepTable(s, count - 1);
      TickKeepsTable(Ticks(s, count - 1));
    }
  }

  // ---------------------------------------------------------------- all runs

  lemma InitialInv(n: nat)
    requires n <= NONE
    ensures Inv(InitialSys(n))
  {
  }

  lemma StepKeepsInv(s: Sys, op: Op)
    requires Inv(s)
    ensures Inv(Step(s, op))
  {
    hide TableOk, QueueOk, Yielded, BlockedAt, Collected, Zombified, MadeReady, Ticks, ChannelWoken, ChannelWokenFirst;
    if s.mode == Normal {
      NormalIsYielding(s);
      match op
      case Spawn(role, allowed) => SpawnKeepsInv(s, role, allowed);
      case Exit(code, ticks) => ExitKeepsInv(s, code, ticks);
      case Kill(pid, code, ticks) => KillKeepsInv(s, pid, code, ticks);
      case Reap(pid) =>
        var i := FindIndexByPid(s.procs, pid);
        if i != NONE && s.procs[i].state == Zombie { CollectKeepsInv(s, i); }
      case Wait(target, ticks) => WaitKeepsInv(s, target, ticks);
      case Sleep(duration, ticks) =>
        if duration == 0 { YieldKeepsInv(s, ticks); }
        else { BlockAndYieldKeepsInv(s, WaitSleepTicks, duration, s.clock + duration, 0, ticks); }
      case Block(pid, ticks) => ManualBlockKeepsInv(s, pid, ticks);
      case Wake(pid) =>
        var i := FindIndexByPid(s.procs, pid);
        if i != NONE { WakeKeepsInv(s, i); }
      case WaitOn(channel, ticks) => BlockAndYieldKeepsInv(s, WaitEventChannel, channel, 0, 0, ticks);
      case WakeAll(channel) => WakeAllKeepsInv(s, channel);
      case WakeOne(channel) => WakeOneKeepsInv(s, channel);
      case Yield(ticks) => YieldKeepsInv(s, ticks);
      case TimerTick => TickKeepsInv(s);
      case Run(ticks) =>
      case IdleWake(ticks) =>
    } else if s.mode == Starting {
      if op.Spawn? { SpawnKeepsInv(s, op.role, op.allowed); }
      if op.TimerTick? { TickKeepsInv(s); }
      if op.Run? { StartKeepsInv(s, op.ticks); }
    } else if s.mode == Idle {
      if op.IdleWake? { IdleKeepsInv(s, op.ticks); }
    }
  }

  function RunOf(s: Sys, ops: seq<Op>): (s': Sys)
    requires Inv(s)
    ensures Inv(s')
  {
    if ops == [] then s
    else
      var s1 := RunOf(s, ops[..|ops| - 1]);
      StepKeepsInv(s1, ops[|ops| - 1]);
      Step(s1, ops[|ops| - 1])
  }

  function BootState(n: nat): (s: Sys)
    requires n <= NONE
    ensures Inv(s) && |s.procs| == n
  {
    InitialInv(n);
    InitialSys(n)
  }

  /** Over all runs from the empty table that have not halted: at most the current process runs,
      whoever waits for a child has a live one and no dead one, no sleeper is overdue, and the
      queue is the READY set except for a current process that picked itself. */
  lemma AllRunsSafe(n: nat, ops: seq<Op>, i: nat)
    requires n <= NONE && i < n
    requires RunOf(BootState(n), ops).mode != Panicked
    ensures var s := RunOf(BootState(n), ops);
      && |s.procs| == n
      && (s.procs[i].state == Running ==> i == s.current)
      && (InWaitpid(s.procs[i]) ==> HasLiveChild(s.procs, s.procs[i].pid, s.procs[i].waitTarget))
      && (InWaitpid(s.procs[i]) ==> !HasDeadChild(s.procs, s.procs[i].pid, s.procs[i].waitTarget))
      && (Sleeps(s.procs[i]) ==> s.procs[i].wakeTick > s.clock)
      && (s.mode == Normal && i != s.current ==> (i in s.queued <==> s.procs[i].state == Ready))
  {
    RunKeepsSize(BootState(n), ops);
  }

  lemma {:induction false} RunKeepsSize(s: Sys, ops: seq<Op>)
    requires Inv(s)
    ensures |RunOf(s, ops).procs| == |s.procs|
  {
    if ops != [] {
      var s1 := RunOf(s, ops[..|ops| - 1]);
      RunKeepsSize(s, ops[..|ops| - 1]);
      StepKeepsSize(s1, ops[|ops| - 1]);
    }
  }

  lemma KillKeepsSize(s: Sys, pid: nat, code: int, ticks: nat)
    requires Sized(s) && s.current < |s.procs|
    ensures |Killed(s, pid, code, ticks).procs| == |s.procs|
  {
    hide Yielded;
    YieldKeepsSize(Zombified(s, s.current, code), ticks);
  }

  lemma StepKeepsSize(s: Sys, op: Op)
    requires Inv(s)
    ensures |Step(s, op).procs| == |s.procs|
  {
    hide TableOk, QueueOk, Step;
    if s.mode == Normal { NormalKeepsSize(s, op); } else { OtherwiseKeepsSize(s, op); }
  }

  lemma OtherwiseKeepsSize(s: Sys, op: Op)
    requires Inv(s) && s.mode != Normal
    ensures |Step(s, op).procs| == |s.procs|
  {
    hide TableOk, QueueOk, Yielded, MinVruntime, IsFirst, ReadySet;
    if op.Run? || op.IdleWake? { TicksKeepSize(s, op.ticks); }
  }

  lemma NormalKeepsSize(s: Sys, op: Op)
    requires Inv(s) && s.mode == Normal
    ensures |Step(s, op).procs| == |s.procs|
  {
    hide TableOk, QueueOk, Yielded, Pick, MinVruntime, IsFirst, ReadySet, IdleRound, Started;
    match op
    case Exit(code, ticks) => YieldKeepsSize(Zombified(s, s.current, code), ticks);
    case Kill(pid, code, ticks) => KillKeepsSize(s, pid, code, ticks);
    case Wait(target, ticks) => YieldKeepsSize(BlockedAt(s, s.current, WaitChild, target, 0, target), ticks);
    case Sleep(duration, ticks) =>
      YieldKeepsSize(s, ticks);
      YieldKeepsSize(BlockedAt(s, s.current, WaitSleepTicks, duration, s.clock + duration, 0), ticks);
    case Block(pid, ticks) => YieldKeepsSize(BlockedAt(s, s.current, WaitManual, pid, 0, 0), ticks);
    case WaitOn(channel, ticks) => YieldKeepsSize(BlockedAt(s, s.current, WaitEventChannel, channel, 0, 0), ticks);
    case Yield(ticks) => YieldKeepsSize(s, ticks);
    case _ =>
  }

  // ---------------------------------------------------------------- pids and exit codes

  ghost predicate Extends<K, V>(m: map<K, V>, m': map<K, V>) {
    forall k :: k in m ==> k in m' && m'[k] == m[k]
  }

  /** History only grows. */
  ghost predicate HistoryGrows(s: Sys, s': Sys) {
    s.spawned <= s'.spawned && Extends(s.exits, s'.exits) && Extends(s.reaps, s'.reaps)
  }

  lemma YieldKeepsHistory(s: Sys, ticks: nat)
    requires Sized(s) && s.current < |s.procs|
    ensures var y := Yielded(s, ticks);
      && y.spawned == s.spawned && y.exits == s.exits && y.reaps == s.reaps && y.nextPid == s.nextPid
      && HistoryGrows(s, y)
  {
    TicksKeepSize(s, ticks);
  }

  lemma ZombieKeepsHistory(s: Sys, i: nat, code: int)
    requires TableOk(s) && i < |s.procs| && s.procs[i].state != Unused && s.procs[i].state != Zombie
    ensures HistoryGrows(s, Zombified(s, i, code)) && HistoryGrows(s, Synced(Zombified(s, i, code)))
  {
  }

  lemma CollectKeepsHistory(s: Sys, i: nat)
    requires TableOk(s) && i < |s.procs| && s.procs[i].state == Zombie
    ensures HistoryGrows(s, Collected(s, i))
  {
  }

  lemma ExitKeepsHistory(s: Sys, code: int, ticks: nat)
    requires Inv(s) && s.mode == Normal
    ensures HistoryGrows(s, Exited(s, code, ticks))
  {
    hide Yielded, QueueOk;
    ZombieKeepsHistory(s, s.current, code);
    YieldKeepsHistory(Zombified(s, s.current, code), ticks);
  }

  lemma StartKeepsHistory(s: Sys, ticks: nat)
    requires Sized(s)
    ensures HistoryGrows(s, Started(s, ticks))
  {
    TicksKeepSize(s, ticks);
  }

  lemma IdleKeepsHistory(s: Sys, ticks: nat)
    requires Sized(s) && s.current < |s.procs|
    ensures HistoryGrows(s, IdleRound(s, ticks))
  {
    TicksKeepSize(s, ticks);
  }

  lemma StepKeepsHistory(s: Sys, op: Op)
    requires Inv(s)
    ensures HistoryGrows(s, Step(s, op))
  {
    hide Pick, MinVruntime, TableOk, QueueOk, Yielded, IdleRound, Started, Exited, Killed, WaitRound, Ticks, ReadySet;
    if s.mode == Normal {
      NormalKeepsHistory(s, op);
    } else if s.mode == Starting && op.Run? {
      StartKeepsHistory(s, op.ticks);
    } else if s.mode == Idle && op.IdleWake? {
      IdleKeepsHistory(s, op.ticks);
    }
  }

  lemma NormalKeepsHistory(s: Sys, op: Op)
    requires Inv(s) && s.mode == Normal
    ensures HistoryGrows(s, Step(s, op))
  {
    hide HistoryGrows, Pick, MinVruntime, TableOk, QueueOk, IsFirst, Yielded, Zombified, Collected, IdleRound, Started, Exited, Ticks,
      WokenFirst, WokenChannel, MadeReady, BlockedAt, ReadySet, Spawned;
    HistoryStays(s);
    match op
    case Exit(code, ticks) => ExitKeepsHistory(s, code, ticks);
    case Kill(pid, code, ticks) =>
      var i := FindIndexByPid(s.procs, pid);
      if i == s.current { ExitKeepsHistory(s, code, ticks); }
      else if i != NONE && s.procs[i].state != Zombie { ZombieKeepsHistory(s, i, code); }
    case Reap(pid) =>
      var i := FindIndexByPid(s.procs, pid);
      if i != NONE && s.procs[i].state == Zombie { CollectKeepsHistory(s, i); }
    case Wait(target, ticks) =>
      var i := FindWaitableChild(s.procs, CurrentPid(s), target);
      if i != NONE { CollectKeepsHistory(s, i); }
      BlockKeepsHistory(s, s.current, WaitChild, target, 0, target, ticks);
    case Sleep(duration, ticks) =>
      YieldKeepsHistory(s, ticks);
      BlockKeepsHistory(s, s.current, WaitSleepTicks, duration, s.clock + duration, 0, ticks);
    case Block(pid, ticks) =>
      var i := FindIndexByPid(s.procs, pid);
      if i != NONE { BlockKeepsHistory(s, i, WaitManual, pid, 0, 0, ticks); }
    case WaitOn(channel, ticks) => BlockKeepsHistory(s, s.current, WaitEventChannel, channel, 0, 0, ticks);
    case Yield(ticks) => YieldKeepsHistory(s, ticks);
    case _ => QuickOpKeepsHistory(s, op);
  }

  lemma HistoryStays(s: Sys)
    ensures HistoryGrows(s, s)
  {
  }

  lemma BlockKeepsHistory(s: Sys, i: nat, reason: WaitReason, channel: nat, wakeTick: nat, target: nat, ticks: nat)
    requires Sized(s) && s.current < |s.procs| && i < |s.procs|
    ensures var b := BlockedAt(s, i, reason, channel, wakeTick, target);
      Sized(b) && HistoryGrows(s, b) && HistoryGrows(s, Yielded(b, ticks))
  {
    hide Pick, Yielded, Ticks, ReadySet;
    YieldKeepsHistory(BlockedAt(s, i, reason, channel, wakeTick, target), ticks);
  }

  /** The operations that end without giving way. */
  lemma QuickOpKeepsHistory(s: Sys, op: Op)
    requires Inv(s) && s.mode == Normal && (op.Spawn? || op.Wake? || op.WakeAll? || op.WakeOne? || op.TimerTick? || op.Run? || op.IdleWake?)
    ensures HistoryGrows(s, Step(s, op))
  {
    hide Pick, MinVruntime, TableOk, QueueOk, IsFirst, WokenFirst, WokenChannel, MadeReady, ReadySet, FindFreeSlot;
  }

  /** A pid is handed out once: the new process's pid was never in use before. */
  lemma SpawnedPidIsFresh(s: Sys, role: nat, allowed: bool)
    requires Inv(s) && (s.mode == Normal || s.mode == Starting)
    ensures var s' := Spawned(s, role, allowed);
      || s' == s
      || (s.nextPid !in s.spawned && s'.spawned == s.spawned + {s.nextPid}
          && exists i :: 0 <= i < |s'.procs| && s'.procs[i].state == Ready && s'.procs[i].pid == s.nextPid
               && s'.procs[i].parentPid == CurrentPid(s))
    ensures Spawned(s, role, allowed) == s <==>
      !allowed || s.nextPid == 0 || forall i :: 0 <= i < |s.procs| ==> s.procs[i].state != Unused
  {
    var i := FindFreeSlot(s.procs);
    var s' := Spawned(s, role, allowed);
    if allowed && i != NONE && s.nextPid != 0 {
      assert s'.procs[i].state == Ready && s'.procs[i].pid == s.nextPid;
      assert s.nextPid in s'.spawned && s.nextPid !in s.spawned;
    }
  }

  /** Collecting a zombie takes the exit code it was given, for the first time, and frees the pid's slot. */
  lemma CollectedOnce(s: Sys, i: nat)
    requires Inv(s) && s.mode == Normal && i < |s.procs| && s.procs[i].state == Zombie
    ensures var s', pid := Collected(s, i), s.procs[i].pid;
      && pid !in s.reaps && pid in s.exits && s'.reaps == s.reaps[pid := s.exits[pid]]
      && forall k :: 0 <= k < |s'.procs| && s'.procs[k].state != Unused ==> s'.procs[k].pid != pid
  {
    var s' := Collected(s, i);
    assert s.procs[i].pid in s.exits;
    forall k | 0 <= k < |s'.procs| && s'.procs[k].state != Unused ensures s'.procs[k].pid != s.procs[i].pid {
      assert k != i && s'.procs[k] == s.procs[k];
      if k < i { assert s.procs[k].pid != s.procs[i].pid; } else { assert s.procs[i].pid != s.procs[k].pid; }
    }
  }

  // ---------------------------------------------------------------- when process_exit panics

  /** READY, or bound to become so by itself. */
  predicate WillRun(p: Process) { p.state == Ready || Sleeps(p) }

  /** Ticks wake sleepers, and do nothing else to who will run. */
  lemma {:induction false} TicksKeepWillRun(s: Sys, count: nat)
    ensures |Ticks(s, count).procs| == |s.procs|
    ensures forall i :: 0 <= i < |s.procs| ==> WillRun(Ticks(s, count).procs[i]) == WillRun(s.procs[i])
  {
    if count > 0 { TicksKeepWillRun(s, count - 1); }
  }

  /** Exactly when process_exit ends in a panic, seen from before the call. Without a timer interrupt
      before the next process is picked, the waiting parents that the exit has just woken are not in the
      queue yet, and count for nothing; with one, they are. */
  lemma ExitPanicsExactly(s: Sys, code: int, ticks: nat)
    requires Inv(s) && s.mode == Normal
    ensures Exited(s, code, ticks).mode == Panicked <==>
      if ticks == 0 then s.current in s.queued || (s.queued == {} && !HasSleepers(s.procs))
      else forall i :: 0 <= i < |s.procs| ==> !WillRun(s.procs[i]) && !WaitsForChild(s.procs[i], CurrentPid(s))
  {
    hide TableOk, QueueOk;
    var z := Zombified(s, s.current, code);
    ExitPanicsAfterTicks(s, code, ticks);
    TicksKeepWillRun(z, ticks);
    ZombifiedWillRun(s, code);
    if ticks == 0 {
      SleepersAre(s.procs, z.procs);
    } else {
      NobodyWillRun(Ticks(z, ticks).procs);
    }
  }

  lemma ZombifiedWillRun(s: Sys, code: int)
    requires s.current < |s.procs| && s.procs[s.current].state == Running
    ensures var z := Zombified(s, s.current, code);
      && |z.procs| == |s.procs|
      && forall i :: 0 <= i < |s.procs| ==>
           && (WillRun(z.procs[i]) <==> WillRun(s.procs[i]) || WaitsForChild(s.procs[i], CurrentPid(s)))
           && Sleeps(z.procs[i]) == Sleeps(s.procs[i])
  {
  }

  lemma SleepersAre(ps: seq<Process>, ps': seq<Process>)
    requires |ps'| == |ps| && forall i :: 0 <= i < |ps| ==> Sleeps(ps'[i]) == Sleeps(ps[i])
    ensures HasSleepers(ps') <==> HasSleepers(ps)
  {
    if HasSleepers(ps) {
      var i :| 0 <= i < |ps| && Sleeps(ps[i]);
      assert Sleeps(ps'[i]);
    }
  }

  lemma NobodyWillRun(ps: seq<Process>)
    ensures ReadySet(ps) == {} && !HasSleepers(ps) <==> forall i :: 0 <= i < |ps| ==> !WillRun(ps[i])
  {
    if ReadySet(ps) == {} && !HasSleepers(ps) {
      forall i | 0 <= i < |ps| ensures !WillRun(ps[i]) {
        assert i !in ReadySet(ps);
      }
    }
  }

  /** The same, in terms of the table in which the next process is looked for. */
  lemma ExitPanicsAfterTicks(s: Sys, code: int, ticks: nat)
    requires Inv(s) && s.mode == Normal
    ensures Exited(s, code, ticks).mode == Panicked <==>
      var z := Ticks(Zombified(s, s.current, code), ticks);
      if ticks == 0 then s.current in s.queued || (s.queued == {} && !HasSleepers(z.procs))
      else ReadySet(z.procs) == {} && !HasSleepers(z.procs)
  {
    hide PidsOk, HistoryOk, WaitsOk, SleepersOk, RunsBefore;
    var s1 := Zombified(s, s.current, code);
    ExitIsYielding(s, code);
    TicksKeepYielding(s1, ticks);
    TicksKeepSize(s1, ticks);
    var z := Ticks(s1, ticks);
    var c := CountedYield(z);
    RanksFrame(z.vruntime, z.procs, c.procs);
    PickIsFirst(c);
    CountedYieldKeepsSleepers(z);
    if c.queued != {} && s.current in c.queued {
      FirstIsUnique(Ranks(c.vruntime, c.procs), c.queued, Pick(c), s.current);
    }
  }

  lemma CountedYieldKeepsSleepers(s: Sys)
    requires s.current < |s.procs|
    ensures HasSleepers(CountedYield(s).procs) <==> HasSleepers(s.procs)
  {
    SleepersAre(s.procs, CountedYield(s).procs);
  }

  // ---------------------------------------------------------------- a tick after the pick

  /** The end of process_yield when no process was picked and `late` timer interrupts arrive before the
      sleepers are counted. */
  function LateDispatched(s: Sys, late: nat): Sys
    requires Sized(s) && s.current < |s.procs| && Pick(s) == NONE
  {
    TicksKeepWillRun(s, late);
    var s1 := Ticks(s, late);
    if s.procs[s.current].state == Running then s1
    else if HasSleepers(s1.procs) then s1.(mode := Idle)
    else s1.(mode := Panicked)
  }

  /** Whoever slept and is due is READY after the ticks, whoever is not due sleeps on. */
  lemma {:induction false} TicksWakeTheDue(s: Sys, count: nat, i: nat)
    requires SleepersOk(s.procs, s.clock) && i < |s.procs| && Sleeps(s.procs[i])
    ensures |Ticks(s, count).procs| == |s.procs| && Ticks(s, count).clock == s.clock + count
    ensures if s.procs[i].wakeTick <= s.clock + count then Ticks(s, count).procs[i].state == Ready
            else Ticks(s, count).procs[i] == s.procs[i]
  {
    if count > 0 { TicksWakeTheDue(s, count - 1, i); }
  }

  lemma {:induction false} TicksPutNobodyToSleep(s: Sys, count: nat, i: nat)
    requires i < |s.procs| && !Sleeps(s.procs[i])
    ensures |Ticks(s, count).procs| == |s.procs| && !Sleeps(Ticks(s, count).procs[i])
  {
    if count > 0 { TicksPutNobodyToSleep(s, count - 1, i); }
  }

  /** Interrupts that arrive between the pick and the count of the sleepers panic the kernel exactly when
      they wake every sleeper there is; whoever they woke is READY then. */
  lemma LateTicksPanicExactly(s: Sys, late: nat)
    requires Yielding(s) && s.mode == Normal && Pick(s) == NONE && s.procs[s.current].state != Running
    ensures LateDispatched(s, late).mode == Panicked <==>
      forall i :: 0 <= i < |s.procs| && Sleeps(s.procs[i]) ==> s.procs[i].wakeTick <= s.clock + late
    ensures LateDispatched(s, late).mode == Panicked && HasSleepers(s.procs) ==>
      exists i :: 0 <= i < |s.procs| == |LateDispatched(s, late).procs| && LateDispatched(s, late).procs[i].state == Ready
  {
    hide PidsOk, HistoryOk, WaitsOk, Synced, Ticks, Pick;
    var z := Ticks(s, late);
    TicksKeepWillRun(s, late);
    forall i | 0 <= i < |s.procs|
      ensures Sleeps(z.procs[i]) <==> Sleeps(s.procs[i]) && s.procs[i].wakeTick > s.clock + late
    {
      if Sleeps(s.procs[i]) { TicksWakeTheDue(s, late, i); } else { TicksPutNobodyToSleep(s, late, i); }
    }
    if HasSleepers(s.procs) && !HasSleepers(z.procs) {
      var i :| 0 <= i < |s.procs| && Sleeps(s.procs[i]);
      TicksWakeTheDue(s, late, i);
      assert LateDispatched(s, late).procs[i].state == Ready;
    }
  }

  // The shortest run that ends so: a parent spawns its only child and waits for it.

  function FreshProcess(pid: nat, parent: nat): Process {
    Process(pid, parent, 1, Ready, 0, 0, 0, 0, 0, WaitNone, 0)
  }

  lemma ParentSpawned() returns (s: Sys)
    ensures s == Step(InitialSys(2), Spawn(1, true))
    ensures s == InitialSys(2).(procs := [FreshProcess(1, 0), EMPTY_SLOT], queued := {0}, nextPid := 2, spawned := {1})
  {
    var s0 := InitialSys(2);
    PickIsFirst(s0);
    assert FindFreeSlot(s0.procs) == 0;
    assert CurrentPid(s0) == 0 && MinVruntime(s0) == 0;
    s := Spawned(s0, 1, true);
    assert s.procs == s0.procs[0 := FreshProcess(1, 0)];
    assert s.procs == [FreshProcess(1, 0), EMPTY_SLOT];
    assert s.vruntime == s0.vruntime && s.execStart == s0.execStart;
    assert s.queued == {0};
  }

  lemma ParentRuns(s0: Sys) returns (s: Sys)
    requires s0 == InitialSys(2).(procs := [FreshProcess(1, 0), EMPTY_SLOT], queued := {0}, nextPid := 2, spawned := {1})
    ensures s == Step(s0, Run(0))
    ensures s == s0.(procs := [FreshProcess(1, 0).(state := Running), EMPTY_SLOT], queued := {}, current := 0, mode := Normal)
  {
    PickIsFirst(s0);
    s := Started(s0, 0);
    assert s.procs == [FreshProcess(1, 0).(state := Running), EMPTY_SLOT];
    assert s.execStart == s0.execStart;
    assert s.queued == {};
  }

  lemma ChildSpawned(s0: Sys) returns (s: Sys)
    requires Sized(s0) && s0.procs == [FreshProcess(1, 0).(state := Running), EMPTY_SLOT] && s0.queued == {}
    requires s0.current == 0 && s0.nextPid == 2 && s0.mode == Normal
    ensures s == Step(s0, Spawn(1, true))
    ensures Sized(s) && s.procs == [FreshProcess(1, 0).(state := Running), FreshProcess(2, 1)]
    ensures s.queued == {1} && s.current == 0 && s.mode == Normal && (s0.vruntime == [0, 0] ==> s.vruntime == [0, 0])
  {
    assert s0.procs[0].state == Running && s0.procs[1].state == Unused;
    assert FindFreeSlot(s0.procs) == 1;
    assert CurrentPid(s0) == 1;
    s := Spawned(s0, 1, true);
    assert s.procs == s0.procs[1 := FreshProcess(2, 1)];
    assert s.procs == [FreshProcess(1, 0).(state := Running), FreshProcess(2, 1)];
    assert s.queued == {1};
  }

  lemma ParentWaits(s0: Sys) returns (s: Sys)
    requires Sized(s0) && s0.procs == [FreshProcess(1, 0).(state := Running), FreshProcess(2, 1)]
    requires s0.queued == {1} && s0.current == 0 && s0.mode == Normal
    ensures s == Step(s0, Wait(0, 0))
    ensures Sized(s) && |s.procs| == 2 && s.queued == {} && s.current == 1 && s.mode == Normal
    ensures s.procs[0].state == Blocked && s.procs[0].waitReason == WaitChild && s.procs[0].waitTarget == 0
    ensures s.procs[1].state == Running && s.procs[1].pid == 2
  {
    assert FindWaitableChild(s0.procs, 1, 0) == NONE;
    assert IsChild(s0.procs[1], 1, 0);
    assert HasChild(s0.procs, 1, 0);
    var s1 := BlockedAt(s0, 0, WaitChild, 0, 0, 0);
    assert s1.queued == {1};
    var s2 := CountedYield(s1);
    PickIsFirst(s2);
    assert Pick(s2) == 1;
    s := Switched(s2, 1);
    assert s.queued == {};
  }

  lemma ChildExits(s: Sys)
    requires Sized(s) && |s.procs| == 2 && s.queued == {} && s.current == 1 && s.mode == Normal
    requires s.procs[0].state == Blocked && s.procs[0].waitReason == WaitChild && s.procs[0].waitTarget == 0
    requires s.procs[1].state == Running
    ensures Step(s, Exit(7, 0)).mode == Panicked
    ensures |Step(s, Exit(7, 0)).procs| == 2 && Step(s, Exit(7, 0)).procs[0].state == Ready
  {
    var z := Zombified(s, 1, 7);
    assert z.procs[0].state == Ready && z.procs[1].state == Zombie;
    PickIsFirst(CountedYield(z));
  }

  lemma RunOfFour(s: Sys, a: Op, b: Op, c: Op, d: Op)
    requires Inv(s)
    ensures Inv(Step(s, a)) && Inv(Step(Step(s, a), b)) && Inv(Step(Step(Step(s, a), b), c))
    ensures RunOf(s, [a, b, c, d]) == Step(Step(Step(Step(s, a), b), c), d)
  {
    hide Step, TableOk, QueueOk;
    StepKeepsInv(s, a);
    StepKeepsInv(Step(s, a), b);
    StepKeepsInv(Step(Step(s, a), b), c);
    var ops := [a, b, c, d];
    assert ops[..3] == [a, b, c] && [a, b, c][..2] == [a, b] && [a, b][..1] == [a] && [a][..0] == [];
    assert RunOf(s, []) == s;
    assert RunOf(s, [a]) == Step(s, a);
    assert RunOf(s, [a, b]) == Step(Step(s, a), b);
    assert RunOf(s, [a, b, c]) == Step(Step(Step(s, a), b), c);
  }

  /** A parent that waits for its only child is stranded: the child's exit makes the parent READY,
      but with no timer interrupt before the pick the queue is still empty and the kernel panics. */
  lemma ExitStrandsParent() returns (s: Sys)
    ensures Inv(InitialSys(2))
    ensures s == RunOf(InitialSys(2), [Spawn(1, true), Run(0), Spawn(1, true), Wait(0, 0)])
    ensures Inv(s) && s.mode == Normal && |s.procs| == 2
    ensures Step(s, Exit(7, 0)).mode == Panicked
    ensures |Step(s, Exit(7, 0)).procs| == 2 && Step(s, Exit(7, 0)).procs[0].state == Ready
  {
    hide TableOk, QueueOk, Step, RunOf;
    InitialInv(2);
    var s1 := ParentSpawned();
    var s2 := ParentRuns(s1);
    var s3 := ChildSpawned(s2);
    s := ParentWaits(s3);
    RunOfFour(InitialSys(2), Spawn(1, true), Run(0), Spawn(1, true), Wait(0, 0));
    ChildExits(s);
  }

  /** The one process of the system goes to sleep for a tick. */
  lemma SleeperBlocks(s: Sys)
    requires Sized(s) && s.procs == [FreshProcess(1, 0).(state := Running), EMPTY_SLOT] && s.queued == {} && s.current == 0
    ensures var y := CountedYield(BlockedAt(s, 0, WaitSleepTicks, 1, s.clock + 1, 0));
      && Sized(y) && |y.procs| == 2 && y.current == 0 && y.mode == s.mode && y.clock == s.clock && y.queued == {}
      && Sleeps(y.procs[0]) && y.procs[0].wakeTick == s.clock + 1 && y.procs[1] == EMPTY_SLOT && Pick(y) == NONE
  {
    var b := BlockedAt(s, 0, WaitSleepTicks, 1, s.clock + 1, 0);
    assert b.queued == {};
    PickIsFirst(CountedYield(b));
  }

  lemma SleeperWakesLate(y: Sys)
    requires Sized(y) && |y.procs| == 2 && y.current == 0 && Sleeps(y.procs[0]) && y.procs[1] == EMPTY_SLOT && Pick(y) == NONE
    requires y.procs[0].wakeTick == y.clock + 1
    ensures Dispatched(y).mode == Idle
    ensures LateDispatched(y, 1).mode == Panicked && |LateDispatched(y, 1).procs| == 2 && LateDispatched(y, 1).procs[0].state == Ready
  {
    hide Pick, Sized;
    assert Ticks(y, 0) == y;
    assert Ticks(y, 1).procs[0].state == Ready && Ticks(y, 1).procs[1].state == Unused;
  }

  /** A lone process that sleeps for one tick is stranded when that tick comes between the pick and the
      count of the sleepers: it is READY and the kernel panics. Without the tick the kernel waits. */
  lemma LateTickStrandsSleeper() returns (s: Sys)
    ensures Inv(InitialSys(2)) && Inv(Step(InitialSys(2), Spawn(1, true)))
    ensures s == Step(Step(InitialSys(2), Spawn(1, true)), Run(0))
    ensures Inv(s) && s.mode == Normal && s.current == 0 && |s.procs| == 2 && Slept(s, 1, 0).mode == Idle
    ensures var y := CountedYield(BlockedAt(s, 0, WaitSleepTicks, 1, s.clock + 1, 0));
      && Yielding(y) && Pick(y) == NONE && |y.procs| == 2 && Sleeps(y.procs[0])
      && LateDispatched(y, 1).mode == Panicked && |LateDispatched(y, 1).procs| == 2
      && LateDispatched(y, 1).procs[0].state == Ready
  {
    hide TableOk, Step, Yielding, OneRunning, QueueOk, Dispatched, LateDispatched, BlockedAt, CountedYield;
    InitialInv(2);
    var s1 := ParentSpawned();
    StepKeepsInv(InitialSys(2), Spawn(1, true));
    s := ParentRuns(s1);
    StepKeepsInv(s1, Run(0));
    BlockIsYielding(s, WaitSleepTicks, 1, s.clock + 1);
    var b := BlockedAt(s, 0, WaitSleepTicks, 1, s.clock + 1, 0);
    CountKeepsYielding(b);
    SleeperBlocks(s);
    SleeperWakesLate(CountedYield(b));
    assert Ticks(b, 0) == b;
  }
}
