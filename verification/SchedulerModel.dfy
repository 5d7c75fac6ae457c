/** The scheduler as a state machine over values (kernel/scheduler.c, cooperative build): the
    process table, the ready queue as a set, and one function per operation. */
module SchedulerModel {
  import opened ProcessModel
  import opened ProcessCore
  import opened RunOrder

  /** Starting: before scheduler_run. Idle: inside process_yield, waiting for an interrupt. */
  datatype Mode = Starting | Normal | Idle | Panicked

  /** `spawned`, `exits` and `reaps` record every pid handed out, every exit code set and every
      exit code collected. */
  datatype Sys = Sys(
    procs: seq<Process>,
    vruntime: seq<nat>,
    execStart: seq<nat>,
    queued: set<nat>,
    current: nat,
    nextPid: nat,
    clock: nat,
    mode: Mode,
    spawned: set<nat>,
    exits: map<nat, int>,
    reaps: map<nat, int>)

  predicate Sized(s: Sys) {
    |s.procs| == |s.vruntime| == |s.execStart| <= NONE
  }

  // ---------------------------------------------------------------- the queue as a set

  function ReadySet(ps: seq<Process>): set<nat> {
    set i | 0 <= i < |ps| && ps[i].state == Ready
  }

  function Synced(s: Sys): Sys {
    s.(queued := ReadySet(s.procs))
  }

  /** The member below `k` that runs first. */
  function Best(ranks: seq<Rank>, members: set<nat>, k: nat): nat
    requires k <= |ranks| <= NONE
    ensures Best(ranks, members, k) == NONE || Best(ranks, members, k) < k
  {
    if k == 0 then NONE
    else
      var b := Best(ranks, members, k - 1);
      if k - 1 in members && (b == NONE || RunsBefore(ranks, k - 1, b)) then k - 1 else b
  }

  function Pick(s: Sys): nat
    requires Sized(s)
  {
    Best(Ranks(s.vruntime, s.procs), s.queued, |s.procs|)
  }

  lemma {:induction false} BestIsFirst(ranks: seq<Rank>, members: set<nat>, k: nat)
    requires k <= |ranks| <= NONE
    ensures var b := Best(ranks, members, k);
      if b == NONE then forall i :: 0 <= i < k ==> i !in members
      else b in members && forall i :: 0 <= i < k && i in members && i != b ==> RunsBefore(ranks, b, i)
  {
    if k > 0 {
      BestIsFirst(ranks, members, k - 1);
      var b := Best(ranks, members, k - 1);
      forall i | 0 <= i < k - 1 && b != NONE && i in members && i != b
        ensures RunsBefore(ranks, k - 1, b) ==> RunsBefore(ranks, k - 1, i)
      {
        RunsBeforeIsTotal(ranks, k - 1, b, i);
      }
      if b != NONE { RunsBeforeIsTotal(ranks, k - 1, b, b); }
    }
  }

  /** What scheduler_pick_next_ready returns: the queue's first member, if it has one. */
  lemma PickIsFirst(s: Sys)
    requires Sized(s) && forall k :: k in s.queued ==> k < |s.procs|
    ensures if s.queued == {} then Pick(s) == NONE
            else Pick(s) != NONE && IsFirst(Ranks(s.vruntime, s.procs), s.queued, Pick(s))
  {
    BestIsFirst(Ranks(s.vruntime, s.procs), s.queued, |s.procs|);
    if s.queued != {} { var k :| k in s.queued; }
  }

  // ---------------------------------------------------------------- pieces of operations

  function CurrentPid(s: Sys): nat {
    if s.current < |s.procs| && s.procs[s.current].state != Unused then s.procs[s.current].pid else 0
  }

  function Increment(x: nat): nat { (x + 1) % UINT32 }

  /** process_tick, called once for every increment of the kernel's tick count. */
  function Tick(s: Sys): Sys {
    Synced(s.(clock := s.clock + 1, procs := WokenSleepers(s.procs, s.clock + 1)))
  }

  function Ticks(s: Sys, count: nat): Sys {
    if count == 0 then s else Tick(Ticks(s, count - 1))
  }

  /** scheduler_account_runtime: only a RUNNING process is charged. */
  function Accounted(s: Sys, i: nat): Sys
    requires Sized(s) && i < |s.procs|
  {
    if s.procs[i].state != Running then s
    else
      var charge := if s.clock > s.execStart[i] then s.clock - s.execStart[i] else 1;
      s.(vruntime := s.vruntime[i := s.vruntime[i] + charge], execStart := s.execStart[i := s.clock])
  }

  function Demoted(p: Process): Process {
    if p.state == Running then p.(state := Ready) else p
  }

  /** scheduler_switch_process. */
  function Switched(s: Sys, next: nat): Sys
    requires Sized(s) && s.current < |s.procs| && next < |s.procs| && next != s.current
  {
    var s1 := Accounted(s, s.current);
    var nextProc := s.procs[next].(state := Running, switchCount := Increment(s.procs[next].switchCount));
    Synced(s1.(
      procs := s.procs[s.current := Demoted(s.procs[s.current])][next := nextProc],
      current := next,
      execStart := s1.execStart[next := s.clock],
      mode := Normal))
  }

  /** The end of process_yield once a next process is known. */
  function Continued(s: Sys, next: nat): Sys
    requires Sized(s) && s.current < |s.procs| && next < |s.procs|
  {
    if next == s.current
    then s.(procs := s.procs[next := s.procs[next].(state := Running)], mode := Normal)
    else Switched(s, next)
  }

  function Dispatched(s: Sys): Sys
    requires Sized(s) && s.current < |s.procs|
  {
    var next := Pick(s);
    if next != NONE then Continued(s, next)
    else if s.procs[s.current].state == Running then s
    else if HasSleepers(s.procs) then s.(mode := Idle)
    else s.(mode := Panicked)
  }

  function CountedYield(s: Sys): Sys
    requires s.current < |s.procs|
  {
    var p := s.procs[s.current];
    s.(procs := s.procs[s.current := p.(yieldCount := Increment(p.yieldCount))])
  }

  /** process_yield, with `ticks` timer interrupts delivered before the next process is picked. */
  function Yielded(s: Sys, ticks: nat): Sys
    requires Sized(s) && s.current < |s.procs|
  {
    TicksKeepSize(s, ticks);
    Dispatched(CountedYield(Ticks(s, ticks)))
  }

  lemma {:induction false} TicksKeepSize(s: Sys, count: nat)
    ensures |Ticks(s, count).procs| == |s.procs| && Ticks(s, count).vruntime == s.vruntime
    ensures Ticks(s, count).execStart == s.execStart && Ticks(s, count).current == s.current
    ensures Ticks(s, count).mode == s.mode && Ticks(s, count).nextPid == s.nextPid
    ensures Ticks(s, count).clock == s.clock + count
    ensures Ticks(s, count).spawned == s.spawned && Ticks(s, count).exits == s.exits && Ticks(s, count).reaps == s.reaps
  {
    if count > 0 { TicksKeepSize(s, count - 1); }
  }

  /** scheduler_block_process. */
  function BlockedAt(s: Sys, i: nat, reason: WaitReason, channel: nat, wakeTick: nat, target: nat): Sys
    requires i < |s.procs|
  {
    Synced(s.(procs := s.procs[i := Suspended(s.procs[i], reason, channel, wakeTick, target)]))
  }

  /** scheduler_reset_process_slot. */
  function SlotReset(s: Sys, i: nat): Sys
    requires Sized(s) && i < |s.procs|
  {
    s.(queued := s.queued - {i}, procs := s.procs[i := EMPTY_SLOT],
       vruntime := s.vruntime[i := 0], execStart := s.execStart[i := 0])
  }

  /** Slot `i` becomes a zombie and whoever waits for it is woken. */
  function Zombified(s: Sys, i: nat, code: int): Sys
    requires i < |s.procs|
  {
    var pid := s.procs[i].pid;
    s.(procs := WokenParents(s.procs[i := s.procs[i].(state := Zombie, exitCode := code)], pid),
       exits := s.exits[pid := code])
  }

  function MinVruntime(s: Sys): nat
    requires Sized(s)
  {
    var first := Pick(s);
    var runs := s.current < |s.procs| && s.procs[s.current].state == Running;
    if first != NONE && runs then
      if s.vruntime[s.current] < s.vruntime[first] then s.vruntime[s.current] else s.vruntime[first]
    else if first != NONE then s.vruntime[first]
    else if runs then s.vruntime[s.current]
    else 0
  }

  // ---------------------------------------------------------------- operations

  /** process_spawn_with_role; `allowed` is the outcome of the entry and policy checks. */
  function Spawned(s: Sys, role: nat, allowed: bool): Sys
    requires Sized(s)
  {
    var i := FindFreeSlot(s.procs);
    if !allowed || i == NONE || s.nextPid == 0 then s
    else
      var p := Process(s.nextPid, CurrentPid(s), role, Ready, 0, 0, 0, 0, 0, WaitNone, 0);
      Synced(s.(procs := s.procs[i := p], nextPid := Increment(s.nextPid),
                vruntime := s.vruntime[i := MinVruntime(s)], execStart := s.execStart[i := 0],
                spawned := s.spawned + {s.nextPid}))
  }

  /** process_exit: process_yield must not come back, or the kernel panics. */
  function Exited(s: Sys, code: int, ticks: nat): Sys
    requires Sized(s) && s.current < |s.procs|
  {
    var y := Yielded(Zombified(s, s.current, code), ticks);
    if y.mode == Normal && y.current == s.current then y.(mode := Panicked) else y
  }

  function Killed(s: Sys, pid: nat, code: int, ticks: nat): Sys
    requires Sized(s) && s.current < |s.procs|
  {
    var i := FindIndexByPid(s.procs, pid);
    if i == NONE then s
    else if i == s.current then Exited(s, code, ticks)
    else if s.procs[i].state == Zombie then s
    else Synced(Zombified(s, i, code))
  }

  function Collected(s: Sys, i: nat): Sys
    requires Sized(s) && i < |s.procs|
  {
    SlotReset(s.(reaps := s.reaps[s.procs[i].pid := s.procs[i].exitCode]), i)
  }

  function Reaped(s: Sys, pid: nat): Sys
    requires Sized(s)
  {
    var i := FindIndexByPid(s.procs, pid);
    if i == NONE || s.procs[i].state != Zombie then s else Collected(s, i)
  }

  /** One round of the loop in process_waitpid. */
  function WaitRound(s: Sys, target: nat, ticks: nat): Sys
    requires Sized(s) && s.current < |s.procs|
  {
    var me := CurrentPid(s);
    if me == 0 then s
    else
      var child := FindWaitableChild(s.procs, me, target);
      if child != NONE then Collected(s, child)
      else if !HasChild(s.procs, me, target) then s
      else Yielded(BlockedAt(s, s.current, WaitChild, target, 0, target), ticks)
  }

  function Slept(s: Sys, duration: nat, ticks: nat): Sys
    requires Sized(s) && s.current < |s.procs|
  {
    if duration == 0 then Yielded(s, ticks)
    else Yielded(BlockedAt(s, s.current, WaitSleepTicks, duration, s.clock + duration, 0), ticks)
  }

  function ManuallyBlocked(s: Sys, pid: nat, ticks: nat): Sys
    requires Sized(s) && s.current < |s.procs|
  {
    var i := FindIndexByPid(s.procs, pid);
    if i == NONE || (s.procs[i].state != Ready && s.procs[i].state != Running) then s
    else
      var s1 := BlockedAt(s, i, WaitManual, pid, 0, 0);
      if i == s.current then Yielded(s1, ticks) else s1
  }

  function ManuallyWoken(s: Sys, pid: nat): Sys
    requires Sized(s)
  {
    var i := FindIndexByPid(s.procs, pid);
    if i == NONE then s else Synced(s.(procs := s.procs[i := MadeReady(s.procs[i])]))
  }

  function ChannelWaited(s: Sys, channel: nat, ticks: nat): Sys
    requires Sized(s) && s.current < |s.procs|
  {
    Yielded(BlockedAt(s, s.current, WaitEventChannel, channel, 0, 0), ticks)
  }

  function ChannelWoken(s: Sys, channel: nat): Sys {
    Synced(s.(procs := WokenChannel(s.procs, channel)))
  }

  function ChannelWokenFirst(s: Sys, channel: nat): Sys
    requires Sized(s)
  {
    Synced(s.(procs := WokenFirst(s.procs, channel, s.current)))
  }

  /** One wake-up of the wait loop inside process_yield. */
  function IdleRound(s: Sys, ticks: nat): Sys
    requires Sized(s) && s.current < |s.procs|
  {
    TicksKeepSize(s, ticks);
    var s1 := Synced(Ticks(s, ticks));
    var next := Pick(s1);
    if next == NONE then s1 else Continued(s1, next)
  }

  /** scheduler_run: the first process is started, or there is none and the kernel panics. */
  function Started(s: Sys, ticks: nat): Sys
    requires Sized(s)
  {
    TicksKeepSize(s, ticks);
    var s1 := Ticks(s, ticks);
    var next := Pick(s1);
    if next == NONE then s1.(mode := Panicked)
    else
      Synced(s1.(current := next, procs := s1.procs[next := s1.procs[next].(state := Running)],
                 execStart := s1.execStart[next := s1.clock], mode := Normal))
  }

  datatype Op =
    | Spawn(role: nat, allowed: bool)
    | Exit(code: int, ticks: nat)
    | Kill(pid: nat, code: int, ticks: nat)
    | Reap(pid: nat)
    | Wait(target: nat, ticks: nat)
    | Sleep(duration: nat, ticks: nat)
    | Block(pid: nat, ticks: nat)
    | Wake(pid: nat)
    | WaitOn(channel: nat, ticks: nat)
    | WakeAll(channel: nat)
    | WakeOne(channel: nat)
    | Yield(ticks: nat)
    | TimerTick
    | Run(ticks: nat)
    | IdleWake(ticks: nat)

  /** The operation `op`, where it can happen; a halted kernel stays as it is. */
  function Step(s: Sys, op: Op): Sys
    requires Sized(s) && (s.mode == Normal || s.mode == Idle ==> s.current < |s.procs|)
  {
    match op
    case Spawn(role, allowed) => if s.mode == Normal || s.mode == Starting then Spawned(s, role, allowed) else s
    case Exit(code, ticks) => if s.mode == Normal then Exited(s, code, ticks) else s
    case Kill(pid, code, ticks) => if s.mode == Normal then Killed(s, pid, code, ticks) else s
    case Reap(pid) => if s.mode == Normal then Reaped(s, pid) else s
    case Wait(target, ticks) => if s.mode == Normal then WaitRound(s, target, ticks) else s
    case Sleep(duration, ticks) => if s.mode == Normal then Slept(s, duration, ticks) else s
    case Block(pid, ticks) => if s.mode == Normal then ManuallyBlocked(s, pid, ticks) else s
    case Wake(pid) => if s.mode == Normal then ManuallyWoken(s, pid) else s
    case WaitOn(channel, ticks) => if s.mode == Normal then ChannelWaited(s, channel, ticks) else s
    case WakeAll(channel) => if s.mode == Normal then ChannelWoken(s, channel) else s
    case WakeOne(channel) => if s.mode == Normal then ChannelWokenFirst(s, channel) else s
    case Yield(ticks) => if s.mode == Normal then Yielded(s, ticks) else s
    case TimerTick => if s.mode == Normal || s.mode == Starting then Tick(s) else s
    case Run(ticks) => if s.mode == Starting then Started(s, ticks) else s
    case IdleWake(ticks) => if s.mode == Idle then IdleRound(s, ticks) else s
  }

  function InitialSys(n: nat): Sys {
    Sys(seq(n, _ => EMPTY_SLOT), seq(n, _ => 0), seq(n, _ => 0), {}, NONE, 1, 0, Starting, {}, map[], map[])
  }
}
