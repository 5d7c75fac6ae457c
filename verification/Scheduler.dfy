/** The scheduler's code over its arrays (kernel/scheduler.c), proved to do what the state
    machine of SchedulerModel says. */
module Scheduler {
  import opened ProcessModel
  import opened ProcessCore
  import opened RunOrder
  import opened SchedulerModel
  import opened SchedulerSafety
  import RbTree
  import ReadyQueues

  class Kernel {
    const procs: array<Process>
    const vruntime: array<nat>
    const execStart: array<nat>
    const rq: ReadyQueues.ReadyQueue
    var current: nat
    var nextPid: nat
    var ticks: nat
    // Where control is: before scheduler_run, in a process, in process_yield's wait loop, halted.
    var mode: Mode
    ghost var spawned: set<nat>
    ghost var exits: map<nat, int>
    ghost var reaps: map<nat, int>

    ghost function Footprint(): set<object> {
      {this, procs, vruntime, execStart} + rq.Footprint()
    }

    ghost predicate Separate() {
      && rq.procs == procs && rq.vruntime == vruntime && rq.Separate()
      && procs.Length == vruntime.Length == execStart.Length <= NONE
      && vruntime != execStart
      && {this, procs, vruntime, execStart} !! rq.Footprint()
      && procs as object != this && vruntime as object != this && execStart as object != this
      && procs as object != vruntime && procs as object != execStart
    }

    ghost predicate Valid()
      reads this, Footprint()
    {
      Separate() && rq.Valid()
    }

    ghost function State(): Sys
      reads this, procs, vruntime, execStart, rq
    {
      Sys(procs[..], vruntime[..], execStart[..], rq.Members(), current, nextPid, ticks, mode, spawned, exits, reaps)
    }

    constructor (n: nat)
      requires n <= NONE
      ensures Valid() && fresh(Footprint())
      ensures State() == InitialSys(n)
    {
      var ps := new Process[n](_ => EMPTY_SLOT);
      var vs := new nat[n](_ => 0);
      procs, vruntime := ps, vs;
      execStart := new nat[n](_ => 0);
      rq := new ReadyQueues.ReadyQueue(ps, vs);
      current, nextPid, ticks, mode := NONE, 1, 0, Starting;
      spawned, exits, reaps := {}, map[], map[];
      new;
      assert procs[..] == InitialSys(n).procs;
      assert vruntime[..] == InitialSys(n).vruntime;
      assert execStart[..] == InitialSys(n).execStart;
    }

    // ------------------------------------------------------------ the queue and its keys

    /** The queue stays valid as long as its members keep their ranks. */
    twostate lemma RanksKept()
      requires Separate() && old(rq.Valid()) && unchanged(rq.Footprint())
      requires forall k :: k in rq.Members() && k < procs.Length ==>
        procs[k].pid == old(procs[k].pid) && vruntime[k] == old(vruntime[k])
      ensures rq.Valid()
    {
      var order := RbTree.Inorder(rq.tree);
      RbTree.InorderKeys(rq.tree);
      SameRanksSameOrder(old(rq.CurrentRanks()), rq.CurrentRanks(), order);
    }

    lemma LeftmostIsPick()
      requires Valid()
      ensures rq.leftmost == Pick(State())
      ensures forall k :: k in rq.Members() ==> k < procs.Length
    {
      var ranks := rq.CurrentRanks();
      RbTree.InorderKeys(rq.tree);
      ReadyQueues.LeftmostRunsFirst(ranks, rq.tree);
      PickIsFirst(State());
      if rq.Members() != {} {
        FirstIsUnique(ranks, rq.Members(), rq.leftmost, Pick(State()));
      }
    }

    method SetProcess(i: nat, p: Process)
      requires Valid() && i < procs.Length && (p.pid == procs[i].pid || i !in rq.Members())
      modifies procs
      ensures Valid() && State() == old(State()).(procs := old(procs[..])[i := p])
    {
      procs[i] := p;
      RanksKept();
    }

    method SyncReadyQueue()
      requires Valid()
      modifies rq.Footprint()
      ensures Valid() && State() == Synced(old(State()))
    {
      for index := 0 to procs.Length
        invariant Valid()
        invariant forall k :: 0 <= k < index ==> (k in rq.Members() <==> procs[k].state == Ready)
      {
        if procs[index].state == Ready {
          rq.Insert(index);
        } else {
          rq.Remove(index);
        }
      }
      LeftmostIsPick();
      assert rq.Members() == ReadySet(procs[..]);
    }

    method PickNextReady() returns (next: nat)
      requires Valid()
      ensures next == Pick(State())
      ensures next != NONE ==> next in rq.Members() && next < procs.Length
    {
      LeftmostIsPick();
      PickIsFirst(State());
      next := rq.leftmost;
    }

    method MinVruntimeRead() returns (min: nat)
      requires Valid()
      ensures min == MinVruntime(State())
    {
      min := 0;
      var have := false;
      var first := PickNextReady();
      if first != NONE {
        min, have := vruntime[first], true;
      }
      if current < procs.Length && procs[current].state == Running {
        if !have || vruntime[current] < min {
          min := vruntime[current];
        }
      }
    }

    method AccountRuntime(index: nat)
      requires Valid() && index < procs.Length
      requires procs[index].state == Running ==> index !in rq.Members()
      modifies vruntime, execStart
      ensures Valid() && State() == Accounted(old(State()), index)
    {
      if procs[index].state != Running {
        return;
      }
      var now := ticks;
      var started := execStart[index];
      if now > started {
        vruntime[index] := vruntime[index] + (now - started);
      } else {
        vruntime[index] := vruntime[index] + 1;
      }
      execStart[index] := now;
      RanksKept();
    }

    // ------------------------------------------------------------ switching

    /** process_tick, at the next value of the tick count. */
    method ProcessTick()
      requires Valid()
      modifies Footprint()
      ensures Valid() && State() == Tick(old(State()))
    {
      ticks := ticks + 1;
      var woke := WakeSleepers(procs, ticks);
      RanksKept();
      SyncReadyQueue();
    }

    method DeliverTicks(count: nat)
      requires Valid()
      modifies Footprint()
      ensures Valid() && State() == Ticks(old(State()), count)
    {
      for i := 0 to count
        invariant Valid() && State() == Ticks(old(State()), i)
      {
        ProcessTick();
      }
    }

    method SwitchProcess(next: nat)
      requires Valid() && current < procs.Length && next < procs.Length && next != current
      requires procs[current].state == Running ==> current !in rq.Members()
      modifies Footprint()
      ensures Valid() && State() == Switched(old(State()), next)
    {
      hide ReadyQueues.ReadyQueue.Valid, ReadySet, Increment;
      var from := current;
      AccountRuntime(from);
      if procs[from].state == Running {
        SetProcess(from, procs[from].(state := Ready));
      }
      assert procs[..] == old(procs[..])[from := Demoted(old(procs[from]))];
      SetProcess(next, procs[next].(state := Running, switchCount := Increment(procs[next].switchCount)));
      current := next;
      execStart[next] := ticks;
      mode := Normal;
      SyncReadyQueue();
    }

    /** The end of process_yield: back to the caller, or over to `next`. */
    method ContinueWith(next: nat)
      requires Valid() && current < procs.Length && next < procs.Length
      requires next != current && procs[current].state == Running ==> current !in rq.Members()
      modifies Footprint()
      ensures Valid() && State() == Continued(old(State()), next)
    {
      if next == current {
        SetProcess(next, procs[next].(state := Running));
        mode := Normal;
        return;
      }
      SwitchProcess(next);
    }

    /** process_yield; `interrupts` timer interrupts are taken before the pick. */
    method ProcessYield(interrupts: nat)
      requires Valid() && Yielding(State()) && mode == Normal
      modifies Footprint()
      ensures Valid() && State() == Yielded(old(State()), interrupts)
    {
      TicksKeepYielding(State(), interrupts);
      TicksKeepSize(State(), interrupts);
      CountKeepsYielding(Ticks(State(), interrupts));
      hide Ticks, Yielding, Inv;
      DeliverTicks(interrupts);
      var p := procs[current];
      SetProcess(current, p.(yieldCount := Increment(p.yieldCount)));
      Dispatch();
    }

    /** The pick at the heart of process_yield. */
    method Dispatch()
      requires Valid() && Yielding(State()) && mode == Normal
      modifies Footprint()
      ensures Valid() && State() == Dispatched(old(State()))
    {
      PickedWhileRunning(State());
      var next := PickNextReady();
      if next == NONE {
        if procs[current].state == Running {
          return;
        }
        var sleepers := CountBlockedSleepers(procs);
        if sleepers != 0 {
          mode := Idle;
        } else {
          mode := Panicked;
        }
        return;
      }
      hide Yielding;
      ContinueWith(next);
    }

    /** One wake-up of the wait loop inside process_yield. */
    method IdleWakeUp(interrupts: nat)
      requires Valid() && Inv(State()) && mode == Idle
      modifies Footprint()
      ensures Valid() && State() == IdleRound(old(State()), interrupts)
    {
      TicksKeepTable(State(), interrupts);
      DeliverTicks(interrupts);
      SyncReadyQueue();
      var next := PickNextReady();
      if next != NONE {
        ContinueWith(next);
      }
    }

    /** scheduler_run and scheduler_start_first_process. */
    method SchedulerRun(interrupts: nat)
      requires Valid() && Inv(State()) && mode == Starting
      modifies Footprint()
      ensures Valid() && State() == Started(old(State()), interrupts)
    {
      TicksKeepSize(State(), interrupts);
      hide ReadyQueues.ReadyQueue.Valid, ReadySet, Inv, Ticks;
      DeliverTicks(interrupts);
      var next := PickNextReady();
      if next == NONE {
        mode := Panicked;
        return;
      }
      current := next;
      SetProcess(next, procs[next].(state := Running));
      execStart[next] := ticks;
      mode := Normal;
      SyncReadyQueue();
    }

    // ------------------------------------------------------------ process life

    method CurrentPidRead() returns (pid: nat)
      requires Valid()
      ensures pid == CurrentPid(State())
    {
      if current < procs.Length && procs[current].state != Unused {
        return procs[current].pid;
      }
      return 0;
    }

    method BlockProcess(index: nat, reason: WaitReason, channel: nat, wakeTick: nat, target: nat)
      requires Valid() && index < procs.Length
      modifies Footprint()
      ensures Valid() && State() == BlockedAt(old(State()), index, reason, channel, wakeTick, target)
    {
      SetProcess(index, procs[index].(state := Blocked, waitReason := reason, waitChannel := channel,
                                      wakeTick := wakeTick, waitTarget := target));
      SyncReadyQueue();
    }

    method ResetProcessSlot(index: nat)
      requires Valid() && index < procs.Length
      modifies Footprint()
      ensures Valid() && State() == SlotReset(old(State()), index)
    {
      rq.Remove(index);
      SetProcess(index, EMPTY_SLOT);
      label emptied:
      vruntime[index] := 0;
      execStart[index] := 0;
      RanksKept@emptied();
    }

    /** The process in slot `index` ends; its waiting parents are made ready but not queued yet. */
    method EndProcess(index: nat, code: int)
      requires Valid() && index < procs.Length
      modifies this`exits, procs
      ensures Valid() && State() == Zombified(old(State()), index, code)
    {
      var pid := procs[index].pid;
      SetProcess(index, procs[index].(state := Zombie, exitCode := code));
      exits := exits[pid := code];
      label ended:
      var woke := WakeWaitingParent(procs, pid);
      RanksKept@ended();
    }

    /** A new process moves into a free slot, level with the least virtual runtime. */
    method FillSlot(index: nat, p: Process)
      requires Valid() && index < procs.Length && index !in rq.Members() && index != current
      modifies procs, vruntime, execStart
      ensures Valid()
      ensures State() == old(State()).(
        procs := old(procs[..])[index := p],
        vruntime := old(vruntime[..])[index := MinVruntime(old(State()))],
        execStart := old(execStart[..])[index := 0])
    {
      LeftmostIsPick();
      SpawnKeepsPick(State(), index, p);
      SetProcess(index, p);
      var start := MinVruntimeRead();
      label read:
      vruntime[index] := start;
      execStart[index] := 0;
      RanksKept@read();
    }

    method ProcessSpawnWithRole(role: nat, allowed: bool) returns (pid: nat)
      requires Valid() && Inv(State()) && (mode == Normal || mode == Starting)
      modifies Footprint()
      ensures Valid() && State() == Spawned(old(State()), role, allowed)
      ensures pid == if State() == old(State()) then 0 else old(nextPid)
    {
      hide Inv, MinVruntime, Pick, ReadySet, FirstFrom, ReadyQueues.ReadyQueue.Valid;
      var index := FindFreeSlotIn(procs);
      var parent := CurrentPidRead();
      FreeSlotIsUnqueued(State());
      if index == NONE || nextPid == 0 || !allowed {
        return 0;
      }
      FillSlot(index, Process(nextPid, parent, role, Ready, 0, 0, 0, 0, 0, WaitNone, 0));
      pid := nextPid;
      nextPid := Increment(nextPid);
      spawned := spawned + {pid};
      SyncReadyQueue();
    }

    method ProcessExit(code: int, interrupts: nat)
      requires Valid() && Inv(State()) && mode == Normal
      modifies Footprint()
      ensures Valid() && State() == Exited(old(State()), code, interrupts)
    {
      var me := current;
      hide Inv, Yielding, Yielded, Zombified, ReadyQueues.ReadyQueue.Valid;
      ExitIsYielding(State(), code);
      EndProcess(me, code);
      ProcessYield(interrupts);
      if mode == Normal && current == me {
        mode := Panicked;
      }
    }

    method ProcessKill(pid: nat, code: int, interrupts: nat) returns (found: bool)
      requires Valid() && Inv(State()) && mode == Normal
      modifies Footprint()
      ensures Valid() && State() == Killed(old(State()), pid, code, interrupts)
      ensures found <==> FindIndexByPid(old(procs[..]), pid) != NONE
    {
      var index := FindIndexByPidIn(procs, pid);
      if index == NONE {
        return false;
      }
      if index == current {
        ProcessExit(code, interrupts);
        return true;
      }
      if procs[index].state == Ready || procs[index].state == Running || procs[index].state == Blocked {
        EndProcess(index, code);
        SyncReadyQueue();
      }
      return true;
    }

    /** A zombie's slot is freed and its exit code handed over. */
    method Collect(index: nat) returns (code: int)
      requires Valid() && index < procs.Length
      modifies Footprint()
      ensures Valid() && State() == Collected(old(State()), index)
      ensures code == old(procs[index].exitCode)
    {
      code := procs[index].exitCode;
      reaps := reaps[procs[index].pid := code];
      ResetProcessSlot(index);
    }

    method ProcessReap(pid: nat) returns (found: bool, code: int)
      requires Valid() && Inv(State()) && mode == Normal
      modifies Footprint()
      ensures Valid() && State() == Reaped(old(State()), pid)
      ensures found ==> pid in old(exits) && code == old(exits)[pid] && pid !in old(reaps)
      ensures var i := FindIndexByPid(old(procs[..]), pid);
        found <==> i != NONE && i < procs.Length && old(procs[..])[i].state == Zombie
    {
      code := 0;
      var index := FindIndexByPidIn(procs, pid);
      if index == NONE || procs[index].state != Zombie {
        return false, code;
      }
      CollectedOnce(State(), index);
      code := Collect(index);
      return true, code;
    }

    /** One round of process_waitpid; None means that the caller has blocked and must try again. */
    method ProcessWaitRound(target: nat, interrupts: nat) returns (done: bool, pid: nat, code: int)
      requires Valid() && Inv(State()) && mode == Normal
      modifies Footprint()
      ensures Valid() && State() == WaitRound(old(State()), target, interrupts)
      ensures done && pid != 0 ==> pid in old(exits) && code == old(exits)[pid] && pid !in old(reaps)
      ensures done && pid == 0 ==> State() == old(State()) && !HasChild(old(procs[..]), CurrentPid(old(State())), target)
      ensures var me := CurrentPid(old(State()));
        done <==> FindWaitableChild(old(procs[..]), me, target) != NONE || !HasChild(old(procs[..]), me, target)
    {
      pid, code := 0, 0;
      var me := CurrentPidRead();
      var child := FindWaitableChildIn(procs, me, target);
      if child != NONE {
        CollectedOnce(State(), child);
        pid := procs[child].pid;
        code := Collect(child);
        return true, pid, code;
      }
      var any := HasChildIn(procs, me, target);
      if !any {
        return true, 0, 0;
      }
      WaitIsYielding(State(), target);
      BlockProcess(current, WaitChild, target, 0, target);
      ProcessYield(interrupts);
      return false, 0, 0;
    }

    method ProcessSleep(duration: nat, interrupts: nat)
      requires Valid() && Inv(State()) && mode == Normal
      modifies Footprint()
      ensures Valid() && State() == Slept(old(State()), duration, interrupts)
    {
      hide Inv, Yielding, Yielded, BlockedAt, ReadyQueues.ReadyQueue.Valid;
      NormalIsYielding(State());
      if duration == 0 {
        ProcessYield(interrupts);
      } else {
        SleepFor(duration, interrupts);
      }
    }

    method SleepFor(duration: nat, interrupts: nat)
      requires Valid() && Inv(State()) && mode == Normal && duration > 0
      modifies Footprint()
      ensures Valid()
      ensures State() == Yielded(BlockedAt(old(State()), old(current), WaitSleepTicks, duration, old(ticks) + duration, 0), interrupts)
    {
      hide Inv, Yielding, Yielded, BlockedAt, ReadyQueues.ReadyQueue.Valid;
      BlockIsYielding(State(), WaitSleepTicks, duration, ticks + duration);
      BlockProcess(current, WaitSleepTicks, duration, ticks + duration, 0);
      ProcessYield(interrupts);
    }

    method ProcessBlock(pid: nat, interrupts: nat) returns (done: bool)
      requires Valid() && Inv(State()) && mode == Normal
      modifies Footprint()
      ensures Valid() && State() == ManuallyBlocked(old(State()), pid, interrupts)
      ensures var i := FindIndexByPid(old(procs[..]), pid);
        done <==> i != NONE && i < procs.Length && (old(procs[..])[i].state == Ready || old(procs[..])[i].state == Running)
    {
      var index := FindIndexByPidIn(procs, pid);
      if index == NONE {
        return false;
      }
      if procs[index].state != Ready && procs[index].state != Running {
        return false;
      }
      if index == current {
        BlockIsYielding(State(), WaitManual, pid, 0);
        BlockProcess(index, WaitManual, pid, 0, 0);
        ProcessYield(interrupts);
        return true;
      }
      BlockProcess(index, WaitManual, pid, 0, 0);
      return true;
    }

    method ProcessWake(pid: nat) returns (found: bool)
      requires Valid()
      modifies Footprint()
      ensures Valid() && State() == ManuallyWoken(old(State()), pid)
      ensures found <==> FindIndexByPid(old(procs[..]), pid) != NONE
    {
      var index := FindIndexByPidIn(procs, pid);
      if index == NONE {
        return false;
      }
      MakeReady(procs, index);
      RanksKept();
      SyncReadyQueue();
      return true;
    }

    method ProcessWaitChannel(channel: nat, interrupts: nat)
      requires Valid() && Inv(State()) && mode == Normal
      modifies Footprint()
      ensures Valid() && State() == ChannelWaited(old(State()), channel, interrupts)
    {
      BlockIsYielding(State(), WaitEventChannel, channel, 0);
      BlockProcess(current, WaitEventChannel, channel, 0, 0);
      ProcessYield(interrupts);
    }

    method ProcessWakeChannel(channel: nat) returns (woke: nat)
      requires Valid()
      modifies Footprint()
      ensures Valid() && State() == ChannelWoken(old(State()), channel) && woke == WaitersOn(old(procs[..]), channel)
    {
      woke := WakeChannel(procs, channel);
      RanksKept();
      SyncReadyQueue();
    }

    method ProcessWakeFirstChannel(channel: nat) returns (woke: nat)
      requires Valid()
      modifies Footprint()
      ensures Valid() && State() == ChannelWokenFirst(old(State()), channel)
      ensures woke <= 1 && (woke == 1 <==> exists i :: 0 <= i < procs.Length && WaitsOn(old(procs[..])[i], channel))
    {
      woke := WakeFirstChannel(procs, channel, current);
      RanksKept();
      SyncReadyQueue();
    }
  }

  lemma SpawnKeepsPick(s: Sys, i: nat, p: Process)
    requires Sized(s) && i < |s.procs| && i !in s.queued && (forall k :: k in s.queued ==> k < |s.procs|)
    requires i != s.current
    ensures Pick(s.(procs := s.procs[i := p])) == Pick(s)
    ensures MinVruntime(s.(procs := s.procs[i := p])) == MinVruntime(s)
  {
    var s' := s.(procs := s.procs[i := p]);
    var r, r' := Ranks(s.vruntime, s.procs), Ranks(s.vruntime, s'.procs);
    assert forall k :: 0 <= k < |r| && k != i ==> r'[k] == r[k];
    PickIsFirst(s);
    PickIsFirst(s');
    if s.queued != {} {
      assert IsFirst(r, s.queued, Pick(s'));
      FirstIsUnique(r, s.queued, Pick(s), Pick(s'));
    }
  }

  lemma SameRanksSameOrder(r: seq<Rank>, r': seq<Rank>, order: seq<nat>)
    requires InRunOrder(r, order) && |r'| == |r|
    requires forall k :: k in order && k < |r| ==> r'[k] == r[k]
    ensures InRunOrder(r', order)
  {
    forall i, j | 0 <= i < j < |order| ensures order[i] < |r'| && order[j] < |r'| && RunsBefore(r', order[i], order[j]) {
      assert RunsBefore(r, order[i], order[j]);
      assert order[i] in order && order[j] in order;
    }
  }
}
