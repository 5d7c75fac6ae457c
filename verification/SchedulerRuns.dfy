/** Whole runs of the scheduler: for how long a process has had the processor, and who is charged. */
module SchedulerRuns {
  import opened ProcessModel
  import opened ProcessCore
  import opened RunOrder
  import opened SchedulerModel
  import opened SchedulerSafety
  import opened SchedulerLaws

  /** The tick at which the current process took over: that of the last operation that changed `current`. */
  ghost function TookOver(s: Sys, ops: seq<Op>): nat
    requires Inv(s)
  {
    if ops == [] then 0
    else
      var before, after := RunOf(s, ops[..|ops| - 1]), RunOf(s, ops);
      if after.current != before.current then after.clock else TookOver(s, ops[..|ops| - 1])
  }

  /** What one operation may do to the charges and to the start of the current process. */
  ghost predicate ChargesOnly(s: Sys, y: Sys, charged: bool) {
    && |y.vruntime| == |y.execStart| == |s.vruntime| == |s.execStart|
    && y.current < |s.vruntime| && s.current < |s.vruntime|
    && (if y.current == s.current then y.execStart[s.current] == s.execStart[s.current] else y.execStart[y.current] == y.clock)
    && if charged && y.current != s.current then SameBut(s.vruntime, y.vruntime, s.current) else y.vruntime == s.vruntime
  }

  ghost predicate SameBut(v: seq<nat>, v': seq<nat>, i: nat) {
    |v'| == |v| && forall k :: 0 <= k < |v| && k != i ==> v'[k] == v[k]
  }

  lemma GivesWayCharges(s: Sys, ps: seq<Process>, queued: set<nat>, y: Sys)
    requires |s.vruntime| == |s.execStart| == |ps| && s.current < |ps| && GivesWay(s, ps, queued, y)
    ensures ChargesOnly(s, y, ps[s.current].state == Running)
  {
    hide RunsNext;
  }

  /** The operation yields for its caller, as process_yield and a sleep of no ticks do. */
  predicate Yields(op: Op) {
    op.Yield? || (op.Sleep? && op.duration == 0)
  }

  lemma YieldChargesOnly(s: Sys, op: Op)
    requires Inv(s) && s.mode == Normal && Yields(op)
    ensures ChargesOnly(s, Step(s, op), true)
  {
    hide TableOk, QueueOk, Yielded, Yielding, RunsNext, Roused, GivesWay;
    NormalIsYielding(s);
    assert Step(s, op) == Yielded(s, op.ticks);
    var ps, queued := YieldOutcome(s, op.ticks);
    GivesWayCharges(s, WithYield(ps, s.current), queued, Step(s, op));
    assert ps[s.current] == s.procs[s.current];
  }

  lemma BlockingBlocks(s: Sys, op: Op)
    requires s.current < |s.procs| && BlocksCaller(s, op)
    ensures Blocking(s, s.procs[s.current], op).state == Blocked
  {
  }

  lemma BlockChargesNobody(s: Sys, op: Op)
    requires Inv(s) && s.mode == Normal && BlocksCaller(s, op)
    ensures ChargesOnly(s, Step(s, op), false)
  {
    hide TableOk, QueueOk, Step, BlocksCaller, GivesWay;
    var ps, queued := BlockingOutcome(s, op);
    var b := s.procs[s.current := Blocking(s, s.procs[s.current], op)];
    BlockingBlocks(s, op);
    assert ps[s.current].state != Running;
    GivesWayCharges(s, WithYield(ps, s.current), queued, Step(s, op));
  }

  lemma ExitChargesNobody(s: Sys, code: int, ticks: nat)
    requires Inv(s) && s.mode == Normal && Step(s, Exit(code, ticks)).mode != Panicked
    ensures ChargesOnly(s, Step(s, Exit(code, ticks)), false)
  {
    hide TableOk, QueueOk, Step, GivesWay;
    var z, ps, queued := ExitOutcome(s, code, ticks);
    assert z.procs[s.current].state == Zombie;
    assert ps[s.current].state == Zombie;
    GivesWayCharges(z, WithYield(ps, s.current), queued, Step(s, Exit(code, ticks)));
  }

  /** An operation after which the same process goes on at once, its own slot untouched. */
  ghost predicate StaysPut(s: Sys, y: Sys) {
    y.current == s.current && y.vruntime == s.vruntime && y.execStart == s.execStart && y.mode == s.mode
  }

  /** A slot that is filled or emptied is not that of the current process. */
  ghost predicate Refits(s: Sys, y: Sys, i: nat) {
    && i < |s.vruntime| == |s.execStart| && i != s.current && y.current == s.current && y.mode == s.mode
    && SameBut(s.vruntime, y.vruntime, i) && y.execStart == s.execStart[i := 0]
  }

  lemma NormalStepIs(s: Sys, op: Op)
    requires Inv(s) && s.mode == Normal && Step(s, op).mode != Panicked
    ensures var y := Step(s, op);
      || ChargesOnly(s, y, Yields(op)) || StaysPut(s, y)
      || (op.Spawn? && exists i: nat :: i < |s.procs| && s.procs[i].state == Unused && Refits(s, y, i))
      || ((op.Reap? || op.Wait?) && exists i: nat :: i < |s.procs| && s.procs[i].state == Zombie && Refits(s, y, i))
  {
    hide TableOk, QueueOk, Step, BlocksCaller, ChargesOnly, Refits;
    if Yields(op) { YieldChargesOnly(s, op); }
    else if BlocksCaller(s, op) { BlockChargesNobody(s, op); }
    else {
      match op {
        case Spawn(role, allowed) => SpawnIs(s, role, allowed);
        case Exit(code, ticks) => ExitChargesNobody(s, code, ticks);
        case Kill(pid, code, ticks) => KillIs(s, pid, code, ticks);
        case Reap(pid) => ReapIs(s, pid);
        case Wait(target, ticks) => WaitIs(s, target, ticks);
        case Block(pid, ticks) => BlockOtherIs(s, pid, ticks);
        case Wake(pid) => WakeIs(s, pid);
        case WakeAll(channel) => WakeAllOutcome(s, channel);
        case WakeOne(channel) => WakeOneOutcome(s, channel);
        case TimerTick => TickOutcome(s);
        case Sleep(_, _) => SleepOrWaitOnBlocks(s, op);
        case WaitOn(_, _) => SleepOrWaitOnBlocks(s, op);
        case _ => OutOfPlace(s, op);
      }
    }
  }

  lemma SleepOrWaitOnBlocks(s: Sys, op: Op)
    requires s.current < |s.procs| && !Yields(op) && (op.Sleep? || op.WaitOn?)
    ensures BlocksCaller(s, op)
  {
  }

  lemma OutOfPlace(s: Sys, op: Op)
    requires Inv(s) && s.mode == Normal && (op.Run? || op.IdleWake?)
    ensures Step(s, op) == s
  {
  }

  /** The slot of the process with that pid, or `|s.procs|` when there is none. */
  ghost function SlotOf(s: Sys, pid: nat): (i: nat)
    ensures i <= |s.procs|
    ensures if i < |s.procs| then IsPid(s.procs, pid, i) else forall k :: 0 <= k < |s.procs| ==> !IsPid(s.procs, pid, k)
  {
    if k :| 0 <= k < |s.procs| && IsPid(s.procs, pid, k) then k else |s.procs|
  }

  lemma SpawnIs(s: Sys, role: nat, allowed: bool)
    requires Inv(s) && s.mode == Normal
    ensures var y := Step(s, Spawn(role, allowed));
      StaysPut(s, y) || exists i: nat :: i < |s.procs| && s.procs[i].state == Unused && Refits(s, y, i)
  {
    hide TableOk, QueueOk, Step, LeastRuntime;
    var i: nat := FindFreeSlot(s.procs);
    var free := if i == NONE then |s.procs| else i;
    SpawnOutcome(s, role, allowed, free);
    if allowed && free < |s.procs| && s.nextPid != 0 {
      assert Refits(s, Step(s, Spawn(role, allowed)), free);
    }
  }

  lemma KillIs(s: Sys, pid: nat, code: int, ticks: nat)
    requires Inv(s) && s.mode == Normal && Step(s, Kill(pid, code, ticks)).mode != Panicked
    ensures var y := Step(s, Kill(pid, code, ticks)); ChargesOnly(s, y, false) || StaysPut(s, y)
  {
    hide TableOk, QueueOk, Step, ChargesOnly, RousedExactly;
    var i := SlotOf(s, pid);
    if i == |s.procs| { NoSuchProcess(s, pid, code, ticks); }
    else {
      KillOutcome(s, pid, code, ticks, i);
      if i == s.current { ExitChargesNobody(s, code, ticks); }
    }
  }

  lemma CollectRefits(s: Sys, i: nat, y: Sys)
    requires Inv(s) && s.mode == Normal && i < |s.procs| && Collects(s, i, y)
    ensures Refits(s, y, i)
  {
    hide TableOk, QueueOk;
  }

  lemma ReapIs(s: Sys, pid: nat)
    requires Inv(s) && s.mode == Normal
    ensures var y := Step(s, Reap(pid));
      StaysPut(s, y) || exists i: nat :: i < |s.procs| && s.procs[i].state == Zombie && Refits(s, y, i)
  {
    hide TableOk, QueueOk, Step, Refits;
    var i := SlotOf(s, pid);
    if i == |s.procs| { NoSuchProcess(s, pid, 0, 0); }
    else {
      ReapOutcome(s, pid, i);
      if s.procs[i].state == Zombie { CollectRefits(s, i, Step(s, Reap(pid))); }
    }
  }

  lemma WaitIs(s: Sys, target: nat, ticks: nat)
    requires Inv(s) && s.mode == Normal && s.current < |s.procs| && !BlocksCaller(s, Wait(target, ticks))
    ensures var y := Step(s, Wait(target, ticks));
      StaysPut(s, y) || exists i: nat :: i < |s.procs| && s.procs[i].state == Zombie && Refits(s, y, i)
  {
    hide TableOk, QueueOk, Step, Refits, BlocksCaller;
    WaitOutcome(s, target, ticks);
    if i: nat :| FirstToCollect(s, target, i) { CollectRefits(s, i, Step(s, Wait(target, ticks))); }
  }

  lemma BlockOtherIs(s: Sys, pid: nat, ticks: nat)
    requires Inv(s) && s.mode == Normal && s.current < |s.procs| && !BlocksCaller(s, Block(pid, ticks))
    ensures StaysPut(s, Step(s, Block(pid, ticks)))
  {
    hide TableOk, QueueOk, Step;
    var i := SlotOf(s, pid);
    if i == |s.procs| { NoSuchProcess(s, pid, 0, ticks); } else { BlockOtherOutcome(s, pid, ticks, i); }
  }

  lemma WakeIs(s: Sys, pid: nat)
    requires Inv(s) && s.mode == Normal
    ensures StaysPut(s, Step(s, Wake(pid)))
  {
    hide TableOk, QueueOk, Step;
    var i := SlotOf(s, pid);
    if i == |s.procs| { NoSuchProcess(s, pid, 0, 0); } else { WakeOutcome(s, pid, i); }
  }

  // ---------------------------------------------------------------- the laws

  /** Only a process that gives way by yielding is charged. The virtual runtime of any other slot changes only
      when a process moves in or a zombie is collected. */
  lemma OnlyYieldsCharge(s: Sys, op: Op, k: nat)
    requires Inv(s) && s.mode != Panicked && Step(s, op).mode != Panicked && k < |s.procs|
    ensures var y := Step(s, op);
      && |y.vruntime| == |s.vruntime| == |s.procs|
      && (y.vruntime[k] != s.vruntime[k] ==>
           || (k == s.current && y.current != k && s.mode == Normal && Yields(op))
           || (op.Spawn? && s.procs[k].state == Unused)
           || ((op.Reap? || op.Wait?) && s.procs[k].state == Zombie))
  {
    hide TableOk, QueueOk, Step;
    if s.mode == Normal { NormalStepIs(s, op); }
    else if s.mode == Starting { StartingStepIs(s, op, k); }
    else { IdleStepIs(s, op); }
  }

  lemma StartingStepIs(s: Sys, op: Op, k: nat)
    requires Inv(s) && s.mode == Starting && Step(s, op).mode != Panicked && k < |s.procs|
    ensures var y := Step(s, op);
      && |y.vruntime| == |s.vruntime| == |s.procs| && |y.execStart| == |s.procs|
      && (y.vruntime[k] != s.vruntime[k] ==> op.Spawn? && s.procs[k].state == Unused)
      && ((y.mode == Starting && y.current == s.current)
          || (y.mode == Normal && y.current < |s.procs| && y.execStart[y.current] == y.clock))
  {
    hide TableOk, QueueOk, MinVruntime, Pick, Ranks;
    if op.Run? { var ps, queued := RunOutcome(s, op.ticks); }
  }

  lemma IdleStepIs(s: Sys, op: Op)
    requires Inv(s) && s.mode == Idle
    ensures ChargesOnly(s, Step(s, op), false)
  {
    hide TableOk, QueueOk, GivesWay;
    if op.IdleWake? {
      hide Step;
      var ps, queued := IdleOutcome(s, op.ticks);
      if queued != {} {
        assert ps[s.current].state != Running;
        GivesWayCharges(s, ps, queued, Step(s, op));
      }
    }
  }

  lemma StepKeepsStart(s: Sys, op: Op)
    requires Inv(s) && (Step(s, op).mode == Normal || Step(s, op).mode == Idle)
    ensures var y := Step(s, op);
      && y.current < |y.execStart|
      && (if y.current != s.current then y.execStart[y.current] == y.clock
          else (s.mode == Normal || s.mode == Idle) && y.current < |s.execStart| && y.execStart[y.current] == s.execStart[s.current])
  {
    hide TableOk, QueueOk, Step;
    if s.mode == Normal { NormalStepIs(s, op); }
    else if s.mode == Starting && |s.procs| > 0 { StartingStepIs(s, op, 0); }
    else if s.mode == Starting { NothingStarts(s, op); }
    else if s.mode == Idle { IdleStepIs(s, op); }
    else { HaltedStays(s, op); }
  }

  lemma NothingStarts(s: Sys, op: Op)
    requires Inv(s) && s.mode == Starting && |s.procs| == 0
    ensures Step(s, op).mode != Normal && Step(s, op).mode != Idle
  {
    hide TableOk, QueueOk;
    if op.Run? { TicksKeepSize(s, op.ticks); }
  }

  lemma HaltedStays(s: Sys, op: Op)
    requires Inv(s) && s.mode == Panicked
    ensures Step(s, op) == s
  {
  }

  /** Over all runs, the start from which the current process is charged is the tick at which it took over. */
  lemma {:induction false} StartIsTakeover(n: nat, ops: seq<Op>)
    requires n <= NONE
    ensures var s := RunOf(BootState(n), ops);
      s.mode == Normal || s.mode == Idle ==> s.current < |s.execStart| && s.execStart[s.current] == TookOver(BootState(n), ops)
  {
    if ops != [] {
      hide TableOk, QueueOk, Step;
      var before := RunOf(BootState(n), ops[..|ops| - 1]);
      StartIsTakeover(n, ops[..|ops| - 1]);
      assert RunOf(BootState(n), ops) == Step(before, ops[|ops| - 1]);
      if RunOf(BootState(n), ops).mode == Normal || RunOf(BootState(n), ops).mode == Idle { StepKeepsStart(before, ops[|ops| - 1]); }
    }
  }

  /** The charge of one yield, from a known start. */
  lemma YieldChargesFrom(s: Sys, ticks: nat, start: nat)
    requires Inv(s) && s.mode == Normal && s.current < |s.execStart| && s.execStart[s.current] == start
    ensures var y, since := Step(s, Yield(ticks)), s.clock + ticks - start;
      && s.current < |s.vruntime|
      && y.vruntime == if y.current == s.current then s.vruntime
                       else s.vruntime[s.current := s.vruntime[s.current] + if since >= 1 then since else 1]
  {
    hide TableOk, QueueOk, Step;
    if Step(s, Yield(ticks)).current != s.current { YieldCharges(s, ticks); } else { YieldChargesOnly(s, Yield(ticks)); }
  }

  /** Law of the charge, over all runs: a process that yields and gives way is charged the ticks that have come
      since it took over, but at least one, and nobody else is charged. */
  lemma YieldChargesSinceTakeover(n: nat, ops: seq<Op>, ticks: nat)
    requires n <= NONE
    ensures var s := RunOf(BootState(n), ops);
      s.mode == Normal ==>
        var y, since := Step(s, Yield(ticks)), s.clock + ticks - TookOver(BootState(n), ops);
        && s.current < |s.vruntime|
        && y.vruntime == if y.current == s.current then s.vruntime
                         else s.vruntime[s.current := s.vruntime[s.current] + if since >= 1 then since else 1]
  {
    hide Inv, Step, RunOf, TookOver;
    var s := RunOf(BootState(n), ops);
    StartIsTakeover(n, ops);
    if s.mode == Normal { YieldChargesFrom(s, ticks, TookOver(BootState(n), ops)); }
  }

  // ---------------------------------------------------------------- exit codes

  /** The operation ends the process `pid` with that code: its own exit, or a kill by anyone. */
  ghost predicate Gives(s: Sys, op: Op, pid: nat, code: int) {
    && s.mode == Normal && s.current < |s.procs|
    && match op
       case Exit(c, _) => c == code && pid == s.procs[s.current].pid
       case Kill(p, c, _) => c == code && pid == p && exists i: nat :: IsPid(s.procs, pid, i) && s.procs[i].state != Zombie
       case _ => false
  }

  lemma StepGivesCode(s: Sys, op: Op, pid: nat)
    requires Inv(s)
    ensures var y := Step(s, op);
      pid in y.exits ==> (pid in s.exits && y.exits[pid] == s.exits[pid]) || Gives(s, op, pid, y.exits[pid])
  {
    hide TableOk, QueueOk, Step;
    if s.mode == Normal && op.Exit? { ExitGivesCode(s, op.code, op.ticks); }
    else if s.mode == Normal && op.Kill? { KillGivesCode(s, op.pid, op.code, op.ticks); }
    else { OthersGiveNone(s, op); }
  }

  lemma ExitGivesCode(s: Sys, code: int, ticks: nat)
    requires Inv(s) && s.mode == Normal
    ensures s.current < |s.procs| && Step(s, Exit(code, ticks)).exits == s.exits[s.procs[s.current].pid := code]
  {
    hide TableOk, QueueOk, Step, GivesWay, RousedExactly;
    var z, ps, queued := ExitOutcome(s, code, ticks);
  }

  lemma KillGivesCode(s: Sys, pid: nat, code: int, ticks: nat)
    requires Inv(s) && s.mode == Normal
    ensures var y := Step(s, Kill(pid, code, ticks));
      y.exits == s.exits || (y.exits == s.exits[pid := code] && Gives(s, Kill(pid, code, ticks), pid, code))
  {
    hide TableOk, QueueOk, Step, RousedExactly;
    var i := SlotOf(s, pid);
    if i == |s.procs| { NoSuchProcess(s, pid, code, ticks); }
    else {
      KillOutcome(s, pid, code, ticks, i);
      if i == s.current { ExitGivesCode(s, code, ticks); }
    }
  }

  lemma OthersGiveNone(s: Sys, op: Op)
    requires Inv(s) && (s.mode == Normal ==> !op.Exit? && !op.Kill?)
    ensures Step(s, op).exits == s.exits
  {
    hide Pick, MinVruntime, TableOk, QueueOk, Yielded, IdleRound, Started, Collected, Ticks, ReadySet,
      HasChild, BlockedAt, WokenFirst, WokenChannel, FindFreeSlot;
    match op
    case Wait(target, ticks) =>
      if s.mode == Normal {
        var i := FindWaitableChild(s.procs, CurrentPid(s), target);
        if i != NONE { CollectGivesNone(s, i); }
        BlockGivesNone(s, s.current, WaitChild, target, 0, target, ticks);
      }
    case Reap(pid) =>
      if s.mode == Normal {
        var i := FindIndexByPid(s.procs, pid);
        if i != NONE { CollectGivesNone(s, i); }
      }
    case Sleep(duration, ticks) =>
      if s.mode == Normal {
        YieldKeepsHistory(s, ticks);
        BlockGivesNone(s, s.current, WaitSleepTicks, duration, s.clock + duration, 0, ticks);
      }
    case Block(pid, ticks) =>
      if s.mode == Normal {
        var i := FindIndexByPid(s.procs, pid);
        if i != NONE { BlockGivesNone(s, i, WaitManual, pid, 0, 0, ticks); }
      }
    case WaitOn(channel, ticks) => if s.mode == Normal { BlockGivesNone(s, s.current, WaitEventChannel, channel, 0, 0, ticks); }
    case Yield(ticks) => if s.mode == Normal { YieldKeepsHistory(s, ticks); }
    case Run(ticks) => if s.mode == Starting { StartGivesNone(s, ticks); }
    case IdleWake(ticks) => if s.mode == Idle { IdleGivesNone(s, ticks); }
    case _ =>
  }

  lemma CollectGivesNone(s: Sys, i: nat)
    requires Sized(s) && i < |s.procs|
    ensures Collected(s, i).exits == s.exits
  {
  }

  lemma StartGivesNone(s: Sys, ticks: nat)
    requires Sized(s)
    ensures Started(s, ticks).exits == s.exits
  {
    TicksKeepSize(s, ticks);
  }

  lemma IdleGivesNone(s: Sys, ticks: nat)
    requires Sized(s) && s.current < |s.procs|
    ensures IdleRound(s, ticks).exits == s.exits
  {
    TicksKeepSize(s, ticks);
  }

  lemma BlockGivesNone(s: Sys, i: nat, reason: WaitReason, channel: nat, wakeTick: nat, target: nat, ticks: nat)
    requires Sized(s) && s.current < |s.procs| && i < |s.procs|
    ensures var b := BlockedAt(s, i, reason, channel, wakeTick, target);
      Sized(b) && b.current == s.current && |b.procs| == |s.procs| && b.exits == s.exits && Yielded(b, ticks).exits == s.exits
  {
    hide Pick, Yielded, Ticks, ReadySet;
    YieldKeepsHistory(BlockedAt(s, i, reason, channel, wakeTick, target), ticks);
  }

  /** Operation `k` of the run ended the process `pid` with that code. */
  ghost predicate GivenAt(s: Sys, ops: seq<Op>, k: nat, pid: nat, code: int)
    requires Inv(s)
  {
    k < |ops| && Gives(RunOf(s, ops[..k]), ops[k], pid, code)
  }

  /** Over all runs, an exit code on record is the argument of an exit of that process or of a kill of it. */
  lemma {:induction false} CodeWasGiven(n: nat, ops: seq<Op>, pid: nat) returns (k: nat)
    requires n <= NONE && pid in RunOf(BootState(n), ops).exits
    ensures GivenAt(BootState(n), ops, k, pid, RunOf(BootState(n), ops).exits[pid])
  {
    hide TableOk, QueueOk, Step, Gives;
    k := 0;
    if ops == [] {
      NothingAtBoot(n);
      assert false;
    } else {
      var before, last := ops[..|ops| - 1], ops[|ops| - 1];
      var s := RunOf(BootState(n), before);
      assert RunOf(BootState(n), ops) == Step(s, last) by { StepKeepsInv(s, last); }
      StepGivesCode(s, last, pid);
      if Gives(s, last, pid, RunOf(BootState(n), ops).exits[pid]) {
        k := |ops| - 1;
      } else {
        k := CodeWasGiven(n, before, pid);
        assert before[..k] == ops[..k];
      }
    }
  }

  lemma NothingAtBoot(n: nat)
    requires n <= NONE
    ensures RunOf(BootState(n), []).exits == map[]
  {
  }

  /** So the code a parent collects, with wait or reap, is the one that the exit or the kill gave. */
  lemma CollectedCodeWasGiven(n: nat, ops: seq<Op>, pid: nat) returns (k: nat)
    requires n <= NONE && RunOf(BootState(n), ops).mode != Panicked && pid in RunOf(BootState(n), ops).reaps
    ensures GivenAt(BootState(n), ops, k, pid, RunOf(BootState(n), ops).reaps[pid])
  {
    hide PidsOk, WaitsOk, SleepersOk, QueueOk, RunOf, GivenAt;
    assert HistoryOk(RunOf(BootState(n), ops));
    k := CodeWasGiven(n, ops, pid);
  }

  // ---------------------------------------------------------------- a sleep that is charged

  /** The time asleep is charged too when a process resumes itself, as its start is set only at a change of the
      current process: a parent sleeps for `d` ticks, picks itself, and is charged them all at its next yield. */
  lemma SleepIsCharged(d: nat) returns (s: Sys)
    requires d > 0
    ensures Inv(InitialSys(2)) && s == RunOf(InitialSys(2), [Spawn(1, true), Run(0), Spawn(1, true), Sleep(d, d)])
    ensures Inv(s) && s.mode == Normal && |s.vruntime| == 2 && s.vruntime[0] == 0
    ensures var y := Step(s, Yield(1)); y.current == 1 && |y.vruntime| == 2 && y.vruntime[0] == d + 1
  {
    hide TableOk, QueueOk, Step, RunOf;
    InitialInv(2);
    var s1 := ParentSpawned();
    var s2 := ParentRuns(s1);
    StepKeepsInv(InitialSys(2), Spawn(1, true));
    StepKeepsInv(s1, Run(0));
    StepKeepsInv(s2, Spawn(1, true));
    var s3 := ChildSpawned(s2);
    SpawnKeepsStarts(s2);
    RunOfFour(InitialSys(2), Spawn(1, true), Run(0), Spawn(1, true), Sleep(d, d));
    StepKeepsInv(s3, Sleep(d, d));
    s := SleepsAndResumes(s3, d);
    PaysForSleep(s, d);
  }

  lemma SpawnKeepsStarts(s: Sys)
    requires Inv(s) && s.mode == Normal && |s.procs| == 2 && s.procs[0].state == Running && s.procs[1].state == Unused
    requires s.execStart == [0, 0] && s.clock == 0
    ensures Step(s, Spawn(1, true)).execStart == [0, 0] && Step(s, Spawn(1, true)).clock == 0
  {
    hide TableOk, QueueOk, Step, LeastRuntime;
    SpawnOutcome(s, 1, true, 1);
  }

  lemma SleepsAndResumes(s: Sys, d: nat) returns (y: Sys)
    requires Inv(s) && s.mode == Normal && s.current == 0 && s.clock == 0 && d > 0
    requires s.procs == [FreshProcess(1, 0).(state := Running), FreshProcess(2, 1)]
    requires s.vruntime == s.execStart == [0, 0]
    ensures y == Step(s, Sleep(d, d))
    ensures y.mode == Normal && y.current == 0 && y.clock == d && y.vruntime == y.execStart == [0, 0]
    ensures |y.procs| == 2 && y.procs[0].state == Running && y.procs[1].state == Ready
  {
    hide TableOk, QueueOk, Step;
    var ps, queued := BlockingOutcome(s, Sleep(d, d));
    y := Step(s, Sleep(d, d));
    assert ps[0].state == Ready && ps[0].pid == 1 && ps[1] == FreshProcess(2, 1);
    assert queued == {0, 1};
  }

  lemma PaysForSleep(s: Sys, d: nat)
    requires Inv(s) && s.mode == Normal && s.current == 0 && s.clock == d > 0 && s.vruntime == s.execStart == [0, 0]
    requires |s.procs| == 2 && s.procs[0].state == Running && s.procs[1].state == Ready
    ensures var y := Step(s, Yield(1)); y.current == 1 && |y.vruntime| == 2 && y.vruntime[0] == d + 1
  {
    hide TableOk, QueueOk, Step;
    NormalIsYielding(s);
    assert Step(s, Yield(1)) == Yielded(s, 1) by { YieldIs(s, 1); }
    var ps, queued := YieldOutcome(s, 1);
    assert ps[0] == s.procs[0] && ps[1] == s.procs[1];
    assert queued == {1};
  }

  lemma YieldIs(s: Sys, ticks: nat)
    requires Inv(s) && s.mode == Normal
    ensures Step(s, Yield(ticks)) == Yielded(s, ticks)
  {
  }
}
