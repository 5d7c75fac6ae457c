/** What each operation of the scheduler does, told by the fields of the process table alone
    (kernel/scheduler.c, process_core.c). */
module SchedulerLaws {
  import opened ProcessModel
  import opened ProcessCore
  import opened RunOrder
  import opened SchedulerModel
  import opened SchedulerSafety

  // ---------------------------------------------------------------- vocabulary

  /** The blocked process `p` is READY, and waits for nothing. */
  predicate Roused(p: Process, p': Process) {
    && p'.state == Ready && p'.waitReason == WaitNone && p'.wakeTick == p'.waitTarget == p'.waitChannel == 0
    && p'.pid == p.pid && p'.parentPid == p.parentPid && p'.role == p.role && p'.exitCode == p.exitCode
    && p'.switchCount == p.switchCount && p'.yieldCount == p.yieldCount
  }

  /** Exactly the processes that `who` describes have been roused. */
  ghost predicate RousedExactly(ps: seq<Process>, ps': seq<Process>, who: Process -> bool) {
    && |ps'| == |ps|
    && forall i :: 0 <= i < |ps| ==> if who(ps[i]) then Roused(ps[i], ps'[i]) else ps'[i] == ps[i]
  }

  /** `next` has the least virtual runtime of the queue, and of several such processes the least pid. */
  ghost predicate RunsNext(vruntime: seq<nat>, ps: seq<Process>, queued: set<nat>, next: nat)
    requires |vruntime| == |ps|
  {
    && next in queued && (forall k :: k in queued ==> k < |ps|)
    && forall k :: k in queued && k != next ==>
         vruntime[next] < vruntime[k] || (vruntime[next] == vruntime[k] && ps[next].pid < ps[k].pid)
  }

  ghost predicate IsReadySet(ps: seq<Process>, queued: set<nat>) {
    forall i :: i in queued <==> 0 <= i < |ps| && ps[i].state == Ready
  }

  /** A sleeper whose time has come at tick `clock`. */
  predicate Overslept(p: Process, clock: nat) {
    p.state == Blocked && p.waitReason == WaitSleepTicks && p.wakeTick <= clock
  }

  predicate OnChannel(p: Process, channel: nat) {
    p.state == Blocked && p.waitReason == WaitEventChannel && p.waitChannel == channel
  }

  predicate AwaitsChild(p: Process, pid: nat) {
    p.state == Blocked && p.waitReason == WaitChild && (p.waitTarget == 0 || p.waitTarget == pid)
  }

  lemma {:induction false} TicksRouse(s: Sys, count: nat)
    ensures var t, clock := Ticks(s, count), s.clock + count;
      && t.clock == clock
      && RousedExactly(s.procs, t.procs, p => count > 0 && Overslept(p, clock))
      && (if count == 0 then t.queued == s.queued else IsReadySet(t.procs, t.queued))
      && t.vruntime == s.vruntime && t.execStart == s.execStart && t.current == s.current && t.mode == s.mode
      && t.nextPid == s.nextPid && t.spawned == s.spawned && t.exits == s.exits && t.reaps == s.reaps
  {
    if count > 0 { TicksRouse(s, count - 1); }
  }

  // ---------------------------------------------------------------- giving way

  /** One yield more of process `c` has been counted. */
  function WithYield(ps: seq<Process>, c: nat): (ps': seq<Process>)
    requires c < |ps|
    ensures |ps'| == |ps|
  {
    ps[c := ps[c].(yieldCount := (ps[c].yieldCount + 1) % 0x1_0000_0000)]
  }

  /** What process_yield comes to when nobody is queued. */
  ghost predicate Stalls(s: Sys, ps: seq<Process>, y: Sys)
    requires s.current < |ps|
  {
    && y.current == s.current && y.vruntime == s.vruntime && y.execStart == s.execStart && y.procs == ps && y.queued == {}
    && y.mode == if ps[s.current].state == Running then s.mode
                 else if exists i :: 0 <= i < |ps| && ps[i].state == Blocked && ps[i].waitReason == WaitSleepTicks then Idle
                 else Panicked
  }

  /** The process is the first itself: it goes on, uncharged. */
  ghost predicate Resumes(s: Sys, ps: seq<Process>, queued: set<nat>, y: Sys)
    requires s.current < |ps|
  {
    && y.current == s.current && y.vruntime == s.vruntime && y.execStart == s.execStart && y.mode == Normal
    && y.procs == ps[s.current := ps[s.current].(state := Running)] && y.queued == queued
  }

  /** Another process takes over. A process that was RUNNING is charged the ticks since its start, at least
      one, and is READY; one that was not is not charged. The start of the other is now. */
  ghost predicate HandsOver(s: Sys, ps: seq<Process>, next: nat, y: Sys)
    requires |s.vruntime| == |s.execStart| == |ps| && s.current < |ps| && next < |ps|
  {
    var c, ran := s.current, ps[s.current].state == Running;
    var charge := if !ran then 0 else if y.clock > s.execStart[c] then y.clock - s.execStart[c] else 1;
    && next != c && y.current == next && y.mode == Normal
    && y.vruntime == s.vruntime[c := s.vruntime[c] + charge]
    && y.execStart == s.execStart[c := if ran then y.clock else s.execStart[c]][next := y.clock]
    && y.procs == ps[c := ps[c].(state := if ran then Ready else ps[c].state)]
                    [next := ps[next].(state := Running, switchCount := (ps[next].switchCount + 1) % 0x1_0000_0000)]
    && IsReadySet(y.procs, y.queued)
  }

  /** The outcome of process_yield at tick `y.clock`, from the processes `ps` and the queue it finds. */
  ghost predicate GivesWay(s: Sys, ps: seq<Process>, queued: set<nat>, y: Sys)
    requires |s.vruntime| == |s.execStart| == |ps| && s.current < |ps|
  {
    if queued == {} then Stalls(s, ps, y)
    else
      exists next :: 0 <= next < |ps| && RunsNext(s.vruntime, ps, queued, next)
                     && if next == s.current then Resumes(s, ps, queued, y) else HandsOver(s, ps, next, y)
  }

  ghost predicate SameRecords(s: Sys, s': Sys) {
    s'.nextPid == s.nextPid && s'.spawned == s.spawned && s'.exits == s.exits && s'.reaps == s.reaps
  }

  /** process_yield from any state in which an operation calls it. After `ticks` timer interrupts the overdue
      sleepers are READY, in `ps`, and the queue is `queued`: the READY processes when a tick has come, and as
      it was otherwise. Whoever runs next of that queue takes over. */
  lemma YieldOutcome(s: Sys, ticks: nat) returns (ps: seq<Process>, queued: set<nat>)
    requires Yielding(s)
    ensures RousedExactly(s.procs, ps, p => ticks > 0 && Overslept(p, s.clock + ticks))
    ensures if ticks == 0 then queued == s.queued && ps == s.procs else IsReadySet(ps, queued)
    ensures Sized(s) && s.current < |s.procs| == |ps|
    ensures var y := Yielded(s, ticks);
      y.clock == s.clock + ticks && SameRecords(s, y) && GivesWay(s, WithYield(ps, s.current), queued, y)
  {
    hide Yielding, GivesWay, Roused, Dispatched;
    YieldingIsSized(s);
    TicksKeepYielding(s, ticks);
    TicksRouse(s, ticks);
    var t := Ticks(s, ticks);
    ps, queued := t.procs, t.queued;
    YieldingIsSized(t);
    DispatchOutcome(t);
    GivesWayBefore(s, t, WithYield(ps, s.current), queued, Yielded(s, ticks));
  }

  lemma YieldingIsSized(s: Sys)
    requires Yielding(s)
    ensures Sized(s) && s.current < |s.procs| && forall k :: k in s.queued ==> k < |s.procs|
  {
  }

  lemma GivesWayBefore(s: Sys, t: Sys, ps: seq<Process>, queued: set<nat>, y: Sys)
    requires |s.vruntime| == |s.execStart| == |ps| && s.current < |ps|
    requires t.vruntime == s.vruntime && t.execStart == s.execStart && t.current == s.current && t.mode == s.mode
    requires GivesWay(t, ps, queued, y)
    ensures GivesWay(s, ps, queued, y)
  {
  }

  lemma DispatchOutcome(t: Sys)
    requires Yielding(t)
    ensures Sized(t) && t.current < |t.procs|
    ensures var y := Dispatched(CountedYield(t));
      y.clock == t.clock && SameRecords(t, y) && GivesWay(t, WithYield(t.procs, t.current), t.queued, y)
  {
    hide TableOk, IsFirst, RunsNext;
    CountKeepsYielding(t);
    var u := CountedYield(t);
    assert u.procs == WithYield(t.procs, t.current);
    PickIsFirst(u);
    if u.queued != {} {
      FirstRunsNext(u, Pick(u));
      assert RunsNext(t.vruntime, u.procs, t.queued, Pick(u));
    }
  }

  lemma FirstRunsNext(u: Sys, next: nat)
    requires Yielding(u) && Sized(u) && IsFirst(Ranks(u.vruntime, u.procs), u.queued, next)
    ensures RunsNext(u.vruntime, u.procs, u.queued, next)
  {
    hide TableOk;
    forall k | k in u.queued && k != next
      ensures u.vruntime[next] < u.vruntime[k] || (u.vruntime[next] == u.vruntime[k] && u.procs[next].pid < u.procs[k].pid)
    {
      assert RunsBefore(Ranks(u.vruntime, u.procs), next, k);
      PidsDiffer(u, next, k);
    }
  }

  lemma PidsDiffer(u: Sys, a: nat, b: nat)
    requires Yielding(u) && a in u.queued && b in u.queued && a != b
    ensures a < |u.procs| && b < |u.procs| && u.procs[a].pid != u.procs[b].pid
  {
  }

  /** Law of the charge: a process that yields and gives way pays the ticks since its start, at least one. */
  lemma YieldCharges(s: Sys, ticks: nat)
    requires Inv(s) && s.mode == Normal && Step(s, Yield(ticks)).current != s.current
    ensures var y, c, now := Step(s, Yield(ticks)), s.current, s.clock + ticks;
      && |y.vruntime| == |y.execStart| == |s.vruntime| == |s.execStart| && c < |s.vruntime| && y.current < |s.vruntime|
      && y.vruntime == s.vruntime[c := s.vruntime[c] + if now > s.execStart[c] then now - s.execStart[c] else 1]
      && y.execStart[y.current] == now == y.clock
  {
    hide TableOk, QueueOk, Yielded, Yielding, RunsNext;
    NormalIsYielding(s);
    var ps, queued := YieldOutcome(s, ticks);
    assert ps[s.current] == s.procs[s.current];
  }

  // ---------------------------------------------------------------- blocking

  /** Slot `i` holds the only process with that pid. */
  predicate IsPid(ps: seq<Process>, pid: nat, i: nat) {
    i < |ps| && ps[i].state != Unused && ps[i].pid == pid && pid != 0
  }

  predicate ChildOf(p: Process, parent: nat, target: nat) {
    p.state != Unused && p.parentPid == parent && (target == 0 || p.pid == target)
  }

  /** What the caller's entry becomes when the operation blocks it. */
  function Blocking(s: Sys, p: Process, op: Op): Process {
    match op
    case Sleep(d, _) => p.(state := Blocked, waitReason := WaitSleepTicks, waitChannel := d, wakeTick := s.clock + d, waitTarget := 0)
    case WaitOn(ch, _) => p.(state := Blocked, waitReason := WaitEventChannel, waitChannel := ch, wakeTick := 0, waitTarget := 0)
    case Wait(t, _) => p.(state := Blocked, waitReason := WaitChild, waitChannel := t, wakeTick := 0, waitTarget := t)
    case Block(pid, _) => p.(state := Blocked, waitReason := WaitManual, waitChannel := pid, wakeTick := 0, waitTarget := 0)
    case _ => p
  }

  /** The operation blocks its caller: a sleep of some ticks, a wait on a channel, a wait for a child that is
      there and alive, or a block of oneself. */
  ghost predicate BlocksCaller(s: Sys, op: Op)
    requires s.current < |s.procs|
  {
    var ps, me := s.procs, s.procs[s.current].pid;
    match op
    case Sleep(d, _) => d > 0
    case WaitOn(_, _) => true
    case Wait(t, _) =>
      && (exists i :: 0 <= i < |ps| && ChildOf(ps[i], me, t))
      && !exists i :: 0 <= i < |ps| && ChildOf(ps[i], me, t) && ps[i].state == Zombie
    case Block(pid, _) => pid == me
    case _ => false
  }

  /** The caller is blocked as the operation says, its timer interrupts rouse whoever has overslept, maybe
      the caller itself, and the first of the READY processes takes over. */
  lemma BlockingOutcome(s: Sys, op: Op) returns (ps: seq<Process>, queued: set<nat>)
    requires Inv(s) && s.mode == Normal && BlocksCaller(s, op)
    ensures Sized(s) && s.current < |s.procs| == |ps|
    ensures RousedExactly(s.procs[s.current := Blocking(s, s.procs[s.current], op)], ps,
                          p => op.ticks > 0 && Overslept(p, s.clock + op.ticks))
    ensures IsReadySet(ps, queued)
    ensures var y := Step(s, op);
      y.clock == s.clock + op.ticks && SameRecords(s, y) && GivesWay(s, WithYield(ps, s.current), queued, y)
  {
    hide TableOk, QueueOk, Yielding, Yielded, GivesWay, RousedExactly, FindIndexByPid, FindWaitableChild;
    var c := s.current;
    BlockingIs(s, op);
    var b := s.(procs := s.procs[c := Blocking(s, s.procs[c], op)], queued := ReadySet(s.procs[c := Blocking(s, s.procs[c], op)]));
    match op {
      case Sleep(d, _) => BlockIsYielding(s, WaitSleepTicks, d, s.clock + d);
      case WaitOn(ch, _) => BlockIsYielding(s, WaitEventChannel, ch, 0);
      case Wait(t, _) => WaitIsYielding(s, t);
      case Block(pid, _) => BlockIsYielding(s, WaitManual, pid, 0);
    }
    ps, queued := YieldOutcome(b, op.ticks);
    GivesWayBefore(s, b, WithYield(ps, c), queued, Step(s, op));
  }

  lemma BlockingIs(s: Sys, op: Op)
    requires Inv(s) && s.mode == Normal && BlocksCaller(s, op)
    ensures var c := s.current;
      var ps := s.procs[c := Blocking(s, s.procs[c], op)];
      Step(s, op) == Yielded(s.(procs := ps, queued := ReadySet(ps)), op.ticks)
    ensures op.Wait? ==> FindWaitableChild(s.procs, CurrentPid(s), op.target) == NONE && HasChild(s.procs, CurrentPid(s), op.target)
  {
    hide QueueOk, Yielded;
    if op.Block? { PidFound(s, op.pid, s.current); }
    if op.Wait? {
      var me := s.procs[s.current].pid;
      var i :| 0 <= i < |s.procs| && ChildOf(s.procs[i], me, op.target);
      assert IsChild(s.procs[i], me, op.target);
    }
  }

  lemma PidFound(s: Sys, pid: nat, i: nat)
    requires Inv(s) && s.mode != Panicked && IsPid(s.procs, pid, i)
    ensures FindIndexByPid(s.procs, pid) == i
  {
    hide QueueOk;
  }

  lemma PidNotFound(s: Sys, pid: nat)
    requires Sized(s) && forall i :: 0 <= i < |s.procs| ==> !IsPid(s.procs, pid, i)
    ensures FindIndexByPid(s.procs, pid) == NONE
  {
    if pid != 0 {
      forall i | 0 <= i < |s.procs| ensures !(s.procs[i].state != Unused && s.procs[i].pid == pid) { assert !IsPid(s.procs, pid, i); }
    }
  }

  // ---------------------------------------------------------------- waking

  lemma TickOutcome(s: Sys)
    requires Sized(s) && (s.mode == Normal || s.mode == Starting) && (s.mode == Normal ==> s.current < |s.procs|)
    ensures var y := Step(s, TimerTick);
      && RousedExactly(s.procs, y.procs, p => Overslept(p, s.clock + 1)) && IsReadySet(y.procs, y.queued)
      && y == s.(clock := s.clock + 1, procs := y.procs, queued := y.queued)
  {
  }

  /** A wake of a channel rouses exactly those blocked on it. */
  lemma WakeAllOutcome(s: Sys, channel: nat)
    requires Sized(s) && s.mode == Normal && s.current < |s.procs|
    ensures var y := Step(s, WakeAll(channel));
      && RousedExactly(s.procs, y.procs, p => OnChannel(p, channel)) && IsReadySet(y.procs, y.queued)
      && y == s.(procs := y.procs, queued := y.queued)
  {
  }

  /** A wake by pid rouses that process, if it is blocked. */
  lemma WakeOutcome(s: Sys, pid: nat, i: nat)
    requires Inv(s) && s.mode == Normal && IsPid(s.procs, pid, i)
    ensures var y := Step(s, Wake(pid));
      && |y.procs| == |s.procs| && (if s.procs[i].state == Blocked then Roused(s.procs[i], y.procs[i]) else y.procs[i] == s.procs[i])
      && IsReadySet(y.procs, y.queued) && y == s.(procs := s.procs[i := y.procs[i]], queued := y.queued)
  {
    hide TableOk, QueueOk, FindIndexByPid;
    PidFound(s, pid, i);
  }

  /** A pid that no process has: nobody is woken, blocked, killed or collected. */
  lemma NoSuchProcess(s: Sys, pid: nat, code: int, ticks: nat)
    requires Inv(s) && s.mode == Normal && forall i :: 0 <= i < |s.procs| ==> !IsPid(s.procs, pid, i)
    ensures Step(s, Wake(pid)) == Step(s, Block(pid, ticks)) == Step(s, Kill(pid, code, ticks)) == Step(s, Reap(pid)) == s
  {
    hide TableOk, QueueOk, FindIndexByPid;
    PidNotFound(s, pid);
  }

  /** Blocking another process by hand: a READY one waits until it is woken by hand, any other is left alone. */
  lemma BlockOtherOutcome(s: Sys, pid: nat, ticks: nat, i: nat)
    requires Inv(s) && s.mode == Normal && IsPid(s.procs, pid, i) && i != s.current
    ensures var y := Step(s, Block(pid, ticks));
      if s.procs[i].state != Ready then y == s
      else
        && y == s.(procs := s.procs[i := Blocking(s, s.procs[i], Block(pid, ticks))], queued := y.queued)
        && IsReadySet(y.procs, y.queued)
  {
    hide TableOk, QueueOk, FindIndexByPid, Yielded;
    PidFound(s, pid, i);
  }

  /** How many slots the round that starts behind `current` passes before it comes to slot `i`. */
  function Distance(n: nat, current: nat, i: nat): nat
    requires current < n && i < n
  {
    if i > current then i - current - 1 else n - 1 - current + i
  }

  /** Waking one waiter of a channel rouses the one that is nearest behind the current slot, going round. */
  lemma WakeOneOutcome(s: Sys, channel: nat)
    requires Inv(s) && s.mode == Normal
    ensures Sized(s) && s.current < |s.procs|
    ensures var y := Step(s, WakeOne(channel));
      && |y.procs| == |s.procs| && IsReadySet(y.procs, y.queued) && y == s.(procs := y.procs, queued := y.queued)
      && if forall i :: 0 <= i < |s.procs| ==> !OnChannel(s.procs[i], channel) then y.procs == s.procs
         else exists w :: && 0 <= w < |s.procs| && OnChannel(s.procs[w], channel) && Roused(s.procs[w], y.procs[w])
                          && y.procs == s.procs[w := y.procs[w]]
                          && forall i :: 0 <= i < |s.procs| && OnChannel(s.procs[i], channel) ==>
                               Distance(|s.procs|, s.current, w) <= Distance(|s.procs|, s.current, i)
  {
    hide TableOk, QueueOk;
    var w := FirstWaiter(s.procs, channel, s.current, 0);
    NearestWaiter(s.procs, channel, s.current, 0);
    if w != NONE { assert OnChannel(s.procs[w], channel); }
  }

  lemma {:induction false} NearestWaiter(ps: seq<Process>, channel: nat, current: nat, offset: nat)
    requires 0 < |ps| <= NONE && current < |ps| && offset <= |ps|
    requires forall i :: 0 <= i < |ps| && OnChannel(ps[i], channel) ==> Distance(|ps|, current, i) >= offset
    ensures var w := FirstWaiter(ps, channel, current, offset);
      if w == NONE then forall i :: 0 <= i < |ps| ==> !OnChannel(ps[i], channel)
      else w < |ps| && forall i :: 0 <= i < |ps| && OnChannel(ps[i], channel) ==> Distance(|ps|, current, w) <= Distance(|ps|, current, i)
    decreases |ps| - offset
  {
    if offset < |ps| {
      SlotAtDistance(|ps|, current, offset);
      if !OnChannel(ps[RoundSlot(|ps|, current, offset)], channel) { NearestWaiter(ps, channel, current, offset + 1); }
    }
  }

  lemma SlotAtDistance(n: nat, current: nat, offset: nat)
    requires current < n <= NONE && offset < n
    ensures forall i :: 0 <= i < n ==> (Distance(n, current, i) == offset <==> i == RoundSlot(n, current, offset))
  {
    hide RoundSlot;
    RoundSlotIs(n, current, offset);
  }

  lemma RoundSlotIs(n: nat, current: nat, offset: nat)
    requires current < n <= NONE && offset < n
    ensures RoundSlot(n, current, offset) == if current + 1 + offset < n then current + 1 + offset else current + 1 + offset - n
  {
    WrapOnce(current + 1 + offset, n);
  }

  lemma WrapOnce(x: nat, n: nat)
    requires x < 2 * n
    ensures x % n == if x < n then x else x - n
  {
    if x >= n { ModOf(n, 1, x - n); } else { ModOf(n, 0, x); }
  }

  // ---------------------------------------------------------------- the end of a process

  /** The process of slot `i` is a zombie with its exit code on record, and exactly those who wait for it or
      for any child are roused. */
  ghost predicate Ends(s: Sys, i: nat, code: int, z: Sys)
    requires i < |s.procs|
  {
    var pid := s.procs[i].pid;
    && RousedExactly(s.procs[i := s.procs[i].(state := Zombie, exitCode := code)], z.procs,
                     p => AwaitsChild(p, pid))
    && z == s.(procs := z.procs, queued := z.queued, exits := s.exits[pid := code])
  }

  /** exit: the caller ends with the code, the queue stays as it is, and process_yield follows, which must
      not come back to the caller. */
  lemma ExitOutcome(s: Sys, code: int, ticks: nat) returns (z: Sys, ps: seq<Process>, queued: set<nat>)
    requires Inv(s) && s.mode == Normal
    ensures s.current < |s.procs| && Ends(s, s.current, code, z) && z.queued == s.queued && Sized(z) && |ps| == |z.procs| == |s.procs|
    ensures RousedExactly(z.procs, ps, p => ticks > 0 && Overslept(p, s.clock + ticks))
    ensures if ticks == 0 then queued == z.queued else IsReadySet(ps, queued)
    ensures var y := Step(s, Exit(code, ticks));
      && y.clock == s.clock + ticks && SameRecords(z, y)
      && if queued != {} && RunsNext(s.vruntime, ps, queued, s.current) then y.mode == Panicked
         else GivesWay(z, WithYield(ps, s.current), queued, y)
  {
    hide TableOk, QueueOk, Yielding, Yielded, Roused, GivesWay;
    ExitIsYielding(s, code);
    z := Zombified(s, s.current, code);
    ZombieEnds(s, s.current, code);
    ps, queued := YieldOutcome(z, ticks);
    assert ps[s.current] == z.procs[s.current];
    PanicsOnReturn(z, WithYield(ps, s.current), queued, Yielded(z, ticks));
    SameRanks(s.vruntime, ps, queued, s.current);
  }

  lemma ZombieEnds(s: Sys, i: nat, code: int)
    requires i < |s.procs|
    ensures Ends(s, i, code, Zombified(s, i, code)) && Ends(s, i, code, Synced(Zombified(s, i, code)))
  {
  }

  lemma SameRanks(vruntime: seq<nat>, ps: seq<Process>, queued: set<nat>, c: nat)
    requires |vruntime| == |ps| && c < |ps|
    ensures forall next :: RunsNext(vruntime, ps, queued, next) <==> RunsNext(vruntime, WithYield(ps, c), queued, next)
  {
  }

  lemma PanicsOnReturn(z: Sys, ps: seq<Process>, queued: set<nat>, y: Sys)
    requires |z.vruntime| == |z.execStart| == |ps| && z.current < |ps| && ps[z.current].state == Zombie && GivesWay(z, ps, queued, y)
    ensures y.mode == Normal && y.current == z.current <==> queued != {} && RunsNext(z.vruntime, ps, queued, z.current)
  {
  }

  /** Killing another process: it ends with the code unless it has ended already. Killing oneself is exit. */
  lemma KillOutcome(s: Sys, pid: nat, code: int, ticks: nat, i: nat)
    requires Inv(s) && s.mode == Normal && IsPid(s.procs, pid, i)
    ensures var y := Step(s, Kill(pid, code, ticks));
      if i == s.current then y == Step(s, Exit(code, ticks))
      else if s.procs[i].state == Zombie then y == s
      else Ends(s, i, code, y) && IsReadySet(y.procs, y.queued)
  {
    hide TableOk, QueueOk, Exited, Ends, FindIndexByPid;
    PidFound(s, pid, i);
    ZombieEnds(s, i, code);
  }

  /** The zombie of slot `i` is collected: its code is on record, and the slot is as it was at boot. */
  ghost predicate Collects(s: Sys, i: nat, y: Sys)
    requires Sized(s) && i < |s.procs|
  {
    && s.procs[i].state == Zombie
    && y == s.(procs := s.procs[i := Process(0, 0, 0, Unused, 0, 0, 0, 0, 0, WaitNone, 0)], vruntime := s.vruntime[i := 0],
               execStart := s.execStart[i := 0], queued := y.queued, reaps := s.reaps[s.procs[i].pid := s.procs[i].exitCode])
    && y.queued == s.queued - {i}
  }

  /** reap collects the process of that pid if it is a zombie. */
  lemma ReapOutcome(s: Sys, pid: nat, i: nat)
    requires Inv(s) && s.mode == Normal && IsPid(s.procs, pid, i)
    ensures Sized(s) && if s.procs[i].state == Zombie then Collects(s, i, Step(s, Reap(pid))) else Step(s, Reap(pid)) == s
  {
    hide TableOk, QueueOk, FindIndexByPid;
    PidFound(s, pid, i);
  }

  /** Slot `i` holds the first zombie child of the caller that the wait asks for. */
  ghost predicate FirstToCollect(s: Sys, target: nat, i: nat)
    requires s.current < |s.procs|
  {
    var me := s.procs[s.current].pid;
    && i < |s.procs| && ChildOf(s.procs[i], me, target) && s.procs[i].state == Zombie
    && forall j :: 0 <= j < i && ChildOf(s.procs[j], me, target) ==> s.procs[j].state != Zombie
  }

  /** waitpid collects the first zombie child that it asks for; without one it blocks, or changes nothing. */
  lemma WaitOutcome(s: Sys, target: nat, ticks: nat)
    requires Inv(s) && s.mode == Normal
    ensures Sized(s) && s.current < |s.procs|
    ensures forall i: nat :: FirstToCollect(s, target, i) ==> Collects(s, i, Step(s, Wait(target, ticks)))
    ensures (exists i: nat :: FirstToCollect(s, target, i)) || BlocksCaller(s, Wait(target, ticks)) || Step(s, Wait(target, ticks)) == s
  {
    hide QueueOk, WaitsOk, SleepersOk, HistoryOk, Yielded;
    var me := s.procs[s.current].pid;
    var child := FindWaitableChild(s.procs, me, target);
    forall i | 0 <= i < |s.procs| ensures ChildOf(s.procs[i], me, target) <==> IsChild(s.procs[i], me, target) {}
    if child != NONE { assert FirstToCollect(s, target, child); }
  }

  // ---------------------------------------------------------------- spawn, the first run, and the wait for an interrupt

  /** The least virtual runtime of the READY and RUNNING processes, 0 when there are none. */
  ghost predicate LeastRuntime(s: Sys, v: nat)
    requires |s.vruntime| == |s.procs|
  {
    && (forall k :: 0 <= k < |s.procs| && s.procs[k].state in {Ready, Running} ==> v <= s.vruntime[k])
    && if exists k :: 0 <= k < |s.procs| && s.procs[k].state in {Ready, Running}
       then exists k :: 0 <= k < |s.procs| && s.procs[k].state in {Ready, Running} && v == s.vruntime[k]
       else v == 0
  }

  /** A spawn puts a READY child of the caller in the first unused slot, with the next pid, the least virtual
      runtime and a start of 0; refused, without a slot or without a pid it changes nothing. */
  lemma SpawnOutcome(s: Sys, role: nat, allowed: bool, i: nat)
    requires Inv(s) && (s.mode == Normal || s.mode == Starting)
    requires i <= |s.procs| && (forall j :: 0 <= j < i ==> s.procs[j].state != Unused) && (i < |s.procs| ==> s.procs[i].state == Unused)
    ensures Sized(s)
    ensures var y := Step(s, Spawn(role, allowed));
      if !allowed || i == |s.procs| || s.nextPid == 0 then y == s
      else
        && |y.vruntime| == |s.vruntime| && LeastRuntime(s, y.vruntime[i]) && IsReadySet(y.procs, y.queued)
        && y == s.(procs := s.procs[i := Process(s.nextPid, if s.mode == Normal then s.procs[s.current].pid else 0, role, Ready,
                                                 0, 0, 0, 0, 0, WaitNone, 0)],
                   vruntime := s.vruntime[i := y.vruntime[i]], execStart := s.execStart[i := 0], queued := y.queued,
                   nextPid := (s.nextPid + 1) % 0x1_0000_0000, spawned := s.spawned + {s.nextPid})
  {
    hide TableOk, MinVruntime, Pick;
    MinIsLeast(s);
  }

  lemma MinIsLeast(s: Sys)
    requires Inv(s) && (s.mode == Normal || s.mode == Starting)
    ensures Sized(s) && LeastRuntime(s, MinVruntime(s))
  {
    hide TableOk, IsFirst;
    PickIsFirst(s);
    var first, c := Pick(s), s.current;
    forall k | 0 <= k < |s.procs| && s.procs[k].state in {Ready, Running} ensures k == c || k in s.queued {}
    if s.queued != {} {
      forall k | k in s.queued ensures s.vruntime[first] <= s.vruntime[k] { FirstIsLeast(s, first, k); }
      assert s.procs[first].state in {Ready, Running};
    }
    if s.mode == Normal { assert s.procs[c].state in {Ready, Running}; }
  }

  lemma FirstIsLeast(s: Sys, first: nat, k: nat)
    requires Sized(s) && IsFirst(Ranks(s.vruntime, s.procs), s.queued, first) && k in s.queued
    ensures first in s.queued && first < |s.procs| && k < |s.procs| && s.vruntime[first] <= s.vruntime[k]
  {
    if k != first { assert RunsBefore(Ranks(s.vruntime, s.procs), first, k); }
  }

  /** The first process runs, from now on. */
  ghost predicate StartsFirst(s: Sys, ps: seq<Process>, next: nat, y: Sys)
    requires |s.execStart| == |ps| && next < |ps|
  {
    && y.current == next && y.mode == Normal && y.procs == ps[next := ps[next].(state := Running)]
    && y.execStart == s.execStart[next := y.clock] && IsReadySet(y.procs, y.queued)
  }

  /** scheduler_run starts the first of the queue, or panics when nobody is queued. */
  lemma RunOutcome(s: Sys, ticks: nat) returns (ps: seq<Process>, queued: set<nat>)
    requires Inv(s) && s.mode == Starting
    ensures Sized(s) && |ps| == |s.procs|
    ensures RousedExactly(s.procs, ps, p => ticks > 0 && Overslept(p, s.clock + ticks)) && IsReadySet(ps, queued)
    ensures var y := Step(s, Run(ticks));
      && y.clock == s.clock + ticks && SameRecords(s, y) && y.vruntime == s.vruntime
      && if queued == {} then y.mode == Panicked && y.procs == ps
         else exists next :: 0 <= next < |ps| && RunsNext(s.vruntime, ps, queued, next) && StartsFirst(s, ps, next, y)
  {
    hide TableOk, Roused, IsFirst, RunsNext, RousedExactly;
    TicksRouse(s, ticks);
    TicksKeepStarting(s, ticks);
    var t := Ticks(s, ticks);
    ps, queued := t.procs, t.queued;
    StartingQueue(t);
    PickIsFirst(t);
    if queued != {} { FirstOfTable(t, Pick(t)); }
  }

  lemma StartingQueue(t: Sys)
    requires Inv(t) && t.mode == Starting
    ensures Sized(t) && TableOk(t) && IsReadySet(t.procs, t.queued)
  {
    hide TableOk;
  }

  lemma FirstOfTable(t: Sys, next: nat)
    requires TableOk(t) && Sized(t) && IsFirst(Ranks(t.vruntime, t.procs), t.queued, next) && IsReadySet(t.procs, t.queued)
    ensures RunsNext(t.vruntime, t.procs, t.queued, next)
  {
    forall k | k in t.queued && k != next
      ensures t.vruntime[next] < t.vruntime[k] || (t.vruntime[next] == t.vruntime[k] && t.procs[next].pid < t.procs[k].pid)
    {
      assert RunsBefore(Ranks(t.vruntime, t.procs), next, k);
    }
  }

  /** One interrupt of the wait inside process_yield: the READY processes are queued, and the first of them
      takes over, or goes on if it is the one that waits. */
  lemma IdleOutcome(s: Sys, ticks: nat) returns (ps: seq<Process>, queued: set<nat>)
    requires Inv(s) && s.mode == Idle
    ensures Sized(s) && s.current < |s.procs| == |ps|
    ensures RousedExactly(s.procs, ps, p => ticks > 0 && Overslept(p, s.clock + ticks)) && IsReadySet(ps, queued)
    ensures var y := Step(s, IdleWake(ticks));
      && y.clock == s.clock + ticks && SameRecords(s, y)
      && if queued == {} then y == s.(procs := ps, queued := {}, clock := y.clock) else GivesWay(s, ps, queued, y)
  {
    hide TableOk, Roused, IsFirst, HandsOver, Resumes, RunsNext, RousedExactly, Ranks, HasSleepers;
    TicksRouse(s, ticks);
    TicksKeepSize(s, ticks);
    TicksKeepTable(s, ticks);
    var t := Synced(Ticks(s, ticks));
    TableFrame(Ticks(s, ticks), t);
    ps, queued := t.procs, t.queued;
    PickIsFirst(t);
    if queued != {} {
      FirstOfTable(t, Pick(t));
      ContinuedOutcome(s, t, Pick(t));
    }
  }

  lemma ContinuedOutcome(s: Sys, t: Sys, next: nat)
    requires Sized(t) && t.current < |t.procs| && next < |t.procs| && |s.vruntime| == |s.execStart| == |t.procs|
    requires t.vruntime == s.vruntime && t.execStart == s.execStart && t.current == s.current
    ensures if next == s.current then Resumes(s, t.procs, t.queued, Continued(t, next)) else HandsOver(s, t.procs, next, Continued(t, next))
  {
  }
}
