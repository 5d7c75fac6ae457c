/** Bounded waiting: how often others can run before a READY process does. */
module Fairness {
  import opened ProcessModel
  import opened ProcessCore
  import opened RunOrder
  import opened SchedulerModel
  import opened SchedulerSafety

  /** Only yielding goes on: everything READY is queued, and nobody sleeps. */
  ghost predicate OnlyYielding(s: Sys) {
    Inv(s) && s.mode == Normal && s.queued == ReadySet(s.procs) && !HasSleepers(s.procs)
  }

  predicate Contends(p: Process) { p.state == Ready || p.state == Running }

  /** How far slot `j` may still run ahead of a process at virtual time `v`. */
  function Lead(s: Sys, v: nat, i: nat, j: nat): nat
    requires Sized(s) && j < |s.procs|
  {
    if j != i && Contends(s.procs[j]) && s.vruntime[j] <= v then v + 1 - s.vruntime[j] else 0
  }

  function TotalLead(s: Sys, v: nat, i: nat, n: nat): nat
    requires Sized(s) && n <= |s.procs|
  {
    if n == 0 then 0 else TotalLead(s, v, i, n - 1) + Lead(s, v, i, n - 1)
  }

  /** The bound: everybody's lead over slot `i`, plus one switch if the running process has none. */
  function Bound(s: Sys, i: nat): nat
    requires Sized(s) && i < |s.procs| && s.current < |s.procs|
  {
    TotalLead(s, s.vruntime[i], i, |s.procs|) + (if s.vruntime[s.current] <= s.vruntime[i] then 0 else 1)
  }

  function YieldRun(s: Sys, ticks: seq<nat>): (s': Sys)
    requires Sized(s) && s.current < |s.procs|
    ensures Sized(s') && s'.current < |s'.procs| == |s.procs|
    decreases |ticks|
  {
    if ticks == [] then s
    else
      YieldKeepsSize(s, ticks[0]);
      YieldStaysInside(s, ticks[0]);
      YieldRun(Yielded(s, ticks[0]), ticks[1..])
  }

  lemma YieldStaysInside(s: Sys, ticks: nat)
    requires Sized(s) && s.current < |s.procs|
    ensures Yielded(s, ticks).current < |s.procs|
  {
    TicksKeepSize(s, ticks);
  }

  // ---------------------------------------------------------------- one yield

  lemma {:induction false} TicksOnlyCount(s: Sys, count: nat)
    requires s.queued == ReadySet(s.procs) && !HasSleepers(s.procs)
    ensures Ticks(s, count) == s.(clock := s.clock + count)
  {
    if count > 0 {
      TicksOnlyCount(s, count - 1);
      var t := s.clock + count;
      assert forall i :: 0 <= i < |s.procs| ==> !SleepOver(s.procs[i], t) by {
        assert forall i :: 0 <= i < |s.procs| ==> !Sleeps(s.procs[i]);
      }
      assert WokenSleepers(s.procs, t) == s.procs;
    }
  }

  /** One yield: the first READY process takes over, and the yielding one is charged at least 1. */
  lemma YieldStep(s: Sys, ticks: nat, i: nat) returns (next: nat)
    requires OnlyYielding(s) && i < |s.procs| && s.procs[i].state == Ready
    ensures Sized(s) && next < |s.procs| && next != s.current && s.procs[next].state == Ready
    ensures s.vruntime[next] <= s.vruntime[i]
    ensures var y := Yielded(s, ticks);
      && Sized(y) && |y.procs| == |s.procs| && y.current == next && OnlyYielding(y)
      && y.vruntime[s.current] > s.vruntime[s.current]
      && (forall k :: 0 <= k < |s.procs| && k != s.current ==> y.vruntime[k] == s.vruntime[k])
      && (forall k :: 0 <= k < |s.procs| && k != s.current && k != next ==> y.procs[k] == s.procs[k])
      && Contends(y.procs[s.current]) && y.procs[next].state == Running
  {
    hide PidsOk, HistoryOk, WaitsOk, SleepersOk;
    TicksOnlyCount(s, ticks);
    NormalIsYielding(s);
    YieldKeepsInv(s, ticks);
    var s2 := CountedYield(Ticks(s, ticks));
    RanksFrame(s.vruntime, s.procs, s2.procs);
    PickIsFirst(s2);
    assert i in s2.queued;
    next := Pick(s2);
    if next != i { assert RunsBefore(Ranks(s2.vruntime, s2.procs), next, i); }
    var y := Yielded(s, ticks);
    assert y == Switched(s2, next);
    assert !HasSleepers(y.procs) by {
      assert forall k :: 0 <= k < |s.procs| ==> !Sleeps(s.procs[k]);
    }
  }

  // ---------------------------------------------------------------- the bound goes down

  lemma {:induction false} LeadUnchanged(s: Sys, y: Sys, v: nat, i: nat, n: nat)
    requires Sized(s) && Sized(y) && |y.procs| == |s.procs| && n <= |s.procs|
    requires forall k :: 0 <= k < n ==> Lead(y, v, i, k) <= Lead(s, v, i, k)
    ensures TotalLead(y, v, i, n) <= TotalLead(s, v, i, n)
  {
    if n > 0 { LeadUnchanged(s, y, v, i, n - 1); }
  }

  lemma {:induction false} LeadShrinks(s: Sys, y: Sys, v: nat, i: nat, c: nat, n: nat)
    requires Sized(s) && Sized(y) && |y.procs| == |s.procs| && c < n <= |s.procs|
    requires forall k :: 0 <= k < n ==> Lead(y, v, i, k) <= Lead(s, v, i, k)
    requires Lead(y, v, i, c) < Lead(s, v, i, c)
    ensures TotalLead(y, v, i, n) < TotalLead(s, v, i, n)
  {
    if c == n - 1 { LeadUnchanged(s, y, v, i, n - 1); } else { LeadShrinks(s, y, v, i, c, n - 1); }
  }

  lemma YieldLowersBound(s: Sys, ticks: nat, i: nat)
    requires OnlyYielding(s) && i < |s.procs| && s.procs[i].state == Ready
    requires Yielded(s, ticks).current != i
    ensures OnlyYielding(Yielded(s, ticks)) && |Yielded(s, ticks).procs| == |s.procs|
    ensures Yielded(s, ticks).procs[i].state == Ready
    ensures Bound(Yielded(s, ticks), i) < Bound(s, i)
  {
    var next := YieldStep(s, ticks, i);
    var y, c, v, n := Yielded(s, ticks), s.current, s.vruntime[i], |s.procs|;
    forall k | 0 <= k < n ensures Lead(y, v, i, k) <= Lead(s, v, i, k) {
      if k != c && k != next { assert y.procs[k] == s.procs[k]; }
    }
    if s.vruntime[c] <= v {
      LeadShrinks(s, y, v, i, c, n);
    } else {
      LeadUnchanged(s, y, v, i, n);
    }
  }

  lemma BoundIsPositive(s: Sys, i: nat)
    requires OnlyYielding(s) && i < |s.procs| && s.procs[i].state == Ready
    ensures Bound(s, i) > 0
  {
    if s.vruntime[s.current] <= s.vruntime[i] {
      OneLead(s, s.vruntime[i], i, s.current, |s.procs|);
    }
  }

  lemma {:induction false} OneLead(s: Sys, v: nat, i: nat, c: nat, n: nat)
    requires Sized(s) && c < n <= |s.procs|
    ensures TotalLead(s, v, i, n) >= Lead(s, v, i, c)
  {
    if c < n - 1 { OneLead(s, v, i, c, n - 1); }
  }

  /** However long each process runs between its yields, a READY process runs after at most
      `Bound` switches, which is at most 1 + the sum over the others of max(0, v + 1 - their
      virtual runtime). */
  lemma {:induction false} BoundedWaiting(s: Sys, i: nat, ticks: seq<nat>) returns (k: nat)
    requires OnlyYielding(s) && i < |s.procs| && s.procs[i].state == Ready
    requires |ticks| >= Bound(s, i)
    ensures 0 < k <= Bound(s, i) <= 1 + TotalLead(s, s.vruntime[i], i, |s.procs|) && k <= |ticks|
    ensures YieldRun(s, ticks[..k]).current == i
    decreases |ticks|
  {
    BoundIsPositive(s, i);
    var y := Yielded(s, ticks[0]);
    if y.current == i {
      k := 1;
      assert ticks[..1][1..] == [];
    } else {
      YieldLowersBound(s, ticks[0], i);
      var k' := BoundedWaiting(y, i, ticks[1..]);
      k := k' + 1;
      assert ticks[..k][1..] == ticks[1..][..k'];
    }
  }

  /** The bound is about yielding: a process that gives way by blocking is not charged at all. */
  lemma BlockingIsFree(s: Sys, channel: nat, ticks: nat)
    requires Inv(s) && s.mode == Normal
    ensures var y := ChannelWaited(s, channel, ticks);
      |y.vruntime| == |s.vruntime| && y.vruntime[s.current] == s.vruntime[s.current]
  {
    var s1 := BlockedAt(s, s.current, WaitEventChannel, channel, 0, 0);
    TicksKeepSize(s1, ticks);
    StaysOffCpu(s1, ticks);
  }

  lemma {:induction false} StaysOffCpu(s: Sys, count: nat)
    requires s.current < |s.procs| && s.procs[s.current].state != Running
    ensures |Ticks(s, count).procs| == |s.procs| && Ticks(s, count).procs[s.current].state != Running
  {
    TicksKeepSize(s, count);
    if count > 0 {
      TicksKeepSize(s, count - 1);
      StaysOffCpu(s, count - 1);
    }
  }

  // ---------------------------------------------------------------- a process that picked itself

  /** A process that picked itself is still queued, as the first: when it yields and no tick comes, it picks
      itself again. Nobody is charged and nobody else moves. */
  lemma SelfPickKeepsCpu(s: Sys)
    requires Inv(s) && s.mode == Normal && s.current in s.queued
    ensures Yielded(s, 0) == CountedYield(s) && Inv(Yielded(s, 0))
  {
    hide TableOk, RunsBefore, MinVruntime;
    NormalIsYielding(s);
    YieldKeepsInv(s, 0);
    var y := CountedYield(s);
    assert Ticks(s, 0) == s;
    RanksFrame(s.vruntime, s.procs, y.procs);
    PickIsFirst(y);
    FirstIsUnique(Ranks(s.vruntime, s.procs), s.queued, Pick(y), s.current);
    assert y.procs[s.current := y.procs[s.current].(state := Running)] == y.procs;
  }

  /** So it keeps the processor over any number of such yields, and the READY processes wait as long. */
  lemma {:induction false} SelfPickStarves(s: Sys, n: nat)
    requires Inv(s) && s.mode == Normal && s.current in s.queued
    ensures var y := YieldRun(s, seq(n, _ => 0));
      && y.current == s.current && y.vruntime == s.vruntime && y.queued == s.queued && |y.procs| == |s.procs|
      && forall i :: 0 <= i < |s.procs| && i != s.current ==> y.procs[i] == s.procs[i]
    decreases n
  {
    hide TableOk, QueueOk, Yielded;
    if n > 0 {
      SelfPickKeepsCpu(s);
      SelfPickStarves(Yielded(s, 0), n - 1);
      assert seq(n, _ => 0)[1..] == seq(n - 1, _ => 0);
    }
  }

  /** A parent sleeps for one tick, which comes before the next pick: it picks itself, and its READY child
      never runs while the parent yields between ticks. */
  lemma SleeperStarvesChild(n: nat) returns (s: Sys)
    ensures Inv(InitialSys(2)) && s == RunOf(InitialSys(2), [Spawn(1, true), Run(0), Spawn(1, true), Sleep(1, 1)])
    ensures Inv(s) && s.mode == Normal && s.current == 0 && |s.procs| == 2 && s.queued == {0, 1} && s.procs[1].state == Ready
    ensures YieldRun(s, seq(n, _ => 0)).current == 0 && |YieldRun(s, seq(n, _ => 0)).procs| == 2
    ensures YieldRun(s, seq(n, _ => 0)).procs[1] == s.procs[1]
  {
    hide TableOk, QueueOk, Step, RunOf;
    InitialInv(2);
    var s1 := ParentSpawned();
    var s2 := ParentRuns(s1);
    var s3 := ChildSpawned(s2);
    RunOfFour(InitialSys(2), Spawn(1, true), Run(0), Spawn(1, true), Sleep(1, 1));
    s := SleepsAndWakes(s3);
    StepKeepsInv(s3, Sleep(1, 1));
    SelfPickStarves(s, n);
  }

  lemma SleepsAndWakes(s3: Sys) returns (s: Sys)
    requires Sized(s3) && s3.procs == [FreshProcess(1, 0).(state := Running), FreshProcess(2, 1)]
    requires s3.queued == {1} && s3.current == 0 && s3.mode == Normal && s3.vruntime == [0, 0]
    ensures s == Step(s3, Sleep(1, 1))
    ensures s.mode == Normal && s.current == 0 && |s.procs| == 2 && s.queued == {0, 1} && s.procs[1].state == Ready
  {
    var b := BlockedAt(s3, 0, WaitSleepTicks, 1, s3.clock + 1, 0);
    assert b.queued == {1};
    assert Ticks(b, 0) == b;
    var w := Tick(b);
    assert w == Ticks(b, 1) && w.queued == {0, 1};
    var y := CountedYield(w);
    PickIsFirst(y);
    assert RunsBefore(Ranks(y.vruntime, y.procs), 0, 1);
    assert Pick(y) == 0;
    s := Continued(y, 0);
  }
}
