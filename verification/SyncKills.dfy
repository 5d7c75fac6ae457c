/** What becomes of a wait queue when a process inside a wait is killed or blocked by hand
    (kernel/scheduler.c, semaphore.c, wait_queue.c). */
module SyncKills {
  import opened ProcessModel
  import opened ProcessCore
  import opened RunOrder
  import opened SchedulerModel
  import opened SchedulerSafety
  import opened SyncModel
  import opened SyncObjects

  /** Another process kills slot `i`, or blocks it by hand while it is READY. */
  predicate Removes(s: Sys, op: Op, i: nat)
    requires Sized(s)
  {
    && i < |s.procs| && i != s.current
    && match op
       case Kill(pid, _, _) => FindIndexByPid(s.procs, pid) == i
       case Block(pid, _) => FindIndexByPid(s.procs, pid) == i && s.procs[i].state == Ready
       case _ => false
  }

  /** The queue without slot `i`, which will not come back on its own; the counter knows nothing of it. */
  function WithoutSlot(q: WaitQ, i: nat): WaitQ {
    q.(inside := q.inside - {i})
  }

  /** The slot can no longer come back, the counter of waiters is one too high, and everybody else inside
      stays as he was. */
  lemma RemovalMiscounts(s: Sys, op: Op, q: WaitQ, i: nat)
    requires Inv(s) && s.mode == Normal && QueueInv(s.procs, q) && Removes(s, op, i) && i in q.inside
    ensures var s', left := Step(s, op), WithoutSlot(q, i);
      && |s'.procs| == |s.procs| && !CanBeInside(s'.procs[i], q.channel) && !QueueInv(s'.procs, q)
      && left.waiters == |left.inside| + 1
      && Asleep(s'.procs, left) == Asleep(s.procs, q) - {i} && Awake(s'.procs, left) == Awake(s.procs, q) - {i}
  {
    hide TableOk, QueueOk, Step;
    RemovalIs(s, op, q.channel, i);
  }

  lemma RemovalIs(s: Sys, op: Op, channel: nat, i: nat)
    requires Inv(s) && s.mode == Normal && Removes(s, op, i) && CanBeInside(s.procs[i], channel)
    ensures var s' := Step(s, op);
      && |s'.procs| == |s.procs| && !CanBeInside(s'.procs[i], channel)
      && forall j :: 0 <= j < |s.procs| && j != i ==> (WaitsOn(s'.procs[j], channel) <==> WaitsOn(s.procs[j], channel))
  {
    hide TableOk, QueueOk, FindIndexByPid, Exited, Yielded;
  }

  /** Somebody is asleep although there are more units than processes on their way. */
  ghost predicate LostWakeup(s: Sys, count: nat, q: WaitQ) {
    Asleep(s.procs, q) != {} && |Awake(s.procs, q)| < count
  }

  /** A wake-up is lost exactly when the slot had been woken, somebody is asleep, and no more processes
      were on their way than there are units: for a semaphore its count, for a free mutex, a full mailbox
      and an empty one 1, and otherwise 0. */
  lemma RemovalLosesWakeup(s: Sys, op: Op, q: WaitQ, units: nat, i: nat)
    requires Inv(s) && s.mode == Normal && QueueInv(s.procs, q) && Removes(s, op, i) && i in q.inside
    requires !LostWakeup(s, units, q)
    ensures LostWakeup(Step(s, op), units, WithoutSlot(q, i)) <==>
      i in Awake(s.procs, q) && Asleep(s.procs, q) != {} && |Awake(s.procs, q)| == units
  {
    hide Inv, QueueInv, Asleep, Awake, Step, Removes;
    RemovalMiscounts(s, op, q, i);
    AsleepOrAwake(s.procs, q, i);
    var awake := Awake(s.procs, q);
    if i in awake { assert |awake - {i}| == |awake| - 1; } else { assert awake - {i} == awake; }
  }

  lemma AsleepOrAwake(ps: seq<Process>, q: WaitQ, i: nat)
    requires i in q.inside
    ensures i in Awake(ps, q) <==> i !in Asleep(ps, q)
    ensures i in Awake(ps, q) ==> Asleep(ps, q) - {i} == Asleep(ps, q)
  {
  }

  // ---------------------------------------------------------------- a run that loses a wake-up

  function Someone(pid: nat, state: State): Process {
    Process(pid, 1, 1, state, 0, 0, 0, 0, 0, WaitNone, 0)
  }

  /** Three processes, of which the second runs and the first is last in the queue. */
  function Three(): Sys {
    Sys([Someone(1, Ready), Someone(2, Running), Someone(3, Ready)], [5, 0, 0], [0, 0, 0], {0, 2}, 1, 4, 0, Normal,
        {1, 2, 3}, map[], map[])
  }

  lemma ThreeInOrder(channel: nat)
    ensures Inv(Three()) && NobodyWaitsOn(Three(), channel)
  {
    hide Someone;
    var s := Three();
    SomeoneIs(1, Ready);
    SomeoneIs(2, Running);
    SomeoneIs(3, Ready);
    assert ReadySet(s.procs) == {0, 2};
  }

  lemma SomeoneIs(pid: nat, state: State)
    ensures Someone(pid, state).pid == pid && Someone(pid, state).state == state
  {
  }

  /** The running process finds no unit and gives way to `next`. */
  lemma FindsNone(s: Sys, m: Sem, next: nat)
    requires Inv(s) && s.mode == Normal && |s.procs| == 3 && m.count == 0 && s.queued == ReadySet(s.procs) && next in s.queued
    requires forall k :: k in s.queued && k != next ==> s.vruntime[next] < s.vruntime[k]
    ensures var (s', m') := AcquireRound(s, m, 0);
      && |s'.procs| == 3 && s'.mode == Normal && s'.current == next && s'.procs[next].state == Running
      && s'.procs[next].pid == s.procs[next].pid
      && s'.procs[s.current].state == Blocked && s'.procs[s.current].pid == s.procs[s.current].pid
      && WaitsOn(s'.procs[s.current], m.q.channel)
      && (forall k :: 0 <= k < 3 && k != s.current && k != next ==> s'.procs[k] == s.procs[k])
      && (forall k :: 0 <= k < 3 && k != s.current ==> s'.vruntime[k] == s.vruntime[k])
      && s'.queued == ReadySet(s'.procs)
      && m' == m.(q := WaitingQueue(s, m.q))
  {
    hide TableOk, QueueOk;
    var b := BlockedAt(s, s.current, WaitEventChannel, m.q.channel, 0, 0);
    assert ReadySet(b.procs) == ReadySet(s.procs);
    assert Ticks(b, 0) == b;
    var y := CountedYield(b);
    PickIsFirst(y);
    assert IsFirst(Ranks(y.vruntime, y.procs), y.queued, next);
    FirstIsUnique(Ranks(y.vruntime, y.procs), y.queued, Pick(y), next);
  }

  lemma TwoWait(channel: nat) returns (states: seq<(Sys, Sem)>)
    ensures |states| == 3 && states[0] == (Three(), Sem(0, 1, NewQueue(channel)))
    ensures forall k :: 0 <= k < 2 ==>
      Inv(states[k].0) && SemEnabled(states[k].0, states[k].1, Acquire(0)) && states[k + 1] == SemStep(states[k].0, states[k].1, Acquire(0))
    ensures var (s, m) := states[2];
      && Inv(s) && SemInv(s, m) && s.mode == Normal && s.current == 0 && |s.procs| == 3 && m == Sem(0, 1, WaitQ(channel, 2, {1, 2}))
      && WaitsOn(s.procs[1], channel) && WaitsOn(s.procs[2], channel) && s.procs[1].pid == 2 && s.procs[0].pid == 1
  {
    hide TableOk, QueueOk, OneRunning, AcquireRound, SemInv;
    var s0, m0 := Three(), Sem(0, 1, NewQueue(channel));
    ThreeInOrder(channel);
    FreshSemaphore(s0, 0, 1, channel);
    assert ReadySet(s0.procs) == {0, 2};
    FindsNone(s0, m0, 2);
    SemStepKeepsInv(s0, m0, Acquire(0));
    var (s1, m1) := AcquireRound(s0, m0, 0);
    assert s1.queued == {0};
    FindsNone(s1, m1, 0);
    SemStepKeepsInv(s1, m1, Acquire(0));
    states := [(s0, m0), (s1, m1), AcquireRound(s1, m1, 0)];
  }

  /** Two processes wait for a semaphore without units. A third releases one and wakes the first of them,
      which is killed before it runs: the unit stays, and the other one sleeps on. */
  lemma KillLosesWakeup(channel: nat) returns (states: seq<(Sys, Sem)>)
    ensures IsSemRun(states, [Acquire(0), Acquire(0), Release])
    ensures states[0] == (Three(), Sem(0, 1, NewQueue(channel)))
    ensures var (s, m) := states[3];
      && Inv(s) && s.mode == Normal && s.current == 0 && |s.procs| == 3 && m == Sem(1, 1, WaitQ(channel, 2, {1, 2}))
      && Awake(s.procs, m.q) == {1} && Asleep(s.procs, m.q) == {2} && Removes(s, Kill(2, 9, 0), 1)
      && LostWakeup(Step(s, Kill(2, 9, 0)), m.count, WithoutSlot(m.q, 1))
  {
    hide TableOk, QueueOk, OneRunning, AcquireRound, ReleasedSem, Step, SemInv, Asleep, Awake, Three;
    var before := TwoWait(channel);
    ThreeInOrder(channel);
    var (s2, m2) := before[2];
    SemStepKeepsInv(s2, m2, Release);
    WakesNext(s2, m2, channel);
    var (s3, m3) := ReleasedSem(s2, m2);
    SemLosesNone(s3, m3);
    RemovalLosesWakeup(s3, Kill(2, 9, 0), m3.q, m3.count, 1);
    states := before + [(s3, m3)];
  }

  lemma SemLosesNone(s: Sys, m: Sem)
    requires SemInv(s, m)
    ensures QueueInv(s.procs, m.q) && !LostWakeup(s, m.count, m.q)
  {
  }

  lemma WakesNext(s: Sys, m: Sem, channel: nat)
    requires Inv(s) && s.mode == Normal && s.current == 0 && |s.procs| == 3 && m == Sem(0, 1, WaitQ(channel, 2, {1, 2}))
    requires WaitsOn(s.procs[1], channel) && WaitsOn(s.procs[2], channel) && s.procs[1].pid == 2 && s.procs[0].pid == 1
    ensures var (s', m') := ReleasedSem(s, m);
      && s'.mode == Normal && s'.current == 0 && |s'.procs| == 3 && m' == m.(count := 1)
      && Asleep(s'.procs, m.q) == {2} && Awake(s'.procs, m.q) == {1} && FindIndexByPid(s'.procs, 2) == 1
  {
    hide TableOk, QueueOk;
    assert FirstWaiter(s.procs, channel, 0, 0) == 1;
    var s' := ReleasedSem(s, m).0;
    assert s'.procs == s.procs[1 := MadeReady(s.procs[1])];
  }
}
