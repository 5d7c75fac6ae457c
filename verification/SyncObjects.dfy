/** Semaphores, mutexes and mailboxes as steps over the scheduler (kernel/semaphore.c, mutex.c,
    mailbox.c): over all cooperative runs no wake-up is lost. */
module SyncObjects {
  import opened ProcessModel
  import opened ProcessCore
  import opened SchedulerModel
  import opened SchedulerSafety
  import opened SyncModel

  // ---------------------------------------------------------------- steps of a wait queue

  /** kernel_wait_queue_wait up to the point where the caller has given way. */
  function WaitingQueue(s: Sys, q: WaitQ): WaitQ {
    WaitQ(q.channel, q.waiters + 1, q.inside + {s.current})
  }

  /** Its last step, once the caller runs again. */
  function ResumedQueue(s: Sys, q: WaitQ): WaitQ {
    WaitQ(q.channel, if q.waiters != 0 then q.waiters - 1 else 0, q.inside - {s.current})
  }

  /** A wake-up, if the queue counts any waiter. */
  function Notified(s: Sys, q: WaitQ): Sys
    requires Sized(s)
  {
    if q.waiters != 0 then ChannelWokenFirst(s, q.channel) else s
  }

  predicate Outside(s: Sys, q: WaitQ) { s.mode == Normal && s.current !in q.inside }

  predicate Resuming(s: Sys, q: WaitQ) { s.mode == Normal && s.current in q.inside }

  lemma BeginWaitKeepsQueue(s: Sys, q: WaitQ, ticks: nat)
    requires Inv(s) && Outside(s, q) && QueueInv(s.procs, q)
    ensures var s', q' := ChannelWaited(s, q.channel, ticks), WaitingQueue(s, q);
      Inv(s') && QueueInv(s'.procs, q') && Asleep(s'.procs, q') <= Asleep(s.procs, q) + {s.current}
  {
    hide TableOk, QueueOk, ChannelWaited, QueueInv, Asleep;
    StepKeepsInv(s, WaitOn(q.channel, ticks));
    ChannelWaitIsCalm(s, q.channel, ticks);
    JoinsQueue(s.procs, ChannelWaited(s, q.channel, ticks).procs, q, s.current);
  }

  /** A process that has begun to wait is inside the queue. */
  lemma JoinsQueue(ps: seq<Process>, ps': seq<Process>, q: WaitQ, c: nat)
    requires QueueInv(ps, q) && CalmBut(ps, ps', c) && c !in q.inside && c < |ps| && |ps| == |ps'|
    requires Calmer(Suspended(ps[c], WaitEventChannel, q.channel, 0, 0), ps'[c])
    ensures var q' := WaitQ(q.channel, q.waiters + 1, q.inside + {c});
      QueueInv(ps', q') && Asleep(ps', q') <= Asleep(ps, q) + {c}
  {
    assert forall i :: 0 <= i < |ps| && i != c ==> Calmer(ps[i], ps'[i]);
    assert |q.inside + {c}| == |q.inside| + 1;
  }

  lemma ResumeKeepsQueue(s: Sys, q: WaitQ)
    requires Inv(s) && Resuming(s, q) && QueueInv(s.procs, q)
    ensures var q' := ResumedQueue(s, q);
      QueueInv(s.procs, q') && Asleep(s.procs, q') == Asleep(s.procs, q) && |Awake(s.procs, q)| == |Awake(s.procs, q')| + 1
  {
    hide TableOk, QueueOk;
    var q' := ResumedQueue(s, q);
    assert s.current !in Asleep(s.procs, q);
    assert Awake(s.procs, q') == Awake(s.procs, q) - {s.current};
  }

  /** A notification wakes exactly one sleeper, if there is one. */
  lemma NotifyWakesOne(s: Sys, q: WaitQ)
    requires Inv(s) && s.mode == Normal && QueueInv(s.procs, q)
    ensures var s' := Notified(s, q);
      && Inv(s') && s'.mode == Normal && s'.current == s.current && |s'.procs| == |s.procs|
      && QueueInv(s'.procs, q) && Asleep(s'.procs, q) <= Asleep(s.procs, q)
      && |Awake(s'.procs, q)| == |Awake(s.procs, q)| + (if Asleep(s.procs, q) == {} then 0 else 1)
  {
    hide TableOk, QueueOk, QueueInv, Asleep, Awake;
    if q.waiters == 0 {
      NobodyInside(s.procs, q);
    } else {
      StepKeepsInv(s, WakeOne(q.channel));
      var i := FirstWaiter(s.procs, q.channel, s.current, 0);
      WakeFirstFindsAWaiter(s.procs, q.channel, s.current);
      if i == NONE {
        NobodyAsleep(s.procs, q);
      } else {
        assert Notified(s, q).procs == s.procs[i := MadeReady(s.procs[i])];
        OneWakes(s.procs, q, i);
      }
    }
  }

  lemma NobodyInside(ps: seq<Process>, q: WaitQ)
    requires QueueInv(ps, q) && q.waiters == 0
    ensures Asleep(ps, q) == {}
  {
    assert q.inside == {};
  }

  lemma NobodyAsleep(ps: seq<Process>, q: WaitQ)
    requires QueueInv(ps, q) && forall i :: 0 <= i < |ps| ==> !WaitsOn(ps[i], q.channel)
    ensures Asleep(ps, q) == {}
  {
  }

  lemma OneWakes(ps: seq<Process>, q: WaitQ, i: nat)
    requires QueueInv(ps, q) && i < |ps| && WaitsOn(ps[i], q.channel)
    ensures var ps' := ps[i := MadeReady(ps[i])];
      && QueueInv(ps', q) && Asleep(ps', q) == Asleep(ps, q) - {i} && i in Asleep(ps, q)
      && |Awake(ps', q)| == |Awake(ps, q)| + 1
  {
    var ps' := ps[i := MadeReady(ps[i])];
    assert Asleep(ps', q) == Asleep(ps, q) - {i};
    assert Awake(ps', q) == Awake(ps, q) + {i};
  }

  /** A notification on another channel does not touch the queue. */
  lemma NotifyLeavesOther(s: Sys, q: WaitQ, other: WaitQ)
    requires Inv(s) && s.mode == Normal && QueueInv(s.procs, q) && q.channel != other.channel
    ensures var s' := Notified(s, other);
      QueueInv(s'.procs, q) && Asleep(s'.procs, q) == Asleep(s.procs, q)
  {
    hide TableOk, QueueOk;
  }

  // ---------------------------------------------------------------- semaphores

  datatype Sem = Sem(count: nat, maxCount: nat, q: WaitQ)

  /** A sleeper is never left behind: as many processes are on their way as there are units. */
  ghost predicate SemInv(s: Sys, m: Sem) {
    && QueueInv(s.procs, m.q) && m.count <= m.maxCount
    && (Asleep(s.procs, m.q) != {} ==> |Awake(s.procs, m.q)| >= m.count)
  }

  datatype SemAct = TryAcquire | Acquire(ticks: nat) | AcquireAgain(ticks: nat) | Release | SemOther(op: Op)

  /** What a process inside a wait can do is come back to the loop of kernel_semaphore_acquire. */
  predicate SemEnabled(s: Sys, m: Sem, act: SemAct)
    requires Sized(s)
  {
    match act
    case TryAcquire => Outside(s, m.q)
    case Acquire(_) => Outside(s, m.q)
    case Release => Outside(s, m.q)
    case AcquireAgain(_) => Resuming(s, m.q)
    case SemOther(op) => LeavesAlone(s, op, m.q)
  }

  function TriedAcquire(m: Sem): Sem { if m.count == 0 then m else m.(count := m.count - 1) }

  /** One round of the loop in kernel_semaphore_acquire. */
  function AcquireRound(s: Sys, m: Sem, ticks: nat): (Sys, Sem)
    requires Sized(s) && s.current < |s.procs|
  {
    if m.count == 0 then (ChannelWaited(s, m.q.channel, ticks), m.(q := WaitingQueue(s, m.q)))
    else (s, TriedAcquire(m))
  }

  function ReleasedSem(s: Sys, m: Sem): (Sys, Sem)
    requires Sized(s)
  {
    if m.count == m.maxCount then (s, m) else (Notified(s, m.q), m.(count := m.count + 1))
  }

  function SemStep(s: Sys, m: Sem, act: SemAct): (Sys, Sem)
    requires Sized(s) && (s.mode == Normal || s.mode == Idle ==> s.current < |s.procs|)
    requires SemEnabled(s, m, act)
  {
    match act
    case TryAcquire => (s, TriedAcquire(m))
    case Acquire(ticks) => AcquireRound(s, m, ticks)
    case AcquireAgain(ticks) => AcquireRound(s, m.(q := ResumedQueue(s, m.q)), ticks)
    case Release => ReleasedSem(s, m)
    case SemOther(op) => (Step(s, op), m)
  }

  lemma AcquireKeepsSem(s: Sys, m: Sem, ticks: nat)
    requires Inv(s) && Outside(s, m.q) && QueueInv(s.procs, m.q) && m.count <= m.maxCount
    requires m.count > 0 && Asleep(s.procs, m.q) != {} ==> |Awake(s.procs, m.q)| >= m.count - 1
    ensures var (s', m') := AcquireRound(s, m, ticks); Inv(s') && SemInv(s', m')
  {
    hide Inv, ChannelWaited, QueueInv;
    if m.count == 0 { BeginWaitKeepsQueue(s, m.q, ticks); }
  }

  lemma SemStepKeepsInv(s: Sys, m: Sem, act: SemAct)
    requires Inv(s) && SemInv(s, m) && SemEnabled(s, m, act)
    ensures var (s', m') := SemStep(s, m, act); Inv(s') && SemInv(s', m')
  {
    hide TableOk, QueueOk, QueueInv, AcquireRound, Step, Notified;
    match act
    case TryAcquire =>
    case Acquire(ticks) => AcquireKeepsSem(s, m, ticks);
    case AcquireAgain(ticks) =>
      ResumeKeepsQueue(s, m.q);
      AcquireKeepsSem(s, m.(q := ResumedQueue(s, m.q)), ticks);
    case Release => NotifyWakesOne(s, m.q);
    case SemOther(op) =>
      StepKeepsInv(s, op);
      OthersKeepQueue(s, op, m.q);
      MoreAwake(s.procs, Step(s, op).procs, m.q);
  }

  lemma MoreAwake(ps: seq<Process>, ps': seq<Process>, q: WaitQ)
    requires QueueInv(ps, q) && QueueInv(ps', q) && Asleep(ps', q) <= Asleep(ps, q)
    ensures Awake(ps, q) <= Awake(ps', q) && |Awake(ps, q)| <= |Awake(ps', q)|
  {
    assert Awake(ps', q) == Awake(ps, q) + (Awake(ps', q) - Awake(ps, q));
  }

  /** Nobody is blocked on the channel, as for a channel that kernel_wait_queue_create has just handed out. */
  predicate NobodyWaitsOn(s: Sys, channel: nat) {
    forall i :: 0 <= i < |s.procs| ==> !WaitsOn(s.procs[i], channel)
  }

  function NewQueue(channel: nat): WaitQ {
    WaitQ(channel, 0, {})
  }

  lemma NewQueueIsInOrder(s: Sys, channel: nat)
    requires NobodyWaitsOn(s, channel)
    ensures QueueInv(s.procs, NewQueue(channel)) && Asleep(s.procs, NewQueue(channel)) == {}
  {
  }

  /** kernel_semaphore_create, when the counts are legal. */
  lemma FreshSemaphore(s: Sys, initial: nat, max: nat, channel: nat)
    requires NobodyWaitsOn(s, channel) && initial <= max
    ensures SemInv(s, Sem(initial, max, NewQueue(channel)))
  {
    NewQueueIsInOrder(s, channel);
  }

  /** `states` are what the actions, all of them enabled, make of the system in which a semaphore was
      just created. */
  ghost predicate IsSemRun(states: seq<(Sys, Sem)>, acts: seq<SemAct>) {
    && |states| == |acts| + 1
    && Inv(states[0].0) && NobodyWaitsOn(states[0].0, states[0].1.q.channel) && states[0].1.count <= states[0].1.maxCount
    && states[0].1.q == NewQueue(states[0].1.q.channel)
    && (forall k :: 0 <= k < |acts| && Inv(states[k].0) ==>
          SemEnabled(states[k].0, states[k].1, acts[k]) && states[k + 1] == SemStep(states[k].0, states[k].1, acts[k]))
  }

  lemma {:induction false} SemRunKeepsInv(states: seq<(Sys, Sem)>, acts: seq<SemAct>, k: nat)
    requires IsSemRun(states, acts) && k <= |acts|
    ensures Inv(states[k].0) && SemInv(states[k].0, states[k].1)
  {
    hide TableOk, QueueOk, SemEnabled, SemStep, SemInv, NobodyWaitsOn;
    if k == 0 {
      FreshSemaphore(states[0].0, states[0].1.count, states[0].1.maxCount, states[0].1.q.channel);
    } else {
      SemRunKeepsInv(states, acts, k - 1);
      SemStepKeepsInv(states[k - 1].0, states[k - 1].1, acts[k - 1]);
    }
  }

  /** No lost wake-up: at any point of any run from the creation of the semaphore, while somebody is
      blocked on it there are at least as many woken, not yet resumed waiters as units; the counter of
      waiters is exact. */
  lemma SemaphoreLosesNoWakeup(states: seq<(Sys, Sem)>, acts: seq<SemAct>, k: nat)
    requires IsSemRun(states, acts) && k <= |acts|
    ensures var (s, m) := states[k];
      && Inv(s) && m.count <= m.maxCount && m.q.waiters == |m.q.inside|
      && (Asleep(s.procs, m.q) != {} ==> |Awake(s.procs, m.q)| >= m.count)
  {
    hide Inv, IsSemRun;
    SemRunKeepsInv(states, acts, k);
  }

  // ---------------------------------------------------------------- mutexes

  datatype Mutex = Mutex(owner: nat, q: WaitQ)

  /** A free mutex with a sleeper has somebody on the way to it. */
  ghost predicate MutexInv(s: Sys, m: Mutex) {
    && QueueInv(s.procs, m.q)
    && (m.owner == 0 && Asleep(s.procs, m.q) != {} ==> Awake(s.procs, m.q) != {})
  }

  datatype MutexAct = TryLock | Lock(ticks: nat) | LockAgain(ticks: nat) | Unlock | MutexOther(op: Op)

  predicate MutexEnabled(s: Sys, m: Mutex, act: MutexAct)
    requires Sized(s)
  {
    match act
    case TryLock => Outside(s, m.q)
    case Lock(_) => Outside(s, m.q)
    case Unlock => Outside(s, m.q)
    case LockAgain(_) => Resuming(s, m.q)
    case MutexOther(op) => LeavesAlone(s, op, m.q)
  }

  predicate CanLock(s: Sys, m: Mutex) { CurrentPid(s) != 0 && m.owner == 0 }

  function TriedLock(s: Sys, m: Mutex): Mutex { if CanLock(s, m) then m.(owner := CurrentPid(s)) else m }

  function LockRound(s: Sys, m: Mutex, ticks: nat): (Sys, Mutex)
    requires Sized(s) && s.current < |s.procs|
  {
    if CanLock(s, m) then (s, TriedLock(s, m))
    else (ChannelWaited(s, m.q.channel, ticks), m.(q := WaitingQueue(s, m.q)))
  }

  function UnlockedMutex(s: Sys, m: Mutex): (Sys, Mutex)
    requires Sized(s)
  {
    if CurrentPid(s) == 0 || m.owner != CurrentPid(s) then (s, m) else (Notified(s, m.q), m.(owner := 0))
  }

  function MutexStep(s: Sys, m: Mutex, act: MutexAct): (Sys, Mutex)
    requires Sized(s) && (s.mode == Normal || s.mode == Idle ==> s.current < |s.procs|)
    requires MutexEnabled(s, m, act)
  {
    match act
    case TryLock => (s, TriedLock(s, m))
    case Lock(ticks) => LockRound(s, m, ticks)
    case LockAgain(ticks) => LockRound(s, m.(q := ResumedQueue(s, m.q)), ticks)
    case Unlock => UnlockedMutex(s, m)
    case MutexOther(op) => (Step(s, op), m)
  }

  lemma NormalHasPid(s: Sys)
    requires Inv(s) && s.mode == Normal
    ensures CurrentPid(s) != 0
  {
  }

  lemma LockKeepsMutex(s: Sys, m: Mutex, ticks: nat)
    requires Inv(s) && Outside(s, m.q) && QueueInv(s.procs, m.q)
    ensures var (s', m') := LockRound(s, m, ticks); Inv(s') && MutexInv(s', m')
  {
    NormalHasPid(s);
    hide Inv, ChannelWaited, QueueInv, CurrentPid;
    if !CanLock(s, m) { BeginWaitKeepsQueue(s, m.q, ticks); }
  }

  lemma MutexStepKeepsInv(s: Sys, m: Mutex, act: MutexAct)
    requires Inv(s) && MutexInv(s, m) && MutexEnabled(s, m, act)
    ensures var (s', m') := MutexStep(s, m, act); Inv(s') && MutexInv(s', m')
  {
    hide TableOk, QueueOk, QueueInv, LockRound, Step, Notified, CurrentPid;
    match act
    case TryLock => NormalHasPid(s);
    case Lock(ticks) => LockKeepsMutex(s, m, ticks);
    case LockAgain(ticks) =>
      ResumeKeepsQueue(s, m.q);
      LockKeepsMutex(s, m.(q := ResumedQueue(s, m.q)), ticks);
    case Unlock => NotifyWakesOne(s, m.q);
    case MutexOther(op) =>
      StepKeepsInv(s, op);
      OthersKeepQueue(s, op, m.q);
      MoreAwake(s.procs, Step(s, op).procs, m.q);
  }

  /** kernel_mutex_create. */
  lemma FreshMutex(s: Sys, channel: nat)
    requires NobodyWaitsOn(s, channel)
    ensures MutexInv(s, Mutex(0, NewQueue(channel)))
  {
    NewQueueIsInOrder(s, channel);
  }

  ghost predicate IsMutexRun(states: seq<(Sys, Mutex)>, acts: seq<MutexAct>) {
    && |states| == |acts| + 1
    && Inv(states[0].0) && NobodyWaitsOn(states[0].0, states[0].1.q.channel)
    && states[0].1 == Mutex(0, NewQueue(states[0].1.q.channel))
    && (forall k :: 0 <= k < |acts| && Inv(states[k].0) ==>
          MutexEnabled(states[k].0, states[k].1, acts[k]) && states[k + 1] == MutexStep(states[k].0, states[k].1, acts[k]))
  }

  lemma {:induction false} MutexRunKeepsInv(states: seq<(Sys, Mutex)>, acts: seq<MutexAct>, k: nat)
    requires IsMutexRun(states, acts) && k <= |acts|
    ensures Inv(states[k].0) && MutexInv(states[k].0, states[k].1)
  {
    hide TableOk, QueueOk, MutexEnabled, MutexStep, MutexInv, NobodyWaitsOn;
    if k == 0 {
      FreshMutex(states[0].0, states[0].1.q.channel);
    } else {
      MutexRunKeepsInv(states, acts, k - 1);
      MutexStepKeepsInv(states[k - 1].0, states[k - 1].1, acts[k - 1]);
    }
  }

  /** At any point of any run from its creation, a free mutex with a blocked waiter has a woken one. */
  lemma MutexLosesNoWakeup(states: seq<(Sys, Mutex)>, acts: seq<MutexAct>, k: nat)
    requires IsMutexRun(states, acts) && k <= |acts|
    ensures var (s, m) := states[k];
      && Inv(s) && m.q.waiters == |m.q.inside|
      && (m.owner == 0 && Asleep(s.procs, m.q) != {} ==> Awake(s.procs, m.q) != {})
  {
    hide Inv, IsMutexRun;
    MutexRunKeepsInv(states, acts, k);
  }

  // ---------------------------------------------------------------- mailboxes

  /** `sent` and `received` list the messages that went in and came out. */
  datatype Mailbox = Mailbox(message: nat, hasMessage: bool, senders: WaitQ, receivers: WaitQ,
                             sent: seq<nat>, received: seq<nat>)

  /** A full mailbox with a sleeping receiver, and an empty one with a sleeping sender, has one on
      the way; what came out is what went in, but for the message still inside. */
  ghost predicate MailboxInv(s: Sys, b: Mailbox) {
    && QueueInv(s.procs, b.senders) && QueueInv(s.procs, b.receivers)
    && b.senders.channel != b.receivers.channel && b.senders.inside !! b.receivers.inside
    && (b.hasMessage && Asleep(s.procs, b.receivers) != {} ==> Awake(s.procs, b.receivers) != {})
    && (!b.hasMessage && Asleep(s.procs, b.senders) != {} ==> Awake(s.procs, b.senders) != {})
    && b.sent == b.received + (if b.hasMessage then [b.message] else [])
  }

  datatype MailboxAct =
    | TrySend(message: nat)
    | Send(message: nat, ticks: nat)
    | SendAgain(message: nat, ticks: nat)
    | TryReceive
    | Receive(ticks: nat)
    | ReceiveAgain(ticks: nat)
    | MailboxOther(op: Op)

  predicate MailboxEnabled(s: Sys, b: Mailbox, act: MailboxAct)
    requires Sized(s)
  {
    match act
    case SendAgain(_, _) => Resuming(s, b.senders)
    case ReceiveAgain(_) => Resuming(s, b.receivers)
    case MailboxOther(op) => LeavesAlone(s, op, b.senders) && LeavesAlone(s, op, b.receivers)
    case _ => Outside(s, b.senders) && Outside(s, b.receivers)
  }

  function TriedSend(s: Sys, b: Mailbox, message: nat): (Sys, Mailbox)
    requires Sized(s)
  {
    if b.hasMessage then (s, b)
    else (Notified(s, b.receivers), b.(message := message, hasMessage := true, sent := b.sent + [message]))
  }

  function SendRound(s: Sys, b: Mailbox, message: nat, ticks: nat): (Sys, Mailbox)
    requires Sized(s) && s.current < |s.procs|
  {
    if b.hasMessage then (ChannelWaited(s, b.senders.channel, ticks), b.(senders := WaitingQueue(s, b.senders)))
    else TriedSend(s, b, message)
  }

  function TriedReceive(s: Sys, b: Mailbox): (Sys, Mailbox)
    requires Sized(s)
  {
    if !b.hasMessage then (s, b)
    else (Notified(s, b.senders), b.(hasMessage := false, received := b.received + [b.message]))
  }

  function ReceiveRound(s: Sys, b: Mailbox, ticks: nat): (Sys, Mailbox)
    requires Sized(s) && s.current < |s.procs|
  {
    if !b.hasMessage then (ChannelWaited(s, b.receivers.channel, ticks), b.(receivers := WaitingQueue(s, b.receivers)))
    else TriedReceive(s, b)
  }

  function MailboxStep(s: Sys, b: Mailbox, act: MailboxAct): (Sys, Mailbox)
    requires Sized(s) && (s.mode == Normal || s.mode == Idle ==> s.current < |s.procs|)
    requires MailboxEnabled(s, b, act)
  {
    match act
    case TrySend(message) => TriedSend(s, b, message)
    case Send(message, ticks) => SendRound(s, b, message, ticks)
    case SendAgain(message, ticks) => SendRound(s, b.(senders := ResumedQueue(s, b.senders)), message, ticks)
    case TryReceive => TriedReceive(s, b)
    case Receive(ticks) => ReceiveRound(s, b, ticks)
    case ReceiveAgain(ticks) => ReceiveRound(s, b.(receivers := ResumedQueue(s, b.receivers)), ticks)
    case MailboxOther(op) => (Step(s, op), b)
  }

  /** The invariant without its claim about the side that is about to act. */
  ghost predicate MailboxBase(s: Sys, b: Mailbox) {
    && QueueInv(s.procs, b.senders) && QueueInv(s.procs, b.receivers)
    && b.senders.channel != b.receivers.channel && b.senders.inside !! b.receivers.inside
    && b.sent == b.received + (if b.hasMessage then [b.message] else [])
  }

  lemma SendKeepsMailbox(s: Sys, b: Mailbox, message: nat)
    requires Inv(s) && s.mode == Normal && MailboxBase(s, b)
    requires b.hasMessage && Asleep(s.procs, b.receivers) != {} ==> Awake(s.procs, b.receivers) != {}
    ensures var (s', b') := TriedSend(s, b, message);
      Inv(s') && MailboxBase(s', b') && b'.hasMessage
      && (Asleep(s'.procs, b'.receivers) != {} ==> Awake(s'.procs, b'.receivers) != {})
  {
    hide TableOk, QueueOk, QueueInv, Notified;
    if !b.hasMessage {
      NotifyWakesOne(s, b.receivers);
      NotifyLeavesOther(s, b.senders, b.receivers);
    }
  }

  lemma ReceiveKeepsMailbox(s: Sys, b: Mailbox)
    requires Inv(s) && s.mode == Normal && MailboxBase(s, b)
    requires !b.hasMessage && Asleep(s.procs, b.senders) != {} ==> Awake(s.procs, b.senders) != {}
    ensures var (s', b') := TriedReceive(s, b);
      Inv(s') && MailboxBase(s', b') && !b'.hasMessage
      && (Asleep(s'.procs, b'.senders) != {} ==> Awake(s'.procs, b'.senders) != {})
  {
    hide TableOk, QueueOk, QueueInv, Notified;
    if b.hasMessage {
      NotifyWakesOne(s, b.senders);
      NotifyLeavesOther(s, b.receivers, b.senders);
    }
  }

  lemma WaitLeavesOther(s: Sys, q: WaitQ, other: WaitQ, ticks: nat)
    requires Inv(s) && Outside(s, q) && QueueInv(s.procs, q) && q.channel != other.channel
    ensures var s' := ChannelWaited(s, other.channel, ticks);
      QueueInv(s'.procs, q) && Asleep(s'.procs, q) <= Asleep(s.procs, q)
  {
    hide TableOk, QueueOk, QueueInv;
    OthersKeepQueue(s, WaitOn(other.channel, ticks), q);
  }

  lemma SendRoundKeepsMailbox(s: Sys, b: Mailbox, message: nat, ticks: nat)
    requires Inv(s) && Outside(s, b.senders) && Outside(s, b.receivers) && MailboxBase(s, b)
    requires b.hasMessage && Asleep(s.procs, b.receivers) != {} ==> Awake(s.procs, b.receivers) != {}
    ensures var (s', b') := SendRound(s, b, message, ticks); Inv(s') && MailboxInv(s', b')
  {
    hide TableOk, QueueOk, QueueInv, ChannelWaited, TriedSend;
    if b.hasMessage {
      BeginWaitKeepsQueue(s, b.senders, ticks);
      WaitLeavesOther(s, b.receivers, b.senders, ticks);
      MoreAwake(s.procs, ChannelWaited(s, b.senders.channel, ticks).procs, b.receivers);
    } else {
      SendKeepsMailbox(s, b, message);
    }
  }

  lemma ReceiveRoundKeepsMailbox(s: Sys, b: Mailbox, ticks: nat)
    requires Inv(s) && Outside(s, b.senders) && Outside(s, b.receivers) && MailboxBase(s, b)
    requires !b.hasMessage && Asleep(s.procs, b.senders) != {} ==> Awake(s.procs, b.senders) != {}
    ensures var (s', b') := ReceiveRound(s, b, ticks); Inv(s') && MailboxInv(s', b')
  {
    hide TableOk, QueueOk, QueueInv, ChannelWaited, TriedReceive;
    if !b.hasMessage {
      BeginWaitKeepsQueue(s, b.receivers, ticks);
      WaitLeavesOther(s, b.senders, b.receivers, ticks);
      MoreAwake(s.procs, ChannelWaited(s, b.receivers.channel, ticks).procs, b.senders);
    } else {
      ReceiveKeepsMailbox(s, b);
    }
  }

  lemma TriesKeepMailbox(s: Sys, b: Mailbox, message: nat)
    requires Inv(s) && s.mode == Normal && MailboxInv(s, b)
    ensures var (s', b') := TriedSend(s, b, message); Inv(s') && MailboxInv(s', b')
    ensures var (s', b') := TriedReceive(s, b); Inv(s') && MailboxInv(s', b')
  {
    hide Inv, QueueInv, TriedSend, TriedReceive, Asleep, Awake;
    SendKeepsMailbox(s, b, message);
    ReceiveKeepsMailbox(s, b);
  }

  lemma RoundsKeepMailbox(s: Sys, b: Mailbox, message: nat, ticks: nat)
    requires Inv(s) && Outside(s, b.senders) && Outside(s, b.receivers) && MailboxInv(s, b)
    ensures var (s', b') := SendRound(s, b, message, ticks); Inv(s') && MailboxInv(s', b')
    ensures var (s', b') := ReceiveRound(s, b, ticks); Inv(s') && MailboxInv(s', b')
  {
    hide TableOk, QueueOk, QueueInv, SendRound, ReceiveRound, Asleep, Awake;
    SendRoundKeepsMailbox(s, b, message, ticks);
    ReceiveRoundKeepsMailbox(s, b, ticks);
  }

  lemma SenderResumes(s: Sys, b: Mailbox, message: nat, ticks: nat)
    requires Inv(s) && MailboxInv(s, b) && Resuming(s, b.senders)
    ensures var (s', b') := SendRound(s, b.(senders := ResumedQueue(s, b.senders)), message, ticks); Inv(s') && MailboxInv(s', b')
  {
    hide TableOk, QueueOk, QueueInv, SendRound, Asleep, Awake;
    ResumeKeepsQueue(s, b.senders);
    SendRoundKeepsMailbox(s, b.(senders := ResumedQueue(s, b.senders)), message, ticks);
  }

  lemma ReceiverResumes(s: Sys, b: Mailbox, ticks: nat)
    requires Inv(s) && MailboxInv(s, b) && Resuming(s, b.receivers)
    ensures var (s', b') := ReceiveRound(s, b.(receivers := ResumedQueue(s, b.receivers)), ticks); Inv(s') && MailboxInv(s', b')
  {
    hide TableOk, QueueOk, QueueInv, ReceiveRound, Asleep, Awake;
    ResumeKeepsQueue(s, b.receivers);
    ReceiveRoundKeepsMailbox(s, b.(receivers := ResumedQueue(s, b.receivers)), ticks);
  }

  lemma OtherKeepsMailbox(s: Sys, b: Mailbox, op: Op)
    requires Inv(s) && MailboxInv(s, b) && LeavesAlone(s, op, b.senders) && LeavesAlone(s, op, b.receivers)
    ensures Inv(Step(s, op)) && MailboxInv(Step(s, op), b)
  {
    hide TableOk, QueueOk, QueueInv, Step, Asleep, Awake, LeavesAlone;
    StepKeepsInv(s, op);
    OthersKeepQueue(s, op, b.senders);
    OthersKeepQueue(s, op, b.receivers);
    MoreAwake(s.procs, Step(s, op).procs, b.senders);
    MoreAwake(s.procs, Step(s, op).procs, b.receivers);
  }

  lemma MailboxStepKeepsInv(s: Sys, b: Mailbox, act: MailboxAct)
    requires Inv(s) && MailboxInv(s, b) && MailboxEnabled(s, b, act)
    ensures var (s', b') := MailboxStep(s, b, act); Inv(s') && MailboxInv(s', b')
  {
    hide TableOk, QueueOk, SendRound, ReceiveRound, Step, TriedSend, TriedReceive, MailboxInv, Resuming, LeavesAlone;
    match act
    case TrySend(message) => TriesKeepMailbox(s, b, message);
    case Send(message, ticks) => RoundsKeepMailbox(s, b, message, ticks);
    case SendAgain(message, ticks) => SenderResumes(s, b, message, ticks);
    case TryReceive => TriesKeepMailbox(s, b, 0);
    case Receive(ticks) => RoundsKeepMailbox(s, b, 0, ticks);
    case ReceiveAgain(ticks) => ReceiverResumes(s, b, ticks);
    case MailboxOther(op) => OtherKeepsMailbox(s, b, op);
  }

  function NewMailbox(senders: nat, receivers: nat): Mailbox {
    Mailbox(0, false, NewQueue(senders), NewQueue(receivers), [], [])
  }

  /** kernel_mailbox_create. */
  lemma FreshMailbox(s: Sys, senders: nat, receivers: nat)
    requires NobodyWaitsOn(s, senders) && NobodyWaitsOn(s, receivers) && senders != receivers
    ensures MailboxInv(s, NewMailbox(senders, receivers))
  {
    NewQueueIsInOrder(s, senders);
    NewQueueIsInOrder(s, receivers);
  }

  ghost predicate IsMailboxRun(states: seq<(Sys, Mailbox)>, acts: seq<MailboxAct>) {
    && |states| == |acts| + 1
    && Inv(states[0].0) && states[0].1.senders.channel != states[0].1.receivers.channel
    && NobodyWaitsOn(states[0].0, states[0].1.senders.channel) && NobodyWaitsOn(states[0].0, states[0].1.receivers.channel)
    && states[0].1 == NewMailbox(states[0].1.senders.channel, states[0].1.receivers.channel)
    && (forall k :: 0 <= k < |acts| && Inv(states[k].0) ==>
          MailboxEnabled(states[k].0, states[k].1, acts[k]) && states[k + 1] == MailboxStep(states[k].0, states[k].1, acts[k]))
  }

  lemma {:induction false} MailboxRunKeepsInv(states: seq<(Sys, Mailbox)>, acts: seq<MailboxAct>, k: nat)
    requires IsMailboxRun(states, acts) && k <= |acts|
    ensures Inv(states[k].0) && MailboxInv(states[k].0, states[k].1)
  {
    hide TableOk, QueueOk, MailboxEnabled, MailboxStep, MailboxInv, NobodyWaitsOn;
    if k == 0 {
      FreshMailbox(states[0].0, states[0].1.senders.channel, states[0].1.receivers.channel);
    } else {
      MailboxRunKeepsInv(states, acts, k - 1);
      MailboxStepKeepsInv(states[k - 1].0, states[k - 1].1, acts[k - 1]);
    }
  }

  /** At any point of any run from its creation: no wake-up is lost on either side, and messages come out
      exactly once, in the order in which they went in. */
  lemma MailboxLosesNothing(states: seq<(Sys, Mailbox)>, acts: seq<MailboxAct>, k: nat)
    requires IsMailboxRun(states, acts) && k <= |acts|
    ensures var (s, b) := states[k];
      && Inv(s) && b.received <= b.sent && |b.sent| <= |b.received| + 1
      && (b.hasMessage && Asleep(s.procs, b.receivers) != {} ==> Awake(s.procs, b.receivers) != {})
      && (!b.hasMessage && Asleep(s.procs, b.senders) != {} ==> Awake(s.procs, b.senders) != {})
  {
    hide Inv, IsMailboxRun;
    MailboxRunKeepsInv(states, acts, k);
  }
}
