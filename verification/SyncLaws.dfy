/** What a mutex, a semaphore and a mailbox promise their users, over all cooperative runs from their
    creation: told by who called and what had succeeded before (kernel/mutex.c, semaphore.c, mailbox.c). */
module SyncLaws {
  import opened ProcessCore
  import opened SchedulerModel
  import opened SchedulerSafety
  import opened SyncModel
  import opened SyncObjects

  /** The pid of the running process. */
  function Caller(s: Sys): nat {
    if s.current < |s.procs| then s.procs[s.current].pid else 0
  }

  lemma CallerHasPid(s: Sys)
    requires Inv(s) && s.mode == Normal
    ensures CurrentPid(s) == Caller(s) != 0
  {
  }

  // ---------------------------------------------------------------- the steps, field by field

  /** The queue with the caller in it, and without. */
  function Joined(s: Sys, q: WaitQ): WaitQ { WaitQ(q.channel, q.waiters + 1, q.inside + {s.current}) }

  function Left(s: Sys, q: WaitQ): WaitQ {
    WaitQ(q.channel, if q.waiters == 0 then 0 else q.waiters - 1, q.inside - {s.current})
  }

  /** One waiter is woken, if anybody waits. */
  function WakesOne(s: Sys, q: WaitQ): Sys
    requires Sized(s) && (s.mode == Normal || s.mode == Idle ==> s.current < |s.procs|)
  {
    if q.waiters == 0 then s else Step(s, WakeOne(q.channel))
  }

  lemma MutexStepIs(s: Sys, m: Mutex, act: MutexAct)
    requires Inv(s) && MutexInv(s, m) && MutexEnabled(s, m, act)
    ensures var (s', m'), pid := MutexStep(s, m, act), Caller(s);
      match act
      case TryLock => s' == s && m' == Mutex(if m.owner == 0 then pid else m.owner, m.q)
      case Lock(t) =>
        if m.owner == 0 then s' == s && m' == Mutex(pid, m.q)
        else s' == Step(s, WaitOn(m.q.channel, t)) && m' == Mutex(m.owner, Joined(s, m.q))
      case LockAgain(t) =>
        if m.owner == 0 then s' == s && m' == Mutex(pid, Left(s, m.q))
        else s' == Step(s, WaitOn(m.q.channel, t)) && m' == Mutex(m.owner, Joined(s, Left(s, m.q)))
      case Unlock => if m.owner != pid then s' == s && m' == m else s' == WakesOne(s, m.q) && m' == Mutex(0, m.q)
      case MutexOther(op) => s' == Step(s, op) && m' == m
  {
    hide TableOk, QueueOk, QueueInv, ChannelWaited, ChannelWokenFirst, CurrentPid, Caller;
    if s.mode == Normal { CallerHasPid(s); }
  }

  lemma SemStepIs(s: Sys, m: Sem, act: SemAct)
    requires Inv(s) && SemInv(s, m) && SemEnabled(s, m, act)
    ensures var (s', m') := SemStep(s, m, act);
      match act
      case TryAcquire => s' == s && m' == if m.count == 0 then m else Sem(m.count - 1, m.maxCount, m.q)
      case Acquire(t) =>
        if m.count > 0 then s' == s && m' == Sem(m.count - 1, m.maxCount, m.q)
        else s' == Step(s, WaitOn(m.q.channel, t)) && m' == Sem(0, m.maxCount, Joined(s, m.q))
      case AcquireAgain(t) =>
        if m.count > 0 then s' == s && m' == Sem(m.count - 1, m.maxCount, Left(s, m.q))
        else s' == Step(s, WaitOn(m.q.channel, t)) && m' == Sem(0, m.maxCount, Joined(s, Left(s, m.q)))
      case Release =>
        if m.count == m.maxCount then s' == s && m' == m
        else s' == WakesOne(s, m.q) && m' == Sem(m.count + 1, m.maxCount, m.q)
      case SemOther(op) => s' == Step(s, op) && m' == m
  {
    hide TableOk, QueueOk, QueueInv, ChannelWaited, ChannelWokenFirst;
  }

  lemma MailboxStepIs(s: Sys, b: Mailbox, act: MailboxAct)
    requires Inv(s) && MailboxInv(s, b) && MailboxEnabled(s, b, act)
    ensures var (s', b') := MailboxStep(s, b, act);
      match act
      case TrySend(v) => if b.hasMessage then s' == s && b' == b else Sends(s, b, v, s', b')
      case Send(v, t) =>
        if b.hasMessage then s' == Step(s, WaitOn(b.senders.channel, t)) && b' == b.(senders := Joined(s, b.senders))
        else Sends(s, b, v, s', b')
      case SendAgain(v, t) =>
        if b.hasMessage then s' == Step(s, WaitOn(b.senders.channel, t)) && b' == b.(senders := Joined(s, Left(s, b.senders)))
        else Sends(s, b.(senders := Left(s, b.senders)), v, s', b')
      case TryReceive => if !b.hasMessage then s' == s && b' == b else Receives(s, b, s', b')
      case Receive(t) =>
        if !b.hasMessage then s' == Step(s, WaitOn(b.receivers.channel, t)) && b' == b.(receivers := Joined(s, b.receivers))
        else Receives(s, b, s', b')
      case ReceiveAgain(t) =>
        if !b.hasMessage then s' == Step(s, WaitOn(b.receivers.channel, t)) && b' == b.(receivers := Joined(s, Left(s, b.receivers)))
        else Receives(s, b.(receivers := Left(s, b.receivers)), s', b')
      case MailboxOther(op) => s' == Step(s, op) && b' == b
  {
    hide TableOk, QueueOk, QueueInv, ChannelWaited, ChannelWokenFirst;
  }

  /** The message goes in, and one receiver is woken. */
  ghost predicate Sends(s: Sys, b: Mailbox, v: nat, s': Sys, b': Mailbox)
    requires Sized(s) && (s.mode == Normal || s.mode == Idle ==> s.current < |s.procs|)
  {
    s' == WakesOne(s, b.receivers) && b' == Mailbox(v, true, b.senders, b.receivers, b.sent + [v], b.received)
  }

  /** The message comes out, and one sender is woken. */
  ghost predicate Receives(s: Sys, b: Mailbox, s': Sys, b': Mailbox)
    requires Sized(s) && (s.mode == Normal || s.mode == Idle ==> s.current < |s.procs|)
  {
    s' == WakesOne(s, b.senders) && b' == Mailbox(b.message, false, b.senders, b.receivers, b.sent, b.received + [b.message])
  }

  // ---------------------------------------------------------------- who holds the mutex

  predicate IsLock(act: MutexAct) { act.TryLock? || act.Lock? || act.LockAgain? }

  /** The process that holds the lock before action `k`, by the calls alone: whoever called a lock while nobody
      held it, until it calls unlock. 0 stands for nobody. */
  ghost function Holder(states: seq<(Sys, Mutex)>, acts: seq<MutexAct>, k: nat): nat
    requires k <= |acts| && |states| == |acts| + 1
  {
    if k == 0 then 0
    else
      var holder, caller := Holder(states, acts, k - 1), Caller(states[k - 1].0);
      if IsLock(acts[k - 1]) && holder == 0 then caller
      else if acts[k - 1].Unlock? && holder == caller then 0
      else holder
  }

  /** Over all runs the owner of the mutex is its holder. */
  lemma {:induction false} OwnerIsHolder(states: seq<(Sys, Mutex)>, acts: seq<MutexAct>, k: nat)
    requires IsMutexRun(states, acts) && k <= |acts|
    ensures states[k].1.owner == Holder(states, acts, k)
  {
    hide TableOk, QueueOk, MutexEnabled, MutexStep, MutexInv, Caller;
    if k > 0 {
      OwnerIsHolder(states, acts, k - 1);
      MutexRunKeepsInv(states, acts, k - 1);
      MutexStepIs(states[k - 1].0, states[k - 1].1, acts[k - 1]);
    }
  }

  /** A lock call succeeds, that is kernel_mutex_try_lock answers 1 to it, exactly when nobody holds the mutex, and
      then the caller does. One that does not succeed changes no owner, and if it may wait, it waits. */
  lemma LockSucceedsIfFree(states: seq<(Sys, Mutex)>, acts: seq<MutexAct>, k: nat)
    requires IsMutexRun(states, acts) && k < |acts| && IsLock(acts[k])
    ensures CanLock(states[k].0, states[k].1) <==> Holder(states, acts, k) == 0
    ensures CanLock(states[k].0, states[k].1) ==> Holder(states, acts, k + 1) == Caller(states[k].0) != 0 && states[k + 1].0 == states[k].0
    ensures !CanLock(states[k].0, states[k].1) ==> Holder(states, acts, k + 1) == Holder(states, acts, k)
    ensures !acts[k].TryLock? ==> (states[k].0.current in states[k + 1].1.q.inside <==> Holder(states, acts, k) != 0)
  {
    hide TableOk, QueueOk, MutexStep, MutexInv, Caller, CurrentPid;
    OwnerIsHolder(states, acts, k);
    MutexRunKeepsInv(states, acts, k);
    CallerHasPid(states[k].0);
    MutexStepIs(states[k].0, states[k].1, acts[k]);
  }

  /** An unlock by the holder frees the mutex; by anybody else it is refused and changes nothing. */
  lemma OnlyHolderUnlocks(states: seq<(Sys, Mutex)>, acts: seq<MutexAct>, k: nat)
    requires IsMutexRun(states, acts) && k < |acts| && acts[k].Unlock?
    ensures if Caller(states[k].0) == Holder(states, acts, k) then Holder(states, acts, k + 1) == 0 && states[k + 1].1.owner == 0
            else states[k + 1] == states[k]
  {
    hide TableOk, QueueOk, MutexEnabled, MutexStep, MutexInv, Caller;
    OwnerIsHolder(states, acts, k);
    OwnerIsHolder(states, acts, k + 1);
    MutexRunKeepsInv(states, acts, k);
    MutexStepIs(states[k].0, states[k].1, acts[k]);
  }

  /** Mutual exclusion: between two lock calls that succeed, the process of the first has called unlock. */
  lemma MutualExclusion(states: seq<(Sys, Mutex)>, acts: seq<MutexAct>, i: nat, j: nat) returns (u: nat)
    requires IsMutexRun(states, acts) && i < j < |acts| && IsLock(acts[i]) && IsLock(acts[j])
    requires CanLock(states[i].0, states[i].1) && CanLock(states[j].0, states[j].1)
    ensures i < u < j && acts[u].Unlock? && Caller(states[u].0) == Caller(states[i].0)
  {
    assert |states| == |acts| + 1;
    hide IsMutexRun, CanLock, Caller;
    LockSucceedsIfFree(states, acts, i);
    LockSucceedsIfFree(states, acts, j);
    u := i + 1;
    while u < j && !(acts[u].Unlock? && Caller(states[u].0) == Caller(states[i].0))
      invariant i < u <= j && Holder(states, acts, u) == Caller(states[i].0)
    {
      u := u + 1;
    }
  }

  // ---------------------------------------------------------------- where the units of a semaphore are

  predicate IsAcquire(act: SemAct) { act.TryAcquire? || act.Acquire? || act.AcquireAgain? }

  /** How many acquires have found a unit, and how many releases found room, before action `k`. */
  ghost function Taken(states: seq<(Sys, Sem)>, acts: seq<SemAct>, k: nat): nat
    requires k <= |acts| && |states| == |acts| + 1
  {
    if k == 0 then 0
    else Taken(states, acts, k - 1) + if IsAcquire(acts[k - 1]) && states[k - 1].1.count > 0 then 1 else 0
  }

  ghost function Given(states: seq<(Sys, Sem)>, acts: seq<SemAct>, k: nat): nat
    requires k <= |acts| && |states| == |acts| + 1
  {
    if k == 0 then 0
    else Given(states, acts, k - 1) + if acts[k - 1].Release? && states[k - 1].1.count < states[0].1.maxCount then 1 else 0
  }

  /** Units are conserved: what there was at first and what was given is what was taken and what is left, and
      never more than the maximum is left. */
  lemma {:induction false} UnitsAddUp(states: seq<(Sys, Sem)>, acts: seq<SemAct>, k: nat)
    requires IsSemRun(states, acts) && k <= |acts|
    ensures states[0].1.count + Given(states, acts, k) == Taken(states, acts, k) + states[k].1.count
    ensures states[k].1.count <= states[k].1.maxCount == states[0].1.maxCount
  {
    hide TableOk, QueueOk, SemEnabled, SemStep, NobodyWaitsOn, QueueInv;
    if k > 0 {
      UnitsAddUp(states, acts, k - 1);
      SemRunKeepsInv(states, acts, k - 1);
      SemStepIs(states[k - 1].0, states[k - 1].1, acts[k - 1]);
    }
    SemRunKeepsInv(states, acts, k);
  }

  /** An acquire that finds no unit waits, unless it only tries; one that finds a unit goes on at once. */
  lemma AcquireWaitsIfEmpty(states: seq<(Sys, Sem)>, acts: seq<SemAct>, k: nat)
    requires IsSemRun(states, acts) && k < |acts| && (acts[k].Acquire? || acts[k].AcquireAgain?)
    ensures states[k].0.current in states[k + 1].1.q.inside <==> states[k].1.count == 0
    ensures states[k].1.count > 0 ==> states[k + 1].0 == states[k].0
  {
    hide TableOk, QueueOk, SemStep, NobodyWaitsOn, QueueInv;
    SemRunKeepsInv(states, acts, k);
    SemStepIs(states[k].0, states[k].1, acts[k]);
  }

  // ---------------------------------------------------------------- the messages of a mailbox

  /** What has gone in and come out before action `k`, by the calls alone: a send puts its message in when
      everything that went in has come out, and a receive takes the last one when it has not. */
  ghost function Traffic(acts: seq<MailboxAct>, k: nat): (seq<nat>, seq<nat>)
    requires k <= |acts|
  {
    if k == 0 then ([], [])
    else
      var (puts, takes) := Traffic(acts, k - 1);
      match acts[k - 1]
      case TrySend(v) => if puts == takes then (puts + [v], takes) else (puts, takes)
      case Send(v, _) => if puts == takes then (puts + [v], takes) else (puts, takes)
      case SendAgain(v, _) => if puts == takes then (puts + [v], takes) else (puts, takes)
      case MailboxOther(_) => (puts, takes)
      case _ => (puts, puts)
  }

  /** Over all runs: what is recorded as sent and received is that traffic, and the mailbox is full exactly when
      a message has not come out, which is then the one inside. */
  lemma {:induction false} MailboxIsTraffic(states: seq<(Sys, Mailbox)>, acts: seq<MailboxAct>, k: nat)
    requires IsMailboxRun(states, acts) && k <= |acts|
    ensures var b, (puts, takes) := states[k].1, Traffic(acts, k);
      && b.sent == puts && b.received == takes && b.hasMessage == (puts != takes)
      && puts == takes + if b.hasMessage then [b.message] else []
  {
    hide TableOk, QueueOk, MailboxEnabled, MailboxStep, NobodyWaitsOn, QueueInv;
    MailboxRunKeepsInv(states, acts, k);
    if k > 0 {
      MailboxIsTraffic(states, acts, k - 1);
      MailboxRunKeepsInv(states, acts, k - 1);
      MailboxStepIs(states[k - 1].0, states[k - 1].1, acts[k - 1]);
    }
  }
}
