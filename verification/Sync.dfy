/** The code of the blocking primitives over the scheduler's code (kernel/wait_queue.c,
    semaphore.c, mutex.c, mailbox.c), proved to make the steps of SyncObjects. A method that gives
    the processor away ends there; what the caller does once it runs again is a method of its own. */
module Sync {
  import opened ProcessModel
  import opened ProcessCore
  import opened SchedulerModel
  import opened SchedulerSafety
  import opened SyncModel
  import opened SyncObjects
  import opened Scheduler

  /** g_next_wait_queue_channel and the objects made with it. Whether the allocator has room for an object
      and for each of its queues are arguments; a half-made object is given up. */
  class WaitObjects {
    var nextChannel: nat

    constructor ()
      ensures nextChannel == 0x1000
    {
      nextChannel := 0x1000;
    }

    /** kernel_wait_queue_create: none without memory, and then no channel is used up. */
    method CreateQueue(memory: bool) returns (queue: WaitQueue?)
      modifies this
      ensures queue == null <==> !memory
      ensures queue != null ==> fresh(queue) && queue.Value() == NewQueue(old(nextChannel))
      ensures nextChannel == if memory then Increment(old(nextChannel)) else old(nextChannel)
    {
      if !memory { return null; }
      queue := new WaitQueue(nextChannel);
      nextChannel := Increment(nextChannel);
    }

    /** kernel_semaphore_create: none for illegal counts or without memory; a new one is in order. */
    method CreateSemaphore(kernel: Kernel, initial: nat, max: nat, memory: bool, queueMemory: bool) returns (made: Semaphore?)
      requires NobodyWaitsOn(kernel.State(), nextChannel) && this !in kernel.Footprint()
      modifies this
      ensures made == null <==> max == 0 || initial > max || !memory || !queueMemory
      ensures made != null ==> fresh(made) && fresh(made.waitQueue)
      ensures made != null ==> made.Value() == Sem(initial, max, NewQueue(old(nextChannel))) && SemInv(kernel.State(), made.Value())
      ensures nextChannel == if made != null then Increment(old(nextChannel)) else old(nextChannel)
    {
      if max == 0 || initial > max || !memory { return null; }
      FreshSemaphore(kernel.State(), initial, max, nextChannel);
      var queue := CreateQueue(queueMemory);
      if queue == null { return null; }
      made := new Semaphore(initial, max, queue);
    }

    /** kernel_mutex_create. */
    method CreateMutex(kernel: Kernel, memory: bool, queueMemory: bool) returns (made: KernelMutex?)
      requires NobodyWaitsOn(kernel.State(), nextChannel) && this !in kernel.Footprint()
      modifies this
      ensures made == null <==> !memory || !queueMemory
      ensures made != null ==> fresh(made) && fresh(made.waitQueue)
      ensures made != null ==> made.Value() == Mutex(0, NewQueue(old(nextChannel))) && MutexInv(kernel.State(), made.Value())
      ensures nextChannel == if made != null then Increment(old(nextChannel)) else old(nextChannel)
    {
      if !memory { return null; }
      FreshMutex(kernel.State(), nextChannel);
      var queue := CreateQueue(queueMemory);
      if queue == null { return null; }
      made := new KernelMutex(queue);
    }

    /** kernel_mailbox_create. When only the second queue finds no memory, the first is destroyed and its
        channel is used up. */
    method CreateMailbox(kernel: Kernel, memory: bool, senderMemory: bool, receiverMemory: bool) returns (made: KernelMailbox?)
      requires nextChannel < UINT32 && this !in kernel.Footprint()
      requires NobodyWaitsOn(kernel.State(), nextChannel) && NobodyWaitsOn(kernel.State(), Increment(nextChannel))
      modifies this
      ensures made == null <==> !memory || !senderMemory || !receiverMemory
      ensures made != null ==> fresh(made) && fresh(made.senders) && fresh(made.receivers) && made.senders != made.receivers
      ensures made != null ==> (
        && made.Value() == NewMailbox(old(nextChannel), Increment(old(nextChannel)))
        && MailboxInv(kernel.State(), made.Value()))
      ensures nextChannel ==
        if !memory || !senderMemory then old(nextChannel)
        else if !receiverMemory then Increment(old(nextChannel)) else Increment(Increment(old(nextChannel)))
    {
      if !memory { return null; }
      FreshMailbox(kernel.State(), nextChannel, Increment(nextChannel));
      var senders := CreateQueue(senderMemory);
      if senders == null { return null; }
      var receivers := CreateQueue(receiverMemory);
      if receivers == null { return null; }
      made := new KernelMailbox(senders, receivers);
    }
  }

  class WaitQueue {
    const channel: nat
    var waiterCount: nat
    ghost var inside: set<nat>

    ghost function Value(): WaitQ
      reads this
    {
      WaitQ(channel, waiterCount, inside)
    }

    constructor (channel: nat)
      ensures Value() == WaitQ(channel, 0, {})
    {
      this.channel, waiterCount, inside := channel, 0, {};
    }

    /** kernel_wait_queue_wait, until the caller has given way. */
    method BeginWait(kernel: Kernel, interrupts: nat)
      requires kernel.Valid() && Inv(kernel.State()) && kernel.mode == Normal && this !in kernel.Footprint()
      modifies this, kernel.Footprint()
      ensures kernel.Valid() && kernel.State() == ChannelWaited(old(kernel.State()), channel, interrupts)
      ensures Value() == WaitingQueue(old(kernel.State()), old(Value()))
    {
      hide Inv, ChannelWaited;
      waiterCount := waiterCount + 1;
      inside := inside + {kernel.current};
      kernel.ProcessWaitChannel(channel, interrupts);
    }

    /** The rest of kernel_wait_queue_wait, when the caller runs again. */
    method EndWait(kernel: Kernel)
      modifies this
      ensures Value() == ResumedQueue(kernel.State(), old(Value()))
    {
      if waiterCount != 0 {
        waiterCount := waiterCount - 1;
      }
      inside := inside - {kernel.current};
    }

    method WakeOne(kernel: Kernel) returns (woke: nat)
      requires kernel.Valid() && this !in kernel.Footprint()
      modifies kernel.Footprint()
      ensures kernel.Valid() && kernel.State() == ChannelWokenFirst(old(kernel.State()), channel)
      ensures woke == if NobodyWaitsOn(old(kernel.State()), channel) then 0 else 1
    {
      woke := kernel.ProcessWakeFirstChannel(channel);
    }

    method WakeAll(kernel: Kernel) returns (woke: nat)
      requires kernel.Valid() && this !in kernel.Footprint()
      modifies kernel.Footprint()
      ensures kernel.Valid() && kernel.State() == ChannelWoken(old(kernel.State()), channel)
      ensures woke == WaitersOn(old(kernel.State()).procs, channel)
    {
      woke := kernel.ProcessWakeChannel(channel);
    }

    /** The wake-up that every release, unlock, send and receive ends with. */
    method Notify(kernel: Kernel)
      requires kernel.Valid() && this !in kernel.Footprint()
      modifies kernel.Footprint()
      ensures kernel.Valid() && kernel.State() == Notified(old(kernel.State()), Value())
    {
      if waiterCount != 0 {
        var woke := WakeOne(kernel);
      }
    }
  }

  class Semaphore {
    var count: nat
    const maxCount: nat
    const waitQueue: WaitQueue

    ghost function Value(): Sem
      reads this, waitQueue
    {
      Sem(count, maxCount, waitQueue.Value())
    }

    ghost predicate Apart(kernel: Kernel)
      reads kernel
    {
      this !in kernel.Footprint() && waitQueue !in kernel.Footprint()
    }

    constructor (initial: nat, max: nat, queue: WaitQueue)
      requires max != 0 && initial <= max
      ensures Value() == Sem(initial, max, queue.Value()) && waitQueue == queue
    {
      count, maxCount, waitQueue := initial, max, queue;
    }

    method TryAcquire() returns (done: bool)
      modifies this
      ensures Value() == TriedAcquire(old(Value())) && (done <==> old(count) != 0)
    {
      if count == 0 {
        return false;
      }
      count := count - 1;
      return true;
    }

    /** One round of the loop in kernel_semaphore_acquire; after a round that is not done the
        caller comes back through AcquireAgain. */
    method Acquire(kernel: Kernel, interrupts: nat) returns (done: bool)
      requires kernel.Valid() && Inv(kernel.State()) && kernel.mode == Normal && Apart(kernel)
      modifies this, waitQueue, kernel.Footprint()
      ensures kernel.Valid() && (done <==> old(count) != 0)
      ensures old(kernel.current) < kernel.procs.Length
      ensures (kernel.State(), Value()) == AcquireRound(old(kernel.State()), old(Value()), interrupts)
    {
      NormalIsYielding(kernel.State());
      hide Inv, ChannelWaited, Yielding;
      done := TryAcquire();
      if !done {
        waitQueue.BeginWait(kernel, interrupts);
      }
    }

    method AcquireAgain(kernel: Kernel, interrupts: nat) returns (done: bool)
      requires kernel.Valid() && Inv(kernel.State()) && kernel.mode == Normal && Apart(kernel)
      modifies this, waitQueue, kernel.Footprint()
      ensures kernel.Valid() && old(kernel.current) < kernel.procs.Length
      ensures (kernel.State(), Value()) == AcquireRound(old(kernel.State()),
        old(Value()).(q := ResumedQueue(old(kernel.State()), old(Value()).q)), interrupts)
      ensures done <==> old(count) != 0
    {
      hide Inv, ChannelWaited, AcquireRound;
      waitQueue.EndWait(kernel);
      done := Acquire(kernel, interrupts);
    }

    method Release(kernel: Kernel) returns (done: bool)
      requires kernel.Valid() && Apart(kernel)
      modifies this, kernel.Footprint()
      ensures kernel.Valid() && (done <==> old(count) != maxCount)
      ensures (kernel.State(), Value()) == ReleasedSem(old(kernel.State()), old(Value()))
    {
      if count == maxCount {
        return false;
      }
      count := count + 1;
      waitQueue.Notify(kernel);
      return true;
    }
  }

  class KernelMutex {
    var ownerPid: nat
    const waitQueue: WaitQueue

    ghost function Value(): Mutex
      reads this, waitQueue
    {
      Mutex(ownerPid, waitQueue.Value())
    }

    ghost predicate Apart(kernel: Kernel)
      reads kernel
    {
      this !in kernel.Footprint() && waitQueue !in kernel.Footprint()
    }

    constructor (queue: WaitQueue)
      ensures Value() == Mutex(0, queue.Value()) && waitQueue == queue
    {
      ownerPid, waitQueue := 0, queue;
    }

    method TryLock(kernel: Kernel) returns (done: bool)
      requires kernel.Valid() && Apart(kernel)
      modifies this
      ensures Value() == TriedLock(kernel.State(), old(Value())) && (done <==> CanLock(kernel.State(), old(Value())))
    {
      var pid := kernel.CurrentPidRead();
      if pid == 0 || ownerPid != 0 {
        return false;
      }
      ownerPid := pid;
      return true;
    }

    method Lock(kernel: Kernel, interrupts: nat) returns (done: bool)
      requires kernel.Valid() && Inv(kernel.State()) && kernel.mode == Normal && Apart(kernel)
      modifies this, waitQueue, kernel.Footprint()
      ensures kernel.Valid() && old(kernel.current) < kernel.procs.Length
      ensures (kernel.State(), Value()) == LockRound(old(kernel.State()), old(Value()), interrupts)
      ensures done <==> CanLock(old(kernel.State()), old(Value()))
    {
      NormalIsYielding(kernel.State());
      hide Inv, ChannelWaited, Yielding;
      done := TryLock(kernel);
      if !done {
        waitQueue.BeginWait(kernel, interrupts);
      }
    }

    method LockAgain(kernel: Kernel, interrupts: nat) returns (done: bool)
      requires kernel.Valid() && Inv(kernel.State()) && kernel.mode == Normal && Apart(kernel)
      modifies this, waitQueue, kernel.Footprint()
      ensures kernel.Valid() && old(kernel.current) < kernel.procs.Length
      ensures (kernel.State(), Value()) == LockRound(old(kernel.State()),
        old(Value()).(q := ResumedQueue(old(kernel.State()), old(Value()).q)), interrupts)
      ensures done <==> CanLock(old(kernel.State()), old(Value()))
    {
      hide Inv, ChannelWaited, LockRound;
      waitQueue.EndWait(kernel);
      done := Lock(kernel, interrupts);
    }

    method Unlock(kernel: Kernel) returns (done: bool)
      requires kernel.Valid() && Apart(kernel)
      modifies this, kernel.Footprint()
      ensures kernel.Valid()
      ensures (kernel.State(), Value()) == UnlockedMutex(old(kernel.State()), old(Value()))
      ensures done <==> CurrentPid(old(kernel.State())) != 0 && old(ownerPid) == CurrentPid(old(kernel.State()))
    {
      var pid := kernel.CurrentPidRead();
      if pid == 0 || ownerPid != pid {
        return false;
      }
      ownerPid := 0;
      waitQueue.Notify(kernel);
      return true;
    }
  }

  class KernelMailbox {
    var message: nat
    var hasMessage: bool
    const senders: WaitQueue
    const receivers: WaitQueue
    ghost var sent: seq<nat>
    ghost var received: seq<nat>

    ghost function Value(): Mailbox
      reads this, senders, receivers
    {
      Mailbox(message, hasMessage, senders.Value(), receivers.Value(), sent, received)
    }

    ghost predicate Apart(kernel: Kernel)
      reads kernel
    {
      && this !in kernel.Footprint() && senders !in kernel.Footprint() && receivers !in kernel.Footprint()
      && senders != receivers
    }

    constructor (senders: WaitQueue, receivers: WaitQueue)
      ensures Value() == Mailbox(0, false, senders.Value(), receivers.Value(), [], [])
      ensures this.senders == senders && this.receivers == receivers
    {
      this.senders, this.receivers := senders, receivers;
      message, hasMessage := 0, false;
      sent, received := [], [];
    }

    method TrySend(kernel: Kernel, value: nat) returns (done: bool)
      requires kernel.Valid() && Apart(kernel)
      modifies this, kernel.Footprint()
      ensures kernel.Valid() && (done <==> !old(hasMessage))
      ensures (kernel.State(), Value()) == TriedSend(old(kernel.State()), old(Value()), value)
    {
      if hasMessage {
        return false;
      }
      message, hasMessage := value, true;
      sent := sent + [value];
      receivers.Notify(kernel);
      return true;
    }

    method Send(kernel: Kernel, value: nat, interrupts: nat) returns (done: bool)
      requires kernel.Valid() && Inv(kernel.State()) && kernel.mode == Normal && Apart(kernel)
      modifies this, senders, kernel.Footprint()
      ensures kernel.Valid() && old(kernel.current) < kernel.procs.Length
      ensures (kernel.State(), Value()) == SendRound(old(kernel.State()), old(Value()), value, interrupts)
      ensures done <==> !old(hasMessage)
    {
      NormalIsYielding(kernel.State());
      hide Inv, ChannelWaited, Yielding, Notified;
      done := TrySend(kernel, value);
      if !done {
        senders.BeginWait(kernel, interrupts);
      }
    }

    method SendAgain(kernel: Kernel, value: nat, interrupts: nat) returns (done: bool)
      requires kernel.Valid() && Inv(kernel.State()) && kernel.mode == Normal && Apart(kernel)
      modifies this, senders, kernel.Footprint()
      ensures kernel.Valid() && old(kernel.current) < kernel.procs.Length
      ensures (kernel.State(), Value()) == SendRound(old(kernel.State()),
        old(Value()).(senders := ResumedQueue(old(kernel.State()), old(Value()).senders)), value, interrupts)
      ensures done <==> !old(hasMessage)
    {
      hide Inv, ChannelWaited, SendRound;
      senders.EndWait(kernel);
      done := Send(kernel, value, interrupts);
    }

    method TryReceive(kernel: Kernel) returns (done: bool, value: nat)
      requires kernel.Valid() && Apart(kernel)
      modifies this, kernel.Footprint()
      ensures kernel.Valid() && (done <==> old(hasMessage)) && (done ==> value == old(message))
      ensures (kernel.State(), Value()) == TriedReceive(old(kernel.State()), old(Value()))
    {
      value := 0;
      if !hasMessage {
        return false, value;
      }
      value := message;
      hasMessage := false;
      received := received + [value];
      senders.Notify(kernel);
      return true, value;
    }

    method Receive(kernel: Kernel, interrupts: nat) returns (done: bool, value: nat)
      requires kernel.Valid() && Inv(kernel.State()) && kernel.mode == Normal && Apart(kernel)
      modifies this, receivers, kernel.Footprint()
      ensures kernel.Valid() && old(kernel.current) < kernel.procs.Length
      ensures (kernel.State(), Value()) == ReceiveRound(old(kernel.State()), old(Value()), interrupts)
      ensures (done <==> old(hasMessage)) && (done ==> value == old(message))
    {
      NormalIsYielding(kernel.State());
      hide Inv, ChannelWaited, Yielding, Notified;
      done, value := TryReceive(kernel);
      if !done {
        receivers.BeginWait(kernel, interrupts);
      }
    }

    method ReceiveAgain(kernel: Kernel, interrupts: nat) returns (done: bool, value: nat)
      requires kernel.Valid() && Inv(kernel.State()) && kernel.mode == Normal && Apart(kernel)
      modifies this, receivers, kernel.Footprint()
      ensures kernel.Valid() && old(kernel.current) < kernel.procs.Length
      ensures (kernel.State(), Value()) == ReceiveRound(old(kernel.State()),
        old(Value()).(receivers := ResumedQueue(old(kernel.State()), old(Value()).receivers)), interrupts)
      ensures (done <==> old(hasMessage)) && (done ==> value == old(message))
    {
      hide Inv, ChannelWaited, ReceiveRound;
      receivers.EndWait(kernel);
      done, value := Receive(kernel, interrupts);
    }
  }
}
