/** Scans and updates of the process table (kernel/process_core.c). */
module ProcessCore {
  import opened ProcessModel

  /** UINT32_MAX, "no slot". */
  const NONE: nat := 0xFFFF_FFFF

  // ---------------------------------------------------------------- one slot

  function MadeReady(p: Process): Process {
    if p.state == Blocked then
      p.(state := Ready, wakeTick := 0, waitTarget := 0, waitReason := WaitNone, waitChannel := 0)
    else p
  }

  function Suspended(p: Process, reason: WaitReason, channel: nat, wakeTick: nat, target: nat): Process {
    p.(state := Blocked, waitReason := reason, waitChannel := channel, wakeTick := wakeTick, waitTarget := target)
  }

  predicate WaitsForChild(p: Process, child: nat) {
    p.state == Blocked && p.waitReason == WaitChild && (p.waitTarget == 0 || p.waitTarget == child)
  }

  predicate SleepOver(p: Process, tick: nat) {
    p.state == Blocked && p.waitReason == WaitSleepTicks && p.wakeTick <= tick
  }

  predicate WaitsOn(p: Process, channel: nat) {
    p.state == Blocked && p.waitReason == WaitEventChannel && p.waitChannel == channel
  }

  predicate Sleeps(p: Process) {
    p.state == Blocked && p.waitReason == WaitSleepTicks
  }

  /** `p` is a child of the process `parent`, and the one that `target` asks for. */
  predicate IsChild(p: Process, parent: nat, target: nat) {
    p.state != Unused && parent != 0 && p.parentPid == parent && (target == 0 || p.pid == target)
  }

  // ---------------------------------------------------------------- the whole table

  function Woken(ps: seq<Process>, who: Process -> bool): (ps': seq<Process>)
    ensures |ps'| == |ps|
    ensures forall i :: 0 <= i < |ps| ==> ps'[i] == if who(ps[i]) then MadeReady(ps[i]) else ps[i]
  {
    seq(|ps|, i requires 0 <= i < |ps| => if who(ps[i]) then MadeReady(ps[i]) else ps[i])
  }

  function CountWhere(ps: seq<Process>, who: Process -> bool): nat {
    if ps == [] then 0 else CountWhere(ps[..|ps| - 1], who) + (if who(ps[|ps| - 1]) then 1 else 0)
  }

  /** How many processes wait on the channel. */
  function WaitersOn(ps: seq<Process>, channel: nat): nat {
    CountWhere(ps, (p: Process) => WaitsOn(p, channel))
  }

  /** The first slot from `from` on that satisfies `who`, or NONE. */
  function FirstFrom(ps: seq<Process>, who: Process -> bool, from: nat): (index: nat)
    requires from <= |ps| <= NONE
    ensures if index == NONE then forall k :: from <= k < |ps| ==> !who(ps[k])
            else from <= index < |ps| && who(ps[index]) && forall k :: from <= k < index ==> !who(ps[k])
    decreases |ps| - from
  {
    if from == |ps| then NONE else if who(ps[from]) then from else FirstFrom(ps, who, from + 1)
  }

  function FindFreeSlot(ps: seq<Process>): nat
    requires |ps| <= NONE
  {
    FirstFrom(ps, (p: Process) => p.state == Unused, 0)
  }

  function FindIndexByPid(ps: seq<Process>, pid: nat): nat
    requires |ps| <= NONE
  {
    if pid == 0 then NONE else FirstFrom(ps, (p: Process) => p.state != Unused && p.pid == pid, 0)
  }

  function FindWaitableChild(ps: seq<Process>, parent: nat, target: nat): nat
    requires |ps| <= NONE
  {
    FirstFrom(ps, (p: Process) => IsChild(p, parent, target) && p.state == Zombie, 0)
  }

  predicate HasChild(ps: seq<Process>, parent: nat, target: nat) {
    exists i :: 0 <= i < |ps| && IsChild(ps[i], parent, target)
  }

  predicate HasSleepers(ps: seq<Process>) {
    exists i :: 0 <= i < |ps| && Sleeps(ps[i])
  }

  function WokenParents(ps: seq<Process>, child: nat): seq<Process> {
    Woken(ps, p => WaitsForChild(p, child))
  }

  function WokenSleepers(ps: seq<Process>, tick: nat): seq<Process> {
    Woken(ps, p => SleepOver(p, tick))
  }

  function WokenChannel(ps: seq<Process>, channel: nat): seq<Process> {
    Woken(ps, p => WaitsOn(p, channel))
  }

  /** The slot visited after `offset` steps of the round that starts behind `current`. */
  function RoundSlot(n: nat, current: nat, offset: nat): (index: nat)
    requires n > 0
    ensures index < n
  {
    ((if current == NONE then 0 else current + 1) + offset) % n
  }

  /** The first waiter on the channel in the round that starts behind `current`. */
  function FirstWaiter(ps: seq<Process>, channel: nat, current: nat, offset: nat): (index: nat)
    requires 0 < |ps| <= NONE && offset <= |ps|
    ensures if index == NONE then forall k :: offset <= k < |ps| ==> !WaitsOn(ps[RoundSlot(|ps|, current, k)], channel)
            else index < |ps| && WaitsOn(ps[index], channel)
    decreases |ps| - offset
  {
    if offset == |ps| then NONE
    else if WaitsOn(ps[RoundSlot(|ps|, current, offset)], channel) then RoundSlot(|ps|, current, offset)
    else FirstWaiter(ps, channel, current, offset + 1)
  }

  function WokenFirst(ps: seq<Process>, channel: nat, current: nat): (ps': seq<Process>)
    requires |ps| <= NONE
    ensures |ps'| == |ps|
  {
    if |ps| == 0 then ps
    else
      var i := FirstWaiter(ps, channel, current, 0);
      if i == NONE then ps else ps[i := MadeReady(ps[i])]
  }

  /** The round visits every slot, so the scan finds a waiter if there is one. */
  lemma RoundVisitsAll(n: nat, current: nat, slot: nat) returns (offset: nat)
    requires slot < n
    ensures offset < n && RoundSlot(n, current, offset) == slot
  {
    var start := if current == NONE then 0 else current + 1;
    var q, r := start / n, start % n;
    assert start == q * n + r;
    if r <= slot {
      offset := slot - r;
      assert start + offset == q * n + slot;
      ModOf(n, q, slot);
    } else {
      offset := slot + n - r;
      assert start + offset == (q + 1) * n + slot;
      ModOf(n, q + 1, slot);
    }
  }

  lemma ModOf(n: nat, q: nat, r: nat)
    requires r < n
    ensures (q * n + r) % n == r
  {
    var v := q * n + r;
    var d := q - v / n;
    assert n * (v / n) + v % n == v;
    assert n * d == v % n - r by {
      assert n * d == n * q - n * (v / n);
    }
    MultipleIsFar(n, d);
  }

  lemma MultipleIsFar(n: int, d: int)
    requires n > 0
    ensures d >= 1 ==> n * d >= n
    ensures d <= -1 ==> n * d <= 0 - n
  {
  }

  lemma WakeFirstFindsAWaiter(ps: seq<Process>, channel: nat, current: nat)
    requires 0 < |ps| <= NONE
    ensures FirstWaiter(ps, channel, current, 0) != NONE <==> exists i :: 0 <= i < |ps| && WaitsOn(ps[i], channel)
  {
    if FirstWaiter(ps, channel, current, 0) == NONE {
      forall i | 0 <= i < |ps| ensures !WaitsOn(ps[i], channel) {
        var k := RoundVisitsAll(|ps|, current, i);
      }
    }
  }

  // ---------------------------------------------------------------- the code

  method FindFreeSlotIn(processes: array<Process>) returns (index: nat)
    requires processes.Length <= NONE
    ensures index == FindFreeSlot(processes[..])
  {
    for i := 0 to processes.Length
      invariant FirstFrom(processes[..], (p: Process) => p.state == Unused, 0)
             == FirstFrom(processes[..], (p: Process) => p.state == Unused, i)
    {
      if processes[i].state == Unused {
        return i;
      }
    }
    return NONE;
  }

  method FindIndexByPidIn(processes: array<Process>, pid: nat) returns (index: nat)
    requires processes.Length <= NONE
    ensures index == FindIndexByPid(processes[..], pid)
  {
    if pid == 0 {
      return NONE;
    }
    ghost var who := (p: Process) => p.state != Unused && p.pid == pid;
    for i := 0 to processes.Length
      invariant FirstFrom(processes[..], who, 0) == FirstFrom(processes[..], who, i)
    {
      if processes[i].state != Unused && processes[i].pid == pid {
        return i;
      }
    }
    return NONE;
  }

  method FindWaitableChildIn(processes: array<Process>, parent: nat, target: nat) returns (index: nat)
    requires processes.Length <= NONE
    ensures index == FindWaitableChild(processes[..], parent, target)
  {
    ghost var who := (p: Process) => IsChild(p, parent, target) && p.state == Zombie;
    for i := 0 to processes.Length
      invariant FirstFrom(processes[..], who, 0) == FirstFrom(processes[..], who, i)
    {
      if processes[i].state == Unused {
        continue;
      }
      if !(parent != 0 && processes[i].parentPid == parent) {
        continue;
      }
      if target != 0 && processes[i].pid != target {
        continue;
      }
      if processes[i].state == Zombie {
        return i;
      }
    }
    return NONE;
  }

  method HasChildIn(processes: array<Process>, parent: nat, target: nat) returns (found: bool)
    ensures found == HasChild(processes[..], parent, target)
  {
    for i := 0 to processes.Length
      invariant forall k :: 0 <= k < i ==> !IsChild(processes[k], parent, target)
    {
      if processes[i].state == Unused {
        continue;
      }
      if !(parent != 0 && processes[i].parentPid == parent) {
        continue;
      }
      if target == 0 || processes[i].pid == target {
        assert IsChild(processes[..][i], parent, target);
        return true;
      }
    }
    return false;
  }

  method CountBlockedSleepers(processes: array<Process>) returns (count: nat)
    ensures count != 0 <==> HasSleepers(processes[..])
    ensures count <= processes.Length
  {
    count := 0;
    for i := 0 to processes.Length
      invariant count <= i
      invariant count != 0 <==> exists k :: 0 <= k < i && Sleeps(processes[..][k])
    {
      assert processes[..][i] == processes[i];
      if processes[i].state == Blocked && processes[i].waitReason == WaitSleepTicks {
        count := count + 1;
      }
    }
  }

  method MakeReady(processes: array<Process>, index: nat)
    requires index < processes.Length
    modifies processes
    ensures processes[..] == old(processes[..])[index := MadeReady(old(processes[index]))]
  {
    if processes[index].state == Blocked {
      processes[index] := processes[index].(state := Ready, wakeTick := 0, waitTarget := 0,
                                            waitReason := WaitNone, waitChannel := 0);
    }
  }

  method WakeWaitingParent(processes: array<Process>, child: nat) returns (woke: nat)
    modifies processes
    ensures processes[..] == WokenParents(old(processes[..]), child)
    ensures woke == CountWhere(old(processes[..]), (p: Process) => WaitsForChild(p, child))
  {
    woke := 0;
    ghost var who, ps := (p: Process) => WaitsForChild(p, child), processes[..];
    assert ps[..|ps|] == ps;
    for i := 0 to processes.Length
      invariant forall k :: 0 <= k < i ==> processes[k] == WokenParents(old(processes[..]), child)[k]
      invariant forall k :: i <= k < processes.Length ==> processes[k] == old(processes[k])
      invariant woke == CountWhere(ps[..i], who)
    {
      assert ps[..i + 1][..i] == ps[..i];
      if processes[i].state != Blocked || processes[i].waitReason != WaitChild {
        continue;
      }
      if processes[i].waitTarget == 0 || processes[i].waitTarget == child {
        MakeReady(processes, i);
        woke := woke + 1;
      }
    }
  }

  method WakeSleepers(processes: array<Process>, tick: nat) returns (woke: nat)
    modifies processes
    ensures processes[..] == WokenSleepers(old(processes[..]), tick)
    ensures woke == CountWhere(old(processes[..]), (p: Process) => SleepOver(p, tick))
  {
    woke := 0;
    ghost var who, ps := (p: Process) => SleepOver(p, tick), processes[..];
    assert ps[..|ps|] == ps;
    for i := 0 to processes.Length
      invariant forall k :: 0 <= k < i ==> processes[k] == WokenSleepers(old(processes[..]), tick)[k]
      invariant forall k :: i <= k < processes.Length ==> processes[k] == old(processes[k])
      invariant woke == CountWhere(ps[..i], who)
    {
      assert ps[..i + 1][..i] == ps[..i];
      if processes[i].state == Blocked && processes[i].waitReason == WaitSleepTicks && processes[i].wakeTick <= tick {
        MakeReady(processes, i);
        woke := woke + 1;
      }
    }
  }

  method WakeChannel(processes: array<Process>, channel: nat) returns (woke: nat)
    modifies processes
    ensures processes[..] == WokenChannel(old(processes[..]), channel)
    ensures woke == WaitersOn(old(processes[..]), channel)
  {
    woke := 0;
    ghost var ps := processes[..];
    assert ps[..|ps|] == ps;
    for i := 0 to processes.Length
      invariant forall k :: 0 <= k < i ==> processes[k] == WokenChannel(old(processes[..]), channel)[k]
      invariant forall k :: i <= k < processes.Length ==> processes[k] == old(processes[k])
      invariant woke == WaitersOn(ps[..i], channel)
    {
      assert ps[..i + 1][..i] == ps[..i];
      if processes[i].state == Blocked && processes[i].waitReason == WaitEventChannel && processes[i].waitChannel == channel {
        MakeReady(processes, i);
        woke := woke + 1;
      }
    }
  }

  method WakeFirstChannel(processes: array<Process>, channel: nat, current: nat) returns (woke: nat)
    requires processes.Length <= NONE
    modifies processes
    ensures processes[..] == WokenFirst(old(processes[..]), channel, current)
    ensures woke <= 1 && (woke == 1 <==> exists i :: 0 <= i < processes.Length && WaitsOn(old(processes[..])[i], channel))
  {
    if processes.Length == 0 {
      return 0;
    }
    WakeFirstFindsAWaiter(processes[..], channel, current);
    var start := if current == NONE then 0 else current + 1;
    for offset := 0 to processes.Length
      invariant processes[..] == old(processes[..])
      invariant FirstWaiter(processes[..], channel, current, 0) == FirstWaiter(processes[..], channel, current, offset)
    {
      var index := (start + offset) % processes.Length;
      if processes[index].state == Blocked && processes[index].waitReason == WaitEventChannel &&
         processes[index].waitChannel == channel {
        MakeReady(processes, index);
        return 1;
      }
    }
    return 0;
  }
}
