/** Who may use a handle, and what each system call on handles answers and changes, told by the fields of
    entries, slots and sessions alone (kernel/runtime_syscall.c). */
module HandleLaws {
  import opened FsModel
  import opened FsSound
  import opened FsRuns
  import opened Handles
  import opened HandleRuns

  // ---------------------------------------------------------------- access

  /** The number names an entry that belongs to the process, or to nobody. */
  predicate Usable(w: World, pid: U32, id: nat) {
    0 < id <= |w.handles| && w.handles[id - 1].kind != NoHandle && w.handles[id - 1].owner in {0, pid}
  }

  /** Who holds what. */
  function Grip(h: Handle): (Kind, U32, nat) { (h.kind, h.owner, h.target) }

  /** No other entry of the same owner names the same object. */
  ghost predicate Alone(handles: seq<Handle>, i: nat)
    requires i < |handles|
  {
    forall j :: 0 <= j < |handles| && Grip(handles[j]) == Grip(handles[i]) ==> j == i
  }

  lemma AloneIs(handles: seq<Handle>, i: nat)
    requires i < |handles|
    ensures AliasCount(handles, handles[i], |handles|) <= 1 <==> Alone(handles, i)
  {
    hide AliasCount;
    AliasCountIs(handles, i);
    forall j | 0 <= j < |handles| ensures Aliases(handles[j], handles[i]) <==> Grip(handles[j]) == Grip(handles[i]) {}
  }

  // ---------------------------------------------------------------- close

  /** The session of that number is in use. */
  predicate InSession(w: World, target: nat) { 0 < target <= |w.sessions| && w.sessions[target - 1].active }

  /** EBADF for a handle the process may not use. The last handle on an event or mailbox that is still needed
      is EBUSY, and on a session that has ended EBADF; any other close succeeds. */
  ghost function CloseAnswer(w: World, pid: U32, id: nat, agrees: bool): Status {
    if !Usable(w, pid, id) then EBADF
    else
      var h := w.handles[id - 1];
      if !Alone(w.handles, id - 1) then OK
      else if h.kind in {Event, Mailbox} && !agrees then EBUSY
      else if h.kind == Service && !InSession(w, h.target) then EBADF
      else OK
  }

  /** The entry is blank, and with the last handle on it the open file, or the session, is too. */
  ghost predicate Closes(w: World, i: nat, w': World)
    requires i < |w.handles|
  {
    var h, last := w.handles[i], Alone(w.handles, i);
    && w'.handles == w.handles[i := Handle(0, 0, NoHandle, 0)]
    && (if h.kind == File && last
        then 0 < h.target <= |w.fs.slots| && w'.fs == w.fs.(slots := w.fs.slots[h.target - 1 := OpenFile(false, 0, 0, 0, 0, 0)])
        else w'.fs == w.fs)
    && (if h.kind == Service && last
        then InSession(w, h.target) && w'.sessions == w.sessions[h.target - 1 := Session(false, 0, 0)]
        else w'.sessions == w.sessions)
  }

  lemma CloseAnswers(w: World, pid: U32, id: nat, agrees: bool)
    requires FilesAgree(w)
    ensures var (w', status) := HandleClosed(w, pid, id, agrees);
      && status == CloseAnswer(w, pid, id, agrees)
      && if status == OK then 0 < id <= |w.handles| && Closes(w, id - 1, w') else w' == w
  {
    hide Sound, AliasCount, Alone;
    if Usable(w, pid, id) {
      AloneIs(w.handles, id - 1);
      assert HandleOk(w, id - 1);
    }
  }

  // ---------------------------------------------------------------- dup and the opens

  /** The first blank entry is now this handle, and its number the answer. */
  ghost predicate Gains(w: World, w': World, owner: U32, kind: Kind, target: nat, id: nat) {
    && 0 < id <= |w.handles| && w.handles[id - 1].kind == NoHandle && (forall j :: 0 <= j < id - 1 ==> w.handles[j].kind != NoHandle)
    && w'.handles == w.handles[id - 1 := Handle(id, owner, kind, target)]
  }

  ghost predicate NoRoom(w: World) {
    forall j :: 0 <= j < |w.handles| ==> w.handles[j].kind != NoHandle
  }

  /** dup: EBADF for a handle the process may not use, ENOSPC without an entry; otherwise a second handle of the
      same owner on the same object. */
  lemma DupAnswers(w: World, pid: U32, id: nat)
    ensures var (w', r) := Duplicated(w, pid, id);
      if !Usable(w, pid, id) then w' == w && r == Err(EBADF)
      else if NoRoom(w) then w' == w && r == Err(ENOSPC)
      else
        var h := w.handles[id - 1];
        r.Ok? && Gains(w, w', h.owner, h.kind, h.target, r.value) && w'.fs == w.fs && w'.sessions == w.sessions
  {
  }

  /** file open answers as the file system does, or ENOSPC without an entry, and then the slots are as they were. */
  lemma FileOpenAnswers(w: World, pid: U32, path: seq<Letter>, flags: U32)
    requires FilesAgree(w)
    ensures InRange(w.fs)
    ensures var (w', r), (fs', answer) := FileOpened(w, pid, path, flags), OpenOf(w.fs, pid, path, flags);
      && w'.sessions == w.sessions && w'.fs.nodes == fs'.nodes
      && if answer.Err? then w' == w.(fs := fs') && r == answer
         else if NoRoom(w) then w'.handles == w.handles && w'.fs.slots == w.fs.slots && r == Err(ENOSPC)
         else r.Ok? && Gains(w, w', pid, File, answer.value, r.value) && w'.fs == fs'
  {
    hide Sound, OpenOf, KeepsSessions, FilesAgree;
    FilesAreSound(w);
    FileOpenRollsBack(w, pid, path, flags);
    var answer := OpenOf(w.fs, pid, path, flags).1;
    if answer.Ok? { GrantedIs(w.handles, pid, File, answer.value); }
  }

  /** The first session that is not in use. */
  ghost predicate FirstFreeSession(w: World, k: nat) {
    k < |w.sessions| && !w.sessions[k].active && forall j :: 0 <= j < k ==> w.sessions[j].active
  }

  /** service open: ENOENT for an unknown service, ESRCH for one without a provider, EINVAL for a caller without
      a pid, ENOSPC without a session or an entry; otherwise a session of the caller with the provider. */
  lemma ServiceOpenAnswers(w: World, pid: U32, known: bool, provider: U32, k: nat)
    requires FirstFreeSession(w, k) || (k == |w.sessions| && forall j :: 0 <= j < k ==> w.sessions[j].active)
    ensures var (w', r) := ServiceOpened(w, pid, known, provider);
      if !known then w' == w && r == Err(ENOENT)
      else if provider == 0 then w' == w && r == Err(ESRCH)
      else if pid == 0 then w' == w && r == Err(EINVAL)
      else if k == |w.sessions| then w' == w && r == Err(ENOSPC)
      else if NoRoom(w) then w' == w.(sessions := w.sessions[k := Session(false, 0, 0)]) && r == Err(ENOSPC)
      else
        && r.Ok? && Gains(w, w', pid, Service, k + 1, r.value)
        && w'.fs == w.fs && w'.sessions == w.sessions[k := Session(true, pid, provider)]
  {
    FirstInactiveIs(w.sessions, 0, k);
  }

  lemma {:induction false} FirstInactiveIs(sessions: seq<Session>, from: nat, k: nat)
    requires from <= k <= |sessions| && (forall j :: from <= j < k ==> sessions[j].active) && (k < |sessions| ==> !sessions[k].active)
    ensures FirstInactive(sessions, from) == k
    decreases k - from
  {
    if from < k { FirstInactiveIs(sessions, from + 1, k); }
  }

  /** Opening a process, an event or a mailbox: ENOSPC without an entry, ENOMEM for an event or mailbox that
      could not be created. */
  lemma ObjectOpenAnswers(w: World, pid: U32, kind: Kind, target: nat)
    requires FilesAgree(w)
    ensures var (w', r) := ObjectOpened(w, pid, kind, target);
      && w'.fs == w.fs && w'.sessions == w.sessions
      && if kind !in {Process, Event, Mailbox} then w'.handles == w.handles && r == Err(EINVAL)
         else if NoRoom(w) then w'.handles == w.handles && r == Err(ENOSPC)
         else if target == 0 && kind != Process then w'.handles == w.handles && r == Err(ENOMEM)
         else r.Ok? && Gains(w, w', pid, kind, target, r.value)
  {
    hide Sound;
    GrantedIs(w.handles, pid, kind, target);
    var id := Granted(w.handles, pid, kind, target).1;
    if id != 0 { assert HandleOk(w, id - 1); }
  }

  // ---------------------------------------------------------------- requests

  /** Exactly the sessions of that provider have ended. */
  ghost predicate EndsProvider(sessions: seq<Session>, sessions': seq<Session>, provider: U32) {
    && |sessions'| == |sessions|
    && forall k :: 0 <= k < |sessions| ==>
         sessions'[k] == if sessions[k].active && sessions[k].provider == provider then Session(false, 0, 0) else sessions[k]
  }

  /** request: EBADF for a handle the process may not use, one that is not on a service, or one on a session that
      has ended. When the provider of the session is gone or replaced, ESRCH, and the sessions of the old one end;
      otherwise nothing changes. */
  lemma RequestAnswers(w: World, pid: U32, id: nat, provider: U32, ready: bool)
    requires SessionsHeld(w)
    ensures var (w', status) := Requested(w, pid, id, provider, ready);
      if !Usable(w, pid, id) || w.handles[id - 1].kind != Service || !InSession(w, w.handles[id - 1].target) then w' == w && status == EBADF
      else
        var session := w.sessions[w.handles[id - 1].target - 1];
        if provider == session.provider then w' == w && status == if ready then OK else EBUSY
        else status == ESRCH && w' == w.(sessions := w'.sessions) && EndsProvider(w.sessions, w'.sessions, session.provider)
  {
    hide HeldBy;
  }

  // ---------------------------------------------------------------- release

  /** How many of the first `n` entries belong to the process. */
  function Owned(handles: seq<Handle>, owner: U32, n: nat): nat
    requires n <= |handles|
  {
    if n == 0 then 0
    else Owned(handles, owner, n - 1) + if handles[n - 1].kind != NoHandle && handles[n - 1].owner == owner then 1 else 0
  }

  lemma {:induction false} OwnedFrame(handles: seq<Handle>, handles': seq<Handle>, owner: U32, n: nat)
    requires n <= |handles| && n <= |handles'| && forall j :: 0 <= j < n ==> handles'[j] == handles[j]
    ensures Owned(handles', owner, n) == Owned(handles, owner, n)
  {
    if n > 0 { OwnedFrame(handles, handles', owner, n - 1); }
  }

  /** The count that a release answers is how many handles the owner has lost. */
  lemma {:induction false} ReleaseCounts(w: World, owner: U32, agrees: seq<bool>, k: nat)
    requires FilesAgree(w) && k <= |w.handles| <= |agrees|
    ensures var (w', count) := ReleasedTo(w, owner, agrees, k);
      && FilesAgree(w') && |w'.handles| == |w.handles|
      && (forall j :: k <= j < |w.handles| ==> w'.handles[j] == w.handles[j])
      && count + Owned(w'.handles, owner, k) == Owned(w.handles, owner, k)
  {
    hide FilesAgree, Closed;
    if k > 0 {
      ReleaseCounts(w, owner, agrees, k - 1);
      var mid := ReleasedTo(w, owner, agrees, k - 1).0;
      var h := mid.handles[k - 1];
      if h.kind != NoHandle && h.owner == owner { CloseTakesOne(mid, owner, k - 1, agrees[k - 1]); }
    }
  }

  lemma CloseTakesOne(w: World, owner: U32, i: nat, agrees: bool)
    requires FilesAgree(w) && i < |w.handles| && w.handles[i].kind != NoHandle && w.handles[i].owner == owner
    ensures var (w', status) := Closed(w, i, agrees);
      && FilesAgree(w') && |w'.handles| == |w.handles| && (forall j :: i < j < |w.handles| ==> w'.handles[j] == w.handles[j])
      && Owned(w'.handles, owner, i + 1) + (if status == OK then 1 else 0) == Owned(w.handles, owner, i + 1)
  {
    hide FilesAgree, Closed, Shared, Aliased, CloseRefused, KeepsSessions;
    CloseClosesLastAlias(w, i, agrees);
    OwnedFrame(w.handles, Closed(w, i, agrees).0.handles, owner, i);
  }

  /** A release changes nothing for nobody. For an owner it answers how many handles it has taken away. */
  lemma ReleaseAnswers(w: World, owner: U32, agrees: seq<bool>)
    requires FilesAgree(w) && |w.handles| <= |agrees|
    ensures var (w', count) := Released(w, owner, agrees);
      && |w'.handles| == |w.handles|
      && if owner == 0 then w' == w && count == 0
         else count + Owned(w'.handles, owner, |w.handles|) == Owned(w.handles, owner, |w.handles|)
  {
    hide FilesAgree, ReleasedTo, Owned;
    ReleaseCounts(w, owner, agrees, |w.handles|);
  }

  // ---------------------------------------------------------------- what others do leaves a process's handles alone

  /** The operation is the process's own, or releases its handles. */
  predicate By(op: WorldOp, pid: U32) {
    match op
    case OpenFileOp(p, _, _) => p == pid
    case OpenServiceOp(p, _, _) => p == pid
    case RequestOp(p, _, _, _) => p == pid
    case OpenObjectOp(p, _, _) => p == pid
    case DupOp(p, _) => p == pid
    case CloseOp(p, _, _) => p == pid
    case ReleaseOp(owner, _) => owner == pid
    case FsOp(_) => false
  }

  lemma OthersLeaveHandle(w: World, op: WorldOp, i: nat)
    requires FilesAgree(w) && Legal(w, op) && i < |w.handles| && w.handles[i].kind != NoHandle && w.handles[i].owner != 0
    requires !By(op, w.handles[i].owner)
    ensures InRange(w.fs) && SlotsInRange(w.fs)
    ensures var w' := WorldStep(w, op); |w'.handles| == |w.handles| && w'.handles[i] == w.handles[i]
  {
    hide FilesAgree, SessionsHeld, CloseAnswer, Released, ReleasedSoFar, OpenOf, KeepsSessions, Step;
    FilesAreSound(w);
    match op
    case OpenFileOp(pid, path, flags) => FileOpenAnswers(w, pid, path, flags);
    case OpenServiceOp(pid, known, provider) => ServiceOpenRollsBack(w, pid, known, provider);
    case RequestOp(pid, id, provider, ready) => RequestBreaks(w, pid, id, provider, ready);
    case OpenObjectOp(pid, kind, target) => ObjectOpenAnswers(w, pid, kind, target);
    case DupOp(pid, id) => DupAnswers(w, pid, id);
    case CloseOp(pid, id, agrees) => OthersCannotClose(w, pid, id, agrees, i);
    case ReleaseOp(owner, agrees) => ReleaseLeavesOthers(w, owner, agrees, i);
    case FsOp(f) =>
  }

  /** A close by a process never touches an entry that belongs to another one. */
  lemma OthersCannotClose(w: World, pid: U32, id: nat, agrees: bool, i: nat)
    requires FilesAgree(w) && i < |w.handles| && w.handles[i].owner !in {0, pid}
    ensures var w' := HandleClosed(w, pid, id, agrees).0; |w'.handles| == |w.handles| && w'.handles[i] == w.handles[i]
    ensures id == i + 1 ==> HandleClosed(w, pid, id, agrees) == (w, EBADF)
  {
    hide FilesAgree, Alone;
    CloseAnswers(w, pid, id, agrees);
  }

  lemma ReleaseLeavesOthers(w: World, owner: U32, agrees: seq<bool>, i: nat)
    requires FilesAgree(w) && |w.handles| <= |agrees| && i < |w.handles| && w.handles[i].owner != owner
    ensures var w' := Released(w, owner, agrees).0; |w'.handles| == |w.handles| && w'.handles[i] == w.handles[i]
  {
    hide FilesAgree, ReleasedTo;
    if owner != 0 { ReleaseRemovesOwner(w, owner, agrees); }
  }

  /** Over all runs: a handle stays exactly as it is, and its file stays open for its owner, until the owner does
      something or is released, whatever other processes do. */
  lemma {:induction false} HandlesAreSafe(states: seq<World>, ops: seq<WorldOp>, j: nat, k: nat, i: nat)
    requires IsWorldRun(states, ops) && j <= k <= |ops| && i < |states[j].handles|
    requires states[j].handles[i].kind != NoHandle && states[j].handles[i].owner != 0
    requires forall m :: j <= m < k ==> !By(ops[m], states[j].handles[i].owner)
    ensures var h := states[j].handles[i];
      && |states[k].handles| == |states[j].handles| && states[k].handles[i] == h
      && (h.kind == File ==> IsOpenFile(states[k].fs, h.target) && states[k].fs.slots[h.target - 1].owner == h.owner)
    decreases k
  {
    hide Sound, WorldStep, By, Legal, SessionsHeld;
    EveryRunAgrees(states, ops, k);
    if k > j {
      HandlesAreSafe(states, ops, j, k - 1, i);
      EveryRunAgrees(states, ops, k - 1);
      FilesAreSound(states[k - 1]);
      OthersLeaveHandle(states[k - 1], ops[k - 1], i);
    }
    assert HandleOk(states[k], i);
  }
}
