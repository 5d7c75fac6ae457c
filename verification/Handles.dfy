/** The handle table (kernel/runtime_syscall.c) together with the open files and the service sessions
    (kernel/runtime_service.c) that its handles name. */
module Handles {
  import opened FsModel
  import opened FsTree
  import opened FsSound
  import opened FsRuns

  datatype Kind = NoHandle | Process | Event | Mailbox | File | Service

  /** struct runtime_handle_info. */
  datatype Handle = Handle(id: nat, owner: U32, kind: Kind, target: nat)

  /** struct runtime_service_session_entry: in use, by whom, and who serves it. */
  datatype Session = Session(active: bool, owner: U32, provider: U32)

  datatype World = World(handles: seq<Handle>, fs: Fs, sessions: seq<Session>)

  function Cleared(): Handle { Handle(0, 0, NoHandle, 0) }

  function NoSession(): Session { Session(false, 0, 0) }

  // ---------------------------------------------------------------- the operations

  function FirstFree(handles: seq<Handle>, from: nat): (i: nat)
    requires from <= |handles|
    ensures from <= i <= |handles| && (i < |handles| ==> handles[i].kind == NoHandle)
    ensures forall j :: from <= j < i ==> handles[j].kind != NoHandle
    decreases |handles| - from
  {
    if from == |handles| || handles[from].kind == NoHandle then from else FirstFree(handles, from + 1)
  }

  /** runtime_syscall_alloc_handle; no handle is 0. */
  function Granted(handles: seq<Handle>, owner: U32, kind: Kind, target: nat): (seq<Handle>, nat) {
    var i := FirstFree(handles, 0);
    if i == |handles| then (handles, 0) else (handles[i := Handle(i + 1, owner, kind, target)], i + 1)
  }

  /** runtime_syscall_lookup_handle. */
  predicate IsHandle(handles: seq<Handle>, id: nat) {
    0 < id <= |handles| && handles[id - 1].kind != NoHandle
  }

  predicate Aliases(a: Handle, b: Handle) {
    a.kind == b.kind && a.owner == b.owner && a.target == b.target
  }

  /** runtime_syscall_handle_alias_count over the first `n` entries. */
  function AliasCount(handles: seq<Handle>, h: Handle, n: nat): nat
    requires n <= |handles|
  {
    if n == 0 then 0 else AliasCount(handles, h, n - 1) + if Aliases(handles[n - 1], h) then 1 else 0
  }

  /** runtime_syscall_check_handle_access. */
  predicate MayUse(h: Handle, pid: U32) {
    h.owner == 0 || h.owner == pid
  }

  predicate ActiveSession(sessions: seq<Session>, target: nat) {
    0 < target <= |sessions| && sessions[target - 1].active
  }

  /** runtime_service_session_close. */
  function SessionClosed(sessions: seq<Session>, target: nat): Option<seq<Session>> {
    if ActiveSession(sessions, target) then Some(sessions[target - 1 := NoSession()]) else None
  }

  /** runtime_service_session_invalidate_provider: every session of the provider ends. */
  function ProviderGone(sessions: seq<Session>, provider: U32): (r: seq<Session>)
    ensures |r| == |sessions|
  {
    if provider == 0 then sessions
    else
      seq(|sessions|, k requires 0 <= k < |sessions| =>
        if sessions[k].active && sessions[k].provider == provider then NoSession() else sessions[k])
  }

  function FirstInactive(sessions: seq<Session>, from: nat): (i: nat)
    requires from <= |sessions|
    ensures from <= i <= |sessions| && (i < |sessions| ==> !sessions[i].active)
    decreases |sessions| - from
  {
    if from == |sessions| || !sessions[from].active then from else FirstInactive(sessions, from + 1)
  }

  /** runtime_syscall_close_handle for entry `i`. Whether an event or mailbox lets itself be destroyed is
      for it to say: `agrees`. */
  function Closed(w: World, i: nat, agrees: bool): (World, Status)
    requires i < |w.handles|
  {
    var h, rest := w.handles[i], w.handles[i := Cleared()];
    var last := AliasCount(w.handles, h, |w.handles|) <= 1;
    match h.kind
    case NoHandle => (w, EBADF)
    case Process => (w.(handles := rest), OK)
    case Event => if last && !agrees then (w, EBUSY) else (w.(handles := rest), OK)
    case Mailbox => if last && !agrees then (w, EBUSY) else (w.(handles := rest), OK)
    case File =>
      if !last then (w.(handles := rest), OK)
      else
        var (fs', status) := CloseOf(w.fs, h.target);
        if status != OK then (w, EBADF) else (World(rest, fs', w.sessions), OK)
    case Service =>
      if !last then (w.(handles := rest), OK)
      else
        match SessionClosed(w.sessions, h.target)
        case None => (w, EBADF)
        case Some(sessions') => (World(rest, w.fs, sessions'), OK)
  }

  /** RUNTIME_SYSCALL_HANDLE_CLOSE. */
  function HandleClosed(w: World, pid: U32, id: nat, agrees: bool): (World, Status) {
    if !IsHandle(w.handles, id) then (w, EBADF)
    else if !MayUse(w.handles[id - 1], pid) then (w, EBADF)
    else Closed(w, id - 1, agrees)
  }

  /** RUNTIME_SYSCALL_HANDLE_DUP. */
  function Duplicated(w: World, pid: U32, id: nat): (World, Result<nat>) {
    if !IsHandle(w.handles, id) then (w, Err(EBADF))
    else
      var h := w.handles[id - 1];
      if !MayUse(h, pid) then (w, Err(EBADF))
      else
        var (handles', new_) := Granted(w.handles, h.owner, h.kind, h.target);
        if new_ == 0 then (w, Err(ENOSPC)) else (w.(handles := handles'), Ok(new_))
  }

  /** RUNTIME_SYSCALL_FILE_OPEN: a file that gets no handle is closed again. */
  function FileOpened(w: World, pid: U32, path: seq<Letter>, flags: U32): (World, Result<nat>)
    requires InRange(w.fs)
  {
    var (fs', r) := OpenOf(w.fs, pid, path, flags);
    match r
    case Err(e) => (w.(fs := fs'), Err(e))
    case Ok(file) =>
      var (handles', id) := Granted(w.handles, pid, File, file);
      if id == 0 then (w.(fs := CloseOf(fs', file).0), Err(ENOSPC)) else (World(handles', fs', w.sessions), Ok(id))
  }

  /** RUNTIME_SYSCALL_SERVICE_OPEN with runtime_syscall_service_open: whether the service is `known`, and
      which process provides it now, none being 0. */
  function ServiceOpened(w: World, pid: U32, known: bool, provider: U32): (World, Result<nat>) {
    var k := FirstInactive(w.sessions, 0);
    if !known then (w, Err(ENOENT))
    else if provider == 0 then (w, Err(ESRCH))
    else if pid == 0 then (w, Err(EINVAL))
    else if k == |w.sessions| then (w, Err(ENOSPC))
    else
      var (handles', id) := Granted(w.handles, pid, Service, k + 1);
      if id == 0 then (w.(sessions := w.sessions[k := NoSession()]), Err(ENOSPC))
      else (World(handles', w.fs, w.sessions[k := Session(true, pid, provider)]), Ok(id))
  }

  /** RUNTIME_SYSCALL_SERVICE_REQUEST with runtime_syscall_service_request, when `provider` provides the
      service now; whether the exchange with it comes about is for the channels to say: `ready`. */
  function Requested(w: World, pid: U32, id: nat, provider: U32, ready: bool): (World, Status) {
    if !IsHandle(w.handles, id) || w.handles[id - 1].kind != Service then (w, EBADF)
    else if !MayUse(w.handles[id - 1], pid) then (w, EBADF)
    else if !ActiveSession(w.sessions, w.handles[id - 1].target) then (w, EBADF)
    else
      var session := w.sessions[w.handles[id - 1].target - 1];
      if provider == 0 || provider != session.provider
      then (w.(sessions := ProviderGone(w.sessions, session.provider)), ESRCH)
      else (w, if ready then OK else EBUSY)
  }

  /** A handle on a process, an event or a mailbox; creating one of the latter may have failed. */
  function ObjectOpened(w: World, pid: U32, kind: Kind, target: nat): (World, Result<nat>) {
    if kind != Process && kind != Event && kind != Mailbox then (w, Err(EINVAL))
    else
      var (handles', id) := Granted(w.handles, pid, kind, target);
      if id == 0 then (w, Err(ENOSPC))
      else if target == 0 && kind != Process then (w.(handles := handles'[id - 1 := Cleared()]), Err(ENOMEM))
      else (w.(handles := handles'), Ok(id))
  }

  /** runtime_syscall_release_owner_handles over the first `k` entries: the world and the count. */
  function ReleasedTo(w: World, owner: U32, agrees: seq<bool>, k: nat): (r: (World, nat))
    requires k <= |w.handles| <= |agrees|
    ensures |r.0.handles| == |w.handles|
  {
    if k == 0 then (w, 0)
    else
      var (before, count) := ReleasedTo(w, owner, agrees, k - 1);
      var h := before.handles[k - 1];
      if h.kind == NoHandle || h.owner != owner then (before, count)
      else
        var (after, status) := Closed(before, k - 1, agrees[k - 1]);
        (after, if status == OK then count + 1 else count)
  }

  function Released(w: World, owner: U32, agrees: seq<bool>): (World, nat)
    requires |w.handles| <= |agrees|
  {
    if owner == 0 then (w, 0) else ReleasedTo(w, owner, agrees, |w.handles|)
  }

  // ---------------------------------------------------------------- the invariant

  predicate NamesFile(h: Handle, k: nat) { h.kind == File && h.target == k + 1 }

  predicate NamesSession(h: Handle, k: nat) { h.kind == Service && h.target == k + 1 }

  /** An entry is blank or carries its own number, and a file handle names an open slot of its owner. */
  predicate HandleOk(w: World, i: nat)
    requires i < |w.handles|
  {
    var h := w.handles[i];
    && (if h.kind == NoHandle then h == Cleared() else h.id == i + 1)
    && (h.kind == File ==> IsOpenFile(w.fs, h.target) && w.fs.slots[h.target - 1].owner == h.owner)
  }

  ghost predicate FileNamed(w: World, k: nat) {
    exists i :: 0 <= i < |w.handles| && NamesFile(w.handles[i], k)
  }

  ghost predicate SessionNamed(w: World, k: nat) {
    exists i :: 0 <= i < |w.handles| && NamesSession(w.handles[i], k)
  }

  /** The file half: a slot is in use exactly while a file handle names it, and all its handles belong to
      the process that opened it. */
  ghost predicate FilesAgree(w: World) {
    && Sound(w.fs)
    && (forall i :: 0 <= i < |w.handles| ==> HandleOk(w, i))
    && (forall k :: 0 <= k < |w.fs.slots| && w.fs.slots[k].used ==> FileNamed(w, k))
  }

  ghost predicate HeldBy(w: World, k: nat, owner: U32) {
    exists i :: 0 <= i < |w.handles| && NamesSession(w.handles[i], k) && w.handles[i].owner == owner
  }

  /** No session leaks: an active one has a provider, and a handle of its owner names it. */
  ghost predicate SessionsHeld(w: World) {
    forall k :: 0 <= k < |w.sessions| && w.sessions[k].active ==>
      w.sessions[k].provider != 0 && HeldBy(w, k, w.sessions[k].owner)
  }

  predicate LiveHandle(w: World, h: Handle) {
    h.kind == Service ==> ActiveSession(w.sessions, h.target) && w.sessions[h.target - 1].owner == h.owner
  }

  /** No service handle is stale: each names an active session of its owner. */
  ghost predicate SessionsLive(w: World) {
    forall i :: 0 <= i < |w.handles| ==> LiveHandle(w, w.handles[i])
  }

  /** Handles, slots and sessions agree. Only the last part can be lost: a request may find that its
      provider is gone, and then ends all the provider's sessions without telling their handles. */
  ghost predicate Agree(w: World) { FilesAgree(w) && SessionsHeld(w) && SessionsLive(w) }

  ghost predicate KeepsSessions(w: World, w': World) {
    (SessionsHeld(w) ==> SessionsHeld(w')) && (SessionsLive(w) ==> SessionsLive(w'))
  }

  // ---------------------------------------------------------------- aliases

  lemma {:induction false} AliasCountNone(handles: seq<Handle>, h: Handle, n: nat)
    requires n <= |handles| && forall j :: 0 <= j < n ==> !Aliases(handles[j], h)
    ensures AliasCount(handles, h, n) == 0
  {
    if n > 0 { AliasCountNone(handles, h, n - 1); }
  }

  lemma {:induction false} AliasCountSome(handles: seq<Handle>, h: Handle, n: nat, i: nat)
    requires i < n <= |handles| && Aliases(handles[i], h)
    ensures AliasCount(handles, h, n) >= 1
    ensures AliasCount(handles, h, n) > 1 <==> exists j :: 0 <= j < n && j != i && Aliases(handles[j], h)
    decreases n
  {
    if i == n - 1 {
      if exists j :: 0 <= j < n - 1 && Aliases(handles[j], h) {
        var j :| 0 <= j < n - 1 && Aliases(handles[j], h);
        AliasCountSome(handles, h, n - 1, j);
      } else {
        AliasCountNone(handles, h, n - 1);
      }
    } else {
      AliasCountSome(handles, h, n - 1, i);
    }
  }

  /** Some other handle of the same owner names the same object. */
  ghost predicate Aliased(handles: seq<Handle>, i: nat)
    requires i < |handles|
  {
    exists j :: 0 <= j < |handles| && j != i && Aliases(handles[j], handles[i])
  }

  /** Some other handle, whoever owns it, names the same object. */
  ghost predicate Shared(handles: seq<Handle>, i: nat)
    requires i < |handles|
  {
    exists j :: 0 <= j < |handles| && j != i && handles[j].kind == handles[i].kind && handles[j].target == handles[i].target
  }

  lemma AliasCountIs(handles: seq<Handle>, i: nat)
    requires i < |handles|
    ensures AliasCount(handles, handles[i], |handles|) <= 1 <==> !Aliased(handles, i)
  {
    AliasCountSome(handles, handles[i], |handles|, i);
  }

  /** Counting aliases of the same owner finds every handle on a file: they all have its owner. So it does
      for a session as long as no service handle is stale. */
  lemma LastAliasIs(w: World, i: nat)
    requires FilesAgree(w) && i < |w.handles|
    requires w.handles[i].kind == File || (w.handles[i].kind == Service && SessionsLive(w))
    ensures AliasCount(w.handles, w.handles[i], |w.handles|) <= 1 <==> !Shared(w.handles, i)
    ensures Aliased(w.handles, i) <==> Shared(w.handles, i)
  {
    hide Sound;
    AliasCountIs(w.handles, i);
    assert HandleOk(w, i);
    forall j | 0 <= j < |w.handles| && w.handles[j].kind == w.handles[i].kind && w.handles[j].target == w.handles[i].target
      ensures Aliases(w.handles[j], w.handles[i])
    {
      assert HandleOk(w, j);
      if w.handles[i].kind == Service { assert LiveHandle(w, w.handles[i]) && LiveHandle(w, w.handles[j]); }
    }
  }

  // ---------------------------------------------------------------- close

  /** When a close is refused: the last handle of its owner on an event or mailbox that does not let
      itself be destroyed, or on a session that has ended. */
  ghost predicate CloseRefused(w: World, i: nat, agrees: bool)
    requires i < |w.handles|
  {
    var h := w.handles[i];
    && !Aliased(w.handles, i)
    && (((h.kind == Event || h.kind == Mailbox) && !agrees) || (h.kind == Service && !ActiveSession(w.sessions, h.target)))
  }

  /** What closing entry `i` does, whatever has become of the sessions. A file handle's slot is closed
      exactly when no other handle names the file, and a file handle can always be closed. A service
      handle's session is closed with the owner's last handle on it, whoever has the session now. Nothing
      else changes. */
  lemma CloseClosesLastAlias(w: World, i: nat, agrees: bool)
    requires FilesAgree(w) && i < |w.handles| && w.handles[i].kind != NoHandle
    ensures var h := w.handles[i]; var (w', status) := Closed(w, i, agrees);
      && FilesAgree(w') && KeepsSessions(w, w')
      && (status == OK ==> w'.handles == w.handles[i := Cleared()]) && (status != OK ==> w' == w)
      && (status != OK <==> CloseRefused(w, i, agrees))
      && (h.kind == File && !Shared(w.handles, i) ==> w'.fs == CloseOf(w.fs, h.target).0 && !IsOpenFile(w'.fs, h.target))
      && (h.kind != File || Shared(w.handles, i) ==> w'.fs == w.fs)
      && (h.kind == Service && !Aliased(w.handles, i) && ActiveSession(w.sessions, h.target) ==>
            w'.sessions == w.sessions[h.target - 1 := NoSession()])
      && (h.kind != Service || Aliased(w.handles, i) || !ActiveSession(w.sessions, h.target) ==> w'.sessions == w.sessions)
  {
    hide Sound, AliasCount, KeepsSessions, FilesAgree;
    CloseOfEntry(w, i, agrees);
    CloseKeepsFiles(w, i, agrees);
    CloseKeepsSessions(w, i, agrees);
  }

  lemma CloseOfEntry(w: World, i: nat, agrees: bool)
    requires FilesAgree(w) && i < |w.handles| && w.handles[i].kind != NoHandle
    ensures var h := w.handles[i]; var (w', status) := Closed(w, i, agrees);
      && (status == OK ==> w'.handles == w.handles[i := Cleared()]) && (status != OK ==> w' == w)
      && (status != OK <==> CloseRefused(w, i, agrees))
      && (h.kind == File && !Shared(w.handles, i) ==>
            w'.fs == CloseOf(w.fs, h.target).0 && Sound(w'.fs) && !IsOpenFile(w'.fs, h.target))
      && (h.kind != File || Shared(w.handles, i) ==> w'.fs == w.fs)
      && (h.kind == Service && !Aliased(w.handles, i) && ActiveSession(w.sessions, h.target) ==>
            w'.sessions == w.sessions[h.target - 1 := NoSession()])
      && (h.kind != Service || Aliased(w.handles, i) || !ActiveSession(w.sessions, h.target) ==> w'.sessions == w.sessions)
  {
    hide Sound, AliasCount;
    AliasCountIs(w.handles, i);
    assert HandleOk(w, i);
    if w.handles[i].kind == File {
      LastAliasIs(w, i);
      CloseFreesSlot(w.fs, w.handles[i].target);
    }
  }

  lemma CloseKeepsFiles(w: World, i: nat, agrees: bool)
    requires FilesAgree(w) && i < |w.handles| && w.handles[i].kind != NoHandle
    ensures FilesAgree(Closed(w, i, agrees).0)
  {
    hide Sound, AliasCount, Closed;
    CloseOfEntry(w, i, agrees);
    var (w', status) := Closed(w, i, agrees);
    if status == OK {
      assert HandleOk(w, i);
      forall j | 0 <= j < |w'.handles| ensures HandleOk(w', j) {
        assert HandleOk(w, j);
      }
      forall k | 0 <= k < |w'.fs.slots| && w'.fs.slots[k].used ensures FileNamed(w', k) {
        assert FileNamed(w, k);
        var j :| 0 <= j < |w.handles| && NamesFile(w.handles[j], k);
        StillNamed(w, i, w', j, k);
      }
    }
  }

  lemma StillNamed(w: World, i: nat, w': World, j: nat, k: nat)
    requires i < |w.handles| && w'.handles == w.handles[i := Cleared()] && j < |w.handles| && NamesFile(w.handles[j], k)
    requires j == i ==> Shared(w.handles, i)
    ensures FileNamed(w', k)
  {
    if j == i {
      var m :| 0 <= m < |w.handles| && m != i && w.handles[m].kind == w.handles[i].kind && w.handles[m].target == w.handles[i].target;
      assert NamesFile(w'.handles[m], k);
    } else {
      assert NamesFile(w'.handles[j], k);
    }
  }

  lemma CloseKeepsSessions(w: World, i: nat, agrees: bool)
    requires FilesAgree(w) && i < |w.handles| && w.handles[i].kind != NoHandle
    ensures KeepsSessions(w, Closed(w, i, agrees).0)
  {
    hide FilesAgree, Closed, SessionsHeld, SessionsLive, Aliased, Shared;
    CloseOfEntry(w, i, agrees);
    if Closed(w, i, agrees).1 == OK {
      CloseKeepsHeld(w, i, Closed(w, i, agrees).0);
      CloseKeepsLive(w, i, Closed(w, i, agrees).0);
    }
  }

  /** The entry is cleared, and an active session that it was the owner's last handle on has ended. */
  ghost predicate ClearsEntry(w: World, i: nat, w': World)
    requires i < |w.handles|
  {
    var h := w.handles[i];
    && w'.handles == w.handles[i := Cleared()]
    && w'.sessions == if h.kind == Service && !Aliased(w.handles, i) && ActiveSession(w.sessions, h.target)
                      then w.sessions[h.target - 1 := NoSession()] else w.sessions
  }

  lemma CloseKeepsHeld(w: World, i: nat, w': World)
    requires i < |w.handles| && ClearsEntry(w, i, w')
    ensures SessionsHeld(w) ==> SessionsHeld(w')
  {
    if SessionsHeld(w) {
      forall k | 0 <= k < |w'.sessions| && w'.sessions[k].active ensures HeldBy(w', k, w.sessions[k].owner) {
        assert HeldBy(w, k, w.sessions[k].owner);
        var j :| 0 <= j < |w.handles| && NamesSession(w.handles[j], k) && w.handles[j].owner == w.sessions[k].owner;
        var m := j;
        if j == i { m :| 0 <= m < |w.handles| && m != i && Aliases(w.handles[m], w.handles[i]); }
        assert w'.handles[m] == w.handles[m] && NamesSession(w'.handles[m], k);
      }
    }
  }

  lemma CloseKeepsLive(w: World, i: nat, w': World)
    requires i < |w.handles| && ClearsEntry(w, i, w')
    ensures SessionsLive(w) ==> SessionsLive(w')
  {
    if SessionsLive(w) {
      forall j | 0 <= j < |w'.handles| ensures LiveHandle(w', w'.handles[j]) {
        assert LiveHandle(w, w.handles[j]) && LiveHandle(w, w.handles[i]);
        if j != i && w.handles[j].kind == Service && w.handles[i].kind == Service && w.handles[j].target == w.handles[i].target {
          assert Aliases(w.handles[j], w.handles[i]);
        }
      }
    }
  }

  // ---------------------------------------------------------------- handles that come into being

  lemma GrantedIs(handles: seq<Handle>, owner: U32, kind: Kind, target: nat)
    ensures var (handles', id) := Granted(handles, owner, kind, target);
      if id == 0 then handles' == handles && forall j :: 0 <= j < |handles| ==> handles[j].kind != NoHandle
      else id <= |handles| && handles[id - 1].kind == NoHandle && handles' == handles[id - 1 := Handle(id, owner, kind, target)]
  {
  }

  /** A new entry that names something open of its owner fits in. */
  lemma GrantKeepsFiles(w: World, i: nat, h: Handle, w': World)
    requires i < |w.handles| && w.handles[i].kind == NoHandle && w'.handles == w.handles[i := h] && h.kind != NoHandle
    requires Sound(w'.fs) && HandleOk(w', i)
    requires forall j :: 0 <= j < |w.handles| && j != i ==> HandleOk(w', j)
    requires forall k :: 0 <= k < |w'.fs.slots| && w'.fs.slots[k].used ==> FileNamed(w, k) || NamesFile(h, k)
    ensures FilesAgree(w')
  {
    hide Sound;
    forall k | 0 <= k < |w'.fs.slots| && w'.fs.slots[k].used ensures FileNamed(w', k) {
      if NamesFile(h, k) {
        assert NamesFile(w'.handles[i], k);
      } else {
        var j :| 0 <= j < |w.handles| && NamesFile(w.handles[j], k);
        assert NamesFile(w'.handles[j], k);
      }
    }
  }

  lemma GrantKeepsSessions(w: World, i: nat, h: Handle, w': World)
    requires i < |w.handles| && w.handles[i].kind == NoHandle && w'.handles == w.handles[i := h] && w'.sessions == w.sessions
    requires SessionsLive(w) ==> LiveHandle(w, h)
    ensures KeepsSessions(w, w')
  {
    if SessionsHeld(w) {
      forall k | 0 <= k < |w.sessions| && w.sessions[k].active ensures HeldBy(w', k, w.sessions[k].owner) {
        assert HeldBy(w, k, w.sessions[k].owner);
        var j :| 0 <= j < |w.handles| && NamesSession(w.handles[j], k) && w.handles[j].owner == w.sessions[k].owner;
        assert w'.handles[j] == w.handles[j];
      }
    }
    if SessionsLive(w) {
      forall j | 0 <= j < |w'.handles| ensures LiveHandle(w', w'.handles[j]) {
        if j != i { assert LiveHandle(w, w.handles[j]); }
      }
    }
  }

  /** dup adds one alias and nothing else. */
  lemma DupKeepsAgreement(w: World, pid: U32, id: nat)
    requires FilesAgree(w)
    ensures var (w', r) := Duplicated(w, pid, id);
      && FilesAgree(w') && KeepsSessions(w, w') && w'.fs == w.fs && w'.sessions == w.sessions
      && (r.Ok? ==> IsHandle(w.handles, id) && 0 < r.value <= |w.handles| && Aliases(w'.handles[r.value - 1], w.handles[id - 1])
                    && w'.handles == w.handles[r.value - 1 := w'.handles[r.value - 1]])
      && (r.Err? ==> w' == w)
  {
    hide Sound;
    if IsHandle(w.handles, id) {
      var h := w.handles[id - 1];
      GrantedIs(w.handles, h.owner, h.kind, h.target);
      var (w', r) := Duplicated(w, pid, id);
      assert HandleOk(w, id - 1);
      if r.Ok? {
        forall j | 0 <= j < |w.handles| && j != r.value - 1 ensures HandleOk(w', j) { assert HandleOk(w, j); }
        GrantKeepsFiles(w, r.value - 1, w'.handles[r.value - 1], w');
        GrantKeepsSessions(w, r.value - 1, w'.handles[r.value - 1], w');
      }
    }
  }

  /** The slots that are in use, and for whom, are the same. */
  ghost predicate SameUse(slots: seq<OpenFile>, slots': seq<OpenFile>) {
    |slots| == |slots'| && forall k :: 0 <= k < |slots| ==> slots'[k].used == slots[k].used && slots'[k].owner == slots[k].owner
  }

  lemma UseKeepsAgreement(w: World, fs': Fs)
    requires FilesAgree(w) && Sound(fs') && SameUse(w.fs.slots, fs'.slots)
    ensures FilesAgree(w.(fs := fs')) && KeepsSessions(w, w.(fs := fs'))
  {
    hide Sound;
    var w' := w.(fs := fs');
    forall j | 0 <= j < |w.handles| ensures HandleOk(w', j) { assert HandleOk(w, j); }
    forall k | 0 <= k < |fs'.slots| && fs'.slots[k].used ensures FileNamed(w', k) { assert FileNamed(w, k); }
    SameSessions(w, w');
  }

  lemma SameSessions(w: World, w': World)
    requires w'.handles == w.handles && w'.sessions == w.sessions
    ensures KeepsSessions(w, w')
  {
    forall k, owner | HeldBy(w, k, owner) ensures HeldBy(w', k, owner) {
      var i :| 0 <= i < |w.handles| && NamesSession(w.handles[i], k) && w.handles[i].owner == owner;
      assert NamesSession(w'.handles[i], k);
    }
    forall i | 0 <= i < |w.handles| && LiveHandle(w, w.handles[i]) ensures LiveHandle(w', w'.handles[i]) {}
  }

  /** A successful open has one handle more and one slot more; one that fails, for whatever reason,
      leaves no slot behind. */
  lemma FileOpenRollsBack(w: World, pid: U32, path: seq<Letter>, flags: U32)
    requires FilesAgree(w)
    ensures InRange(w.fs)
    ensures var (w', r) := FileOpened(w, pid, path, flags);
      && FilesAgree(w') && KeepsSessions(w, w') && w'.sessions == w.sessions
      && (r.Err? ==> w'.handles == w.handles && w'.fs.slots == w.fs.slots)
      && (r.Ok? ==> 0 < r.value <= |w.handles| && w.handles[r.value - 1].kind == NoHandle
                    && w'.handles == w.handles[r.value - 1 := w'.handles[r.value - 1]]
                    && w'.handles[r.value - 1].kind == File && w'.handles[r.value - 1].owner == pid
                    && TakesSlot(w.fs.slots, w'.fs.slots, w'.handles[r.value - 1].target, pid))
  {
    hide Sound, OpenOf, Lookup, GainsPath, SameShape, CanCreate, HandleOk, FileNamed, KeepsSessions;
    SoundHasRoot(w.fs);
    OpenEffect(w.fs, pid, path, flags, []);
    var (fs', r) := OpenOf(w.fs, pid, path, flags);
    if r.Err? {
      UseKeepsAgreement(w, fs');
    } else {
      var file := r.value;
      GrantedIs(w.handles, pid, File, file);
      var (handles', id) := Granted(w.handles, pid, File, file);
      if id == 0 {
        CloseFreesSlot(fs', file);
        ClosedAgain(w.fs, fs', file, pid);
        UseKeepsAgreement(w, CloseOf(fs', file).0);
      } else {
        FileGrantKeepsAgreement(w, id - 1, pid, file, World(handles', fs', w.sessions));
      }
    }
  }

  /** The new handle names the new slot, and all others name what they did. */
  lemma FileGrantKeepsAgreement(w: World, i: nat, pid: U32, file: nat, w': World)
    requires FilesAgree(w) && i < |w.handles| && w.handles[i].kind == NoHandle && Sound(w'.fs) && w'.sessions == w.sessions
    requires w'.handles == w.handles[i := Handle(i + 1, pid, File, file)] && TakesSlot(w.fs.slots, w'.fs.slots, file, pid)
    ensures FilesAgree(w') && KeepsSessions(w, w')
  {
    hide Sound;
    forall j | 0 <= j < |w.handles| && j != i ensures HandleOk(w', j) { assert HandleOk(w, j); }
    forall k | 0 <= k < |w'.fs.slots| && w'.fs.slots[k].used ensures FileNamed(w, k) || NamesFile(w'.handles[i], k) {
      if k != file - 1 { assert FileNamed(w, k); }
    }
    GrantKeepsFiles(w, i, w'.handles[i], w');
    GrantKeepsSessions(w, i, w'.handles[i], w');
  }

  /** Opening a slot and closing it again leaves the slots as they were. */
  lemma ClosedAgain(fs: Fs, fs': Fs, file: nat, pid: U32)
    requires Sound(fs) && TakesSlot(fs.slots, fs'.slots, file, pid)
    ensures CloseOf(fs', file).0.slots == fs.slots
  {
    hide Tree;
    assert SlotOk(fs.nodes, fs.slots[file - 1]);
  }

  /** A service open takes an inactive session for the caller and its provider, and one handle on it; one
      that gets no handle leaves no session behind. It succeeds exactly when the service has a provider, the
      caller a pid, and both tables room. */
  lemma ServiceOpenRollsBack(w: World, pid: U32, known: bool, provider: U32)
    requires FilesAgree(w)
    ensures var (w', r) := ServiceOpened(w, pid, known, provider);
      && FilesAgree(w') && KeepsSessions(w, w') && w'.fs == w.fs && |w'.sessions| == |w.sessions|
      && (r.Ok? <==> known && provider != 0 && pid != 0 && (exists k :: 0 <= k < |w.sessions| && !w.sessions[k].active)
                     && exists j :: 0 <= j < |w.handles| && w.handles[j].kind == NoHandle)
      && (r.Err? ==> w'.handles == w.handles
                     && forall k :: 0 <= k < |w.sessions| ==> w'.sessions[k].active == w.sessions[k].active)
      && (r.Ok? ==> 0 < r.value <= |w.handles| && w.handles[r.value - 1].kind == NoHandle
                    && w'.handles == w.handles[r.value - 1 := w'.handles[r.value - 1]]
                    && TakesSession(w, w', w'.handles[r.value - 1], pid, provider))
  {
    hide Sound, FilesAgree, KeepsSessions;
    NoneInactive(w.sessions, 0);
    var k := FirstInactive(w.sessions, 0);
    if known && provider != 0 && pid != 0 && k < |w.sessions| {
      GrantedIs(w.handles, pid, Service, k + 1);
      var (w', r) := ServiceOpened(w, pid, known, provider);
      SessionsKeepFiles(w, w');
      SessionTakenKeeps(w, w', k, pid, provider);
    } else {
      SameSessions(w, w);
    }
  }

  /** `h` is the new handle on a session that was inactive. */
  predicate TakesSession(w: World, w': World, h: Handle, pid: U32, provider: U32) {
    && h.kind == Service && h.owner == pid && 0 < h.target <= |w.sessions| && !w.sessions[h.target - 1].active
    && w'.sessions == w.sessions[h.target - 1 := Session(true, pid, provider)]
  }

  lemma {:induction false} NoneInactive(sessions: seq<Session>, from: nat)
    requires from <= |sessions|
    ensures FirstInactive(sessions, from) == |sessions| <==> forall k :: from <= k < |sessions| ==> sessions[k].active
    decreases |sessions| - from
  {
    if from < |sessions| { NoneInactive(sessions, from + 1); }
  }

  /** Service handles and sessions are nothing to the files. */
  lemma SessionsKeepFiles(w: World, w': World)
    requires FilesAgree(w) && w'.fs == w.fs && |w'.handles| == |w.handles|
    requires forall j :: 0 <= j < |w.handles| ==>
      w'.handles[j] == w.handles[j] || (w.handles[j].kind == NoHandle && w'.handles[j].kind == Service && w'.handles[j].id == j + 1)
    ensures FilesAgree(w')
  {
    hide Sound;
    forall j | 0 <= j < |w.handles| ensures HandleOk(w', j) { assert HandleOk(w, j); }
    forall k | 0 <= k < |w.fs.slots| && w.fs.slots[k].used ensures FileNamed(w', k) {
      assert FileNamed(w, k);
      var j :| 0 <= j < |w.handles| && NamesFile(w.handles[j], k);
      assert NamesFile(w'.handles[j], k);
    }
  }

  lemma SessionTakenKeeps(w: World, w': World, k: nat, pid: U32, provider: U32)
    requires k < |w.sessions| && !w.sessions[k].active && provider != 0
    requires
      || (w'.handles == w.handles && w'.sessions == w.sessions[k := NoSession()])
      || (w'.sessions == w.sessions[k := Session(true, pid, provider)]
          && exists i :: 0 <= i < |w.handles| && w.handles[i].kind == NoHandle && w'.handles == w.handles[i := Handle(i + 1, pid, Service, k + 1)])
    ensures KeepsSessions(w, w')
  {
    if SessionsHeld(w) {
      forall m | 0 <= m < |w'.sessions| && w'.sessions[m].active ensures HeldBy(w', m, w'.sessions[m].owner) {
        if m == k {
          var i :| 0 <= i < |w.handles| && w.handles[i].kind == NoHandle && w'.handles == w.handles[i := Handle(i + 1, pid, Service, k + 1)];
          assert NamesSession(w'.handles[i], k);
        } else {
          assert HeldBy(w, m, w.sessions[m].owner);
          var j :| 0 <= j < |w.handles| && NamesSession(w.handles[j], m) && w.handles[j].owner == w.sessions[m].owner;
          assert w'.handles[j] == w.handles[j];
        }
      }
    }
    if SessionsLive(w) {
      forall j | 0 <= j < |w'.handles| ensures LiveHandle(w', w'.handles[j]) { assert LiveHandle(w, w.handles[j]); }
    }
  }

  lemma ObjectOpenKeepsAgreement(w: World, pid: U32, kind: Kind, target: nat)
    requires FilesAgree(w)
    ensures var (w', r) := ObjectOpened(w, pid, kind, target);
      && FilesAgree(w') && KeepsSessions(w, w') && w'.fs == w.fs && w'.sessions == w.sessions
      && (r.Err? ==> w'.handles == w.handles)
  {
    hide Sound, KeepsSessions;
    GrantedIs(w.handles, pid, kind, target);
    var (w', r) := ObjectOpened(w, pid, kind, target);
    var id := Granted(w.handles, pid, kind, target).1;
    if r.Ok? {
      forall j | 0 <= j < |w.handles| && j != id - 1 ensures HandleOk(w', j) { assert HandleOk(w, j); }
      GrantKeepsFiles(w, id - 1, w'.handles[id - 1], w');
      GrantKeepsSessions(w, id - 1, w'.handles[id - 1], w');
    } else {
      if (kind == Event || kind == Mailbox) && id != 0 { assert HandleOk(w, id - 1); }
      assert w'.handles == w.handles;
      assert w' == w;
      SameSessions(w, w);
    }
  }

  // ---------------------------------------------------------------- requests

  /** The request finds the provider of its session gone or replaced. */
  predicate Invalidates(w: World, pid: U32, id: nat, provider: U32) {
    && IsHandle(w.handles, id) && w.handles[id - 1].kind == Service && MayUse(w.handles[id - 1], pid)
    && ActiveSession(w.sessions, w.handles[id - 1].target)
    && (provider == 0 || provider != w.sessions[w.handles[id - 1].target - 1].provider)
  }

  predicate Serves(sessions: seq<Session>, provider: U32) {
    exists k :: 0 <= k < |sessions| && sessions[k].active && sessions[k].provider == provider
  }

  /** Ending a provider's sessions leaves files and held sessions in order, and breaks the agreement exactly
      when the provider has a session. */
  lemma InvalidationBreaks(w: World, provider: U32)
    requires FilesAgree(w)
    ensures var w' := w.(sessions := ProviderGone(w.sessions, provider));
      && FilesAgree(w') && (SessionsHeld(w) ==> SessionsHeld(w'))
      && (Agree(w) ==> (Agree(w') <==> !Serves(w.sessions, provider)))
  {
    hide FilesAgree, SessionsHeld, SessionsLive, ProviderGone, Serves;
    var w' := w.(sessions := ProviderGone(w.sessions, provider));
    SessionsKeepFiles(w, w');
    GoneKeepsHeld(w, provider);
    if Agree(w) {
      if Serves(w.sessions, provider) { GoneStrands(w, provider); } else { GoneForNobody(w.sessions, provider); }
    }
  }

  lemma GoneKeepsHeld(w: World, provider: U32)
    ensures SessionsHeld(w) ==> SessionsHeld(w.(sessions := ProviderGone(w.sessions, provider)))
  {
    var w' := w.(sessions := ProviderGone(w.sessions, provider));
    if SessionsHeld(w) {
      forall k | 0 <= k < |w'.sessions| && w'.sessions[k].active ensures HeldBy(w', k, w.sessions[k].owner) {
        assert HeldBy(w, k, w.sessions[k].owner);
        var i :| 0 <= i < |w.handles| && NamesSession(w.handles[i], k) && w.handles[i].owner == w.sessions[k].owner;
        assert NamesSession(w'.handles[i], k);
      }
    }
  }

  lemma GoneStrands(w: World, provider: U32)
    requires SessionsHeld(w) && Serves(w.sessions, provider)
    ensures !SessionsLive(w.(sessions := ProviderGone(w.sessions, provider)))
  {
    var w' := w.(sessions := ProviderGone(w.sessions, provider));
    var k :| 0 <= k < |w.sessions| && w.sessions[k].active && w.sessions[k].provider == provider;
    assert HeldBy(w, k, w.sessions[k].owner);
    var i :| 0 <= i < |w.handles| && NamesSession(w.handles[i], k) && w.handles[i].owner == w.sessions[k].owner;
    assert !LiveHandle(w', w'.handles[i]);
  }

  lemma GoneForNobody(sessions: seq<Session>, provider: U32)
    requires !Serves(sessions, provider)
    ensures ProviderGone(sessions, provider) == sessions
  {
  }

  /** A request changes nothing unless it invalidates its provider; it then takes the agreement away,
      never the files' half of it. */
  lemma RequestBreaks(w: World, pid: U32, id: nat, provider: U32, ready: bool)
    requires FilesAgree(w)
    ensures var (w', status) := Requested(w, pid, id, provider, ready);
      && FilesAgree(w') && (SessionsHeld(w) ==> SessionsHeld(w')) && w'.fs == w.fs && w'.handles == w.handles
      && (status == ESRCH <==> Invalidates(w, pid, id, provider)) && (status != ESRCH ==> w' == w)
      && (Agree(w) ==> (Agree(w') <==> !Invalidates(w, pid, id, provider)))
  {
    hide FilesAgree, SessionsHeld, SessionsLive, ProviderGone;
    if Invalidates(w, pid, id, provider) {
      InvalidationBreaks(w, w.sessions[w.handles[id - 1].target - 1].provider);
    }
  }

  // ---------------------------------------------------------------- release of an owner

  /** No later handle of the owner names the same object. */
  predicate LastAlias(handles: seq<Handle>, j: nat)
    requires j < |handles|
  {
    forall m :: j < m < |handles| ==> !Aliases(handles[m], handles[j])
  }

  /** The handle that a release leaves behind: the owner's last one on a session that has ended. */
  predicate Stranded(w: World, j: nat)
    requires j < |w.handles|
  {
    LastAlias(w.handles, j) && !ActiveSession(w.sessions, w.handles[j].target)
  }

  predicate OwnerNames(handles: seq<Handle>, owner: U32, s: nat) {
    exists j :: 0 <= j < |handles| && handles[j].owner == owner && NamesSession(handles[j], s)
  }

  predicate LastNames(handles: seq<Handle>, owner: U32, k: nat, s: nat)
    requires k <= |handles|
  {
    exists j :: 0 <= j < k && handles[j].owner == owner && NamesSession(handles[j], s) && LastAlias(handles, j)
  }

  /** What the loop over the first `k` entries leaves of the handles: the owner's files, processes and
      services among them are gone, but for the stranded ones, and nobody else's entry has changed. */
  ghost predicate ReleasedSoFar(w: World, w': World, owner: U32, k: nat) {
    && |w'.handles| == |w.handles| && k <= |w.handles|
    && (forall j :: 0 <= j < |w.handles| && (j >= k || w.handles[j].owner != owner) ==> w'.handles[j] == w.handles[j])
    && (forall j :: 0 <= j < k && w.handles[j].owner == owner && w.handles[j].kind in {File, Process} ==>
          w'.handles[j] == Cleared())
    && (forall j :: 0 <= j < k && w.handles[j].owner == owner && w.handles[j].kind == Service ==>
          w'.handles[j] == if Stranded(w, j) then w.handles[j] else Cleared())
    && (forall j :: 0 <= j < k && w'.handles[j] != w.handles[j] ==> w'.handles[j] == Cleared())
  }

  /** And of the sessions: those that the owner's last handles named have ended. */
  ghost predicate EndedSoFar(w: World, w': World, owner: U32, k: nat)
    requires k <= |w.handles|
  {
    && |w'.sessions| == |w.sessions|
    && forall s :: 0 <= s < |w.sessions| ==>
         w'.sessions[s] == if w.sessions[s].active && LastNames(w.handles, owner, k, s) then NoSession() else w.sessions[s]
  }

  lemma {:induction false} ReleasingKeepsAgreement(w: World, owner: U32, agrees: seq<bool>, k: nat)
    requires FilesAgree(w) && k <= |w.handles| <= |agrees| && owner != 0
    ensures var w' := ReleasedTo(w, owner, agrees, k).0;
      && FilesAgree(w') && KeepsSessions(w, w') && ReleasedSoFar(w, w', owner, k) && EndedSoFar(w, w', owner, k)
      && |w'.fs.slots| == |w.fs.slots| && w'.fs.nodes == w.fs.nodes
    decreases k
  {
    hide FilesAgree, Closed, SessionsHeld, SessionsLive, ReleasedSoFar, EndedSoFar;
    if k == 0 {
      NothingReleased(w, owner);
    } else {
      ReleasingKeepsAgreement(w, owner, agrees, k - 1);
      var before := ReleasedTo(w, owner, agrees, k - 1).0;
      EntryUntouched(w, before, owner, k);
      var h := before.handles[k - 1];
      if h.kind != NoHandle && h.owner == owner {
        CloseClosesLastAlias(before, k - 1, agrees[k - 1]);
        ClosedNodes(before, k - 1, agrees[k - 1]);
        EntryReleased(w, before, owner, agrees[k - 1], k);
      } else {
        if h.kind == NoHandle { BlankEntry(before, k - 1); }
        EntrySkipped(w, before, owner, k);
      }
    }
  }

  lemma NothingReleased(w: World, owner: U32)
    ensures ReleasedSoFar(w, w, owner, 0) && EndedSoFar(w, w, owner, 0)
  {
  }

  lemma EntryUntouched(w: World, before: World, owner: U32, k: nat)
    requires 0 < k <= |w.handles| && ReleasedSoFar(w, before, owner, k - 1)
    ensures |before.handles| == |w.handles| && before.handles[k - 1] == w.handles[k - 1]
  {
  }

  lemma EntrySkipped(w: World, before: World, owner: U32, k: nat)
    requires 0 < k <= |w.handles| && ReleasedSoFar(w, before, owner, k - 1) && EndedSoFar(w, before, owner, k - 1)
    requires w.handles[k - 1].owner != owner || w.handles[k - 1].kind == NoHandle
    ensures ReleasedSoFar(w, before, owner, k) && EndedSoFar(w, before, owner, k)
  {
    hide Stranded, LastAlias;
  }

  lemma EntryReleased(w: World, before: World, owner: U32, agrees: bool, k: nat)
    requires FilesAgree(before) && 0 < k <= |w.handles| && owner != 0
    requires ReleasedSoFar(w, before, owner, k - 1) && EndedSoFar(w, before, owner, k - 1)
    requires w.handles[k - 1].owner == owner && w.handles[k - 1].kind != NoHandle
    ensures var after := Closed(before, k - 1, agrees).0;
      ReleasedSoFar(w, after, owner, k) && EndedSoFar(w, after, owner, k)
  {
    hide FilesAgree, Closed, KeepsSessions, Shared;
    CloseOfEntry(before, k - 1, agrees);
    if w.handles[k - 1].kind == Service {
      LastOfOwner(w, before, owner, k);
    }
  }

  /** When the loop reaches a service entry, its remaining aliases are the later ones, and its session is as
      it was if there are none. */
  lemma LastOfOwner(w: World, before: World, owner: U32, k: nat)
    requires 0 < k <= |w.handles| && ReleasedSoFar(w, before, owner, k - 1) && EndedSoFar(w, before, owner, k - 1)
    requires w.handles[k - 1].owner == owner && w.handles[k - 1].kind == Service
    ensures Aliased(before.handles, k - 1) <==> !LastAlias(w.handles, k - 1)
    ensures LastAlias(w.handles, k - 1) ==>
      (ActiveSession(before.sessions, w.handles[k - 1].target) <==> ActiveSession(w.sessions, w.handles[k - 1].target))
  {
    var i, h := k - 1, w.handles[k - 1];
    if !LastAlias(w.handles, i) {
      var m :| i < m < |w.handles| && Aliases(w.handles[m], h);
      assert before.handles[m] == w.handles[m];
    }
    forall j | 0 <= j < i ensures !Aliases(before.handles[j], h) {
      assert Aliases(w.handles[j], h) <==> Aliases(w.handles[i], w.handles[j]);
      assert Aliases(w.handles[j], h) ==> !LastAlias(w.handles, j);
    }
  }

  lemma ClosedNodes(w: World, i: nat, agrees: bool)
    requires i < |w.handles|
    ensures var w' := Closed(w, i, agrees).0; |w'.fs.slots| == |w.fs.slots| && w'.fs.nodes == w.fs.nodes
  {
  }

  lemma BlankEntry(w: World, i: nat)
    requires FilesAgree(w) && i < |w.handles| && w.handles[i].kind == NoHandle
    ensures w.handles[i] == Cleared()
  {
    hide Sound;
    assert HandleOk(w, i);
  }

  /** An owner that names an object has a last handle on it. */
  lemma {:induction false} SomeLastAlias(handles: seq<Handle>, j: nat) returns (last: nat)
    requires j < |handles|
    ensures j <= last < |handles| && Aliases(handles[last], handles[j]) && LastAlias(handles, last)
    decreases |handles| - j
  {
    if m :| j < m < |handles| && Aliases(handles[m], handles[j]) {
      last := SomeLastAlias(handles, m);
    } else {
      last := j;
    }
  }

  /** Releasing an owner, whatever has become of the sessions. It closes exactly the slots that the owner had
      opened and leaves the node table alone. It ends exactly the active sessions that a handle of the owner
      names, whoever has them now, and leaves exactly the stranded service handles. When handles and sessions
      agree, those are the owner's sessions, and no handle is left. */
  lemma ReleaseRemovesOwner(w: World, owner: U32, agrees: seq<bool>)
    requires FilesAgree(w) && |w.handles| <= |agrees| && owner != 0
    ensures var w' := Released(w, owner, agrees).0;
      && FilesAgree(w') && KeepsSessions(w, w') && ReleasedSoFar(w, w', owner, |w.handles|) && w'.fs.nodes == w.fs.nodes
      && |w'.fs.slots| == |w.fs.slots| && |w'.sessions| == |w.sessions|
      && (forall k :: 0 <= k < |w.fs.slots| ==>
            (w'.fs.slots[k].used <==> w.fs.slots[k].used && w.fs.slots[k].owner != owner))
      && (forall s :: 0 <= s < |w.sessions| ==>
            w'.sessions[s] == if w.sessions[s].active && OwnerNames(w.handles, owner, s) then NoSession() else w.sessions[s])
      && (Agree(w) ==> OwnerGone(w, w', owner))
  {
    hide FilesAgree, ReleasedTo, SessionsHeld, SessionsLive, ReleasedSoFar, LastAlias, OwnerGone;
    ReleasingKeepsAgreement(w, owner, agrees, |w.handles|);
    var w' := Released(w, owner, agrees).0;
    forall k | 0 <= k < |w.fs.slots| ensures w'.fs.slots[k].used <==> w.fs.slots[k].used && w.fs.slots[k].owner != owner {
      SlotAfterRelease(w, w', owner, k);
    }
    forall s | 0 <= s < |w.sessions| ensures LastNames(w.handles, owner, |w.handles|, s) <==> OwnerNames(w.handles, owner, s) {
      if j :| 0 <= j < |w.handles| && w.handles[j].owner == owner && NamesSession(w.handles[j], s) {
        var last := SomeLastAlias(w.handles, j);
        assert NamesSession(w.handles[last], s);
      }
    }
    if Agree(w) { AgreedRelease(w, w', owner); }
  }

  /** All handles of the owner but its events and mailboxes are gone, and so are its sessions. */
  ghost predicate OwnerGone(w: World, w': World, owner: U32)
    requires |w'.handles| == |w.handles| && |w'.sessions| == |w.sessions|
  {
    && (forall j :: 0 <= j < |w.handles| && w.handles[j].owner == owner && w.handles[j].kind in {File, Process, Service} ==>
          w'.handles[j] == Cleared())
    && (forall s :: 0 <= s < |w.sessions| ==>
          w'.sessions[s] == if w.sessions[s].active && w.sessions[s].owner == owner then NoSession() else w.sessions[s])
  }

  lemma AgreedRelease(w: World, w': World, owner: U32)
    requires Agree(w) && ReleasedSoFar(w, w', owner, |w.handles|) && |w'.sessions| == |w.sessions|
    requires forall s :: 0 <= s < |w.sessions| ==>
      w'.sessions[s] == if w.sessions[s].active && OwnerNames(w.handles, owner, s) then NoSession() else w.sessions[s]
    ensures OwnerGone(w, w', owner)
  {
    hide FilesAgree, LastAlias;
    forall j | 0 <= j < |w.handles| && w.handles[j].kind == Service ensures ActiveSession(w.sessions, w.handles[j].target) {
      assert LiveHandle(w, w.handles[j]);
    }
    forall s | 0 <= s < |w.sessions| && w.sessions[s].active ensures OwnerNames(w.handles, owner, s) <==> w.sessions[s].owner == owner {
      assert HeldBy(w, s, w.sessions[s].owner);
      if j :| 0 <= j < |w.handles| && w.handles[j].owner == owner && NamesSession(w.handles[j], s) {
        assert LiveHandle(w, w.handles[j]);
      }
    }
  }

  lemma SlotAfterRelease(w: World, w': World, owner: U32, k: nat)
    requires FilesAgree(w) && FilesAgree(w') && owner != 0 && ReleasedSoFar(w, w', owner, |w.handles|)
    requires k < |w.fs.slots| == |w'.fs.slots|
    ensures w'.fs.slots[k].used <==> w.fs.slots[k].used && w.fs.slots[k].owner != owner
  {
    hide Sound, SlotOk, Stranded;
    if w'.fs.slots[k].used {
      assert FileNamed(w', k);
      var i :| 0 <= i < |w'.handles| && NamesFile(w'.handles[i], k);
      assert w'.handles[i] == w.handles[i];
      assert HandleOk(w, i);
    }
    if w.fs.slots[k].used && w.fs.slots[k].owner != owner {
      assert FileNamed(w, k);
      var i :| 0 <= i < |w.handles| && NamesFile(w.handles[i], k);
      assert HandleOk(w, i);
      assert w'.handles[i] == w.handles[i];
      assert HandleOk(w', i);
    }
  }
}
