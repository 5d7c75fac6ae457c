/** The code of the handle table (kernel/runtime_syscall.c) over the file system's code, proved to do what
    Handles says. */
module HandleTable {
  import opened FsModel
  import opened FileSystem
  import opened Handles
  import opened HandleRuns

  class Table {
    const handles: array<Handle>
    const sessions: array<Session>
    const store: Store

    ghost function Value(): World
      reads handles, sessions, store.nodes, store.slots
    {
      World(handles[..], store.Value(), sessions[..])
    }

    /** runtime_syscall_table_init. */
    constructor (handleCount: nat, sessionCount: nat, store: Store)
      ensures fresh(handles) && fresh(sessions) && this.store == store
      ensures Value() == FreshWorld(handleCount, sessionCount, store.Value())
    {
      this.store := store;
      handles := new Handle[handleCount](_ => Cleared());
      sessions := new Session[sessionCount](_ => NoSession());
    }

    /** runtime_syscall_alloc_handle. */
    method AllocHandle(owner: U32, kind: Kind, target: nat) returns (id: nat)
      modifies handles
      ensures (handles[..], id) == Granted(old(handles[..]), owner, kind, target)
    {
      var index := 0;
      while index < handles.Length
        invariant 0 <= index <= handles.Length && handles[..] == old(handles[..])
        invariant FirstFree(old(handles[..]), 0) == FirstFree(old(handles[..]), index)
      {
        if handles[index].kind == NoHandle {
          handles[index] := Handle(index + 1, owner, kind, target);
          return index + 1;
        }
        index := index + 1;
      }
      return 0;
    }

    /** runtime_syscall_handle_alias_count. */
    method CountAliases(h: Handle) returns (aliases: nat)
      ensures aliases == AliasCount(handles[..], h, handles.Length)
    {
      aliases := 0;
      var index := 0;
      while index < handles.Length
        invariant 0 <= index <= handles.Length && aliases == AliasCount(handles[..], h, index)
      {
        if handles[index].kind == h.kind && handles[index].owner == h.owner && handles[index].target == h.target {
          aliases := aliases + 1;
        }
        index := index + 1;
      }
    }

    /** runtime_syscall_close_handle without the access check. */
    method CloseEntry(i: nat, agrees: bool) returns (status: Status)
      requires i < handles.Length
      modifies handles, sessions, store.slots
      ensures (Value(), status) == Closed(old(Value()), i, agrees)
    {
      hide AliasCount;
      var h := handles[i];
      var aliases := CountAliases(h);
      match h.kind {
        case NoHandle => return EBADF;
        case Process =>
        case Event => if aliases <= 1 && !agrees { return EBUSY; }
        case Mailbox => if aliases <= 1 && !agrees { return EBUSY; }
        case File =>
          if aliases <= 1 {
            var closed := store.Close(h.target);
            if closed != OK { return EBADF; }
          }
        case Service =>
          if aliases <= 1 {
            var closed := CloseSession(h.target);
            if !closed { return EBADF; }
          }
      }
      handles[i] := Cleared();
      return OK;
    }

    /** runtime_service_session_close. */
    method CloseSession(target: nat) returns (ok: bool)
      modifies sessions
      ensures match SessionClosed(old(sessions[..]), target)
        case None => !ok && sessions[..] == old(sessions[..])
        case Some(after) => ok && sessions[..] == after
    {
      if target == 0 || target > sessions.Length || !sessions[target - 1].active { return false; }
      sessions[target - 1] := NoSession();
      return true;
    }

    /** runtime_service_session_invalidate_provider. */
    method InvalidateProvider(provider: U32) returns (closed: nat)
      modifies sessions
      ensures sessions[..] == ProviderGone(old(sessions[..]), provider)
      ensures closed != 0 <==> provider != 0 && Serves(old(sessions[..]), provider)
    {
      closed := 0;
      if provider == 0 { return; }
      ghost var gone := ProviderGone(sessions[..], provider);
      var index := 0;
      while index < sessions.Length
        invariant 0 <= index <= sessions.Length
        invariant forall k :: 0 <= k < sessions.Length ==> sessions[k] == if k < index then gone[k] else old(sessions[..])[k]
        invariant closed != 0 <==>
          exists k :: 0 <= k < index && old(sessions[..])[k].active && old(sessions[..])[k].provider == provider
      {
        if sessions[index].active && sessions[index].provider == provider {
          assert old(sessions[..])[index] == sessions[index];
          sessions[index] := NoSession();
          closed := closed + 1;
        }
        index := index + 1;
      }
      assert sessions[..] == gone;
    }

    /** RUNTIME_SYSCALL_HANDLE_CLOSE. */
    method HandleClose(pid: U32, id: nat, agrees: bool) returns (status: Status)
      modifies handles, sessions, store.slots
      ensures (Value(), status) == HandleClosed(old(Value()), pid, id, agrees)
    {
      if id == 0 || id > handles.Length || handles[id - 1].kind == NoHandle { return EBADF; }
      if handles[id - 1].owner != 0 && handles[id - 1].owner != pid { return EBADF; }
      status := CloseEntry(id - 1, agrees);
    }

    /** RUNTIME_SYSCALL_HANDLE_DUP. */
    method HandleDup(pid: U32, id: nat) returns (status: Status, copy: nat)
      modifies handles
      ensures (Value(), if status == OK then Ok(copy) else Err(status)) == Duplicated(old(Value()), pid, id)
    {
      copy := 0;
      if id == 0 || id > handles.Length || handles[id - 1].kind == NoHandle { return EBADF, copy; }
      var h := handles[id - 1];
      if h.owner != 0 && h.owner != pid { return EBADF, copy; }
      copy := AllocHandle(h.owner, h.kind, h.target);
      return if copy == 0 then ENOSPC else OK, copy;
    }

    /** RUNTIME_SYSCALL_FILE_OPEN. */
    method FileOpen(pid: U32, path: seq<Letter>, flags: U32) returns (status: Status, id: nat)
      requires InRange(store.Value()) && SlotsInRange(store.Value())
      modifies handles, store.nodes, store.slots
      ensures (Value(), if status == OK then Ok(id) else Err(status)) == FileOpened(old(Value()), pid, path, flags)
    {
      hide OpenOf;
      var file;
      id := 0;
      status, file := store.Open(pid, path, flags);
      if status != OK { return status, id; }
      id := AllocHandle(pid, File, file);
      if id == 0 {
        var closed := store.Close(file);
        return ENOSPC, id;
      }
      return OK, id;
    }

    /** RUNTIME_SYSCALL_SERVICE_OPEN. */
    method ServiceOpen(pid: U32, known: bool, provider: U32) returns (status: Status, id: nat)
      modifies handles, sessions
      ensures (Value(), if status == OK then Ok(id) else Err(status)) == ServiceOpened(old(Value()), pid, known, provider)
    {
      id := 0;
      if !known { return ENOENT, id; }
      if provider == 0 { return ESRCH, id; }
      if pid == 0 { return EINVAL, id; }
      var index := 0;
      while index < sessions.Length && sessions[index].active
        invariant 0 <= index <= sessions.Length
        invariant FirstInactive(sessions[..], 0) == FirstInactive(sessions[..], index)
      {
        index := index + 1;
      }
      if index == sessions.Length { return ENOSPC, id; }
      sessions[index] := Session(true, pid, provider);
      id := AllocHandle(pid, Service, index + 1);
      if id == 0 {
        var closed := CloseSession(index + 1);
        assert sessions[..] == old(sessions[..])[index := NoSession()];
        return ENOSPC, id;
      }
      return OK, id;
    }

    /** RUNTIME_SYSCALL_SERVICE_REQUEST. */
    method ServiceRequest(pid: U32, id: nat, provider: U32, ready: bool) returns (status: Status)
      modifies sessions
      ensures (Value(), status) == Requested(old(Value()), pid, id, provider, ready)
    {
      if id == 0 || id > handles.Length || handles[id - 1].kind != Service { return EBADF; }
      if handles[id - 1].owner != 0 && handles[id - 1].owner != pid { return EBADF; }
      var target := handles[id - 1].target;
      if target == 0 || target > sessions.Length || !sessions[target - 1].active { return EBADF; }
      var server := sessions[target - 1].provider;
      if provider == 0 || provider != server {
        var closed := InvalidateProvider(server);
        return ESRCH;
      }
      return if ready then OK else EBUSY;
    }

    /** The part that opening a process, an event and a mailbox share. */
    method ObjectOpen(pid: U32, kind: Kind, target: nat) returns (status: Status, id: nat)
      modifies handles
      ensures (Value(), if status == OK then Ok(id) else Err(status)) == ObjectOpened(old(Value()), pid, kind, target)
    {
      id := 0;
      if kind != Process && kind != Event && kind != Mailbox { return EINVAL, id; }
      id := AllocHandle(pid, kind, target);
      if id == 0 { return ENOSPC, id; }
      if target == 0 && kind != Process {
        handles[id - 1] := Cleared();
        return ENOMEM, id;
      }
      return OK, id;
    }

    /** runtime_syscall_release_owner_handles. */
    method ReleaseOwnerHandles(owner: U32, agrees: seq<bool>) returns (released: nat)
      requires handles.Length <= |agrees|
      modifies handles, sessions, store.slots
      ensures (Value(), released) == Released(old(Value()), owner, agrees)
    {
      hide Closed;
      released := 0;
      if owner == 0 { return; }
      var index := 0;
      while index < handles.Length
        invariant 0 <= index <= handles.Length
        invariant (Value(), released) == ReleasedTo(old(Value()), owner, agrees, index)
      {
        if handles[index].kind != NoHandle && handles[index].owner == owner {
          var status := CloseEntry(index, agrees[index]);
          if status == OK { released := released + 1; }
        }
        index := index + 1;
      }
    }
  }
}
