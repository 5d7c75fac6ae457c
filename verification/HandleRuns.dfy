/** Every run of the operations on handles, files and service sessions (kernel/runtime_syscall.c): what
    always holds, what a request to a provider that is gone takes away, and a run that shows it. */
module HandleRuns {
  import opened FsModel
  import opened FsTree
  import opened FsSound
  import opened FsRuns
  import opened Handles

  datatype WorldOp =
    | OpenFileOp(pid: U32, path: seq<Letter>, flags: U32)
    | OpenServiceOp(pid: U32, known: bool, provider: U32)
    | RequestOp(pid: U32, id: nat, provider: U32, ready: bool)
    | OpenObjectOp(pid: U32, kind: Kind, target: nat)
    | DupOp(pid: U32, id: nat)
    | CloseOp(pid: U32, id: nat, agrees: bool)
    | ReleaseOp(owner: U32, answers: seq<bool>)
    | FsOp(op: FsRuns.FsOp)

  /** File operations other than open and close, which only handles reach. */
  predicate Legal(w: World, op: WorldOp) {
    match op
    case FsOp(f) => !f.Open? && !f.Close? && NamesSomething(f)
    case ReleaseOp(_, agrees) => |w.handles| <= |agrees|
    case _ => true
  }

  function WorldStep(w: World, op: WorldOp): World
    requires InRange(w.fs) && SlotsInRange(w.fs) && Legal(w, op)
  {
    match op
    case OpenFileOp(pid, path, flags) => FileOpened(w, pid, path, flags).0
    case OpenServiceOp(pid, known, provider) => ServiceOpened(w, pid, known, provider).0
    case RequestOp(pid, id, provider, ready) => Requested(w, pid, id, provider, ready).0
    case OpenObjectOp(pid, kind, target) => ObjectOpened(w, pid, kind, target).0
    case DupOp(pid, id) => Duplicated(w, pid, id).0
    case CloseOp(pid, id, agrees) => HandleClosed(w, pid, id, agrees).0
    case ReleaseOp(owner, agrees) => Released(w, owner, agrees).0
    case FsOp(f) => w.(fs := Step(w.fs, f))
  }

  /** Reading, writing, seeking and changing the tree leave the slots in the same hands. */
  lemma FsStepKeepsUse(fs: Fs, op: FsRuns.FsOp)
    requires Sound(fs) && !op.Open? && !op.Close?
    ensures InRange(fs) && SlotsInRange(fs) && SameUse(fs.slots, Step(fs, op).slots)
  {
    hide Sound, MkdirOf, ReadOf, WriteOf, SeekOf, RemoveOf, RenameOf, SameShape, Adds, FileOf, Overlaid;
    SoundHasRoot(fs);
    match op
    case Mkdir(pid, path, mode) => MkdirAddsOnePath(fs, pid, path, mode, []);
    case Read(file, size) => ReadYieldsContents(fs, file, size);
    case Write(file, buffer) => WriteChangesOneFile(fs, file, buffer);
    case Seek(file, displacement, whence) => SeekMovesOffset(fs, file, displacement, whence);
    case Remove(pid, path) => TreeChangesKeepSlots(fs, pid, path, path);
    case Rename(pid, from, to) => TreeChangesKeepSlots(fs, pid, from, to);
  }

  lemma TreeChangesKeepSlots(fs: Fs, pid: U32, from: seq<Letter>, to: seq<Letter>)
    requires InRange(fs)
    ensures RemoveOf(fs, pid, from).0.slots == fs.slots && RenameOf(fs, pid, from, to).0.slots == fs.slots
  {
    hide OnChain, HasChildren, IsOpen, Resolved, PlaceOf;
  }

  /** The operation is a request that finds the provider of its session gone or replaced. */
  predicate EndsSessions(w: World, op: WorldOp) {
    op.RequestOp? && Invalidates(w, op.pid, op.id, op.provider)
  }

  /** Every operation keeps files and held sessions in order. It keeps the whole agreement exactly when it is
      not a request that ends its provider's sessions. */
  lemma StepKeepsAgreement(w: World, op: WorldOp)
    requires FilesAgree(w) && Legal(w, op)
    ensures InRange(w.fs) && SlotsInRange(w.fs)
    ensures var w' := WorldStep(w, op);
      && FilesAgree(w') && (SessionsHeld(w) ==> SessionsHeld(w'))
      && (Agree(w) ==> (Agree(w') <==> !EndsSessions(w, op)))
  {
    hide FilesAgree, SessionsHeld, SessionsLive, Sound, Step, NamesSomething, LosesRoot, CloseRefused, Closed, TakesSession;
    FilesAreSound(w);
    match op
    case OpenFileOp(pid, path, flags) => FileOpenRollsBack(w, pid, path, flags);
    case OpenServiceOp(pid, known, provider) => ServiceOpenRollsBack(w, pid, known, provider);
    case RequestOp(pid, id, provider, ready) => RequestBreaks(w, pid, id, provider, ready);
    case OpenObjectOp(pid, kind, target) => ObjectOpenKeepsAgreement(w, pid, kind, target);
    case DupOp(pid, id) => DupKeepsAgreement(w, pid, id);
    case CloseOp(pid, id, agrees) =>
      if IsHandle(w.handles, id) { CloseClosesLastAlias(w, id - 1, agrees); }
    case ReleaseOp(owner, agrees) =>
      if owner != 0 { ReleaseRemovesOwner(w, owner, agrees); }
    case FsOp(f) =>
      FsStepKeepsUse(w.fs, f);
      StepKeepsSound(w.fs, f);
      NamingKeepsRoot(w.fs, f);
      UseKeepsAgreement(w, Step(w.fs, f));
  }

  lemma FilesAreSound(w: World)
    requires FilesAgree(w)
    ensures Sound(w.fs) && InRange(w.fs) && SlotsInRange(w.fs)
  {
    hide Sound;
    SoundHasRoot(w.fs);
  }

  function FreshWorld(handleCount: nat, sessionCount: nat, fs: Fs): World {
    World(seq(handleCount, _ => Cleared()), fs, seq(sessionCount, _ => NoSession()))
  }

  lemma FreshAgrees(handleCount: nat, sessionCount: nat, fs: Fs)
    requires Sound(fs) && forall k :: 0 <= k < |fs.slots| ==> !fs.slots[k].used
    ensures Agree(FreshWorld(handleCount, sessionCount, fs))
  {
    hide Sound;
  }

  /** `states` are what the operations make of a fresh world, one after the other. */
  ghost predicate IsWorldRun(states: seq<World>, ops: seq<WorldOp>) {
    && |states| == |ops| + 1
    && (exists handleCount: nat, sessionCount: nat, fs ::
          Sound(fs) && (forall k :: 0 <= k < |fs.slots| ==> !fs.slots[k].used)
          && states[0] == FreshWorld(handleCount, sessionCount, fs))
    && (forall k :: 0 <= k < |ops| ==> Legal(states[k], ops[k]))
    && (forall k :: 0 <= k < |ops| && InRange(states[k].fs) && SlotsInRange(states[k].fs) ==>
          states[k + 1] == WorldStep(states[k], ops[k]))
  }

  /** Over every run of opens, requests, dups, closes, releases and file operations, an open slot is in use
      exactly while some handle names it, and an active session has a handle of its owner. Up to the first
      request that ends sessions, a session is active exactly while some handle names it. */
  lemma {:induction false} EveryRunAgrees(states: seq<World>, ops: seq<WorldOp>, k: nat)
    requires IsWorldRun(states, ops) && k <= |ops|
    ensures FilesAgree(states[k]) && SessionsHeld(states[k])
    ensures forall s :: 0 <= s < |states[k].fs.slots| ==> (states[k].fs.slots[s].used <==> FileNamed(states[k], s))
    ensures (forall j :: 0 <= j < k ==> !EndsSessions(states[j], ops[j])) ==>
      Agree(states[k]) && forall s :: 0 <= s < |states[k].sessions| ==> (states[k].sessions[s].active <==> SessionNamed(states[k], s))
  {
    hide Sound, WorldStep, Legal, EndsSessions, FreshWorld, Agree;
    if k == 0 {
      var handleCount: nat, sessionCount: nat, fs :|
        Sound(fs) && (forall k :: 0 <= k < |fs.slots| ==> !fs.slots[k].used)
        && states[0] == FreshWorld(handleCount, sessionCount, fs);
      FreshAgrees(handleCount, sessionCount, fs);
    } else {
      EveryRunAgrees(states, ops, k - 1);
      StepKeepsAgreement(states[k - 1], ops[k - 1]);
    }
    AgreementMeans(states[k]);
  }

  lemma AgreementMeans(w: World)
    ensures FilesAgree(w) ==> forall s :: 0 <= s < |w.fs.slots| ==> (w.fs.slots[s].used <==> FileNamed(w, s))
    ensures Agree(w) ==>
      FilesAgree(w) && SessionsHeld(w) && forall s :: 0 <= s < |w.sessions| ==> (w.sessions[s].active <==> SessionNamed(w, s))
  {
    hide Sound;
    if FilesAgree(w) {
      forall s | 0 <= s < |w.fs.slots| && FileNamed(w, s) ensures w.fs.slots[s].used {
        var i :| 0 <= i < |w.handles| && NamesFile(w.handles[i], s);
        assert HandleOk(w, i);
      }
    }
    if Agree(w) {
      forall s | 0 <= s < |w.sessions| && w.sessions[s].active ensures SessionNamed(w, s) {
        assert HeldBy(w, s, w.sessions[s].owner);
      }
      forall s | 0 <= s < |w.sessions| && SessionNamed(w, s) ensures w.sessions[s].active {
        var i :| 0 <= i < |w.handles| && NamesSession(w.handles[i], s);
        assert LiveHandle(w, w.handles[i]);
      }
    }
  }

  // ---------------------------------------------------------------- a stale handle

  /** Process `a` opens a session with provider `p`, which is then replaced by `q`. The request of `a` is
      refused and ends its session, but its handle stays: it cannot be closed, and a release of `a` leaves it.
      Once `b` has opened the same session anew, `a` closes its handle, and with it the session of `b`. */
  lemma StaleHandleEndsAnotherSession(handles: nat, sessions: nat, fs: Fs, a: U32, b: U32, p: U32, q: U32) returns (states: seq<World>)
    requires handles >= 2 && sessions >= 1 && Sound(fs) && forall k :: 0 <= k < |fs.slots| ==> !fs.slots[k].used
    requires a != 0 && b != 0 && a != b && p != 0 && q != 0 && p != q
    ensures IsWorldRun(states, [OpenServiceOp(a, true, p), RequestOp(a, 1, q, true), OpenServiceOp(b, true, q), CloseOp(a, 1, true)])
    ensures states[0] == FreshWorld(handles, sessions, fs)
    ensures forall w :: w in states ==> |w.handles| == handles && |w.sessions| == sessions
    ensures
      && Requested(states[1], a, 1, q, true) == (states[2], ESRCH)
      && states[2].handles[0] == Handle(1, a, Service, 1) && !states[2].sessions[0].active
      && HandleClosed(states[2], a, 1, true) == (states[2], EBADF)
      && Released(states[2], a, seq(handles, _ => true)).0.handles[0] == states[2].handles[0]
      && states[3].handles[1] == Handle(2, b, Service, 1) && states[3].sessions[0] == Session(true, b, q)
      && HandleClosed(states[3], a, 1, true) == (states[4], OK)
      && states[4].handles[1] == Handle(2, b, Service, 1) && !states[4].sessions[0].active
  {
    hide Sound, FilesAgree, SessionsHeld, SessionsLive, AliasCount, ReleasedSoFar, Stranded, ProviderGone;
    var w0 := FreshWorld(handles, sessions, fs);
    FreshAgrees(handles, sessions, fs);
    var w1 := OpensFirst(w0, a, p);
    StepKeepsAgreement(w0, OpenServiceOp(a, true, p));
    var w2 := EndsFirst(w0, w1, a, p, q);
    StepKeepsAgreement(w1, RequestOp(a, 1, q, true));
    StaysBehind(w2, a);
    var w3 := OpensAgain(w0, w2, a, b, q);
    var w4 := ClosesAnothers(w0, w3, a, b, q);
    FilesAreSound(w0);
    states := [w0, w1, w2, w3, w4];
  }

  lemma OpensFirst(w0: World, a: U32, p: U32) returns (w1: World)
    requires |w0.handles| >= 2 && |w0.sessions| >= 1 && w0.handles[0] == Cleared() && w0.sessions[0] == NoSession() && a != 0 && p != 0
    ensures ServiceOpened(w0, a, true, p) == (w1, Ok(1))
    ensures w1 == World(w0.handles[0 := Handle(1, a, Service, 1)], w0.fs, w0.sessions[0 := Session(true, a, p)])
  {
    w1 := ServiceOpened(w0, a, true, p).0;
  }

  lemma EndsFirst(w0: World, w1: World, a: U32, p: U32, q: U32) returns (w2: World)
    requires |w0.handles| >= 2 && |w0.sessions| >= 1 && forall k :: 0 <= k < |w0.sessions| ==> w0.sessions[k] == NoSession()
    requires w1 == World(w0.handles[0 := Handle(1, a, Service, 1)], w0.fs, w0.sessions[0 := Session(true, a, p)])
    requires p != 0 && q != 0 && p != q
    ensures Requested(w1, a, 1, q, true) == (w2, ESRCH) && w2 == w1.(sessions := w0.sessions)
  {
    assert ProviderGone(w1.sessions, p) == w0.sessions;
    w2 := w1.(sessions := w0.sessions);
  }

  lemma StaysBehind(w: World, a: U32)
    requires FilesAgree(w) && |w.handles| >= 2 && |w.sessions| >= 1 && !w.sessions[0].active && a != 0
    requires w.handles[0] == Handle(1, a, Service, 1) && forall j :: 0 < j < |w.handles| ==> w.handles[j] == Cleared()
    ensures HandleClosed(w, a, 1, true) == (w, EBADF)
    ensures Released(w, a, seq(|w.handles|, _ => true)).0.handles[0] == w.handles[0]
  {
    hide FilesAgree, Closed, KeepsSessions, OwnerGone;
    LastIsRefused(w, true);
    ReleaseRemovesOwner(w, a, seq(|w.handles|, _ => true));
    assert Stranded(w, 0);
  }

  lemma LastIsRefused(w: World, agrees: bool)
    requires |w.handles| > 0 && w.handles[0].kind == Service && !Aliased(w.handles, 0) && !ActiveSession(w.sessions, w.handles[0].target)
    ensures Closed(w, 0, agrees) == (w, EBADF)
  {
    hide AliasCount;
    AliasCountIs(w.handles, 0);
  }

  lemma OpensAgain(w0: World, w2: World, a: U32, b: U32, q: U32) returns (w3: World)
    requires |w0.handles| >= 2 && |w0.sessions| >= 1 && w0.handles[1] == Cleared() && w0.sessions[0] == NoSession()
    requires w2 == World(w0.handles[0 := Handle(1, a, Service, 1)], w0.fs, w0.sessions) && b != 0 && q != 0
    ensures w3 == ServiceOpened(w2, b, true, q).0
    ensures w3 == World(w2.handles[1 := Handle(2, b, Service, 1)], w0.fs, w0.sessions[0 := Session(true, b, q)])
  {
    assert FirstFree(w2.handles, 0) == FirstFree(w2.handles, 1) == 1;
    w3 := ServiceOpened(w2, b, true, q).0;
  }

  lemma ClosesAnothers(w0: World, w3: World, a: U32, b: U32, q: U32) returns (w4: World)
    requires |w0.handles| >= 2 && |w0.sessions| >= 1 && w0.sessions[0] == NoSession() && a != b
    requires forall j :: 0 <= j < |w0.handles| ==> w0.handles[j] == Cleared()
    requires w3.handles == w0.handles[0 := Handle(1, a, Service, 1)][1 := Handle(2, b, Service, 1)]
    requires w3.sessions == w0.sessions[0 := Session(true, b, q)]
    ensures HandleClosed(w3, a, 1, true) == (w4, OK)
    ensures w4 == World(w3.handles[0 := Cleared()], w3.fs, w0.sessions)
  {
    hide AliasCount;
    AliasCountIs(w3.handles, 0);
    assert w3.sessions[0 := NoSession()] == w0.sessions;
    w4 := World(w3.handles[0 := Cleared()], w3.fs, w0.sessions);
  }
}
