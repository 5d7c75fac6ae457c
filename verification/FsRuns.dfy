/** File contents as byte sequences, and every run of the file-system operations
    (kernel/runtime_fs.c). */
module FsRuns {
  import opened FsModel
  import opened FsTree
  import opened FsSound
  import opened FsChange

  // ---------------------------------------------------------------- contents

  function Contents(node: Node): seq<Byte>
    requires NodeOk(node)
  {
    node.data[..node.size]
  }

  function PadTo(c: seq<Byte>, n: nat): seq<Byte> {
    if n > |c| then c + Zeros(n - |c|) else c
  }

  /** `buffer` laid over the contents at `offset`, with zeros in between when there is a gap. */
  function Overlaid(c: seq<Byte>, offset: nat, buffer: seq<Byte>): seq<Byte> {
    var p := PadTo(c, offset);
    p[..offset] + buffer + (if offset + |buffer| < |p| then p[offset + |buffer|..] else [])
  }

  /** The bytes past the end are zero already, so the explicit zero-fill of a gap changes nothing. */
  lemma ZeroFillIsRedundant(node: Node, offset: nat)
    requires NodeOk(node) && node.size <= offset <= FILE_CAPACITY
    ensures ZeroRange(node.data, node.size, offset) == node.data
  {
  }

  /** A write overlays the contents and keeps the bytes past the end zero. */
  lemma WriteOverlays(node: Node, offset: U32, buffer: seq<Byte>)
    requires NodeOk(node) && node.used && node.kind == REGULAR && offset + |buffer| <= FILE_CAPACITY
    ensures var node' := WrittenNode(node, offset, buffer);
      NodeOk(node') && Contents(node') == Overlaid(Contents(node), offset, buffer)
  {
    if offset > node.size { ZeroFillIsRedundant(node, offset); }
    var node', end := WrittenNode(node, offset, buffer), offset + |buffer|;
    assert node'.data == node.data[..offset] + buffer + node.data[end..];
    assert forall k :: end <= k < FILE_CAPACITY ==> node'.data[k] == node.data[k];
    var c, p := Contents(node), PadTo(Contents(node), offset);
    assert p[..offset] == node.data[..offset];
    if end < |p| {
      assert p[end..] == node.data[end..node.size];
    }
  }

  /** The slot and the node that a read, write or seek works on. */
  ghost predicate FileOf(fs: Fs, file: nat, i: nat) {
    && IsOpenFile(fs, file) && i < |fs.nodes| && fs.slots[file - 1].node == i
    && fs.nodes[i].kind == REGULAR && fs.nodes[i].used && NodeOk(fs.nodes[i])
  }

  lemma FileOfOpen(fs: Fs, file: nat)
    requires Sound(fs) && SlotsInRange(fs) && IsOpenFile(fs, file)
    ensures fs.slots[file - 1].node < |fs.nodes| && fs.slots[file - 1].offset <= FILE_CAPACITY
    ensures RegularOf(fs, file).Ok? ==> FileOf(fs, file, RegularOf(fs, file).value)
  {
    hide Tree;
    assert SlotOk(fs.nodes, fs.slots[file - 1]);
    assert NodeOk(fs.nodes[fs.slots[file - 1].node]);
  }

  lemma SliceOfPrefix(data: seq<Byte>, n: nat, start: nat, end: nat)
    requires start <= end <= n <= |data|
    ensures data[start..end] == data[..n][start..end]
  {
  }

  /** A read yields the contents from the slot's offset on and moves only that offset, by what it read. */
  lemma ReadYieldsContents(fs: Fs, file: nat, size: U32)
    requires Sound(fs) && SlotsInRange(fs)
    ensures var (fs', r) := ReadOf(fs, file, size);
      && (r.Ok? <==> IsOpenFile(fs, file) && Has(fs.slots[file - 1].flags, READ) && RegularOf(fs, file).Ok?)
      && (r.Err? ==> fs' == fs)
      && (r.Ok? ==> ReadOutcome(fs, fs', file, size, r.value))
      && Sound(fs')
  {
    hide Tree, Has;
    if IsOpenFile(fs, file) {
      FileOfOpen(fs, file);
      var (fs', r) := ReadOf(fs, file, size);
      if r.Ok? {
        OffsetKeepsSound(fs, file, fs'.slots[file - 1].offset);
        var node, offset := fs.nodes[fs.slots[file - 1].node], fs.slots[file - 1].offset;
        if offset < node.size {
          SliceOfPrefix(node.data, node.size, offset, offset + |r.value|);
        } else {
          assert fs.slots[file - 1 := fs.slots[file - 1]] == fs.slots;
        }
      }
    }
  }

  ghost predicate ReadOutcome(fs: Fs, fs': Fs, file: nat, size: U32, bytes: seq<Byte>)
    requires IsOpenFile(fs, file)
  {
    var i, offset := fs.slots[file - 1].node, fs.slots[file - 1].offset;
    && FileOf(fs, file, i)
    && |bytes| == Min(size, if offset < |Contents(fs.nodes[i])| then |Contents(fs.nodes[i])| - offset else 0)
    && (bytes != [] ==> offset + |bytes| <= |Contents(fs.nodes[i])| && bytes == Contents(fs.nodes[i])[offset..offset + |bytes|])
    && offset + |bytes| < UINT32 && fs' == WithOffset(fs, file, offset + |bytes|)
  }

  lemma OffsetKeepsSound(fs: Fs, file: nat, offset: U32)
    requires Sound(fs) && IsOpenFile(fs, file) && offset <= FILE_CAPACITY
    ensures Sound(WithOffset(fs, file, offset))
  {
    hide Tree;
    var slots' := WithOffset(fs, file, offset).slots;
    assert SlotOk(fs.nodes, fs.slots[file - 1]);
    forall k, l | 0 <= k < l < |slots'| && IsWriter(slots'[k], slots'[k].node) ensures !IsWriter(slots'[l], slots'[k].node) {
      assert IsWriter(fs.slots[k], fs.slots[k].node) ==> !IsWriter(fs.slots[l], fs.slots[k].node);
    }
  }

  /** A write overlays the contents of its file at the slot's offset, moves that offset to the end of what
      it wrote, and touches no other file, no other slot and no path. It fails exactly when the slot is not
      open for writing on a regular file or the end lies past the capacity; then nothing changes. */
  lemma WriteChangesOneFile(fs: Fs, file: nat, buffer: seq<Byte>)
    requires Sound(fs) && SlotsInRange(fs)
    ensures var (fs', r) := WriteOf(fs, file, buffer);
      && (r.Ok? <==> IsOpenFile(fs, file) && Has(fs.slots[file - 1].flags, WRITE) && RegularOf(fs, file).Ok?
                     && fs.slots[file - 1].offset + |buffer| <= FILE_CAPACITY)
      && (r.Err? ==> fs' == fs)
      && (r.Ok? ==> r.value == |buffer| && WriteOutcome(fs, fs', file, buffer))
      && Sound(fs') && SameShape(fs.nodes, fs'.nodes)
  {
    hide Tree, Has, WrittenNode, Overlaid;
    if IsOpenFile(fs, file) {
      FileOfOpen(fs, file);
      var (fs', r) := WriteOf(fs, file, buffer);
      if r.Ok? {
        WriteKeepsSound(fs, file, buffer);
      }
    }
  }

  ghost predicate WriteOutcome(fs: Fs, fs': Fs, file: nat, buffer: seq<Byte>)
    requires IsOpenFile(fs, file)
  {
    var i, offset := fs.slots[file - 1].node, fs.slots[file - 1].offset;
    && FileOf(fs, file, i) && |fs'.nodes| == |fs.nodes| && offset + |buffer| <= FILE_CAPACITY
    && fs'.nodes == fs.nodes[i := fs'.nodes[i]] && NodeOk(fs'.nodes[i])
    && Contents(fs'.nodes[i]) == Overlaid(Contents(fs.nodes[i]), offset, buffer)
    && fs' == WithOffset(fs, file, offset + |buffer|).(nodes := fs'.nodes)
  }

  lemma WriteKeepsSound(fs: Fs, file: nat, buffer: seq<Byte>)
    requires Sound(fs) && SlotsInRange(fs) && WriteOf(fs, file, buffer).1.Ok?
    ensures var fs' := WriteOf(fs, file, buffer).0;
      IsOpenFile(fs, file) && Sound(fs') && WriteOutcome(fs, fs', file, buffer) && SameShape(fs.nodes, fs'.nodes)
  {
    hide Tree, Has, Overlaid;
    FileOfOpen(fs, file);
    var i, offset := fs.slots[file - 1].node, fs.slots[file - 1].offset;
    var node' := WrittenNode(fs.nodes[i], offset, buffer);
    WriteOverlays(fs.nodes[i], offset, buffer);
    WrittenIsSound(fs, i, node');
    OffsetKeepsSound(fs.(nodes := fs.nodes[i := node']), file, offset + |buffer|);
  }

  lemma WrittenIsSound(fs: Fs, i: nat, node': Node)
    requires Sound(fs) && i < |fs.nodes| && fs.nodes[i].used && NodeOk(node') && node'.used
    requires node' == fs.nodes[i].(size := node'.size, data := node'.data)
    ensures Sound(fs.(nodes := fs.nodes[i := node'])) && SameShape(fs.nodes, fs.nodes[i := node'])
  {
    hide Tree, NodeOk;
    ShapeKeepsTree(fs.nodes, fs.nodes[i := node']);
    forall k | 0 <= k < |fs.slots| ensures SlotOk(fs.nodes[i := node'], fs.slots[k]) {
      assert SlotOk(fs.nodes, fs.slots[k]);
    }
  }

  /** Interleaved handles share one sequence: what one handle writes, any other handle on that node reads
      when it stands at the same offset. */
  lemma WrittenIsReadBack(fs: Fs, writer: nat, reader: nat, buffer: seq<Byte>)
    requires Sound(fs) && SlotsInRange(fs) && WriteOf(fs, writer, buffer).1.Ok? && |buffer| > 0
    requires writer != reader && IsOpenFile(fs, writer) && IsOpenFile(fs, reader) && Has(fs.slots[reader - 1].flags, READ)
    requires fs.slots[reader - 1].node == fs.slots[writer - 1].node && fs.slots[reader - 1].offset == fs.slots[writer - 1].offset
    ensures var fs' := WriteOf(fs, writer, buffer).0;
      Sound(fs') && SlotsInRange(fs') && ReadOf(fs', reader, |buffer|).1 == Ok(buffer)
  {
    hide Tree, Has, Sound, WriteOf;
    SoundHasRoot(fs);
    WriteKeepsSound(fs, writer, buffer);
    var fs' := WriteOf(fs, writer, buffer).0;
    SoundHasRoot(fs');
    ReadYieldsContents(fs', reader, |buffer|);
    var i, offset := fs.slots[reader - 1].node, fs.slots[reader - 1].offset;
    var c := Overlaid(Contents(fs.nodes[i]), offset, buffer);
    assert |c| >= offset + |buffer| && c[offset..offset + |buffer|] == buffer;
  }

  // ---------------------------------------------------------------- close and seek

  lemma CloseFreesSlot(fs: Fs, file: nat)
    requires Sound(fs)
    ensures var (fs', status) := CloseOf(fs, file);
      && (status == OK <==> IsOpenFile(fs, file)) && Sound(fs') && fs'.nodes == fs.nodes
      && (forall k :: 0 <= k < |fs.slots| && k != file - 1 ==> fs'.slots[k] == fs.slots[k])
      && |fs'.slots| == |fs.slots| && !IsOpenFile(fs', file)
  {
    hide Tree;
    var slots' := CloseOf(fs, file).0.slots;
    forall k, l | 0 <= k < l < |slots'| && IsWriter(slots'[k], slots'[k].node) ensures !IsWriter(slots'[l], slots'[k].node) {
      assert IsWriter(fs.slots[k], fs.slots[k].node);
    }
  }

  /** Seek moves one offset, to the place it answers, which lies in the file's capacity; or it changes nothing. */
  lemma SeekMovesOffset(fs: Fs, file: nat, displacement: int, whence: U32)
    requires Sound(fs) && SlotsInRange(fs)
    ensures var (fs', r) := SeekOf(fs, file, displacement, whence);
      && Sound(fs') && fs'.nodes == fs.nodes && (r.Err? ==> fs' == fs)
      && (r.Ok? ==> IsOpenFile(fs, file) && r.value <= FILE_CAPACITY && fs' == WithOffset(fs, file, r.value))
  {
    hide Tree;
    var (fs', r) := SeekOf(fs, file, displacement, whence);
    if IsOpenFile(fs, file) {
      FileOfOpen(fs, file);
      if r.Ok? { OffsetKeepsSound(fs, file, r.value); }
    }
  }

  // ---------------------------------------------------------------- runs

  datatype FsOp =
    | Mkdir(pid: U32, path: seq<Letter>, mode: U32)
    | Open(pid: U32, path: seq<Letter>, flags: U32)
    | Read(file: nat, size: U32)
    | Write(file: nat, buffer: seq<Byte>)
    | Close(file: nat)
    | Seek(file: nat, displacement: int, whence: U32)
    | Remove(pid: U32, path: seq<Letter>)
    | Rename(pid: U32, from: seq<Letter>, to: seq<Letter>)

  function Step(fs: Fs, op: FsOp): Fs
    requires InRange(fs) && SlotsInRange(fs)
  {
    match op
    case Mkdir(pid, path, mode) => MkdirOf(fs, pid, path, mode).0
    case Open(pid, path, flags) => OpenOf(fs, pid, path, flags).0
    case Read(file, size) => ReadOf(fs, file, size).0
    case Write(file, buffer) => WriteOf(fs, file, buffer).0
    case Close(file) => CloseOf(fs, file).0
    case Seek(file, displacement, whence) => SeekOf(fs, file, displacement, whence).0
    case Remove(pid, path) => RemoveOf(fs, pid, path).0
    case Rename(pid, from, to) => RenameOf(fs, pid, from, to).0
  }

  /** The step takes the root away from the tree. */
  ghost predicate LosesRoot(fs: Fs, op: FsOp)
    requires InRange(fs)
  {
    match op
    case Remove(pid, path) => RemovesRoot(fs, pid, path)
    case Rename(pid, from, to) => RenamesRoot(fs, pid, from, to)
    case _ => false
  }

  /** A step keeps the invariant exactly when it does not take the root away. */
  lemma StepKeepsSound(fs: Fs, op: FsOp)
    requires Sound(fs)
    ensures InRange(fs) && SlotsInRange(fs) && (Sound(Step(fs, op)) <==> !LosesRoot(fs, op))
  {
    hide Sound, RemovesRoot, RenamesRoot;
    SoundHasRoot(fs);
    match op
    case Mkdir(pid, path, mode) => MkdirAddsOnePath(fs, pid, path, mode, []);
    case Open(pid, path, flags) => OpenEffect(fs, pid, path, flags, []);
    case Read(file, size) => ReadYieldsContents(fs, file, size);
    case Write(file, buffer) => WriteChangesOneFile(fs, file, buffer);
    case Close(file) => CloseFreesSlot(fs, file);
    case Seek(file, displacement, whence) => SeekMovesOffset(fs, file, displacement, whence);
    case Remove(pid, path) => RemoveDeletesOnePath(fs, pid, path, []);
    case Rename(pid, from, to) => RenameMovesSubtree(fs, pid, from, to, []);
  }

  /** remove and the old path of rename are given at least one name or the root's own path. */
  predicate NamesSomething(op: FsOp) {
    match op
    case Remove(_, path) => !SlashesOnly(path)
    case Rename(_, from, _) => !SlashesOnly(from)
    case _ => true
  }

  /** `states` are what the operations make of a fresh file system, one after the other. */
  ghost predicate IsRun(states: seq<Fs>, ops: seq<FsOp>) {
    && |states| == |ops| + 1
    && (exists nodeCount: nat, slotCount: nat ::
          0 < nodeCount <= UINT32 && slotCount < UINT32 && states[0] == InitialFs(nodeCount, slotCount))
    && (forall k :: 0 <= k < |ops| ==> NamesSomething(ops[k]))
    && (forall k :: 0 <= k < |ops| && InRange(states[k]) && SlotsInRange(states[k]) ==> states[k + 1] == Step(states[k], ops[k]))
  }

  /** Every run keeps a sound tree, blank free nodes, zeros past every file's end, offsets within
      capacity and at most one writer for each node. */
  lemma {:induction false} EveryRunIsSound(states: seq<Fs>, ops: seq<FsOp>, k: nat)
    requires IsRun(states, ops) && k <= |ops|
    ensures Sound(states[k])
  {
    hide Sound, Step, NamesSomething, LosesRoot;
    if k == 0 {
      var nodeCount: nat, slotCount: nat :|
        0 < nodeCount <= UINT32 && slotCount < UINT32 && states[0] == InitialFs(nodeCount, slotCount);
      InitialIsSound(nodeCount, slotCount);
    } else {
      EveryRunIsSound(states, ops, k - 1);
      StepKeepsSound(states[k - 1], ops[k - 1]);
      NamingKeepsRoot(states[k - 1], ops[k - 1]);
    }
  }

  lemma NamingKeepsRoot(fs: Fs, op: FsOp)
    requires InRange(fs) && NamesSomething(op)
    ensures !LosesRoot(fs, op)
  {
  }

  // ---------------------------------------------------------------- the failures are real

  const LETTER_NAME: Name := [97]
  const LETTER_PATH: seq<Letter> := [SLASH, 97]

  lemma LetterPathIs()
    ensures Tokenize(LETTER_PATH) == Tokens([LETTER_NAME], false) && !IsRoot(LETTER_PATH)
  {
    assert PathOf([LETTER_NAME]) == LETTER_PATH;
    TokenizeUndoesPathOf([LETTER_NAME]);
  }

  /** In a table that uses no more than its first two nodes, the letter can only lead to the second. */
  lemma LookupLetter(nodes: seq<Node>)
    requires nodes != [] && nodes[0].name == ROOT_NAME && forall i :: 1 < i < |nodes| ==> !nodes[i].used
    ensures Lookup(nodes, []) == Some(0)
    ensures Lookup(nodes, [LETTER_NAME]) == if |nodes| > 1 && IsChild(nodes[1], 0, LETTER_NAME) then Some(1) else None
  {
    var names := [LETTER_NAME];
    assert names[..0] == [];
    assert Lookup(nodes, []) == Some(0);
    assert ROOT_NAME[0] != LETTER_NAME[0];
  }

  lemma SlashesOnlyExists()
    ensures SlashesOnly([SLASH, SLASH])
  {
    var path: seq<Letter> := [SLASH, SLASH];
    assert path[1..] == [SLASH] && path[1..][1..] == [];
    assert SkipSlashes(path) == [];
  }

  /** On a fresh file system, removing "//" clears the root. */
  lemma DoubleSlashRemovesRoot(nodeCount: nat, slotCount: nat, pid: U32)
    requires 0 < nodeCount <= UINT32 && slotCount < UINT32
    ensures var (fs', status) := RemoveOf(InitialFs(nodeCount, slotCount), pid, [SLASH, SLASH]);
      status == OK && fs'.nodes[0] == FreeNode() && !Sound(fs')
  {
    var fs, path := InitialFs(nodeCount, slotCount), [SLASH, SLASH];
    InitialIsSound(nodeCount, slotCount);
    SlashesOnlyExists();
    assert SlashesOnly(path) && RemovesRoot(fs, pid, path);
    RemoveDeletesOnePath(fs, pid, path, []);
  }

  /** On a fresh file system, renaming "//" to "/a" makes the root an entry of itself. */
  lemma DoubleSlashRenamesRoot(nodeCount: nat, slotCount: nat, pid: U32)
    requires 0 < nodeCount <= UINT32 && slotCount < UINT32
    ensures var (fs', status) := RenameOf(InitialFs(nodeCount, slotCount), pid, [SLASH, SLASH], LETTER_PATH);
      status == OK && fs'.nodes[0].name == LETTER_NAME && fs'.nodes[0].parent == 0 && !Sound(fs')
  {
    hide Sound, Tree;
    var fs := InitialFs(nodeCount, slotCount);
    InitialIsSound(nodeCount, slotCount);
    SoundHasRoot(fs);
    LetterPathIs();
    SlashesOnlyExists();
    LookupLetter(fs.nodes);
    PlaceOfIs(fs.nodes, LETTER_PATH);
    RenameMovesSubtree(fs, pid, [SLASH, SLASH], LETTER_PATH, []);
  }

  /** The first creating open on a fresh file system that has a second node. */
  lemma FirstOpen(nodeCount: nat, slotCount: nat, pid: U32)
    requires 1 < nodeCount <= UINT32 && slotCount < UINT32
    ensures var fs := InitialFs(nodeCount, slotCount);
      var (fs', r) := OpenOf(fs, pid, LETTER_PATH, CREATE + WRITE);
      && fs'.nodes == fs.nodes[1 := NewNode(REGULAR, 0, pid, 420, LETTER_NAME)]
      && (if slotCount == 0 then r == Err(ENOSPC) && fs'.slots == []
          else r == Ok(1) && fs'.slots == fs.slots[0 := OpenFile(true, 1, pid, CREATE + WRITE, 0, 0)])
  {
    hide Sound, Tree;
    var fs := InitialFs(nodeCount, slotCount);
    InitialIsSound(nodeCount, slotCount);
    SoundHasRoot(fs);
    LetterPathIs();
    LookupLetter(fs.nodes);
    PlaceOfIs(fs.nodes, LETTER_PATH);
    assert FirstFreeNode(fs.nodes, 1) == 1;
    assert AnyWriteBit(420) && !Has(CREATE + WRITE, READ) && !Has(CREATE + WRITE, TRUNCATE);
  }

  /** On a fresh file system without open slots, a creating open fails and leaves the new file behind. */
  lemma FailedOpenLeavesFile(nodeCount: nat, pid: U32)
    requires 1 < nodeCount <= UINT32
    ensures var (fs', r) := OpenOf(InitialFs(nodeCount, 0), pid, LETTER_PATH, CREATE + WRITE);
      r == Err(ENOSPC) && Lookup(fs'.nodes, []) == Some(0) && Lookup(fs'.nodes, [LETTER_NAME]) == Some(1)
  {
    FirstOpen(nodeCount, 0, pid);
    LookupLetter(OpenOf(InitialFs(nodeCount, 0), pid, LETTER_PATH, CREATE + WRITE).0.nodes);
  }

  /** What the first open leaves when there is a slot. */
  function Opened(nodeCount: nat, slotCount: nat, pid: U32): (fs: Fs)
    requires 1 < nodeCount <= UINT32 && 0 < slotCount < UINT32
    ensures InRange(fs) && SlotsInRange(fs)
  {
    FirstOpen(nodeCount, slotCount, pid);
    OpenOf(InitialFs(nodeCount, slotCount), pid, LETTER_PATH, CREATE + WRITE).0
  }

  /** Create a file, write a byte and open it again to truncate it while the writer is still there: the
      second open fails as busy, and the byte is gone. */
  lemma FailedOpenEmptiesFile(nodeCount: nat, slotCount: nat, pid: U32)
    requires 1 < nodeCount <= UINT32 && 0 < slotCount < UINT32
    ensures OpenOf(InitialFs(nodeCount, slotCount), pid, LETTER_PATH, CREATE + WRITE).1 == Ok(1)
    ensures var (fs, count) := WriteOf(Opened(nodeCount, slotCount, pid), 1, [7]);
      && InRange(fs) && |fs.nodes| > 1 && Lookup(fs.nodes, [LETTER_NAME]) == Some(1)
      && count == Ok(1) && fs.nodes[1].size == 1 && fs.nodes[1].data[..1] == [7]
      && OpenOf(fs, pid, LETTER_PATH, WRITE + TRUNCATE) == (fs.(nodes := fs.nodes[1 := Emptied(fs.nodes[1])]), Err(EBUSY))
  {
    FirstOpen(nodeCount, slotCount, pid);
    var fs1 := Opened(nodeCount, slotCount, pid);
    var fs2 := WriteOf(fs1, 1, [7]).0;
    LetterPathIs();
    LookupLetter(fs2.nodes);
    BusyAfterTruncation(fs2, pid);
  }

  lemma BusyAfterTruncation(fs: Fs, pid: U32)
    requires InRange(fs) && |fs.nodes| > 1 && fs.nodes[1].kind == REGULAR && fs.nodes[1].mode == 420
    requires |fs.slots| > 0 && IsWriter(fs.slots[0], 1)
    ensures OpenNode(fs, pid, 1, WRITE + TRUNCATE) == (fs.(nodes := fs.nodes[1 := Emptied(fs.nodes[1])]), Err(EBUSY))
  {
    assert HasWriter(fs.slots, 1);
    assert AnyWriteBit(420);
  }
}
