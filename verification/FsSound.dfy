/** The invariant of the file system, and what mkdir and open do to the path map
    (kernel/runtime_fs.c). */
module FsSound {
  import opened FsModel
  import opened FsTree

  // ---------------------------------------------------------------- the invariant

  /** A node's data is zero from its size on; a free node is blank. */
  predicate NodeOk(node: Node) {
    && |node.data| == FILE_CAPACITY && node.size <= FILE_CAPACITY
    && (forall k :: node.size <= k < FILE_CAPACITY ==> node.data[k] == 0)
    && (node.kind == DIRECTORY ==> node.size == 0)
    && (!node.used ==> node == FreeNode())
  }

  /** An open slot holds a node in use, never a directory for writing; a closed slot is blank. */
  predicate SlotOk(nodes: seq<Node>, slot: OpenFile) {
    if slot.used then
      && slot.node < |nodes| && nodes[slot.node].used && slot.offset <= FILE_CAPACITY
      && (nodes[slot.node].kind == DIRECTORY ==> !Has(slot.flags, WRITE))
    else slot == FreeSlot()
  }

  predicate IsWriter(slot: OpenFile, i: nat) { slot.used && slot.node == i && Has(slot.flags, WRITE) }

  /** No node is open for writing twice. */
  ghost predicate OneWriter(slots: seq<OpenFile>) {
    forall k, l :: 0 <= k < l < |slots| && IsWriter(slots[k], slots[k].node) ==> !IsWriter(slots[l], slots[k].node)
  }

  ghost predicate Sound(fs: Fs) {
    && InRange(fs) && Tree(fs.nodes)
    && (forall i :: 0 <= i < |fs.nodes| ==> NodeOk(fs.nodes[i]))
    && (forall k :: 0 <= k < |fs.slots| ==> SlotOk(fs.nodes, fs.slots[k]))
    && OneWriter(fs.slots)
  }

  lemma InitialIsSound(nodeCount: nat, slotCount: nat)
    requires 0 < nodeCount <= UINT32 && slotCount < UINT32
    ensures Sound(InitialFs(nodeCount, slotCount))
  {
    var nodes := InitialFs(nodeCount, slotCount).nodes;
    assert Lookup(nodes, []) == Some(0) && AllPlain([]);
    assert HasPath(nodes, 0);
  }

  // ---------------------------------------------------------------- changes that keep the tree's shape

  ghost predicate SameShape(nodes: seq<Node>, nodes': seq<Node>) {
    && |nodes| == |nodes'|
    && forall i :: 0 <= i < |nodes| ==>
         && nodes'[i].used == nodes[i].used && nodes'[i].kind == nodes[i].kind
         && nodes'[i].parent == nodes[i].parent && nodes'[i].name == nodes[i].name
  }

  lemma {:induction false} ShapeKeepsChildren(nodes: seq<Node>, nodes': seq<Node>, at: nat, name: Name, from: nat)
    requires SameShape(nodes, nodes') && from <= |nodes|
    ensures FindChildFrom(nodes', at, name, from) == FindChildFrom(nodes, at, name, from)
    decreases |nodes| - from
  {
    if from < |nodes| { ShapeKeepsChildren(nodes, nodes', at, name, from + 1); }
  }

  lemma {:induction false} ShapeKeepsPaths(nodes: seq<Node>, nodes': seq<Node>, names: seq<Name>)
    requires SameShape(nodes, nodes') && nodes != []
    ensures Lookup(nodes', names) == Lookup(nodes, names)
    decreases |names|
  {
    if names != [] {
      var init := names[..|names| - 1];
      ShapeKeepsPaths(nodes, nodes', init);
      if Lookup(nodes, init).Some? {
        ShapeKeepsChildren(nodes, nodes', Lookup(nodes, init).value, names[|names| - 1], 0);
      }
    }
  }

  lemma ShapeKeepsTree(nodes: seq<Node>, nodes': seq<Node>)
    requires SameShape(nodes, nodes') && Tree(nodes)
    ensures Tree(nodes')
  {
    hide Lookup;
    forall i | 0 < i < |nodes'| && nodes'[i].used ensures EntryOk(nodes', nodes'[i]) {
      assert EntryOk(nodes, nodes[i]);
    }
    forall i | 0 <= i < |nodes'| && nodes'[i].used ensures HasPath(nodes', i) {
      assert HasPath(nodes, i);
      var q :| AllPlain(q) && Lookup(nodes, q) == Some(i);
      ShapeKeepsPaths(nodes, nodes', q);
    }
  }

  // ---------------------------------------------------------------- mkdir and creating opens

  lemma ResolvedIs(fs: Fs, path: seq<Letter>)
    requires Sound(fs)
    ensures AllPlain(NamesOf(path))
    ensures Resolved(fs.nodes, path).Some? ==>
      Lookup(fs.nodes, NamesOf(path)) == Resolved(fs.nodes, path) && fs.nodes[Resolved(fs.nodes, path).value].used
  {
    TokensArePlain(path);
    if Resolved(fs.nodes, path).Some? { LookupUsed(fs.nodes, NamesOf(path)); }
  }

  lemma CreatedAdds(fs: Fs, pid: U32, path: seq<Letter>, kind: U32, mode: U32)
    requires Sound(fs) && IsAbsolute(path) && Resolved(fs.nodes, path).None? && Created(fs, pid, path, kind, mode).Ok?
    requires kind == DIRECTORY || kind == REGULAR
    ensures var (fs', i) := Created(fs, pid, path, kind, mode).value;
      && Adds(fs.nodes, fs'.nodes, NamesOf(path), i) && fs'.slots == fs.slots && Sound(fs')
      && fs'.nodes[i] == NewNode(kind, fs'.nodes[i].parent, pid, mode, fs'.nodes[i].name)
  {
    hide Tree, Lookup;
    var (fs', i) := Created(fs, pid, path, kind, mode).value;
    PlaceOfOk(fs.nodes, path);
    AddingKeepsTree(fs.nodes, fs'.nodes, NamesOf(path), i);
    forall k | 0 <= k < |fs'.slots| ensures SlotOk(fs'.nodes, fs'.slots[k]) {
      assert SlotOk(fs.nodes, fs.slots[k]);
    }
  }

  predicate MayEnter(nodes: seq<Node>, at: Option<nat>, pid: U32) {
    at.Some? && at.value < |nodes| && nodes[at.value].kind == DIRECTORY && OwnerAllows(nodes[at.value], pid)
  }

  /** What a caller can check before a creation: the path is a proper one to a free place in an
      existing directory it may change, and a node is free. */
  ghost predicate CanCreate(fs: Fs, pid: U32, path: seq<Letter>)
    requires fs.nodes != []
  {
    var t := Tokenize(path);
    && t.names != [] && !t.overlong && Lookup(fs.nodes, t.names) == None
    && MayEnter(fs.nodes, Lookup(fs.nodes, t.names[..|t.names| - 1]), pid)
    && exists i :: 0 < i < |fs.nodes| && !fs.nodes[i].used
  }

  lemma CreatedExactly(fs: Fs, pid: U32, path: seq<Letter>, kind: U32, mode: U32)
    requires Sound(fs) && IsAbsolute(path) && Resolved(fs.nodes, path).None?
    ensures Created(fs, pid, path, kind, mode).Ok? <==> CanCreate(fs, pid, path)
  {
    hide Tree, Lookup;
    var t := Tokenize(path);
    var i := FirstFreeNode(fs.nodes, 1);
    if PlaceOf(fs.nodes, path).Ok? { PlaceOfOk(fs.nodes, path); }
    if t.names != [] && !t.overlong { PlaceOfIs(fs.nodes, path); }
  }

  /** mkdir succeeds exactly on a free place in a directory; then the path map gains that one path
      and no other node changes. When it fails nothing does. */
  lemma MkdirAddsOnePath(fs: Fs, pid: U32, path: seq<Letter>, mode: U32, q: seq<Name>)
    requires Sound(fs) && AllPlain(q)
    ensures var (fs', status) := MkdirOf(fs, pid, path, mode);
      && (status == OK <==> IsAbsolute(path) && CanCreate(fs, pid, path))
      && (status != OK ==> fs' == fs)
      && (status == OK ==> exists i: nat :: && Adds(fs.nodes, fs'.nodes, NamesOf(path), i)
                                            && fs'.nodes[i] == NewNode(DIRECTORY, fs'.nodes[i].parent, pid, mode, fs'.nodes[i].name)
                                            && Lookup(fs'.nodes, q) == if q == NamesOf(path) then Some(i) else Lookup(fs.nodes, q))
      && (status == OK ==> fs'.slots == fs.slots)
      && Sound(fs')
  {
    hide Tree, Lookup, Sound, Adds;
    SoundHasRoot(fs);
    var (fs', status) := MkdirOf(fs, pid, path, mode);
    if IsAbsolute(path) {
      if Resolved(fs.nodes, path).None? {
        CreatedExactly(fs, pid, path, DIRECTORY, mode);
        if status == OK {
          CreatedAdds(fs, pid, path, DIRECTORY, mode);
          AddedPath(fs.nodes, fs'.nodes, NamesOf(path), Created(fs, pid, path, DIRECTORY, mode).value.1, q);
        }
        if IsRoot(path) { RootHasNoNames(path); }
      }
    }
  }

  lemma SoundHasRoot(fs: Fs)
    requires Sound(fs)
    ensures InRange(fs) && fs.nodes != [] && Tree(fs.nodes) && SlotsInRange(fs)
  {
    forall k | 0 <= k < |fs.slots| && fs.slots[k].used
      ensures fs.slots[k].node < |fs.nodes| && fs.slots[k].offset <= FILE_CAPACITY
    {
      assert SlotOk(fs.nodes, fs.slots[k]);
    }
  }

  lemma RootHasNoNames(path: seq<Letter>)
    requires IsRoot(path)
    ensures Tokenize(path) == Tokens([], false)
  {
    assert SkipSlashes(path[1..]) == [];
  }

  // ---------------------------------------------------------------- open

  lemma EmptiedKeepsSound(fs: Fs, i: nat)
    requires Sound(fs) && i < |fs.nodes| && fs.nodes[i].used
    ensures Sound(fs.(nodes := fs.nodes[i := Emptied(fs.nodes[i])]))
    ensures SameShape(fs.nodes, fs.nodes[i := Emptied(fs.nodes[i])])
  {
    hide Tree;
    var nodes' := fs.nodes[i := Emptied(fs.nodes[i])];
    ShapeKeepsTree(fs.nodes, nodes');
    forall k | 0 <= k < |fs.slots| ensures SlotOk(nodes', fs.slots[k]) {
      assert SlotOk(fs.nodes, fs.slots[k]);
    }
  }

  lemma OpenedKeepsSound(fs: Fs, k: nat, slot: OpenFile)
    requires Sound(fs) && k < |fs.slots| && !fs.slots[k].used && slot.used && SlotOk(fs.nodes, slot)
    requires Has(slot.flags, WRITE) ==> !HasWriter(fs.slots, slot.node)
    ensures Sound(fs.(slots := fs.slots[k := slot]))
  {
    hide Tree;
    var slots' := fs.slots[k := slot];
    forall a, b | 0 <= a < b < |slots'| && IsWriter(slots'[a], slots'[a].node) ensures !IsWriter(slots'[b], slots'[a].node) {
      if a == k || b == k {
        var other := if a == k then fs.slots[b] else fs.slots[a];
        if Has(slot.flags, WRITE) { assert !IsWriter(other, slot.node); }
      }
    }
  }

  lemma OpenNodeKeepsSound(fs: Fs, pid: U32, i: nat, flags: U32)
    requires Sound(fs) && i < |fs.nodes| && fs.nodes[i].used
    ensures var (fs', r) := OpenNode(fs, pid, i, flags);
      && Sound(fs') && SameShape(fs.nodes, fs'.nodes)
      && (fs'.nodes == fs.nodes || fs'.nodes == fs.nodes[i := Emptied(fs.nodes[i])])
      && (r.Err? ==> fs'.slots == fs.slots)
      && (r.Ok? ==> 0 < r.value <= |fs.slots| && !fs.slots[r.value - 1].used
                    && fs'.slots == fs.slots[r.value - 1 := OpenFile(true, i, pid, flags, 0, 0)])
  {
    hide Sound, HasWriter, Has, AnyReadBit, AnyWriteBit;
    SoundHasRoot(fs);
    var (fs', r) := OpenNode(fs, pid, i, flags);
    EmptiedKeepsSound(fs, i);
    if r.Ok? {
      var cut := fs.(nodes := fs'.nodes);
      OpenSlotOk(cut, i, pid, flags);
      OpenedKeepsSound(cut, r.value - 1, OpenFile(true, i, pid, flags, 0, 0));
    }
  }

  lemma OpenSlotOk(fs: Fs, i: nat, pid: U32, flags: U32)
    requires InRange(fs) && i < |fs.nodes| && fs.nodes[i].used && (fs.nodes[i].kind == DIRECTORY ==> !Has(flags, WRITE))
    ensures SlotOk(fs.nodes, OpenFile(true, i, pid, flags, 0, 0))
  {
  }

  /** The conditions under which open gets past its checks to the truncation. */
  predicate Admitted(node: Node, flags: U32) {
    && (node.kind == REGULAR || (node.kind == DIRECTORY && !Has(flags, WRITE)))
    && (Has(flags, WRITE) ==> AnyWriteBit(node.mode)) && (Has(flags, READ) ==> AnyReadBit(node.mode))
  }

  /** The checks that follow the truncation. */
  predicate Refused(fs: Fs, pid: U32, i: nat, flags: U32)
    requires i < |fs.nodes|
  {
    || (Has(flags, WRITE) && HasWriter(fs.slots, i))
    || ((Has(flags, WRITE) || Has(flags, TRUNCATE)) && !OwnerAllows(fs.nodes[i], pid))
    || forall k :: 0 <= k < |fs.slots| ==> fs.slots[k].used
  }

  /** A failing open leaves a trace exactly in two cases: it created the file and then found no free
      slot, or it emptied a file that had contents and was refused afterwards. */
  ghost predicate LeavesTrace(fs: Fs, pid: U32, path: seq<Letter>, flags: U32)
    requires fs.nodes != []
  {
    IsAbsolute(path)
    && match Resolved(fs.nodes, path)
       case None => Has(flags, CREATE) && CanCreate(fs, pid, path) && forall k :: 0 <= k < |fs.slots| ==> fs.slots[k].used
       case Some(i) =>
         && fs.nodes[i].kind == REGULAR && fs.nodes[i].size > 0 && Has(flags, TRUNCATE)
         && Admitted(fs.nodes[i], flags) && Refused(fs, pid, i, flags)
  }

  lemma BlankStaysBlank(node: Node)
    requires NodeOk(node)
    ensures Emptied(node) == node <==> node.size == 0
  {
    if node.size == 0 { assert node.data == Zeros(FILE_CAPACITY); }
  }

  lemma OpenNodeTrace(fs: Fs, pid: U32, i: nat, flags: U32)
    requires Sound(fs) && i < |fs.nodes| && fs.nodes[i].used
    ensures var (fs', r) := OpenNode(fs, pid, i, flags);
      && (r.Err? <==> !Admitted(fs.nodes[i], flags) || Refused(fs, pid, i, flags))
      && (r.Err? ==> (fs' != fs <==> fs.nodes[i].kind == REGULAR && fs.nodes[i].size > 0 && Has(flags, TRUNCATE)
                                     && Admitted(fs.nodes[i], flags)))
  {
    hide Tree, OneWriter, Has, AnyReadBit, AnyWriteBit, HasWriter, Emptied;
    BlankStaysBlank(fs.nodes[i]);
    assert EntryOk(fs.nodes, fs.nodes[i]) || i == 0 by { EntryOf(fs, i); }
    if fs.nodes[i] != Emptied(fs.nodes[i]) {
      assert fs.nodes[i := Emptied(fs.nodes[i])][i] != fs.nodes[i];
    } else {
      assert fs.nodes[i := Emptied(fs.nodes[i])] == fs.nodes;
    }
  }

  lemma EntryOf(fs: Fs, i: nat)
    requires Sound(fs) && i < |fs.nodes| && fs.nodes[i].used
    ensures fs.nodes[i].kind == DIRECTORY || fs.nodes[i].kind == REGULAR
    ensures i == 0 || EntryOk(fs.nodes, fs.nodes[i])
  {
  }

  lemma FailedOpenLeavesTrace(fs: Fs, pid: U32, path: seq<Letter>, flags: U32)
    requires Sound(fs) && OpenOf(fs, pid, path, flags).1.Err?
    ensures OpenOf(fs, pid, path, flags).0 != fs <==> LeavesTrace(fs, pid, path, flags)
  {
    hide Sound, Admitted, Refused, Lookup, Tree, Has;
    SoundHasRoot(fs);
    ResolvedIs(fs, path);
    if IsAbsolute(path) {
      match Resolved(fs.nodes, path)
      case Some(i) => OpenNodeTrace(fs, pid, i, flags);
      case None =>
        CreatedExactly(fs, pid, path, REGULAR, 420);
        if Created(fs, pid, path, REGULAR, 420).Ok? && Has(flags, CREATE) {
          CreatedAdds(fs, pid, path, REGULAR, 420);
          NewFileOpens(fs, pid, path, flags);
        }
    }
  }

  /** A file just created is refused only for want of a slot. */
  lemma NewFileOpens(fs: Fs, pid: U32, path: seq<Letter>, flags: U32)
    requires Sound(fs) && IsAbsolute(path) && Resolved(fs.nodes, path).None? && Created(fs, pid, path, REGULAR, 420).Ok?
    ensures var (fs', i) := Created(fs, pid, path, REGULAR, 420).value;
      && fs' != fs && Sound(fs') && i < |fs'.nodes| && fs'.nodes[i].used
      && (OpenNode(fs', pid, i, flags).1.Err? <==> forall k :: 0 <= k < |fs.slots| ==> fs.slots[k].used)
      && OpenNode(fs', pid, i, flags).0.nodes == fs'.nodes
  {
    hide Tree, Lookup;
    CreatedAdds(fs, pid, path, REGULAR, 420);
    var (fs', i) := Created(fs, pid, path, REGULAR, 420).value;
    forall k | 0 <= k < |fs.slots| && fs.slots[k].used ensures fs.slots[k].node != i {
      assert SlotOk(fs.nodes, fs.slots[k]);
    }
    assert !HasWriter(fs'.slots, i);
    assert AnyReadBit(420) && AnyWriteBit(420);
    assert Emptied(fs'.nodes[i]) == fs'.nodes[i];
    assert fs'.nodes[i := fs'.nodes[i]] == fs'.nodes;
  }

  predicate TakesSlot(slots: seq<OpenFile>, slots': seq<OpenFile>, file: nat, pid: U32) {
    && 0 < file <= |slots| == |slots'| && !slots[file - 1].used
    && slots'[file - 1].used && slots'[file - 1].owner == pid && slots' == slots[file - 1 := slots'[file - 1]]
  }

  /** `nodes'` has the one path more, to the file that the open created. */
  ghost predicate GainsPath(nodes: seq<Node>, nodes': seq<Node>, names: seq<Name>, q: seq<Name>) {
    exists i: nat :: Adds(nodes, nodes', names, i) && Lookup(nodes', q) == if q == names then Some(i) else Lookup(nodes, q)
  }

  /** A successful open takes a slot that was free. It adds the one path when the file was missing, and
      otherwise leaves the path map alone. A failing one takes no slot. */
  lemma OpenEffect(fs: Fs, pid: U32, path: seq<Letter>, flags: U32, q: seq<Name>)
    requires Sound(fs) && AllPlain(q)
    ensures var (fs', r) := OpenOf(fs, pid, path, flags);
      && Sound(fs')
      && (r.Ok? && Resolved(fs.nodes, path).None? ==>
            Has(flags, CREATE) && CanCreate(fs, pid, path) && GainsPath(fs.nodes, fs'.nodes, NamesOf(path), q))
      && (Resolved(fs.nodes, path).Some? ==>
            SameShape(fs.nodes, fs'.nodes) && Lookup(fs'.nodes, q) == Lookup(fs.nodes, q))
      && (if r.Ok? then TakesSlot(fs.slots, fs'.slots, r.value, pid) else fs'.slots == fs.slots)
  {
    hide Sound, Tree, Lookup, SameShape, Adds, CanCreate;
    SoundHasRoot(fs);
    ResolvedIs(fs, path);
    if IsAbsolute(path) {
      match Resolved(fs.nodes, path)
      case Some(i) =>
        OpenNodeKeepsSound(fs, pid, i, flags);
        ShapeKeepsPaths(fs.nodes, OpenOf(fs, pid, path, flags).0.nodes, q);
      case None =>
        if Has(flags, CREATE) && Created(fs, pid, path, REGULAR, 420).Ok? {
          CreatedExactly(fs, pid, path, REGULAR, 420);
          CreatedAdds(fs, pid, path, REGULAR, 420);
          NewFileOpens(fs, pid, path, flags);
          var (fs', i) := Created(fs, pid, path, REGULAR, 420).value;
          OpenNodeKeepsSound(fs', pid, i, flags);
          assert OpenOf(fs, pid, path, flags) == OpenNode(fs', pid, i, flags);
          AddedPath(fs.nodes, fs'.nodes, NamesOf(path), i, q);
        }
    }
  }
}
