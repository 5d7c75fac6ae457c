/** What each operation of the file system answers and writes, told by the path map, the contents and the
    fields of nodes and slots alone (kernel/runtime_fs.c). */
module FsLaws {
  import opened FsModel
  import opened FsTree
  import opened FsSound
  import opened FsChange
  import opened FsRuns
  import opened FsValidate

  // ---------------------------------------------------------------- flag words

  /** Bit `k` of a word: halve it `k` times and see whether it is odd. */
  predicate Bit(flags: nat, k: nat)
    decreases k
  {
    if k == 0 then flags % 2 == 1 else Bit(flags / 2, k - 1)
  }

  function TwoTo(k: nat): (b: nat)
    ensures b > 0
  {
    if k == 0 then 1 else 2 * TwoTo(k - 1)
  }

  /** The test of a flag word by a power of two looks at that bit. */
  lemma {:induction false} HasIsBit(flags: U32, k: nat)
    requires TwoTo(k) < UINT32
    ensures Has(flags, TwoTo(k)) <==> Bit(flags, k)
  {
    if k > 0 {
      HasIsBit(flags / 2, k - 1);
      HalfThenShift(flags, TwoTo(k - 1));
    }
  }

  lemma HalfThenShift(a: nat, b: nat)
    requires b > 0
    ensures a / 2 / b == a / (2 * b)
  {
    var h, q := a / 2, a / 2 / b;
    assert h == b * q + h % b;
    assert a == 2 * b * q + (2 * (h % b) + a % 2) by { assert 2 * (b * q) == 2 * b * q; }
    QuotientIs(a, 2 * b, q, 2 * (h % b) + a % 2);
  }

  lemma QuotientIs(a: nat, n: nat, q: nat, r: nat)
    requires n > 0 && r < n && a == n * q + r
    ensures a / n == q
  {
    var d := q - a / n;
    assert a == n * (a / n) + a % n;
    assert n * d == a % n - r by { assert n * d == n * q - n * (a / n); }
    FarMultiple(n, d);
  }

  lemma FarMultiple(n: int, d: int)
    requires n > 0
    ensures d >= 1 ==> n * d >= n
    ensures d <= -1 ==> n * d <= 0 - n
  {
  }

  lemma FlagBits(flags: U32)
    ensures Has(flags, READ) <==> Bit(flags, 0)
    ensures Has(flags, WRITE) <==> Bit(flags, 1)
    ensures Has(flags, CREATE) <==> Bit(flags, 2)
    ensures Has(flags, TRUNCATE) <==> Bit(flags, 3)
  {
    hide Has, Bit;
    PowersOfTwo();
    forall k: nat | k < 4 ensures Has(flags, TwoTo(k)) <==> Bit(flags, k) { HasIsBit(flags, k); }
  }

  lemma PowersOfTwo()
    ensures TwoTo(0) == 1 && TwoTo(1) == 2 && TwoTo(2) == 4 && TwoTo(3) == 8 && TwoTo(4) == 16
    ensures TwoTo(5) == 32 && TwoTo(6) == 64 && TwoTo(7) == 128 && TwoTo(8) == 256
  {
  }

  /** A mode of octal digits lets somebody write, or read, when one of its three digits has bit 1, or bit 2. */
  lemma ModeBits(mode: U32)
    ensures AnyWriteBit(mode) <==> Bit(mode, 1) || Bit(mode, 4) || Bit(mode, 7)
    ensures AnyReadBit(mode) <==> Bit(mode, 2) || Bit(mode, 5) || Bit(mode, 8)
  {
    hide Has, Bit, TwoTo;
    PowersOfTwo();
    forall k: nat | k < 9 && TwoTo(k) < UINT32 ensures Has(mode, TwoTo(k)) <==> Bit(mode, k) { HasIsBit(mode, k); }
  }

  // ---------------------------------------------------------------- names along a path

  /** A slash between names says nothing. */
  lemma SlashIsSkipped(path: seq<Letter>)
    ensures Tokenize([SLASH] + path) == Tokenize(path) && Tokenize([]) == Tokens([], false) && SLASH == 47
  {
    assert ([SLASH] + path)[1..] == path;
  }

  /** A name of up to fifteen letters is followed by the names after it; a longer one ends the list. */
  lemma NameIsTaken(name: Name, rest: seq<Letter>)
    requires name != [] && 47 !in name && (rest == [] || rest[0] == 47)
    ensures Tokenize(name + rest) == if |name| < 16 then Tokens([name] + Tokenize(rest).names, Tokenize(rest).overlong)
                                     else Tokens([], true)
  {
    var path := name + rest;
    assert path[0] == name[0];
    assert SkipSlashes(path) == path;
    NameLengthOf(name, rest);
    assert path[..|name|] == name && path[|name|..] == rest;
  }

  // ---------------------------------------------------------------- who may do what

  /** The owner of a node may change it, and so may the kernel; anybody may change what nobody owns. */
  predicate May(node: Node, pid: U32) {
    pid in {0, node.owner} || node.owner == 0
  }

  /** Somebody has the node open, or open for writing. */
  ghost predicate InUse(fs: Fs, i: nat, writing: bool) {
    exists k :: 0 <= k < |fs.slots| && fs.slots[k].used && fs.slots[k].node == i && (writing ==> Bit(fs.slots[k].flags, 1))
  }

  lemma InUseIs(fs: Fs, i: nat)
    ensures IsOpen(fs.slots, i) <==> InUse(fs, i, false)
    ensures HasWriter(fs.slots, i) <==> InUse(fs, i, true)
  {
    forall k | 0 <= k < |fs.slots| ensures Has(fs.slots[k].flags, WRITE) <==> Bit(fs.slots[k].flags, 1) { FlagBits(fs.slots[k].flags); }
  }

  /** The node is the parent of another one. */
  ghost predicate HasEntry(fs: Fs, i: nat) {
    exists j :: 0 < j < |fs.nodes| && fs.nodes[j].used && fs.nodes[j].parent == i
  }

  lemma HasEntryIs(fs: Fs, names: seq<Name>, i: nat)
    requires Sound(fs) && AllPlain(names) && names != [] && Lookup(fs.nodes, names) == Some(i)
    ensures HasChildren(fs.nodes, i) <==> HasEntry(fs, i)
  {
    hide Lookup;
    LookupLast(fs.nodes, names);
    if j :| 0 < j < |fs.nodes| && fs.nodes[j].used && fs.nodes[j].parent == i {
      OwnParent(fs.nodes, names, i);
    }
  }

  /** No node but the root is its own parent. */
  lemma OwnParent(nodes: seq<Node>, names: seq<Name>, i: nat)
    requires Tree(nodes) && AllPlain(names) && names != [] && Lookup(nodes, names) == Some(i)
    ensures nodes[i].parent != i
  {
    hide Lookup;
    LookupLast(nodes, names);
    if nodes[i].parent == i { PathIsUnique(nodes, names, names[..|names| - 1]); }
  }

  /** The node that an absolute path leads to. */
  ghost function At(fs: Fs, path: seq<Letter>): Option<nat>
    requires fs.nodes != []
  {
    if path == [] || path[0] != 47 || Tokenize(path).overlong then None else Lookup(fs.nodes, NamesOf(path))
  }

  lemma AtIs(fs: Fs, path: seq<Letter>)
    requires fs.nodes != []
    ensures Resolved(fs.nodes, path) == At(fs, path)
    ensures (IsAbsolute(path) <==> path != [] && path[0] == 47) && (IsRoot(path) <==> path == [47])
  {
  }

  // ---------------------------------------------------------------- creation

  /** The answer of a creation: EINVAL without a name, ENOTDIR behind a file, ENOENT in a directory that is not
      there, EINVAL for a name that is too long, EACCES in a directory of somebody else, ENOSPC without a node. */
  ghost function CreationAnswer(fs: Fs, pid: U32, path: seq<Letter>): Status
    requires fs.nodes != []
  {
    var t := Tokenize(path);
    if t.names == [] then EINVAL
    else
      var at := Lookup(fs.nodes, t.names[..|t.names| - 1]);
      if at.None? || fs.nodes[at.value].kind != 2 then (if MeetsFile(fs.nodes, t.names) then ENOTDIR else ENOENT)
      else if t.overlong then EINVAL
      else if !May(fs.nodes[at.value], pid) then EACCES
      else if forall i :: 0 < i < |fs.nodes| ==> fs.nodes[i].used then ENOSPC
      else OK
  }

  /** The first node that is free now holds the entry: no contents, the caller its owner. */
  ghost predicate AddsEntry(fs: Fs, nodes': seq<Node>, i: nat, pid: U32, path: seq<Letter>, kind: U32, mode: U32)
    requires fs.nodes != []
  {
    var names := NamesOf(path);
    && 0 < i < |fs.nodes| <= UINT32 && !fs.nodes[i].used && (forall j :: 0 < j < i ==> fs.nodes[j].used) && names != []
    && Lookup(fs.nodes, names[..|names| - 1]).Some?
    && nodes' == fs.nodes[i := Node(true, kind, Lookup(fs.nodes, names[..|names| - 1]).value, pid, mode, 0, names[|names| - 1],
                                    seq(256, _ => 0))]
  }

  lemma CreationAnswers(fs: Fs, pid: U32, path: seq<Letter>, kind: U32, mode: U32)
    requires Sound(fs) && path != [] && path[0] == 47 && path != [47]
    ensures var r := Created(fs, pid, path, kind, mode);
      && (if r.Ok? then CreationAnswer(fs, pid, path) == OK else r.error == CreationAnswer(fs, pid, path) != OK)
      && (r.Ok? ==> r.value.0 == fs.(nodes := r.value.0.nodes) && AddsEntry(fs, r.value.0.nodes, r.value.1, pid, path, kind, mode))
  {
    hide Tree, Lookup, MeetsFile, Plain;
    var t := Tokenize(path);
    TokensArePlain(path);
    if t.names != [] {
      SoundHasRoot(fs);
      PlaceAnswers(fs.nodes, path);
    }
    var i := FirstFreeNode(fs.nodes, 1);
    assert Zeros(FILE_CAPACITY) == seq(256, _ => 0);
  }

  /** Where an entry of the path would go, or the error, in both cases of a last name: short enough or not. */
  lemma PlaceAnswers(nodes: seq<Node>, path: seq<Letter>)
    requires Tree(nodes) && IsAbsolute(path) && !IsRoot(path) && NamesOf(path) != []
    ensures var names, r := NamesOf(path), PlaceOf(nodes, path);
      var at := Lookup(nodes, names[..|names| - 1]);
      if at.None? || nodes[at.value].kind != DIRECTORY then r == Err(if MeetsFile(nodes, names) then ENOTDIR else ENOENT)
      else if Tokenize(path).overlong then r == Err(EINVAL)
      else r == Ok(Place(at.value, names[|names| - 1]))
  {
    hide Tree, MeetsFile, Lookup;
    TokensArePlain(path);
    RootIsDirectory(nodes);
    PlaceFromIs(nodes, [], 0, Tokens(NamesOf(path), false));
    assert [] + NamesOf(path) == NamesOf(path);
    if Tokenize(path).overlong { OverlongFails(nodes, 0, NamesOf(path)); }
  }

  lemma RootIsDirectory(nodes: seq<Node>)
    requires Tree(nodes)
    ensures Lookup(nodes, []) == Some(0) && nodes[0].kind == DIRECTORY
  {
  }

  /** With a name too long behind them, the names fail as they did, and EINVAL is the answer where they did not. */
  lemma {:induction false} OverlongFails(nodes: seq<Node>, at: nat, names: seq<Name>)
    requires at < |nodes| && names != []
    ensures var r := PlaceFrom(nodes, at, Tokens(names, false));
      PlaceFrom(nodes, at, Tokens(names, true)) == if r.Ok? then Err(EINVAL) else r
    decreases |names|
  {
    if |names| > 1 {
      match FindChild(nodes, at, names[0])
      case None =>
      case Some(child) => OverlongFails(nodes, child, names[1..]);
    }
  }

  /** mkdir: EINVAL for a relative path and for "/", EEXIST where something is, and otherwise as a creation. */
  lemma MkdirAnswers(fs: Fs, pid: U32, path: seq<Letter>, mode: U32)
    requires Sound(fs)
    ensures InRange(fs)
    ensures var (fs', status) := MkdirOf(fs, pid, path, mode);
      && status == (if path == [] || path[0] != 47 || path == [47] then EINVAL
                    else if At(fs, path).Some? then EEXIST
                    else CreationAnswer(fs, pid, path))
      && (if status == OK then fs' == fs.(nodes := fs'.nodes) && exists i: nat :: AddsEntry(fs, fs'.nodes, i, pid, path, 2, mode)
          else fs' == fs)
  {
    hide Tree, CreationAnswer, Created, AddsEntry, At;
    SoundHasRoot(fs);
    AtIs(fs, path);
    if IsAbsolute(path) && !IsRoot(path) { CreationAnswers(fs, pid, path, DIRECTORY, mode); }
  }

  // ---------------------------------------------------------------- open

  /** Before anything is changed: EISDIR for a directory that is to be written, EBADF for a mode that does not
      let anybody write, or read. */
  ghost function EntryCheck(node: Node, flags: U32): Status {
    if node.kind == 2 && Bit(flags, 1) then EISDIR
    else if Bit(flags, 1) && !Bit(node.mode, 1) && !Bit(node.mode, 4) && !Bit(node.mode, 7) then EBADF
    else if Bit(flags, 0) && !Bit(node.mode, 2) && !Bit(node.mode, 5) && !Bit(node.mode, 8) then EBADF
    else OK
  }

  /** Afterwards, when a file that is to be truncated is empty already: EBUSY beside another writer, EACCES for
      the file of somebody else, ENOSPC without a slot. */
  ghost function SlotCheck(fs: Fs, pid: U32, i: nat, flags: U32): Status
    requires i < |fs.nodes|
  {
    if Bit(flags, 1) && InUse(fs, i, true) then EBUSY
    else if (Bit(flags, 1) || Bit(flags, 3)) && !May(fs.nodes[i], pid) then EACCES
    else if forall k :: 0 <= k < |fs.slots| ==> fs.slots[k].used then ENOSPC
    else OK
  }

  /** The outcome of an open on a node that is there. */
  ghost predicate OpensNode(fs: Fs, pid: U32, i: nat, flags: U32, fs': Fs, r: Result<nat>)
    requires i < |fs.nodes| && InRange(fs)
  {
    var node, check, refusal := fs.nodes[i], EntryCheck(fs.nodes[i], flags), SlotCheck(fs, pid, i, flags);
    && fs'.nodes == (if check == OK && Bit(flags, 3) && node.kind == 1 then fs.nodes[i := node.(size := 0, data := seq(256, _ => 0))]
                     else fs.nodes)
    && if check != OK then r == Err(check) && fs'.slots == fs.slots
       else if refusal != OK then r == Err(refusal) && fs'.slots == fs.slots
       else r.Ok? && 0 < r.value <= |fs.slots| && !fs.slots[r.value - 1].used && (forall k :: 0 <= k < r.value - 1 ==> fs.slots[k].used)
            && fs'.slots == fs.slots[r.value - 1 := OpenFile(true, i, pid, flags, 0, 0)]
  }

  lemma OpenNodeAnswers(fs: Fs, pid: U32, i: nat, flags: U32)
    requires Sound(fs) && i < |fs.nodes| && fs.nodes[i].used
    ensures var (fs', r) := OpenNode(fs, pid, i, flags); OpensNode(fs, pid, i, flags, fs', r)
  {
    hide Tree, Has, Bit, AnyWriteBit, AnyReadBit, IsOpen, HasWriter, InUse, NodeOk, SlotOk;
    EntryOf(fs, i);
    FlagBits(flags);
    ModeBits(fs.nodes[i].mode);
    InUseIs(fs, i);
    assert Zeros(FILE_CAPACITY) == seq(256, _ => 0);
  }

  /** In `mid` the file has been created, with mode 0644; then it is opened. */
  ghost predicate OpensNew(fs: Fs, pid: U32, path: seq<Letter>, flags: U32, mid: Fs, i: nat, fs': Fs, r: Result<nat>)
    requires InRange(fs)
  {
    && AddsEntry(fs, mid.nodes, i, pid, path, 1, 6 * 64 + 4 * 8 + 4) && mid == fs.(nodes := mid.nodes)
    && OpensNode(mid, pid, i, flags, fs', r)
  }

  /** open: EINVAL for a relative path. What is there is opened; what is not is an ENOENT, or is created first,
      as a regular file that its owner may read and write and others may read. */
  lemma OpenAnswers(fs: Fs, pid: U32, path: seq<Letter>, flags: U32)
    requires Sound(fs)
    ensures InRange(fs)
    ensures var (fs', r) := OpenOf(fs, pid, path, flags);
      if path == [] || path[0] != 47 then fs' == fs && r == Err(EINVAL)
      else if At(fs, path).Some? then At(fs, path).value < |fs.nodes| && OpensNode(fs, pid, At(fs, path).value, flags, fs', r)
      else if !Bit(flags, 2) then fs' == fs && r == Err(ENOENT)
      else if CreationAnswer(fs, pid, path) != OK then fs' == fs && r == Err(CreationAnswer(fs, pid, path))
      else exists mid: Fs, i: nat :: OpensNew(fs, pid, path, flags, mid, i, fs', r)
  {
    hide Tree, CreationAnswer, Created, AddsEntry, At, OpensNode, OpenNode, Bit, Has, NodeOk, SlotOk, Lookup;
    SoundHasRoot(fs);
    AtIs(fs, path);
    FlagBits(flags);
    if IsAbsolute(path) {
      ResolvedIs(fs, path);
      if Resolved(fs.nodes, path).Some? {
        OpenNodeAnswers(fs, pid, Resolved(fs.nodes, path).value, flags);
      } else {
        NotTheRoot(fs, path);
        CreationAnswers(fs, pid, path, REGULAR, 420);
        if Created(fs, pid, path, REGULAR, 420).Ok? {
          CreatedAdds(fs, pid, path, REGULAR, 420);
          var (mid, i) := Created(fs, pid, path, REGULAR, 420).value;
          OpenNodeAnswers(mid, pid, i, flags);
          var (fs', r) := OpenOf(fs, pid, path, flags);
          assert Has(flags, CREATE) ==> OpensNew(fs, pid, path, flags, mid, i, fs', r);
        }
      }
    }
  }

  lemma NotTheRoot(fs: Fs, path: seq<Letter>)
    requires fs.nodes != [] && Resolved(fs.nodes, path).None?
    ensures !IsRoot(path)
  {
    if IsRoot(path) {
      RootHasNoNames(path);
    }
  }

  // ---------------------------------------------------------------- remove and rename

  /** Who changes an entry must be allowed to change it and the directory it is in. */
  ghost predicate MayMove(fs: Fs, pid: U32, i: nat)
    requires i < |fs.nodes|
  {
    May(fs.nodes[i], pid) && fs.nodes[i].parent < |fs.nodes| && May(fs.nodes[fs.nodes[i].parent], pid)
  }

  /** remove of a path with a name: EINVAL for a relative one, ENOENT where nothing is, EACCES, EBUSY for what is
      open, ENOTEMPTY for what has entries; otherwise the node is blank. */
  lemma RemoveAnswers(fs: Fs, pid: U32, path: seq<Letter>)
    requires Sound(fs) && !SlashesOnly(path)
    ensures InRange(fs)
    ensures var (fs', status), at := RemoveOf(fs, pid, path), At(fs, path);
      && status == (if path == [] || path[0] != 47 then EINVAL
                    else if path == [47] then EBUSY
                    else if at.None? then ENOENT
                    else if !MayMove(fs, pid, at.value) then EACCES
                    else if InUse(fs, at.value, false) then EBUSY
                    else if HasEntry(fs, at.value) then ENOTEMPTY
                    else OK)
      && fs' == if status == OK then fs.(nodes := fs.nodes[at.value := Node(false, 0, 0, 0, 0, 0, [], seq(256, _ => 0))]) else fs
  {
    hide Tree, Lookup, HasChildren, HasEntry, IsOpen, InUse, HasWriter, NodeOk, SlotOk;
    SoundHasRoot(fs);
    AtIs(fs, path);
    if Resolved(fs.nodes, path).Some? && !IsRoot(path) {
      var i := Resolved(fs.nodes, path).value;
      ResolvedIs(fs, path);
      InUseIs(fs, i);
      assert NamesOf(path) != [];
      HasEntryIs(fs, NamesOf(path), i);
      if fs.nodes[i].kind != DIRECTORY { FilesHaveNoChildren(fs, i); }
    }
    assert Zeros(FILE_CAPACITY) == seq(256, _ => 0);
  }

  /** The answer of a rename: EINVAL for a relative path, OK for one path twice, EBUSY for "/", ENOENT where
      nothing is, EEXIST where something is already, the errors of a missing place, EACCES, and EINVAL for a
      move into itself. */
  ghost function RenameAnswer(fs: Fs, pid: U32, from: seq<Letter>, to: seq<Letter>): Status
    requires fs.nodes != []
  {
    var b := Tokenize(to);
    if from == [] || to == [] || from[0] != 47 || to[0] != 47 then EINVAL
    else if from == to then OK
    else if from == [47] || to == [47] then EBUSY
    else if At(fs, from).None? then ENOENT
    else if At(fs, to).Some? then EEXIST
    else if b.names == [] then EINVAL
    else if !IsDirectory(fs, b.names[..|b.names| - 1]) then (if MeetsFile(fs.nodes, b.names) then ENOTDIR else ENOENT)
    else if b.overlong then EINVAL
    else if !MayMove(fs, pid, At(fs, from).value) || !MayEnterAt(fs, pid, b.names[..|b.names| - 1]) then EACCES
    else if NamesOf(from) <= b.names then EINVAL
    else OK
  }

  ghost predicate IsDirectory(fs: Fs, names: seq<Name>)
    requires fs.nodes != []
  {
    Lookup(fs.nodes, names).Some? && fs.nodes[Lookup(fs.nodes, names).value].kind == 2
  }

  ghost predicate MayEnterAt(fs: Fs, pid: U32, names: seq<Name>)
    requires fs.nodes != []
  {
    Lookup(fs.nodes, names).Some? && May(fs.nodes[Lookup(fs.nodes, names).value], pid)
  }

  /** The node has the new parent and the new name, and nothing else changes. */
  ghost predicate Hangs(fs: Fs, fs': Fs, from: seq<Name>, to: seq<Name>)
    requires fs.nodes != []
  {
    && to != [] && Lookup(fs.nodes, from).Some? && Lookup(fs.nodes, to[..|to| - 1]).Some?
    && var i, parent := Lookup(fs.nodes, from).value, Lookup(fs.nodes, to[..|to| - 1]).value;
    && parent < UINT32 && fs' == fs.(nodes := fs.nodes[i := fs.nodes[i].(parent := parent, name := to[|to| - 1])])
  }

  lemma RenameAnswers(fs: Fs, pid: U32, from: seq<Letter>, to: seq<Letter>)
    requires Sound(fs) && !SlashesOnly(from)
    ensures InRange(fs)
    ensures var (fs', status) := RenameOf(fs, pid, from, to);
      && status == RenameAnswer(fs, pid, from, to)
      && if status == OK && from != to then Hangs(fs, fs', NamesOf(from), NamesOf(to)) else fs' == fs
  {
    hide Tree, Lookup, OnChain, MeetsFile, NodeOk, SlotOk, Within;
    SoundHasRoot(fs);
    AtIs(fs, from);
    AtIs(fs, to);
    TokensArePlain(from);
    TokensArePlain(to);
    var b := Tokenize(to);
    if IsAbsolute(from) && IsAbsolute(to) && from != to && !IsRoot(from) && !IsRoot(to) && At(fs, from).Some? && At(fs, to).None? {
      if b.names != [] {
        PlaceAnswers(fs.nodes, to);
        var place := Lookup(fs.nodes, b.names[..|b.names| - 1]);
        if !b.overlong && place.Some? && fs.nodes[place.value].kind == DIRECTORY {
          CycleCheckIsExact(fs, NamesOf(from), b.names, At(fs, from).value);
          WithinIsPrefix(b.names, NamesOf(from));
        }
      }
    }
  }

  lemma WithinIsPrefix(names: seq<Name>, prefix: seq<Name>)
    ensures Within(names, prefix) <==> prefix <= names
  {
  }

  // ---------------------------------------------------------------- open files

  /** EBADF for what is not an open file with bit `mode` set, EISDIR for a directory. */
  ghost function FileCheck(fs: Fs, file: nat, mode: Option<nat>): Status {
    if file == 0 || file > |fs.slots| || !fs.slots[file - 1].used then EBADF
    else if mode.Some? && !Bit(fs.slots[file - 1].flags, mode.value) then EBADF
    else if fs.slots[file - 1].node < |fs.nodes| && fs.nodes[fs.slots[file - 1].node].kind == 1 then OK
    else EISDIR
  }

  lemma FileCheckIs(fs: Fs, file: nat)
    requires Sound(fs) && SlotsInRange(fs) && IsOpenFile(fs, file)
    ensures fs.slots[file - 1].node < |fs.nodes|
    ensures RegularOf(fs, file) == if FileCheck(fs, file, None) == OK then Ok(fs.slots[file - 1].node) else Err(EISDIR)
    ensures FileCheck(fs, file, None) == OK ==> FileOf(fs, file, fs.slots[file - 1].node)
  {
    hide Tree;
    FileOfOpen(fs, file);
    EntryOf(fs, fs.slots[file - 1].node);
  }

  /** The contents behind an open file, and where it stands in them. */
  ghost function Bytes(fs: Fs, file: nat): seq<Byte>
    requires FileCheck(fs, file, None) == OK && NodeOk(fs.nodes[fs.slots[file - 1].node])
  {
    var node := fs.nodes[fs.slots[file - 1].node];
    node.data[..node.size]
  }

  ghost predicate IsFile(fs: Fs, file: nat) {
    FileCheck(fs, file, None) == OK && NodeOk(fs.nodes[fs.slots[file - 1].node])
  }

  /** Only the offset of that one open file has changed. */
  ghost predicate Stands(fs: Fs, fs': Fs, file: nat, offset: nat) {
    && 0 < file <= |fs.slots| && offset < UINT32
    && fs' == fs.(slots := fs.slots[file - 1 := fs.slots[file - 1].(offset := offset)])
  }

  /** read yields the bytes from the offset on, as many as asked for and as there are. */
  lemma ReadAnswers(fs: Fs, file: nat, size: U32)
    requires Sound(fs) && SlotsInRange(fs)
    ensures var (fs', r) := ReadOf(fs, file, size);
      if FileCheck(fs, file, Some(0)) != OK then fs' == fs && r == Err(FileCheck(fs, file, Some(0)))
      else
        && IsFile(fs, file)
        && var c, o := Bytes(fs, file), fs.slots[file - 1].offset;
        && r.Ok?
        && (if o >= |c| then r.value == []
            else if o + size <= |c| then r.value == c[o..o + size]
            else r.value == c[o..])
        && Stands(fs, fs', file, o + |r.value|)
  {
    hide Tree, Has, Bit, OneWriter;
    if IsOpenFile(fs, file) {
      FileCheckIs(fs, file);
      FlagBits(fs.slots[file - 1].flags);
      if FileCheck(fs, file, Some(0)) == OK {
        var node, offset := fs.nodes[fs.slots[file - 1].node], fs.slots[file - 1].offset;
        var count := |ReadOf(fs, file, size).1.value|;
        if offset < node.size { SliceOfPrefix(node.data, node.size, offset, offset + count); }
        else { assert fs.slots[file - 1 := fs.slots[file - 1]] == fs.slots; }
      }
    }
  }

  /** What stands at each place of a file after a write: the buffer where it was laid, the old bytes elsewhere,
      and zeros in between when it was laid past the end. */
  lemma OverlaidAt(c: seq<Byte>, offset: nat, buffer: seq<Byte>)
    ensures var d := Overlaid(c, offset, buffer);
      && |d| == (if offset + |buffer| > |c| then offset + |buffer| else |c|)
      && forall k :: 0 <= k < |d| ==>
           d[k] == if offset <= k < offset + |buffer| then buffer[k - offset] else if k < |c| then c[k] else 0
  {
  }

  /** write lays the buffer over the bytes at the offset and moves the offset behind it, or fails: ENOSPC for an
      end past the capacity. */
  lemma WriteAnswers(fs: Fs, file: nat, buffer: seq<Byte>)
    requires Sound(fs) && SlotsInRange(fs)
    ensures var (fs', r) := WriteOf(fs, file, buffer);
      if FileCheck(fs, file, Some(1)) != OK then fs' == fs && r == Err(FileCheck(fs, file, Some(1)))
      else
        && IsFile(fs, file)
        && var c, o, i := Bytes(fs, file), fs.slots[file - 1].offset, fs.slots[file - 1].node;
        && (if o + |buffer| > 256 then fs' == fs && r == Err(ENOSPC)
            else
              && r == Ok(|buffer|) && IsFile(fs', file) && Bytes(fs', file) == Overlaid(c, o, buffer)
              && Stands(fs.(nodes := fs'.nodes), fs', file, o + |buffer|)
              && |fs'.nodes| == |fs.nodes|
              && fs'.nodes == fs.nodes[i := fs.nodes[i].(size := fs'.nodes[i].size, data := fs'.nodes[i].data)])
  {
    hide Tree, Has, Bit, OneWriter, Overlaid, NodeOk;
    if IsOpenFile(fs, file) {
      FileCheckIs(fs, file);
      FlagBits(fs.slots[file - 1].flags);
      if FileCheck(fs, file, Some(1)) == OK && WriteOf(fs, file, buffer).1.Ok? {
        WriteOverlays(fs.nodes[fs.slots[file - 1].node], fs.slots[file - 1].offset, buffer);
      }
    }
  }

  /** seek goes to the displacement from the start, from the offset or from the end, for whence 0, 1 and 2; it
      answers EINVAL for any other, and for a place outside the capacity. Only the offset changes. */
  lemma SeekAnswers(fs: Fs, file: nat, displacement: int, whence: U32)
    requires Sound(fs) && SlotsInRange(fs)
    ensures var (fs', r) := SeekOf(fs, file, displacement, whence);
      if FileCheck(fs, file, None) != OK then fs' == fs && r == Err(FileCheck(fs, file, None))
      else
        && IsFile(fs, file)
        && var to := match whence
                     case 0 => displacement
                     case 1 => fs.slots[file - 1].offset + displacement
                     case _ => |Bytes(fs, file)| + displacement;
        && (if whence in {0, 1, 2} && 0 <= to <= 256 then r == Ok(to) && Stands(fs, fs', file, to)
            else fs' == fs && r == Err(EINVAL))
  {
    hide Tree, OneWriter;
    if IsOpenFile(fs, file) { FileCheckIs(fs, file); }
  }

  /** After a seek to `n` bytes before the end, a read of `n` yields the last `n` bytes. */
  lemma SeekThenReadsTail(fs: Fs, file: nat, n: nat)
    requires Sound(fs) && SlotsInRange(fs) && FileCheck(fs, file, Some(0)) == OK && IsFile(fs, file) && n <= |Bytes(fs, file)|
    ensures var (fs', r) := SeekOf(fs, file, 0 - n, 2);
      && r == Ok(|Bytes(fs, file)| - n) && Sound(fs') && SlotsInRange(fs')
      && n < UINT32 && ReadOf(fs', file, n).1 == Ok(Bytes(fs, file)[|Bytes(fs, file)| - n..])
  {
    hide Tree, OneWriter, SeekOf, ReadOf, Bit, Sound;
    SoundHasRoot(fs);
    SeekAnswers(fs, file, 0 - n, 2);
    SeekMovesOffset(fs, file, 0 - n, 2);
    var fs' := SeekOf(fs, file, 0 - n, 2).0;
    SoundHasRoot(fs');
    ReadAnswers(fs', file, n);
    var c := Bytes(fs, file);
    assert Bytes(fs', file) == c && c[|c| - n..|c|] == c[|c| - n..];
  }

  /** close blanks the slot of an open file, and answers EBADF for anything else. */
  lemma CloseAnswers(fs: Fs, file: nat)
    ensures var (fs', status) := CloseOf(fs, file);
      if file == 0 || file > |fs.slots| || !fs.slots[file - 1].used then fs' == fs && status == EBADF
      else status == OK && fs' == fs.(slots := fs.slots[file - 1 := OpenFile(false, 0, 0, 0, 0, 0)])
  {
  }

  /** A fresh file system: the root alone, with mode 0755, and no open file. */
  lemma FreshFs(nodeCount: nat, slotCount: nat)
    requires nodeCount > 0
    ensures var fs := InitialFs(nodeCount, slotCount);
      && |fs.nodes| == nodeCount && |fs.slots| == slotCount
      && fs.nodes[0] == Node(true, 2, 0, 0, 7 * 64 + 5 * 8 + 5, 0, [47], seq(256, _ => 0))
      && (forall i :: 0 < i < nodeCount ==> fs.nodes[i] == Node(false, 0, 0, 0, 0, 0, [], seq(256, _ => 0)))
      && forall k :: 0 <= k < slotCount ==> fs.slots[k] == OpenFile(false, 0, 0, 0, 0, 0)
  {
    assert Zeros(FILE_CAPACITY) == seq(256, _ => 0);
  }

  // ---------------------------------------------------------------- the validator

  /** The fault of a node: EINVAL for one that is no file or directory, has no name, hangs from something that is
      not a directory in use, is too large, or is not below the root; EEXIST for the name of a later node. */
  ghost function NodeFault(nodes: seq<Node>, i: nat): Status
    requires i < |nodes|
  {
    var node := nodes[i];
    if !node.used then OK
    else if node.kind !in {1, 2} || node.name == [] || node.size > 256 then EINVAL
    else if node.parent >= |nodes| || !nodes[node.parent].used || nodes[node.parent].kind != 2 then EINVAL
    else if !exists k: nat :: Up(nodes, i, k) == 0 && UsedAbove(nodes, i, k) then EINVAL
    else if exists j :: i < j < |nodes| && nodes[j].used && nodes[j].parent == node.parent && nodes[j].name == node.name then EEXIST
    else OK
  }

  /** The fault of an open slot: EBADF without its node, EINVAL past the capacity of a file, EISDIR for a directory
      that is open for writing. */
  ghost function SlotFault(nodes: seq<Node>, slot: OpenFile): Status {
    if !slot.used then OK
    else if slot.node >= |nodes| || !nodes[slot.node].used then EBADF
    else if nodes[slot.node].kind == 1 && slot.offset > 256 then EINVAL
    else if nodes[slot.node].kind == 2 && Bit(slot.flags, 1) then EISDIR
    else OK
  }

  lemma NodeFaultIs(nodes: seq<Node>, i: nat)
    requires i < |nodes|
    ensures NodeStatus(nodes, i) == NodeFault(nodes, i)
  {
    hide ChainOk, UsedAbove, Up;
    if nodes[i].used { ChainOkExactly(nodes, i); }
    forall j | i < j < |nodes|
      ensures Twin(nodes, i, j) <==> nodes[j].used && nodes[j].parent == nodes[i].parent && nodes[j].name == nodes[i].name {}
  }

  lemma SlotFaultIs(nodes: seq<Node>, slot: OpenFile)
    ensures SlotStatus(nodes, slot) == SlotFault(nodes, slot)
  {
    FlagBits(slot.flags);
  }

  /** The validator answers EINVAL for a root that is not one, then the fault of the first node that has one,
      then that of the first slot. */
  lemma ValidatorAnswers(fs: Fs, i: nat, k: nat)
    requires fs.nodes != [] && 1 <= i <= |fs.nodes| && k <= |fs.slots|
    requires forall j :: 1 <= j < i ==> NodeFault(fs.nodes, j) == OK
    requires i < |fs.nodes| ==> NodeFault(fs.nodes, i) != OK
    requires forall j :: 0 <= j < k ==> SlotFault(fs.nodes, fs.slots[j]) == OK
    requires k < |fs.slots| ==> SlotFault(fs.nodes, fs.slots[k]) != OK
    ensures var root := fs.nodes[0];
      Validated(fs) == if !root.used || root.kind != 2 || root.parent != 0 || root.name != [47] then EINVAL
                       else if i < |fs.nodes| then NodeFault(fs.nodes, i)
                       else if k < |fs.slots| then SlotFault(fs.nodes, fs.slots[k])
                       else OK
  {
    hide NodeFault, NodeStatus, SlotFault, SlotStatus;
    FirstNodeFault(fs.nodes, 1, i);
    FirstSlotFault(fs.nodes, fs.slots, 0, k);
  }

  lemma {:induction false} FirstNodeFault(nodes: seq<Node>, from: nat, i: nat)
    requires from <= i <= |nodes| && (forall j :: from <= j < i ==> NodeFault(nodes, j) == OK)
    requires i < |nodes| ==> NodeFault(nodes, i) != OK
    ensures NodesStatus(nodes, from) == if i < |nodes| then NodeFault(nodes, i) else OK
    decreases i - from
  {
    hide NodeFault, NodeStatus;
    if from < |nodes| { NodeFaultIs(nodes, from); }
    if from < i { FirstNodeFault(nodes, from + 1, i); }
  }

  lemma {:induction false} FirstSlotFault(nodes: seq<Node>, slots: seq<OpenFile>, from: nat, k: nat)
    requires from <= k <= |slots| && (forall j :: from <= j < k ==> SlotFault(nodes, slots[j]) == OK)
    requires k < |slots| ==> SlotFault(nodes, slots[k]) != OK
    ensures SlotsStatus(nodes, slots, from) == if k < |slots| then SlotFault(nodes, slots[k]) else OK
    decreases k - from
  {
    hide SlotFault, SlotStatus;
    if from < |slots| { SlotFaultIs(nodes, slots[from]); }
    if from < k { FirstSlotFault(nodes, slots, from + 1, k); }
  }
}
