/** The in-memory file system (kernel/runtime_fs.c) as functions on a table of nodes and a table of
    open-file slots. Paths and names are C strings without their terminating NUL. */
module FsModel {
  const UINT32: nat := 0x1_0000_0000
  const NAME_CAPACITY: nat := 16
  const FILE_CAPACITY: nat := 256

  type U32 = x: int | 0 <= x < UINT32
  type Byte = x: int | 0 <= x < 256
  /** A character of a C string: any byte but NUL. */
  type Letter = x: int | 0 < x < 256 witness 1
  type Name = seq<Letter>

  const SLASH: Letter := 47
  const ROOT_NAME: Name := [SLASH]

  const UNKNOWN: U32 := 0
  const REGULAR: U32 := 1
  const DIRECTORY: U32 := 2

  const READ: U32 := 1
  const WRITE: U32 := 2
  const CREATE: U32 := 4
  const TRUNCATE: U32 := 8

  datatype Option<T> = None | Some(value: T)
  datatype Status = OK | ENOENT | EBADF | EACCES | EEXIST | EBUSY | ENOTDIR | EISDIR | EINVAL | ENOSPC | ENOTEMPTY | ENOTSUP | ENOMEM | ESRCH
  datatype Result<T> = Ok(value: T) | Err(error: Status)

  /** struct runtime_fs_node. */
  datatype Node = Node(used: bool, kind: U32, parent: U32, owner: U32, mode: U32, size: U32, name: Name, data: seq<Byte>)

  /** struct runtime_fs_open_file. */
  datatype OpenFile = OpenFile(used: bool, node: U32, owner: U32, flags: U32, offset: U32, cursor: U32)

  /** struct runtime_fs. */
  datatype Fs = Fs(nodes: seq<Node>, slots: seq<OpenFile>)

  function Zeros(n: nat): (s: seq<Byte>)
    ensures |s| == n && forall i :: 0 <= i < n ==> s[i] == 0
  {
    seq(n, _ => 0)
  }

  function FreeNode(): Node {
    Node(false, UNKNOWN, 0, 0, 0, 0, [], Zeros(FILE_CAPACITY))
  }

  function FreeSlot(): OpenFile {
    OpenFile(false, 0, 0, 0, 0, 0)
  }

  /** Whether a flag word has the bit of value `bit`. */
  predicate Has(flags: U32, bit: U32)
    requires bit != 0
  {
    flags / bit % 2 == 1
  }

  /** mode & 0222 and mode & 0444. */
  predicate AnyWriteBit(mode: U32) { Has(mode, 2) || Has(mode, 16) || Has(mode, 128) }

  predicate AnyReadBit(mode: U32) { Has(mode, 4) || Has(mode, 32) || Has(mode, 256) }

  // ---------------------------------------------------------------- paths

  function SkipSlashes(path: seq<Letter>): (rest: seq<Letter>)
    ensures |rest| <= |path| && (rest != [] ==> rest[0] != SLASH)
  {
    if path != [] && path[0] == SLASH then SkipSlashes(path[1..]) else path
  }

  /** How many letters precede the first slash. */
  function NameLength(path: seq<Letter>): (n: nat)
    ensures n <= |path| && SLASH !in path[..n] && (n < |path| ==> path[n] == SLASH)
    ensures path != [] && path[0] != SLASH ==> n > 0
  {
    if path == [] || path[0] == SLASH then 0 else 1 + NameLength(path[1..])
  }

  /** The names along a path, up to its end or up to the first name that is too long. */
  datatype Tokens = Tokens(names: seq<Name>, overlong: bool)

  function Tokenize(path: seq<Letter>): Tokens
    decreases |path|
  {
    var start := SkipSlashes(path);
    var n := NameLength(start);
    if start == [] then Tokens([], false)
    else if n >= NAME_CAPACITY then Tokens([], true)
    else
      var rest := Tokenize(start[n..]);
      Tokens([start[..n]] + rest.names, rest.overlong)
  }

  function NamesOf(path: seq<Letter>): seq<Name> {
    Tokenize(path).names
  }

  predicate IsAbsolute(path: seq<Letter>) { path != [] && path[0] == SLASH }

  predicate IsRoot(path: seq<Letter>) { path == [SLASH] }

  /** What a path can name an entry by: something without slashes that fits. */
  predicate Plain(name: Name) { name != [] && SLASH !in name && |name| < NAME_CAPACITY }

  ghost predicate AllPlain(names: seq<Name>) {
    forall i :: 0 <= i < |names| ==> Plain(names[i])
  }

  lemma {:induction false} TokensArePlain(path: seq<Letter>)
    ensures AllPlain(NamesOf(path))
    decreases |path|
  {
    var start := SkipSlashes(path);
    var n := NameLength(start);
    if start != [] && n < NAME_CAPACITY {
      TokensArePlain(start[n..]);
    }
  }

  function PathOf(names: seq<Name>): seq<Letter> {
    if names == [] then [] else [SLASH] + names[0] + PathOf(names[1..])
  }

  lemma {:induction false} NameLengthOf(name: Name, rest: seq<Letter>)
    requires SLASH !in name && (rest == [] || rest[0] == SLASH)
    ensures NameLength(name + rest) == |name|
  {
    if name == [] {
      assert name + rest == rest;
    } else {
      assert (name + rest)[1..] == name[1..] + rest;
      NameLengthOf(name[1..], rest);
    }
  }

  /** Every sequence of plain names is spelled by some path. */
  lemma {:induction false} TokenizeUndoesPathOf(names: seq<Name>)
    requires AllPlain(names)
    ensures Tokenize(PathOf(names)) == Tokens(names, false)
  {
    if names != [] {
      var rest := PathOf(names[1..]);
      var tail := names[0] + rest;
      assert PathOf(names)[1..] == tail && tail[0] == names[0][0];
      assert SkipSlashes(PathOf(names)) == SkipSlashes(tail) == tail;
      assert rest == [] || rest[0] == SLASH;
      NameLengthOf(names[0], rest);
      assert tail[..|names[0]|] == names[0] && tail[|names[0]|..] == rest;
      TokenizeUndoesPathOf(names[1..]);
    }
  }

  // ---------------------------------------------------------------- lookups

  predicate IsChild(node: Node, parent: nat, name: Name) {
    node.used && node.parent == parent && node.name == name
  }

  /** fs_find_child from index `from` on. */
  function FindChildFrom(nodes: seq<Node>, parent: nat, name: Name, from: nat): (r: Option<nat>)
    requires from <= |nodes|
    ensures r.Some? ==> from <= r.value < |nodes| && IsChild(nodes[r.value], parent, name)
    ensures forall i :: from <= i < (if r.Some? then r.value else |nodes|) ==> !IsChild(nodes[i], parent, name)
    decreases |nodes| - from
  {
    if from == |nodes| then None
    else if IsChild(nodes[from], parent, name) then Some(from)
    else FindChildFrom(nodes, parent, name, from + 1)
  }

  function FindChild(nodes: seq<Node>, parent: nat, name: Name): Option<nat> {
    FindChildFrom(nodes, parent, name, 0)
  }

  /** The node that the names lead to from the root. */
  function Lookup(nodes: seq<Node>, names: seq<Name>): (r: Option<nat>)
    requires nodes != []
    ensures r.Some? ==> r.value < |nodes|
  {
    if names == [] then Some(0)
    else
      match Lookup(nodes, names[..|names| - 1])
      case None => None
      case Some(at) => FindChild(nodes, at, names[|names| - 1])
  }

  /** fs_resolve_path. */
  function Resolved(nodes: seq<Node>, path: seq<Letter>): (r: Option<nat>)
    requires nodes != []
    ensures r.Some? ==> r.value < |nodes|
  {
    if !IsAbsolute(path) || Tokenize(path).overlong then None else Lookup(nodes, NamesOf(path))
  }

  datatype Place = Place(parent: nat, leaf: Name)

  /** The loop of fs_resolve_parent_path, standing at node `at` before the given names. */
  function PlaceFrom(nodes: seq<Node>, at: nat, tokens: Tokens): (r: Result<Place>)
    requires at < |nodes|
    ensures if r.Ok? then r.value.parent < |nodes| else r.error != OK
    decreases |tokens.names|
  {
    if tokens.names == [] || (|tokens.names| == 1 && tokens.overlong) then Err(EINVAL)
    else if |tokens.names| == 1 then Ok(Place(at, tokens.names[0]))
    else
      match FindChild(nodes, at, tokens.names[0])
      case None => Err(ENOENT)
      case Some(child) =>
        if nodes[child].kind != DIRECTORY then Err(ENOTDIR)
        else PlaceFrom(nodes, child, Tokens(tokens.names[1..], tokens.overlong))
  }

  /** fs_resolve_parent_path. */
  function PlaceOf(nodes: seq<Node>, path: seq<Letter>): (r: Result<Place>)
    requires nodes != []
    ensures if r.Ok? then r.value.parent < |nodes| else r.error != OK
  {
    if !IsAbsolute(path) || IsRoot(path) then Err(EINVAL) else PlaceFrom(nodes, 0, Tokenize(path))
  }

  function FirstFreeNode(nodes: seq<Node>, from: nat): (i: nat)
    requires from <= |nodes|
    ensures from <= i <= |nodes| && (i < |nodes| ==> !nodes[i].used)
    ensures forall j :: from <= j < i ==> nodes[j].used
    decreases |nodes| - from
  {
    if from == |nodes| || !nodes[from].used then from else FirstFreeNode(nodes, from + 1)
  }

  function FirstFreeSlot(slots: seq<OpenFile>, from: nat): (i: nat)
    requires from <= |slots|
    ensures from <= i <= |slots| && (i < |slots| ==> !slots[i].used)
    ensures forall j :: from <= j < i ==> slots[j].used
    decreases |slots| - from
  {
    if from == |slots| || !slots[from].used then from else FirstFreeSlot(slots, from + 1)
  }

  predicate OwnerAllows(node: Node, pid: U32) {
    node.owner == 0 || pid == 0 || node.owner == pid
  }

  predicate HasChildren(nodes: seq<Node>, i: nat) {
    exists j :: 0 <= j < |nodes| && nodes[j].used && nodes[j].parent == i && j != i
  }

  predicate IsOpen(slots: seq<OpenFile>, i: nat) {
    exists k :: 0 <= k < |slots| && slots[k].used && slots[k].node == i
  }

  predicate HasWriter(slots: seq<OpenFile>, i: nat) {
    exists k :: 0 <= k < |slots| && slots[k].used && slots[k].node == i && Has(slots[k].flags, WRITE)
  }

  /** fs_parent_chain_contains, following at most `steps` links. */
  predicate OnChain(nodes: seq<Node>, at: nat, target: nat, steps: nat)
    requires at < |nodes|
    decreases steps
  {
    at != 0 && (at == target || (steps > 0 && nodes[at].parent < |nodes| && OnChain(nodes, nodes[at].parent, target, steps - 1)))
  }

  // ---------------------------------------------------------------- the operations

  /** runtime_fs_init. */
  function InitialFs(nodeCount: nat, slotCount: nat): Fs
    requires nodeCount > 0
  {
    Fs([Node(true, DIRECTORY, 0, 0, 493, 0, ROOT_NAME, Zeros(FILE_CAPACITY))] + seq(nodeCount - 1, _ => FreeNode()),
       seq(slotCount, _ => FreeSlot()))
  }

  function NewNode(kind: U32, parent: U32, owner: U32, mode: U32, name: Name): Node {
    FreeNode().(used := true, kind := kind, parent := parent, owner := owner, mode := mode, name := name)
  }

  predicate InRange(fs: Fs) { 0 < |fs.nodes| <= UINT32 && |fs.slots| < UINT32 }

  /** The node that mkdir and a creating open add, in the place that the path names. */
  function Created(fs: Fs, pid: U32, path: seq<Letter>, kind: U32, mode: U32): Result<(Fs, nat)>
    requires InRange(fs)
  {
    match PlaceOf(fs.nodes, path)
    case Err(e) => Err(e)
    case Ok(place) =>
      if !OwnerAllows(fs.nodes[place.parent], pid) then Err(EACCES)
      else
        var i := FirstFreeNode(fs.nodes, 1);
        if i == |fs.nodes| then Err(ENOSPC)
        else Ok((fs.(nodes := fs.nodes[i := NewNode(kind, place.parent, pid, mode, place.leaf)]), i))
  }

  /** runtime_fs_mkdir. */
  function MkdirOf(fs: Fs, pid: U32, path: seq<Letter>, mode: U32): (Fs, Status)
    requires InRange(fs)
  {
    if !IsAbsolute(path) || IsRoot(path) then (fs, EINVAL)
    else if Resolved(fs.nodes, path).Some? then (fs, EEXIST)
    else
      match Created(fs, pid, path, DIRECTORY, mode)
      case Err(e) => (fs, e)
      case Ok((fs', _)) => (fs', OK)
  }

  function Emptied(node: Node): Node {
    node.(size := 0, data := Zeros(FILE_CAPACITY))
  }

  /** The part of runtime_fs_open after the node is found or created. */
  function OpenNode(fs: Fs, pid: U32, i: nat, flags: U32): (Fs, Result<nat>)
    requires InRange(fs) && i < |fs.nodes|
  {
    var node := fs.nodes[i];
    if node.kind == DIRECTORY && Has(flags, WRITE) then (fs, Err(EISDIR))
    else if node.kind != DIRECTORY && node.kind != REGULAR then (fs, Err(ENOTSUP))
    else if Has(flags, WRITE) && !AnyWriteBit(node.mode) then (fs, Err(EBADF))
    else if Has(flags, READ) && !AnyReadBit(node.mode) then (fs, Err(EBADF))
    else
      var cut := if Has(flags, TRUNCATE) && node.kind == REGULAR then fs.(nodes := fs.nodes[i := Emptied(node)]) else fs;
      if Has(flags, WRITE) && HasWriter(fs.slots, i) then (cut, Err(EBUSY))
      else if (Has(flags, WRITE) || Has(flags, TRUNCATE)) && !OwnerAllows(node, pid) then (cut, Err(EACCES))
      else
        var k := FirstFreeSlot(fs.slots, 0);
        if k == |fs.slots| then (cut, Err(ENOSPC))
        else (cut.(slots := fs.slots[k := OpenFile(true, i, pid, flags, 0, 0)]), Ok(k + 1))
  }

  /** runtime_fs_open; a file object is a slot number counted from one. */
  function OpenOf(fs: Fs, pid: U32, path: seq<Letter>, flags: U32): (Fs, Result<nat>)
    requires InRange(fs)
  {
    if !IsAbsolute(path) then (fs, Err(EINVAL))
    else
      match Resolved(fs.nodes, path)
      case Some(i) => OpenNode(fs, pid, i, flags)
      case None =>
        if !Has(flags, CREATE) then (fs, Err(ENOENT))
        else
          match Created(fs, pid, path, REGULAR, 420)
          case Err(e) => (fs, Err(e))
          case Ok((fs', i)) => OpenNode(fs', pid, i, flags)
  }

  predicate IsOpenFile(fs: Fs, file: nat) {
    0 < file <= |fs.slots| && fs.slots[file - 1].used
  }

  /** The node behind an open file, when that is a regular file. */
  function RegularOf(fs: Fs, file: nat): Result<nat>
    requires IsOpenFile(fs, file) && fs.slots[file - 1].node < |fs.nodes|
  {
    var i := fs.slots[file - 1].node;
    if fs.nodes[i].kind == REGULAR then Ok(i)
    else if fs.nodes[i].kind == DIRECTORY then Err(EISDIR)
    else Err(ENOTSUP)
  }

  /** Open files refer to nodes of the table and stay within their data. */
  predicate SlotsInRange(fs: Fs) {
    && (forall i :: 0 <= i < |fs.nodes| ==> |fs.nodes[i].data| == FILE_CAPACITY && fs.nodes[i].size <= FILE_CAPACITY)
    && (forall k :: 0 <= k < |fs.slots| && fs.slots[k].used ==>
          fs.slots[k].node < |fs.nodes| && fs.slots[k].offset <= FILE_CAPACITY)
  }

  function WithOffset(fs: Fs, file: nat, offset: U32): Fs
    requires 0 < file <= |fs.slots|
  {
    fs.(slots := fs.slots[file - 1 := fs.slots[file - 1].(offset := offset)])
  }

  function Min(a: nat, b: nat): nat { if a < b then a else b }

  /** runtime_fs_read. */
  function ReadOf(fs: Fs, file: nat, size: U32): (Fs, Result<seq<Byte>>)
    requires InRange(fs) && SlotsInRange(fs)
  {
    if !IsOpenFile(fs, file) || !Has(fs.slots[file - 1].flags, READ) then (fs, Err(EBADF))
    else
      match RegularOf(fs, file)
      case Err(e) => (fs, Err(e))
      case Ok(i) =>
        var node, offset := fs.nodes[i], fs.slots[file - 1].offset;
        if offset >= node.size then (fs, Ok([]))
        else
          var count := Min(size, node.size - offset);
          (WithOffset(fs, file, offset + count), Ok(node.data[offset..offset + count]))
  }

  function ZeroRange(data: seq<Byte>, start: nat, end: nat): seq<Byte>
    requires start <= end <= |data|
  {
    data[..start] + Zeros(end - start) + data[end..]
  }

  /** What runtime_fs_write does to a node. */
  function WrittenNode(node: Node, offset: U32, buffer: seq<Byte>): Node
    requires |node.data| == FILE_CAPACITY && offset + |buffer| <= FILE_CAPACITY
  {
    var end := offset + |buffer|;
    var data := if offset > node.size then ZeroRange(node.data, node.size, offset) else node.data;
    node.(data := data[..offset] + buffer + data[end..], size := if end > node.size then end else node.size)
  }

  /** runtime_fs_write, when the end offset does not wrap. */
  function WriteOf(fs: Fs, file: nat, buffer: seq<Byte>): (Fs, Result<nat>)
    requires InRange(fs) && SlotsInRange(fs)
  {
    if !IsOpenFile(fs, file) || !Has(fs.slots[file - 1].flags, WRITE) then (fs, Err(EBADF))
    else
      match RegularOf(fs, file)
      case Err(e) => (fs, Err(e))
      case Ok(i) =>
        var end := fs.slots[file - 1].offset + |buffer|;
        if end > FILE_CAPACITY then (fs, Err(ENOSPC))
        else
          var fs' := fs.(nodes := fs.nodes[i := WrittenNode(fs.nodes[i], fs.slots[file - 1].offset, buffer)]);
          (WithOffset(fs', file, end), Ok(|buffer|))
  }

  /** runtime_fs_close. */
  function CloseOf(fs: Fs, file: nat): (Fs, Status) {
    if !IsOpenFile(fs, file) then (fs, EBADF) else (fs.(slots := fs.slots[file - 1 := FreeSlot()]), OK)
  }

  /** runtime_fs_seek, with a signed 32-bit displacement. */
  function SeekOf(fs: Fs, file: nat, displacement: int, whence: U32): (Fs, Result<nat>)
    requires InRange(fs) && SlotsInRange(fs)
  {
    if !IsOpenFile(fs, file) then (fs, Err(EBADF))
    else
      match RegularOf(fs, file)
      case Err(e) => (fs, Err(e))
      case Ok(i) =>
        if whence > 2 then (fs, Err(EINVAL))
        else
          var base := if whence == 0 then 0 else if whence == 1 then fs.slots[file - 1].offset else fs.nodes[i].size;
          var next := base + displacement;
          if next < 0 || next > FILE_CAPACITY then (fs, Err(EINVAL)) else (WithOffset(fs, file, next), Ok(next))
  }

  /** runtime_fs_remove. */
  function RemoveOf(fs: Fs, pid: U32, path: seq<Letter>): (Fs, Status)
    requires InRange(fs)
  {
    if !IsAbsolute(path) then (fs, EINVAL)
    else if IsRoot(path) then (fs, EBUSY)
    else
      match Resolved(fs.nodes, path)
      case None => (fs, ENOENT)
      case Some(i) =>
        if !OwnerAllows(fs.nodes[i], pid) || !ParentAllows(fs.nodes, i, pid) then (fs, EACCES)
        else if IsOpen(fs.slots, i) then (fs, EBUSY)
        else if fs.nodes[i].kind == DIRECTORY && HasChildren(fs.nodes, i) then (fs, ENOTEMPTY)
        else (fs.(nodes := fs.nodes[i := FreeNode()]), OK)
  }

  predicate ParentAllows(nodes: seq<Node>, i: nat, pid: U32)
    requires i < |nodes|
  {
    nodes[i].parent < |nodes| && OwnerAllows(nodes[nodes[i].parent], pid)
  }

  function Moved(nodes: seq<Node>, i: nat, place: Place): seq<Node>
    requires i < |nodes| <= UINT32 && place.parent < |nodes|
  {
    nodes[i := nodes[i].(parent := place.parent, name := place.leaf)]
  }

  /** runtime_fs_rename. */
  function RenameOf(fs: Fs, pid: U32, from: seq<Letter>, to: seq<Letter>): (Fs, Status)
    requires InRange(fs)
  {
    if !IsAbsolute(from) || !IsAbsolute(to) then (fs, EINVAL)
    else if from == to then (fs, OK)
    else if IsRoot(from) || IsRoot(to) then (fs, EBUSY)
    else
      match Resolved(fs.nodes, from)
      case None => (fs, ENOENT)
      case Some(i) =>
        if Resolved(fs.nodes, to).Some? then (fs, EEXIST)
        else
          match PlaceOf(fs.nodes, to)
          case Err(e) => (fs, e)
          case Ok(place) =>
            if !OwnerAllows(fs.nodes[i], pid) || !ParentAllows(fs.nodes, i, pid) || !OwnerAllows(fs.nodes[place.parent], pid)
            then (fs, EACCES)
            else if fs.nodes[i].kind == DIRECTORY && OnChain(fs.nodes, place.parent, i, |fs.nodes|) then (fs, EINVAL)
            else (fs.(nodes := Moved(fs.nodes, i, place)), OK)
  }
}
