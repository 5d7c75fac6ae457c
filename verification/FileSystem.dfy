/** The code of the file system (kernel/runtime_fs.c) over its two tables, proved to do what FsModel
    says. */
module FileSystem {
  import opened FsModel
  import opened FsTree
  import opened FsSound
  import opened FsValidate

  /** fs_token_next from `cursor` on: 1 and a name, 0 at the end, -1 at a name that is too long. */
  method TokenNext(path: seq<Letter>, cursor: nat) returns (step: int, token: Name, next: nat)
    requires cursor <= |path|
    ensures cursor <= next <= |path|
    ensures var start := SkipSlashes(path[cursor..]);
      if start == [] then step == 0
      else if NameLength(start) >= NAME_CAPACITY then step == -1
      else step == 1 && token == start[..NameLength(start)] && path[next..] == start[NameLength(start)..] && cursor < next
  {
    hide SkipSlashes, NameLength;
    var scan := cursor;
    token := [];
    while scan < |path| && path[scan] == SLASH
      invariant cursor <= scan <= |path|
      invariant SkipSlashes(path[cursor..]) == SkipSlashes(path[scan..])
    {
      ScanStep(path, scan);
      scan := scan + 1;
    }
    ScanStop(path, scan);
    if scan == |path| {
      return 0, token, scan;
    }
    ghost var start := scan;
    while scan < |path| && path[scan] != SLASH
      invariant start <= scan <= |path| && |token| < NAME_CAPACITY
      invariant token == path[start..scan]
      invariant NameLength(path[start..]) == |token| + NameLength(path[scan..])
    {
      ScanStep(path, scan);
      if |token| + 1 >= NAME_CAPACITY {
        return -1, token, cursor;
      }
      token := token + [path[scan]];
      scan := scan + 1;
    }
    ScanStop(path, scan);
    assert path[start..][..|token|] == token && path[start..][|token|..] == path[scan..];
    return 1, token, scan;
  }

  lemma LookupNothing(nodes: seq<Node>)
    requires nodes != []
    ensures Lookup(nodes, []) == Some(0)
  {
  }

  lemma ScanStep(path: seq<Letter>, k: nat)
    requires k < |path|
    ensures path[k] == SLASH ==> SkipSlashes(path[k..]) == SkipSlashes(path[k + 1..])
    ensures path[k] != SLASH ==> NameLength(path[k..]) == 1 + NameLength(path[k + 1..])
  {
    assert path[k..][1..] == path[k + 1..];
  }

  lemma ScanStop(path: seq<Letter>, k: nat)
    requires k <= |path|
    ensures k == |path| || path[k] != SLASH ==> SkipSlashes(path[k..]) == path[k..]
    ensures k == |path| || path[k] == SLASH ==> NameLength(path[k..]) == 0
  {
  }

  lemma TokenizeStep(path: seq<Letter>)
    ensures var start := SkipSlashes(path);
      Tokenize(path) ==
      if start == [] then Tokens([], false)
      else if NameLength(start) >= NAME_CAPACITY then Tokens([], true)
      else
        var rest := Tokenize(start[NameLength(start)..]);
        Tokens([start[..NameLength(start)]] + rest.names, rest.overlong)
  {
  }

  lemma ZeroStart(data: seq<Byte>, start: nat)
    requires start <= |data|
    ensures ZeroRange(data, start, start) == data
  {
  }

  lemma ZeroStep(data: seq<Byte>, start: nat, k: nat)
    requires start <= k < |data|
    ensures |ZeroRange(data, start, k)| == |data|
    ensures ZeroRange(data, start, k)[k := 0] == ZeroRange(data, start, k + 1)
  {
  }

  /** `data` with `buffer` written over it at `offset`. */
  function Patched(data: seq<Byte>, offset: nat, buffer: seq<Byte>): (r: seq<Byte>)
    requires offset + |buffer| <= |data|
    ensures |r| == |data|
  {
    data[..offset] + buffer + data[offset + |buffer|..]
  }

  lemma PatchedStart(data: seq<Byte>, offset: nat, buffer: seq<Byte>)
    requires offset + |buffer| <= |data|
    ensures Patched(data, offset, buffer[..0]) == data
  {
  }

  lemma PatchedStep(data: seq<Byte>, offset: nat, buffer: seq<Byte>, index: nat)
    requires offset + |buffer| <= |data| && index < |buffer|
    ensures Patched(data, offset, buffer[..index])[offset + index := buffer[index]] == Patched(data, offset, buffer[..index + 1])
  {
  }

  class Store {
    const nodes: array<Node>
    const slots: array<OpenFile>

    ghost function Value(): Fs
      reads nodes, slots
    {
      Fs(nodes[..], slots[..])
    }

    /** runtime_fs_init. */
    constructor (nodeCount: nat, slotCount: nat)
      requires 0 < nodeCount <= UINT32 && slotCount < UINT32
      ensures fresh(nodes) && fresh(slots) && Value() == InitialFs(nodeCount, slotCount) && Sound(Value())
    {
      nodes := new Node[nodeCount](_ => FreeNode());
      slots := new OpenFile[slotCount](_ => FreeSlot());
      new;
      nodes[0] := Node(true, DIRECTORY, 0, 0, 493, 0, ROOT_NAME, Zeros(FILE_CAPACITY));
      assert nodes[..] == InitialFs(nodeCount, slotCount).nodes;
      InitialIsSound(nodeCount, slotCount);
    }

    method FindChild(parent: nat, name: Name) returns (child: int)
      ensures child == match FsModel.FindChild(nodes[..], parent, name) { case None => -1 case Some(i) => i }
    {
      var index := 0;
      while index < nodes.Length
        invariant 0 <= index <= nodes.Length
        invariant FsModel.FindChild(nodes[..], parent, name) == FindChildFrom(nodes[..], parent, name, index)
      {
        if nodes[index].used && nodes[index].parent == parent && nodes[index].name == name {
          return index;
        }
        index := index + 1;
      }
      return -1;
    }

    /** fs_resolve_path. */
    method ResolvePath(path: seq<Letter>) returns (found: int)
      requires nodes.Length > 0
      ensures found == match Resolved(nodes[..], path) { case None => -1 case Some(i) => i }
    {
      hide Tokenize, Lookup, SkipSlashes, NameLength, FsModel.FindChild;
      LookupNothing(nodes[..]);
      if path == [] || path[0] != SLASH { return -1; }
      if path == [SLASH] {
        RootHasNoNames(path);
        return 0;
      }
      var current, cursor := 0, 0;
      ghost var done: seq<Name> := [];
      assert path[0..] == path && done + NamesOf(path) == NamesOf(path);
      while true
        invariant cursor <= |path| && 0 <= current < nodes.Length
        invariant Tokenize(path).names == done + Tokenize(path[cursor..]).names
        invariant Tokenize(path).overlong == Tokenize(path[cursor..]).overlong
        invariant Lookup(nodes[..], done) == Some(current)
        decreases |path| - cursor
      {
        TokenizeStep(path[cursor..]);
        var step, token, next := TokenNext(path, cursor);
        if step == 0 {
          assert done + [] == done;
          return current;
        }
        if step < 0 { return -1; }
        ghost var more := done + [token];
        LookupStep(nodes[..], done, token);
        assert Tokenize(path).names == more + Tokenize(path[next..]).names;
        var child := FindChild(current, token);
        if child < 0 {
          assert Tokenize(path).names[..|more|] == more;
          if Lookup(nodes[..], Tokenize(path).names).Some? { PrefixExists(nodes[..], Tokenize(path).names, |more|); }
          return -1;
        }
        current, cursor, done := child, next, more;
      }
    }

    /** fs_resolve_parent_path. */
    method ResolveParentPath(path: seq<Letter>) returns (status: Status, leaf: Name, parent: nat)
      requires nodes.Length > 0
      ensures PlaceOf(nodes[..], path) == if status == OK then Ok(Place(parent, leaf)) else Err(status)
    {
      leaf, parent := [], 0;
      if path == [] || path[0] != SLASH || path == [SLASH] { return EINVAL, leaf, parent; }
      TokenizeStep(path);
      assert path[0..] == path;
      var step, token, cursor := TokenNext(path, 0);
      if step <= 0 { return EINVAL, leaf, parent; }
      var current := 0;
      while true
        invariant cursor <= |path| && 0 <= current < nodes.Length
        invariant PlaceOf(nodes[..], path) ==
          PlaceFrom(nodes[..], current, Tokens([token] + Tokenize(path[cursor..]).names, Tokenize(path[cursor..]).overlong))
        decreases |path| - cursor
      {
        TokenizeStep(path[cursor..]);
        var nextStep, nextToken, peek := TokenNext(path, cursor);
        ghost var rest := Tokenize(path[cursor..]);
        if nextStep == 0 { return OK, token, current; }
        if nextStep < 0 { return EINVAL, leaf, parent; }
        assert ([token] + rest.names)[1..] == rest.names;
        var child := FindChild(current, token);
        if child < 0 { return ENOENT, leaf, parent; }
        if nodes[child].kind != DIRECTORY { return ENOTDIR, leaf, parent; }
        current, token, cursor := child, nextToken, peek;
      }
    }

    /** fs_alloc_node. */
    method AllocNode() returns (i: nat)
      requires nodes.Length > 0
      modifies nodes
      ensures i == FirstFreeNode(old(nodes[..]), 1)
      ensures nodes[..] == if i < nodes.Length then old(nodes[..])[i := FreeNode().(used := true)] else old(nodes[..])
    {
      i := 1;
      while i < nodes.Length
        invariant 1 <= i <= nodes.Length && nodes[..] == old(nodes[..])
        invariant FirstFreeNode(old(nodes[..]), 1) == FirstFreeNode(old(nodes[..]), i)
      {
        if !nodes[i].used {
          nodes[i] := FreeNode().(used := true);
          return;
        }
        i := i + 1;
      }
    }

    /** The part that mkdir and a creating open share; a negative index is an error. */
    method Create(pid: U32, path: seq<Letter>, kind: U32, mode: U32) returns (status: Status, i: nat)
      requires InRange(Value())
      modifies nodes
      ensures match Created(old(Value()), pid, path, kind, mode)
        case Ok((fs', j)) => status == OK && i == j < nodes.Length && Value() == fs'
        case Err(e) => status == e != OK && Value() == old(Value())
    {
      i := 0;
      var leaf, parent;
      status, leaf, parent := ResolveParentPath(path);
      if status != OK { return status, i; }
      if !OwnerAllows(nodes[parent], pid) { return EACCES, i; }
      i := AllocNode();
      if i == nodes.Length { return ENOSPC, i; }
      nodes[i] := nodes[i].(kind := kind, parent := parent, owner := pid, mode := mode, name := leaf);
      return OK, i;
    }

    /** runtime_fs_mkdir. */
    method Mkdir(pid: U32, path: seq<Letter>, mode: U32) returns (status: Status)
      requires InRange(Value())
      modifies nodes
      ensures (Value(), status) == MkdirOf(old(Value()), pid, path, mode)
    {
      if path == [] || path[0] != SLASH || path == [SLASH] { return EINVAL; }
      var found := ResolvePath(path);
      if found >= 0 { return EEXIST; }
      var i;
      status, i := Create(pid, path, DIRECTORY, mode);
    }

    /** fs_zero_range: an empty or inverted range changes nothing, and the end is cut to the capacity. */
    method ZeroRange(i: nat, start: nat, end: nat)
      requires i < nodes.Length && |nodes[i].data| == FILE_CAPACITY
      modifies nodes
      ensures nodes[..] == old(nodes[..])[i := old(nodes[i]).(data :=
        if start >= end || start >= FILE_CAPACITY then old(nodes[i]).data
        else FsModel.ZeroRange(old(nodes[i]).data, start, Min(end, FILE_CAPACITY)))]
    {
      hide FsModel.ZeroRange;
      if start >= end || start >= FILE_CAPACITY { return; }
      var stop := if end > FILE_CAPACITY then FILE_CAPACITY else end;
      var index := start;
      ZeroStart(nodes[i].data, start);
      while index < stop
        invariant start <= index <= stop
        invariant nodes[..] == old(nodes[..])[i := old(nodes[i]).(data := FsModel.ZeroRange(old(nodes[i]).data, start, index))]
      {
        ZeroStep(old(nodes[i]).data, start, index);
        nodes[i] := nodes[i].(data := nodes[i].data[index := 0]);
        index := index + 1;
      }
    }

    method HasOpenWriter(i: nat) returns (yes: bool)
      ensures yes == HasWriter(slots[..], i)
    {
      var index := 0;
      while index < slots.Length
        invariant 0 <= index <= slots.Length
        invariant forall k :: 0 <= k < index ==> !(slots[k].used && slots[k].node == i && Has(slots[k].flags, WRITE))
      {
        if slots[index].used && slots[index].node == i && Has(slots[index].flags, WRITE) {
          assert slots[..][index] == slots[index];
          return true;
        }
        index := index + 1;
      }
      return false;
    }

    method IsNodeOpen(i: nat) returns (yes: bool)
      ensures yes == IsOpen(slots[..], i)
    {
      var index := 0;
      while index < slots.Length
        invariant 0 <= index <= slots.Length && forall k :: 0 <= k < index ==> !(slots[k].used && slots[k].node == i)
      {
        if slots[index].used && slots[index].node == i {
          assert slots[..][index] == slots[index];
          return true;
        }
        index := index + 1;
      }
      return false;
    }

    method NodeHasChildren(i: nat) returns (yes: bool)
      ensures yes == HasChildren(nodes[..], i)
    {
      var index := 0;
      while index < nodes.Length
        invariant 0 <= index <= nodes.Length
        invariant forall j :: 0 <= j < index ==> !(nodes[j].used && nodes[j].parent == i && j != i)
      {
        if nodes[index].used && nodes[index].parent == i && index != i {
          assert nodes[..][index] == nodes[index];
          return true;
        }
        index := index + 1;
      }
      return false;
    }

    /** fs_open_slot_alloc, and the owner that open writes afterwards. */
    method AllocSlot(i: U32, pid: U32, flags: U32) returns (file: nat)
      modifies slots
      ensures var k := FirstFreeSlot(old(slots[..]), 0);
        if k == slots.Length then file == 0 && slots[..] == old(slots[..])
        else file == k + 1 && slots[..] == old(slots[..])[k := OpenFile(true, i, pid, flags, 0, 0)]
    {
      var index := 0;
      while index < slots.Length
        invariant 0 <= index <= slots.Length && slots[..] == old(slots[..])
        invariant FirstFreeSlot(old(slots[..]), 0) == FirstFreeSlot(old(slots[..]), index)
      {
        if !slots[index].used {
          slots[index] := OpenFile(true, i, pid, flags, 0, 0);
          return index + 1;
        }
        index := index + 1;
      }
      return 0;
    }

    /** runtime_fs_open; the file object is meaningful when the status is OK. */
    method Open(pid: U32, path: seq<Letter>, flags: U32) returns (status: Status, file: nat)
      requires InRange(Value()) && SlotsInRange(Value())
      modifies nodes, slots
      ensures (Value(), if status == OK then Ok(file) else Err(status)) == OpenOf(old(Value()), pid, path, flags)
    {
      file := 0;
      if path == [] || path[0] != SLASH { return EINVAL, file; }
      var found := ResolvePath(path);
      var i: nat;
      if found < 0 {
        if !Has(flags, CREATE) { return ENOENT, file; }
        status, i := Create(pid, path, REGULAR, 420);
        if status != OK { return status, file; }
      } else {
        i := found;
      }
      status, file := OpenFound(pid, i, flags);
    }

    /** runtime_fs_open from the type check on. */
    method OpenFound(pid: U32, i: nat, flags: U32) returns (status: Status, file: nat)
      requires InRange(Value()) && i < nodes.Length && |nodes[i].data| == FILE_CAPACITY
      modifies nodes, slots
      ensures (Value(), if status == OK then Ok(file) else Err(status)) == OpenNode(old(Value()), pid, i, flags)
    {
      hide Has, HasWriter, AnyWriteBit, AnyReadBit;
      file := 0;
      if nodes[i].kind == DIRECTORY {
        if Has(flags, WRITE) { return EISDIR, file; }
      } else if nodes[i].kind != REGULAR {
        return ENOTSUP, file;
      }
      if Has(flags, WRITE) && !AnyWriteBit(nodes[i].mode) { return EBADF, file; }
      if Has(flags, READ) && !AnyReadBit(nodes[i].mode) { return EBADF, file; }
      if Has(flags, TRUNCATE) && nodes[i].kind == REGULAR {
        nodes[i] := nodes[i].(size := 0);
        ZeroRange(i, 0, FILE_CAPACITY);
        assert FsModel.ZeroRange(old(nodes[i]).data, 0, FILE_CAPACITY) == Zeros(FILE_CAPACITY);
        assert nodes[..] == old(nodes[..])[i := Emptied(old(nodes[i]))];
      }
      if Has(flags, WRITE) {
        var busy := HasOpenWriter(i);
        if busy { return EBUSY, file; }
      }
      if (Has(flags, WRITE) || Has(flags, TRUNCATE)) && !OwnerAllows(nodes[i], pid) { return EACCES, file; }
      file := AllocSlot(i, pid, flags);
      if file == 0 { return ENOSPC, file; }
      return OK, file;
    }

    /** runtime_fs_read. */
    method Read(file: nat, size: U32) returns (status: Status, bytes: seq<Byte>)
      requires InRange(Value()) && SlotsInRange(Value())
      modifies slots
      ensures (Value(), if status == OK then Ok(bytes) else Err(status)) == ReadOf(old(Value()), file, size)
    {
      bytes := [];
      if file == 0 || file > slots.Length || !slots[file - 1].used { return EBADF, bytes; }
      if !Has(slots[file - 1].flags, READ) { return EBADF, bytes; }
      var open := slots[file - 1];
      assert Value().slots[file - 1] == open;
      var node := nodes[open.node];
      if node.kind != REGULAR { return if node.kind == DIRECTORY then EISDIR else ENOTSUP, bytes; }
      if open.offset >= node.size { return OK, bytes; }
      assert Value().nodes[open.node] == node;
      var remaining := node.size - open.offset;
      var count := if size < remaining then size else remaining;
      var index := 0;
      while index < count
        invariant 0 <= index <= count && bytes == node.data[open.offset..open.offset + index]
      {
        bytes := bytes + [node.data[open.offset + index]];
        index := index + 1;
      }
      slots[file - 1] := open.(offset := open.offset + count);
      return OK, bytes;
    }

    /** runtime_fs_write; the end offset must not wrap. */
    method Write(file: nat, buffer: seq<Byte>) returns (status: Status, count: nat)
      requires InRange(Value()) && SlotsInRange(Value())
      requires IsOpenFile(Value(), file) ==> slots[file - 1].offset + |buffer| < UINT32
      modifies nodes, slots
      ensures (Value(), if status == OK then Ok(count) else Err(status)) == WriteOf(old(Value()), file, buffer)
    {
      count := 0;
      if file == 0 || file > slots.Length || !slots[file - 1].used { return EBADF, count; }
      if !Has(slots[file - 1].flags, WRITE) { return EBADF, count; }
      var i, offset := slots[file - 1].node, slots[file - 1].offset;
      assert Value().slots[file - 1] == slots[file - 1];
      if nodes[i].kind != REGULAR { return if nodes[i].kind == DIRECTORY then EISDIR else ENOTSUP, count; }
      assert Value().nodes[i] == nodes[i];
      var end := (offset + |buffer|) % UINT32;
      if end > FILE_CAPACITY { return ENOSPC, count; }
      CopyIn(i, offset, buffer);
      slots[file - 1] := slots[file - 1].(offset := end);
      if end > nodes[i].size { nodes[i] := nodes[i].(size := end); }
      assert nodes[..] == old(nodes[..])[i := WrittenNode(old(nodes[i]), offset, buffer)];
      return OK, |buffer|;
    }

    /** The two loops of runtime_fs_write. */
    method CopyIn(i: nat, offset: U32, buffer: seq<Byte>)
      requires i < nodes.Length && |nodes[i].data| == FILE_CAPACITY && nodes[i].size <= FILE_CAPACITY
      requires offset + |buffer| <= FILE_CAPACITY
      modifies nodes
      ensures nodes[..] == old(nodes[..])[i := WrittenNode(old(nodes[i]), offset, buffer).(size := old(nodes[i]).size)]
    {
      if offset > nodes[i].size { ZeroRange(i, nodes[i].size, offset); }
      CopyBytes(i, offset, buffer);
    }

    method CopyBytes(i: nat, offset: U32, buffer: seq<Byte>)
      requires i < nodes.Length && |nodes[i].data| == FILE_CAPACITY && offset + |buffer| <= FILE_CAPACITY
      modifies nodes
      ensures nodes[..] == old(nodes[..])[i := old(nodes[i]).(data := Patched(old(nodes[i]).data, offset, buffer))]
    {
      var index := 0;
      PatchedStart(nodes[i].data, offset, buffer);
      while index < |buffer|
        invariant 0 <= index <= |buffer|
        invariant nodes[..] == old(nodes[..])[i := old(nodes[i]).(data := Patched(old(nodes[i]).data, offset, buffer[..index]))]
      {
        PatchedStep(old(nodes[i]).data, offset, buffer, index);
        nodes[i] := nodes[i].(data := nodes[i].data[offset + index := buffer[index]]);
        index := index + 1;
      }
      assert buffer[..index] == buffer;
    }

    /** runtime_fs_close. */
    method Close(file: nat) returns (status: Status)
      modifies slots
      ensures (Value(), status) == CloseOf(old(Value()), file)
    {
      if file == 0 || file > slots.Length || !slots[file - 1].used { return EBADF; }
      slots[file - 1] := FreeSlot();
      return OK;
    }

    /** runtime_fs_seek. */
    method Seek(file: nat, displacement: int, whence: U32) returns (status: Status, offset: nat)
      requires InRange(Value()) && SlotsInRange(Value())
      modifies slots
      ensures (Value(), if status == OK then Ok(offset) else Err(status)) == SeekOf(old(Value()), file, displacement, whence)
    {
      offset := 0;
      if file == 0 || file > slots.Length || !slots[file - 1].used { return EBADF, offset; }
      assert Value().slots[file - 1] == slots[file - 1];
      var node := nodes[slots[file - 1].node];
      assert Value().nodes[slots[file - 1].node] == node;
      if node.kind != REGULAR { return if node.kind == DIRECTORY then EISDIR else ENOTSUP, offset; }
      var base := 0;
      if whence == 0 {
        base := 0;
      } else if whence == 1 {
        base := slots[file - 1].offset;
      } else if whence == 2 {
        base := node.size;
      } else {
        return EINVAL, offset;
      }
      var next := base + displacement;
      if next < 0 || next > FILE_CAPACITY { return EINVAL, offset; }
      slots[file - 1] := slots[file - 1].(offset := next);
      return OK, next;
    }

    /** runtime_fs_remove. It looks at the parent of the node it finds, which must be in the table. */
    method Remove(pid: U32, path: seq<Letter>) returns (status: Status)
      requires InRange(Value()) && ParentsInUse(nodes[..])
      modifies nodes
      ensures (Value(), status) == RemoveOf(old(Value()), pid, path)
    {
      hide Lookup, HasChildren, IsOpen, ParentsInUse;
      if path == [] || path[0] != SLASH { return EINVAL; }
      if path == [SLASH] { return EBUSY; }
      var found := ResolvePath(path);
      if found < 0 { return ENOENT; }
      var i: nat := found;
      ResolvedInUse(nodes[..], path);
      ParentInTable(nodes[..], i);
      if !OwnerAllows(nodes[i], pid) || !OwnerAllows(nodes[nodes[i].parent], pid) { return EACCES; }
      var open := IsNodeOpen(i);
      if open { return EBUSY; }
      if nodes[i].kind == DIRECTORY {
        var full := NodeHasChildren(i);
        if full { return ENOTEMPTY; }
      }
      nodes[i] := FreeNode();
      return OK;
    }

    /** fs_parent_chain_contains; the walk ends because the root is above every node in use. */
    method ParentChainContains(start: nat, ancestor: nat) returns (yes: bool)
      requires Climbable(nodes[..]) && start < nodes.Length && (start == 0 || nodes[start].used)
      ensures yes == OnChain(nodes[..], start, ancestor, nodes.Length)
    {
      hide Rooted, Up, ParentsInUse;
      ghost var table := nodes[..];
      ghost var height := Height(table, start);
      ghost var depth: nat := 0;
      var current := start;
      UpIs(table, start, 0);
      while current != 0
        invariant 0 <= current < nodes.Length && (start == 0 ==> current == 0)
        invariant depth <= height < nodes.Length && current == Up(table, start, depth)
        invariant OnChain(table, start, ancestor, nodes.Length) == OnChain(table, current, ancestor, nodes.Length - depth)
        decreases height - depth
      {
        if current == ancestor { return true; }
        UpIs(table, start, depth);
        UpInTable(table, start, depth + 1);
        current, depth := nodes[current].parent, depth + 1;
      }
      return false;
    }

    /** runtime_fs_rename. Its cycle check needs the root above every node in use. */
    method Rename(pid: U32, from: seq<Letter>, to: seq<Letter>) returns (status: Status)
      requires InRange(Value()) && Climbable(nodes[..])
      modifies nodes
      ensures (Value(), status) == RenameOf(old(Value()), pid, from, to)
    {
      hide Lookup, OnChain, Rooted, ParentsInUse, PlaceOf;
      if from == [] || to == [] || from[0] != SLASH || to[0] != SLASH { return EINVAL; }
      if from == to { return OK; }
      if from == [SLASH] || to == [SLASH] { return EBUSY; }
      var found := ResolvePath(from);
      if found < 0 { return ENOENT; }
      var i: nat := found;
      var existing := ResolvePath(to);
      if existing >= 0 { return EEXIST; }
      var leaf, parent;
      status, leaf, parent := ResolveParentPath(to);
      if status != OK { return status; }
      PlaceInUse(nodes[..], to);
      ResolvedInUse(nodes[..], from);
      ParentInTable(nodes[..], i);
      if !OwnerAllows(nodes[i], pid) || !OwnerAllows(nodes[nodes[i].parent], pid) || !OwnerAllows(nodes[parent], pid) {
        return EACCES;
      }
      if nodes[i].kind == DIRECTORY {
        var inside := ParentChainContains(parent, i);
        if inside { return EINVAL; }
      }
      nodes[i] := nodes[i].(parent := parent, name := leaf);
      return OK;
    }

    /** runtime_fs_validate. The walk up must stay inside the table: no node in use hangs from one whose
        own parent index is out of range. */
    method Validate() returns (status: Status)
      requires InRange(Value()) && Walkable(nodes[..])
      ensures status == Validated(Value()) && (status == OK <==> WellFormed(Value()))
    {
      hide NodeStatus, SlotStatus, WellFormed;
      ValidatorIsExact(Value());
      if !nodes[0].used || nodes[0].kind != DIRECTORY || nodes[0].parent != 0 || nodes[0].name != ROOT_NAME {
        return EINVAL;
      }
      var index := 1;
      while index < nodes.Length
        invariant 1 <= index <= nodes.Length && NodesStatus(nodes[..], 1) == NodesStatus(nodes[..], index)
      {
        status := ValidateNode(index);
        if status != OK { return; }
        index := index + 1;
      }
      index := 0;
      while index < slots.Length
        invariant 0 <= index <= slots.Length && SlotsStatus(nodes[..], slots[..], 0) == SlotsStatus(nodes[..], slots[..], index)
      {
        status := ValidateSlot(slots[index]);
        if status != OK { return; }
        index := index + 1;
      }
      return OK;
    }

    /** One turn of the first loop of runtime_fs_validate. */
    method ValidateNode(index: nat) returns (status: Status)
      requires index < nodes.Length && Walkable(nodes[..])
      ensures status == NodeStatus(nodes[..], index)
    {
      ghost var table := nodes[..];
      var node := nodes[index];
      if !node.used { return OK; }
      if node.kind != DIRECTORY && node.kind != REGULAR { return EINVAL; }
      if node.name == [] { return EINVAL; }
      if node.parent >= nodes.Length { return EINVAL; }
      if !nodes[node.parent].used || nodes[node.parent].kind != DIRECTORY { return EINVAL; }
      if node.size > FILE_CAPACITY { return EINVAL; }
      var current, depth := index, 0;
      while current != 0
        invariant 0 <= current < nodes.Length && 0 <= depth <= nodes.Length
        invariant table[current].used && table[current].parent < nodes.Length
        invariant ChainOk(table, index, 0) == ChainOk(table, current, depth)
        decreases nodes.Length - depth
      {
        var child := current;
        current := nodes[current].parent;
        depth := depth + 1;
        if depth > nodes.Length { return EINVAL; }
        if !nodes[current].used { return EINVAL; }
        assert table[child].parent == current && table[current].parent < nodes.Length;
      }
      var other := index + 1;
      while other < nodes.Length
        invariant index < other <= nodes.Length && forall j :: index < j < other ==> !Twin(table, index, j)
      {
        var peer := nodes[other];
        if peer.used && peer.parent == node.parent && peer.name == node.name {
          assert Twin(table, index, other);
          return EEXIST;
        }
        other := other + 1;
      }
      return OK;
    }

    /** One turn of its second loop. */
    method ValidateSlot(slot: OpenFile) returns (status: Status)
      ensures status == SlotStatus(nodes[..], slot)
    {
      if !slot.used { return OK; }
      if slot.node >= nodes.Length { return EBADF; }
      var node := nodes[slot.node];
      if !node.used { return EBADF; }
      if node.kind == REGULAR && slot.offset > FILE_CAPACITY { return EINVAL; }
      if node.kind == DIRECTORY && Has(slot.flags, WRITE) { return EISDIR; }
      return OK;
    }
  }

  ghost predicate Walkable(nodes: seq<Node>) {
    forall j :: 0 <= j < |nodes| && nodes[j].used && nodes[j].parent < |nodes| && nodes[nodes[j].parent].used ==>
      nodes[nodes[j].parent].parent < |nodes|
  }

  /** Every node in use hangs from one in use, and the root is above it: what a table that passes the
      validator offers to a walk towards the root. */
  ghost predicate Climbable(nodes: seq<Node>) {
    ParentsInUse(nodes) && forall i :: 0 <= i < |nodes| && nodes[i].used ==> Rooted(nodes, i)
  }

  /** The tables that the code meets: those that pass the validator, the reachable ones among them. */
  lemma ValidIsClimbable(fs: Fs)
    requires WellFormed(fs) || Sound(fs)
    ensures Climbable(fs.nodes)
  {
    hide Tree, EntryFits, NamesDiffer, Rooted;
    if Sound(fs) { SoundIsWellFormed(fs); }
    WellFormedParents(fs.nodes);
    RootRooted(fs.nodes);
  }

  lemma RootRooted(nodes: seq<Node>)
    ensures Rooted(nodes, 0)
  {
    assert Up(nodes, 0, 0) == 0;
  }

  lemma ParentInTable(nodes: seq<Node>, i: nat)
    requires ParentsInUse(nodes) && i < |nodes| && (i == 0 || nodes[i].used)
    ensures nodes[i].parent < |nodes|
  {
  }

  lemma ResolvedInUse(nodes: seq<Node>, path: seq<Letter>)
    requires nodes != []
    ensures Resolved(nodes, path).Some? ==> Resolved(nodes, path).value == 0 || nodes[Resolved(nodes, path).value].used
  {
  }

  lemma {:induction false} PlaceFromInUse(nodes: seq<Node>, at: nat, tokens: Tokens)
    requires at < |nodes| && (at == 0 || nodes[at].used) && PlaceFrom(nodes, at, tokens).Ok?
    ensures PlaceFrom(nodes, at, tokens).value.parent == 0 || nodes[PlaceFrom(nodes, at, tokens).value.parent].used
    decreases |tokens.names|
  {
    if |tokens.names| > 1 {
      PlaceFromInUse(nodes, FsModel.FindChild(nodes, at, tokens.names[0]).value, Tokens(tokens.names[1..], tokens.overlong));
    }
  }

  lemma PlaceInUse(nodes: seq<Node>, path: seq<Letter>)
    requires nodes != [] && PlaceOf(nodes, path).Ok?
    ensures PlaceOf(nodes, path).value.parent == 0 || nodes[PlaceOf(nodes, path).value.parent].used
  {
    PlaceFromInUse(nodes, 0, Tokenize(path));
  }

  /** How many links lead from the node to the root. */
  ghost function Height(nodes: seq<Node>, i: nat): (m: nat)
    requires Climbable(nodes) && i < |nodes| && (i == 0 || nodes[i].used)
    ensures m < |nodes| && Up(nodes, i, m) == 0
  {
    RootRooted(nodes);
    var k: nat :| Up(nodes, i, k) == 0;
    HeightIs(nodes, i, k);
    var m: nat :| m < |nodes| && Up(nodes, i, m) == 0;
    m
  }

  lemma UpIs(nodes: seq<Node>, i: nat, k: nat)
    ensures Up(nodes, i, 0) == i
    ensures Up(nodes, i, k) < |nodes| ==> Up(nodes, i, k + 1) == nodes[Up(nodes, i, k)].parent
  {
  }

  lemma HeightIs(nodes: seq<Node>, i: nat, k: nat)
    requires ParentsInUse(nodes) && i < |nodes| && (i == 0 || nodes[i].used) && Up(nodes, i, k) == 0
    ensures exists m: nat :: m < |nodes| && Up(nodes, i, m) == 0
  {
    hide ParentsInUse;
    if i == 0 {
      assert Up(nodes, i, 0) == 0;
    } else {
      var m := Fewest(nodes, i, k);
      AllAreUsed(nodes, i, m);
      ChainIsShort(nodes, i, m);
    }
  }
}
