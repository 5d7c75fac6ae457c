/** What remove and rename do to the path map, and when they break the tree (kernel/runtime_fs.c). */
module FsChange {
  import opened FsModel
  import opened FsTree
  import opened FsSound

  // ---------------------------------------------------------------- the length of a path

  /** The nodes on the way along a path. */
  ghost function Visited(nodes: seq<Node>, names: seq<Name>): set<nat>
    requires nodes != []
  {
    match Lookup(nodes, names)
    case None => {}
    case Some(at) => {at} + if names == [] then {} else Visited(nodes, names[..|names| - 1])
  }

  lemma {:induction false} VisitedIs(nodes: seq<Node>, names: seq<Name>, at: nat)
    requires Tree(nodes) && AllPlain(names) && at in Visited(nodes, names)
    ensures at < |nodes| && exists k :: 0 <= k <= |names| && Lookup(nodes, names[..k]) == Some(at)
    decreases |names|
  {
    assert names[..|names|] == names;
    if Lookup(nodes, names) != Some(at) {
      var init := names[..|names| - 1];
      VisitedIs(nodes, init, at);
      var k :| 0 <= k <= |init| && Lookup(nodes, init[..k]) == Some(at);
      assert names[..k] == init[..k];
    }
  }

  lemma {:induction false} VisitedCount(nodes: seq<Node>, names: seq<Name>)
    requires Tree(nodes) && AllPlain(names) && Lookup(nodes, names).Some?
    ensures |Visited(nodes, names)| == |names| + 1
    decreases |names|
  {
    if names != [] {
      var init, at := names[..|names| - 1], Lookup(nodes, names).value;
      LookupLast(nodes, names);
      VisitedCount(nodes, init);
      if at in Visited(nodes, init) {
        VisitedIs(nodes, init, at);
        var k :| 0 <= k <= |init| && Lookup(nodes, init[..k]) == Some(at);
        PathIsUnique(nodes, names, init[..k]);
      }
    }
  }

  /** A path has fewer names than the table has nodes. */
  lemma PathIsShort(nodes: seq<Node>, names: seq<Name>)
    requires Tree(nodes) && AllPlain(names) && Lookup(nodes, names).Some?
    ensures |names| < |nodes|
  {
    VisitedCount(nodes, names);
    forall at | at in Visited(nodes, names) ensures at < |nodes| { VisitedIs(nodes, names, at); }
    BelowIsSmall(Visited(nodes, names), |nodes|);
  }

  /** Following the parents of a node meets exactly the nodes along its path; the walk ends. */
  lemma {:induction false} OnChainIs(nodes: seq<Node>, path: seq<Name>, at: nat, target: seq<Name>, i: nat, steps: nat)
    requires Tree(nodes) && AllPlain(path) && Lookup(nodes, path) == Some(at)
    requires AllPlain(target) && target != [] && Lookup(nodes, target) == Some(i) && |path| <= steps
    ensures OnChain(nodes, at, i, steps) <==> Within(path, target)
    decreases |path|
  {
    LookupLast(nodes, target);
    if path != [] {
      LookupLast(nodes, path);
      var init := path[..|path| - 1];
      if at == i {
        PathIsUnique(nodes, path, target);
        assert path[..|path|] == path;
      } else {
        OnChainIs(nodes, init, nodes[at].parent, target, i, steps - 1);
        if Within(init, target) { WithinOfInit(path, target); }
        if Within(path, target) { WithinInit(path, target); }
      }
    }
  }

  // ---------------------------------------------------------------- remove

  /** The path has slashes only, but more than one: it leads to the root without being recognised. */
  predicate SlashesOnly(path: seq<Letter>) {
    IsAbsolute(path) && !IsRoot(path) && Tokenize(path) == Tokens([], false)
  }

  /** When remove clears the root itself. */
  predicate RemovesRoot(fs: Fs, pid: U32, path: seq<Letter>)
    requires fs.nodes != []
  {
    SlashesOnly(path) && OwnerAllows(fs.nodes[0], pid) && !IsOpen(fs.slots, 0) && !HasChildren(fs.nodes, 0)
  }

  /** What a caller can check before removing: the path leads to a node other than the root which it
      may change, which is not open and has no entries. */
  ghost predicate CanRemove(fs: Fs, pid: U32, path: seq<Letter>)
    requires fs.nodes != []
  {
    && IsAbsolute(path) && !Tokenize(path).overlong && NamesOf(path) != []
    && Lookup(fs.nodes, NamesOf(path)).Some?
    && var i := Lookup(fs.nodes, NamesOf(path)).value;
    && OwnerAllows(fs.nodes[i], pid) && ParentAllows(fs.nodes, i, pid)
    && !IsOpen(fs.slots, i) && !HasChildren(fs.nodes, i)
  }

  /** Only directories have entries. */
  lemma FilesHaveNoChildren(fs: Fs, i: nat)
    requires Sound(fs) && i < |fs.nodes| && fs.nodes[i].kind != DIRECTORY
    ensures !HasChildren(fs.nodes, i)
  {
    forall j | 0 <= j < |fs.nodes| && fs.nodes[j].used && j != i ensures fs.nodes[j].parent != i {
      if j > 0 { assert EntryOk(fs.nodes, fs.nodes[j]); }
    }
  }

  lemma DroppedIsSound(fs: Fs, names: seq<Name>, i: nat)
    requires Sound(fs) && i < |fs.nodes| && Drops(fs.nodes, fs.nodes[i := FreeNode()], names, i) && !IsOpen(fs.slots, i)
    ensures Sound(fs.(nodes := fs.nodes[i := FreeNode()]))
  {
    hide Tree, Lookup;
    var nodes' := fs.nodes[i := FreeNode()];
    DroppingKeepsTree(fs.nodes, nodes', names, i);
    forall k | 0 <= k < |fs.slots| ensures SlotOk(nodes', fs.slots[k]) {
      assert SlotOk(fs.nodes, fs.slots[k]);
    }
  }

  /** remove either fails and changes nothing, or clears the root, or deletes exactly one path and one
      node. It clears the root exactly when the path has slashes only and the root has no entries. */
  lemma RemoveDeletesOnePath(fs: Fs, pid: U32, path: seq<Letter>, q: seq<Name>)
    requires Sound(fs) && AllPlain(q)
    ensures var (fs', status) := RemoveOf(fs, pid, path);
      && (status == OK <==> CanRemove(fs, pid, path) || RemovesRoot(fs, pid, path))
      && (status != OK ==> fs' == fs)
      && (CanRemove(fs, pid, path) ==>
            var i := Lookup(fs.nodes, NamesOf(path)).value;
            && fs' == fs.(nodes := fs.nodes[i := FreeNode()])
            && Lookup(fs'.nodes, q) == if q == NamesOf(path) then None else Lookup(fs.nodes, q))
      && (Sound(fs') <==> !RemovesRoot(fs, pid, path))
  {
    hide Sound, Tree, Lookup, HasChildren, IsOpen;
    SoundHasRoot(fs);
    TokensArePlain(path);
    RootIs(fs);
    var (fs', status) := RemoveOf(fs, pid, path);
    if IsAbsolute(path) && !IsRoot(path) && Resolved(fs.nodes, path).Some? {
      var i := Resolved(fs.nodes, path).value;
      if fs.nodes[i].kind != DIRECTORY { FilesHaveNoChildren(fs, i); }
      if status == OK && NamesOf(path) != [] {
        DroppedIsSound(fs, NamesOf(path), i);
        DroppedPath(fs.nodes, fs'.nodes, NamesOf(path), i, q);
      }
      if status == OK && NamesOf(path) == [] {
        ClearedRootIsNotSound(fs, fs');
      }
    }
    if IsRoot(path) { RootHasNoNames(path); }
  }

  lemma RootIs(fs: Fs)
    requires Sound(fs)
    ensures Lookup(fs.nodes, []) == Some(0) && RootOk(fs.nodes[0])
  {
  }

  lemma ClearedRootIsNotSound(fs: Fs, fs': Fs)
    requires fs.nodes != [] && |fs'.nodes| == |fs.nodes| && !RootOk(fs'.nodes[0])
    ensures !Sound(fs')
  {
  }

  // ---------------------------------------------------------------- rename

  /** When rename turns the root into an entry of the tree that hung from it: the old path has slashes
      only, the new one leads to a free place in a directory, and it may change both nodes. */
  ghost predicate RenamesRoot(fs: Fs, pid: U32, from: seq<Letter>, to: seq<Letter>)
    requires fs.nodes != []
  {
    var b := Tokenize(to);
    && SlashesOnly(from) && from != to && IsAbsolute(to) && !b.overlong && b.names != []
    && Lookup(fs.nodes, b.names).None? && OwnerAllows(fs.nodes[0], pid)
    && MayEnter(fs.nodes, Lookup(fs.nodes, b.names[..|b.names| - 1]), pid)
  }

  /** What a caller can check before renaming: the old path leads to a node other than the root, the
      new one to a free place in a directory outside that node, and it may change all three nodes. */
  ghost predicate CanRename(fs: Fs, pid: U32, from: seq<Letter>, to: seq<Letter>)
    requires fs.nodes != []
  {
    var a, b := Tokenize(from), Tokenize(to);
    && IsAbsolute(from) && IsAbsolute(to) && from != to
    && !a.overlong && !b.overlong && a.names != [] && b.names != []
    && Lookup(fs.nodes, a.names).Some? && Lookup(fs.nodes, b.names).None? && !Within(b.names, a.names)
    && MayEnter(fs.nodes, Lookup(fs.nodes, b.names[..|b.names| - 1]), pid)
    && OwnerAllows(fs.nodes[Lookup(fs.nodes, a.names).value], pid)
    && ParentAllows(fs.nodes, Lookup(fs.nodes, a.names).value, pid)
  }

  /** The cycle check is exact: the new parent lies in the subtree of the node exactly when the new
      path continues the old one. A file never contains the new parent. */
  lemma CycleCheckIsExact(fs: Fs, from: seq<Name>, to: seq<Name>, i: nat)
    requires Sound(fs) && AllPlain(from) && AllPlain(to) && from != [] && to != []
    requires Lookup(fs.nodes, from) == Some(i) && Lookup(fs.nodes, to) == None
    requires Lookup(fs.nodes, to[..|to| - 1]).Some? && fs.nodes[Lookup(fs.nodes, to[..|to| - 1]).value].kind == DIRECTORY
    ensures Within(to, from) <==>
            fs.nodes[i].kind == DIRECTORY && OnChain(fs.nodes, Lookup(fs.nodes, to[..|to| - 1]).value, i, |fs.nodes|)
  {
    hide Sound, Tree, Lookup;
    SoundHasRoot(fs);
    var init := to[..|to| - 1];
    var p := Lookup(fs.nodes, init).value;
    PathIsShort(fs.nodes, init);
    OnChainIs(fs.nodes, init, p, from, i, |fs.nodes|);
    if Within(init, from) { WithinOfInit(to, from); }
    if Within(to, from) { WithinInit(to, from); }
    if Within(init, from) {
      if |from| < |init| { PrefixIsDirectory(fs.nodes, init, |from|); } else { assert init[..|init|] == init; }
    }
  }

  lemma MovedIsSound(fs: Fs, from: seq<Name>, to: seq<Name>, i: nat, place: Place)
    requires Sound(fs) && i < |fs.nodes| && place.parent < |fs.nodes|
    requires Moves(fs.nodes, Moved(fs.nodes, i, place), from, to, i)
    ensures Sound(fs.(nodes := Moved(fs.nodes, i, place)))
  {
    hide Tree, Lookup;
    var nodes' := Moved(fs.nodes, i, place);
    MovingKeepsTree(fs.nodes, nodes', from, to, i);
    LookupLast(fs.nodes, from);
    forall k | 0 <= k < |fs.slots| ensures SlotOk(nodes', fs.slots[k]) {
      assert SlotOk(fs.nodes, fs.slots[k]);
    }
  }

  /** rename either fails and changes nothing, or is given one path twice, or breaks the root, or moves
      exactly one subtree: what continued the old path continues the new one, and no other path, no
      contents and no open file changes. It breaks the root exactly when the old path has slashes only and
      nothing else stands in the way. */
  lemma RenameMovesSubtree(fs: Fs, pid: U32, from: seq<Letter>, to: seq<Letter>, q: seq<Name>)
    requires Sound(fs) && AllPlain(q)
    ensures var (fs', status) := RenameOf(fs, pid, from, to);
      && (status == OK <==> (CanRename(fs, pid, from, to) || RenamesRoot(fs, pid, from, to)
                             || (from == to && IsAbsolute(from))))
      && (status != OK || from == to ==> fs' == fs)
      && (CanRename(fs, pid, from, to) ==> (
            && fs' == fs.(nodes := fs'.nodes)
            && Moves(fs.nodes, fs'.nodes, NamesOf(from), NamesOf(to), Lookup(fs.nodes, NamesOf(from)).value)
            && Lookup(fs'.nodes, q) == MovedLookup(fs.nodes, NamesOf(from), NamesOf(to), q)))
      && (Sound(fs') <==> !RenamesRoot(fs, pid, from, to))
  {
    hide Sound, Tree, Lookup, OnChain;
    SoundHasRoot(fs);
    TokensArePlain(from);
    TokensArePlain(to);
    RootIs(fs);
    if IsAbsolute(from) && IsAbsolute(to) && from != to {
      if IsRoot(from) { RootHasNoNames(from); }
      if IsRoot(to) { RootHasNoNames(to); }
      if Resolved(fs.nodes, from).Some? && Resolved(fs.nodes, to).None? && !IsRoot(from) && !IsRoot(to) {
        if NamesOf(from) == [] {
          RenameOfRoot(fs, pid, from, to);
        } else {
          RenameOfEntry(fs, pid, from, to, q);
        }
      }
    }
  }

  lemma RenameOfRoot(fs: Fs, pid: U32, from: seq<Letter>, to: seq<Letter>)
    requires Sound(fs) && SlashesOnly(from) && IsAbsolute(to) && from != to && !IsRoot(to)
    requires Resolved(fs.nodes, to).None?
    ensures var (fs', status) := RenameOf(fs, pid, from, to);
      && (status == OK <==> RenamesRoot(fs, pid, from, to)) && (status != OK ==> fs' == fs)
      && (status == OK ==> !Sound(fs'))
  {
    hide Tree, Lookup;
    RootIs(fs);
    ChainMissesRoot(fs.nodes, |fs.nodes|);
    if NamesOf(to) != [] && !Tokenize(to).overlong { PlaceOfIs(fs.nodes, to); }
    if PlaceOf(fs.nodes, to).Ok? {
      PlaceOfOk(fs.nodes, to);
      var place := PlaceOf(fs.nodes, to).value;
      OffChain(fs.nodes, place.parent, |fs.nodes|);
      assert place.leaf != ROOT_NAME;
      if RenameOf(fs, pid, from, to).1 == OK { ClearedRootIsNotSound(fs, RenameOf(fs, pid, from, to).0); }
    }
  }

  lemma ChainMissesRoot(nodes: seq<Node>, steps: nat)
    requires nodes != []
    ensures !OnChain(nodes, 0, 0, steps)
  {
  }

  lemma {:induction false} OffChain(nodes: seq<Node>, at: nat, steps: nat)
    requires at < |nodes|
    ensures !OnChain(nodes, at, 0, steps)
    decreases steps
  {
    if at != 0 && steps > 0 && nodes[at].parent < |nodes| { OffChain(nodes, nodes[at].parent, steps - 1); }
  }

  lemma RenameOfEntry(fs: Fs, pid: U32, from: seq<Letter>, to: seq<Letter>, q: seq<Name>)
    requires Sound(fs) && AllPlain(q) && IsAbsolute(from) && IsAbsolute(to) && from != to && NamesOf(from) != []
    requires Resolved(fs.nodes, from).Some? && Resolved(fs.nodes, to).None? && !IsRoot(from) && !IsRoot(to)
    ensures var (fs', status) := RenameOf(fs, pid, from, to);
      && (status == OK <==> CanRename(fs, pid, from, to)) && (status != OK ==> fs' == fs) && Sound(fs')
      && (status == OK ==> (
            && fs' == fs.(nodes := fs'.nodes)
            && Moves(fs.nodes, fs'.nodes, NamesOf(from), NamesOf(to), Lookup(fs.nodes, NamesOf(from)).value)
            && Lookup(fs'.nodes, q) == MovedLookup(fs.nodes, NamesOf(from), NamesOf(to), q)))
  {
    hide Sound, Tree, Lookup, OnChain;
    SoundHasRoot(fs);
    TokensArePlain(from);
    TokensArePlain(to);
    var a, b := Tokenize(from), Tokenize(to);
    if b.names != [] && !b.overlong { PlaceOfIs(fs.nodes, to); }
    if PlaceOf(fs.nodes, to).Ok? {
      PlaceOfOk(fs.nodes, to);
      var i, place := Resolved(fs.nodes, from).value, PlaceOf(fs.nodes, to).value;
      CycleCheckIsExact(fs, a.names, b.names, i);
      if !Within(b.names, a.names) {
        MovedIsSound(fs, a.names, b.names, i, place);
        MovedPath(fs.nodes, Moved(fs.nodes, i, place), a.names, b.names, i, q);
      }
    }
  }
}
