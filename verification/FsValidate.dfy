/** The runtime validator of the file system (kernel/runtime_fs.c) accepts exactly the well-formed
    tables: rooted trees with sound open slots. */
module FsValidate {
  import opened FsModel
  import opened FsTree
  import opened FsSound

  // ---------------------------------------------------------------- what a well-formed table is

  /** The node `k` parents above node `i`. */
  function Up(nodes: seq<Node>, i: nat, k: nat): nat {
    if k == 0 then i
    else
      var at := Up(nodes, i, k - 1);
      if at < |nodes| then nodes[at].parent else at
  }

  /** The root is above the node, however far: there is no cycle on the way. */
  ghost predicate Rooted(nodes: seq<Node>, i: nat) {
    exists k: nat :: Up(nodes, i, k) == 0
  }

  predicate EntryFits(nodes: seq<Node>, node: Node) {
    && (node.kind == DIRECTORY || node.kind == REGULAR) && node.name != []
    && node.parent < |nodes| && nodes[node.parent].used && nodes[node.parent].kind == DIRECTORY
    && node.size <= FILE_CAPACITY
  }

  predicate SlotFits(nodes: seq<Node>, slot: OpenFile) {
    slot.used ==>
      && slot.node < |nodes| && nodes[slot.node].used
      && (nodes[slot.node].kind == REGULAR ==> slot.offset <= FILE_CAPACITY)
      && (nodes[slot.node].kind == DIRECTORY ==> !Has(slot.flags, WRITE))
  }

  ghost predicate WellFormedTree(nodes: seq<Node>) {
    && nodes != [] && RootOk(nodes[0]) && NamesDiffer(nodes)
    && (forall i :: 0 < i < |nodes| && nodes[i].used ==> EntryFits(nodes, nodes[i]))
    && (forall i :: 0 < i < |nodes| && nodes[i].used ==> Rooted(nodes, i))
  }

  ghost predicate WellFormed(fs: Fs) {
    WellFormedTree(fs.nodes) && forall k :: 0 <= k < |fs.slots| ==> SlotFits(fs.nodes, fs.slots[k])
  }

  // ---------------------------------------------------------------- what the validator does

  /** The walk to the root from `at`, after `depth` links. */
  predicate ChainOk(nodes: seq<Node>, at: nat, depth: nat)
    requires at < |nodes| && depth <= |nodes|
    decreases |nodes| - depth
  {
    at == 0
    || (var next := nodes[at].parent;
        next < |nodes| && depth < |nodes| && nodes[next].used && ChainOk(nodes, next, depth + 1))
  }

  predicate Twin(nodes: seq<Node>, i: nat, j: nat)
    requires i < |nodes| && j < |nodes|
  {
    nodes[j].used && nodes[j].parent == nodes[i].parent && nodes[j].name == nodes[i].name
  }

  predicate HasTwin(nodes: seq<Node>, i: nat)
    requires i < |nodes|
  {
    exists j :: i < j < |nodes| && Twin(nodes, i, j)
  }

  function NodeStatus(nodes: seq<Node>, i: nat): Status
    requires i < |nodes|
  {
    if !nodes[i].used then OK
    else if !EntryFits(nodes, nodes[i]) || !ChainOk(nodes, i, 0) then EINVAL
    else if HasTwin(nodes, i) then EEXIST
    else OK
  }

  function NodesStatus(nodes: seq<Node>, from: nat): Status
    requires from <= |nodes|
    decreases |nodes| - from
  {
    if from == |nodes| then OK
    else if NodeStatus(nodes, from) != OK then NodeStatus(nodes, from)
    else NodesStatus(nodes, from + 1)
  }

  function SlotStatus(nodes: seq<Node>, slot: OpenFile): Status {
    if !slot.used then OK
    else if slot.node >= |nodes| || !nodes[slot.node].used then EBADF
    else if nodes[slot.node].kind == REGULAR && slot.offset > FILE_CAPACITY then EINVAL
    else if nodes[slot.node].kind == DIRECTORY && Has(slot.flags, WRITE) then EISDIR
    else OK
  }

  function SlotsStatus(nodes: seq<Node>, slots: seq<OpenFile>, from: nat): Status
    requires from <= |slots|
    decreases |slots| - from
  {
    if from == |slots| then OK
    else if SlotStatus(nodes, slots[from]) != OK then SlotStatus(nodes, slots[from])
    else SlotsStatus(nodes, slots, from + 1)
  }

  /** runtime_fs_validate. */
  function Validated(fs: Fs): Status
    requires fs.nodes != []
  {
    if !RootOk(fs.nodes[0]) then EINVAL
    else if NodesStatus(fs.nodes, 1) != OK then NodesStatus(fs.nodes, 1)
    else SlotsStatus(fs.nodes, fs.slots, 0)
  }

  // ---------------------------------------------------------------- parent chains

  lemma {:induction false} UpFrom(nodes: seq<Node>, i: nat, a: nat, b: nat)
    ensures Up(nodes, i, a + b) == Up(nodes, Up(nodes, i, a), b)
    decreases b
  {
    if b > 0 { UpFrom(nodes, i, a, b - 1); }
  }

  /** The fewest links to the root. */
  lemma {:induction false} Fewest(nodes: seq<Node>, i: nat, k: nat) returns (m: nat)
    requires Up(nodes, i, k) == 0
    ensures m <= k && Up(nodes, i, m) == 0 && forall j :: 0 <= j < m ==> Up(nodes, i, j) != 0
    decreases k
  {
    if j :| 0 <= j < k && Up(nodes, i, j) == 0 {
      m := Fewest(nodes, i, j);
    } else {
      m := k;
    }
  }

  ghost function Above(nodes: seq<Node>, i: nat, m: nat): set<nat> {
    {Up(nodes, i, m)} + if m == 0 then {} else Above(nodes, i, m - 1)
  }

  lemma {:induction false} AboveIs(nodes: seq<Node>, i: nat, m: nat, at: nat)
    requires at in Above(nodes, i, m)
    ensures exists j :: 0 <= j <= m && Up(nodes, i, j) == at
  {
    if at != Up(nodes, i, m) { AboveIs(nodes, i, m - 1, at); }
  }

  /** On the shortest way to the root no node is met twice. */
  lemma {:induction false} AboveCount(nodes: seq<Node>, i: nat, m: nat, k: nat)
    requires k <= m && Up(nodes, i, m) == 0 && forall j :: 0 <= j < m ==> Up(nodes, i, j) != 0
    ensures |Above(nodes, i, k)| == k + 1
    decreases k
  {
    if k > 0 {
      AboveCount(nodes, i, m, k - 1);
      if Up(nodes, i, k) in Above(nodes, i, k - 1) {
        AboveIs(nodes, i, k - 1, Up(nodes, i, k));
        var j :| 0 <= j <= k - 1 && Up(nodes, i, j) == Up(nodes, i, k);
        UpFrom(nodes, i, k, m - k);
        UpFrom(nodes, i, j, m - k);
      }
    }
  }

  /** Every node in use hangs from a node in use. */
  ghost predicate ParentsInUse(nodes: seq<Node>) {
    && nodes != [] && nodes[0].parent == 0
    && forall i :: 0 <= i < |nodes| && nodes[i].used ==> nodes[i].parent < |nodes| && nodes[nodes[i].parent].used
  }

  lemma WellFormedParents(nodes: seq<Node>)
    requires WellFormedTree(nodes)
    ensures ParentsInUse(nodes)
  {
    forall i | 0 <= i < |nodes| && nodes[i].used ensures nodes[i].parent < |nodes| && nodes[nodes[i].parent].used {
      if i > 0 { assert EntryFits(nodes, nodes[i]); }
    }
  }

  lemma {:induction false} UpInTable(nodes: seq<Node>, i: nat, k: nat)
    requires ParentsInUse(nodes) && i < |nodes| && nodes[i].used
    ensures Up(nodes, i, k) < |nodes| && nodes[Up(nodes, i, k)].used
    decreases k
  {
    if k > 0 { UpInTable(nodes, i, k - 1); }
  }

  /** The nodes up to the `m`th above node `i` are in use. */
  ghost predicate UsedAbove(nodes: seq<Node>, i: nat, m: nat) {
    forall j :: 0 <= j <= m ==> Up(nodes, i, j) < |nodes| && nodes[Up(nodes, i, j)].used
  }

  lemma AllAreUsed(nodes: seq<Node>, i: nat, m: nat)
    requires ParentsInUse(nodes) && i < |nodes| && nodes[i].used
    ensures UsedAbove(nodes, i, m)
  {
    forall j | 0 <= j <= m ensures Up(nodes, i, j) < |nodes| && nodes[Up(nodes, i, j)].used { UpInTable(nodes, i, j); }
  }

  /** The depth limit is exact: the shortest way to the root has fewer links than there are nodes. */
  lemma ChainIsShort(nodes: seq<Node>, i: nat, m: nat)
    requires i < |nodes| && UsedAbove(nodes, i, m)
    requires Up(nodes, i, m) == 0 && forall j :: 0 <= j < m ==> Up(nodes, i, j) != 0
    ensures m < |nodes|
  {
    AboveCount(nodes, i, m, m);
    forall at | at in Above(nodes, i, m) ensures at < |nodes| {
      AboveIs(nodes, i, m, at);
    }
    BelowIsSmall(Above(nodes, i, m), |nodes|);
  }

  lemma {:induction false} ChainOkIsRooted(nodes: seq<Node>, at: nat, depth: nat) returns (k: nat)
    requires at < |nodes| && nodes[at].used && depth <= |nodes| && ChainOk(nodes, at, depth)
    ensures Up(nodes, at, k) == 0 && UsedAbove(nodes, at, k)
    decreases |nodes| - depth
  {
    if at == 0 {
      k := 0;
    } else {
      var next := nodes[at].parent;
      var k' := ChainOkIsRooted(nodes, next, depth + 1);
      k := k' + 1;
      forall j | 0 <= j <= k' ensures Up(nodes, at, j + 1) == Up(nodes, next, j) {
        UpFrom(nodes, at, 1, j);
        assert Up(nodes, at, 0) == at && Up(nodes, at, 1) == next;
      }
      forall j | 0 <= j <= k ensures Up(nodes, at, j) < |nodes| && nodes[Up(nodes, at, j)].used {
        if j > 0 { assert Up(nodes, at, (j - 1) + 1) == Up(nodes, next, j - 1); }
      }
    }
  }

  lemma {:induction false} RootedIsChainOk(nodes: seq<Node>, i: nat, m: nat, depth: nat)
    requires i < |nodes| && UsedAbove(nodes, i, m) && depth <= m < |nodes|
    requires Up(nodes, i, m) == 0 && forall j :: 0 <= j < m ==> Up(nodes, i, j) != 0
    ensures Up(nodes, i, depth) < |nodes| && ChainOk(nodes, Up(nodes, i, depth), depth)
    decreases m - depth
  {
    if depth < m { RootedIsChainOk(nodes, i, m, depth + 1); }
  }

  /** The walk succeeds exactly when the root is above the node and every node on the way is in use. */
  lemma ChainOkExactly(nodes: seq<Node>, i: nat)
    requires i < |nodes| && nodes[i].used
    ensures ChainOk(nodes, i, 0) <==> exists k: nat :: Up(nodes, i, k) == 0 && UsedAbove(nodes, i, k)
  {
    hide ChainOk;
    if ChainOk(nodes, i, 0) { var k := ChainOkIsRooted(nodes, i, 0); }
    if k: nat :| Up(nodes, i, k) == 0 && UsedAbove(nodes, i, k) {
      var m := Fewest(nodes, i, k);
      ChainIsShort(nodes, i, m);
      RootedIsChainOk(nodes, i, m, 0);
      assert Up(nodes, i, 0) == i;
    }
  }

  lemma WalkIsRooted(nodes: seq<Node>, i: nat)
    requires i < |nodes| && nodes[i].used && ChainOk(nodes, i, 0)
    ensures Rooted(nodes, i)
  {
    ChainOkExactly(nodes, i);
  }

  // ---------------------------------------------------------------- the validator is exact

  lemma {:induction false} NodesStatusIs(nodes: seq<Node>, from: nat)
    requires from <= |nodes|
    ensures NodesStatus(nodes, from) == OK <==> forall i :: from <= i < |nodes| ==> NodeStatus(nodes, i) == OK
    decreases |nodes| - from
  {
    if from < |nodes| { NodesStatusIs(nodes, from + 1); }
  }

  lemma {:induction false} SlotsStatusIs(nodes: seq<Node>, slots: seq<OpenFile>, from: nat)
    requires from <= |slots|
    ensures SlotsStatus(nodes, slots, from) == OK <==> forall k :: from <= k < |slots| ==> SlotFits(nodes, slots[k])
    decreases |slots| - from
  {
    if from < |slots| { SlotsStatusIs(nodes, slots, from + 1); }
  }

  lemma AcceptedIsWellFormed(nodes: seq<Node>)
    requires nodes != [] && RootOk(nodes[0]) && forall i :: 1 <= i < |nodes| ==> NodeStatus(nodes, i) == OK
    ensures WellFormedTree(nodes)
  {
    hide ChainOk;
    forall i | 0 < i < |nodes| && nodes[i].used ensures EntryFits(nodes, nodes[i]) && Rooted(nodes, i) {
      assert NodeStatus(nodes, i) == OK;
      ChainOkExactly(nodes, i);
    }
    forall i, j | 0 < i < j < |nodes| && nodes[i].used && nodes[j].used && nodes[i].parent == nodes[j].parent
      ensures nodes[i].name != nodes[j].name
    {
      assert NodeStatus(nodes, i) == OK && !Twin(nodes, i, j);
    }
  }

  lemma WellFormedIsAccepted(nodes: seq<Node>, i: nat)
    requires WellFormedTree(nodes) && 0 < i < |nodes|
    ensures NodeStatus(nodes, i) == OK
  {
    if nodes[i].used {
      WellFormedParents(nodes);
      RootedPassesWalk(nodes, i);
      assert EntryFits(nodes, nodes[i]);
    }
  }

  lemma RootedPassesWalk(nodes: seq<Node>, i: nat)
    requires ParentsInUse(nodes) && i < |nodes| && nodes[i].used && Rooted(nodes, i)
    ensures ChainOk(nodes, i, 0)
  {
    var k: nat :| Up(nodes, i, k) == 0;
    AllAreUsed(nodes, i, k);
    ChainOkExactly(nodes, i);
  }

  /** runtime_fs_validate returns OK exactly for a well-formed table. */
  lemma ValidatorIsExact(fs: Fs)
    requires fs.nodes != []
    ensures Validated(fs) == OK <==> WellFormed(fs)
  {
    hide NodeStatus, EntryFits, Rooted, SlotFits;
    NodesStatusIs(fs.nodes, 1);
    SlotsStatusIs(fs.nodes, fs.slots, 0);
    if RootOk(fs.nodes[0]) && NodesStatus(fs.nodes, 1) == OK { AcceptedIsWellFormed(fs.nodes); }
    if WellFormed(fs) {
      forall i | 1 <= i < |fs.nodes| ensures NodeStatus(fs.nodes, i) == OK { WellFormedIsAccepted(fs.nodes, i); }
    }
  }

  // ---------------------------------------------------------------- the validator and the invariant

  /** A path of a node is a way up to the root. */
  lemma {:induction false} PathIsRooted(nodes: seq<Node>, i: nat, names: seq<Name>)
    requires Tree(nodes) && AllPlain(names) && Lookup(nodes, names) == Some(i)
    ensures Rooted(nodes, i)
    decreases |names|
  {
    if names == [] {
      assert Up(nodes, i, 0) == 0;
    } else {
      LookupLast(nodes, names);
      PathIsRooted(nodes, nodes[i].parent, names[..|names| - 1]);
      var k: nat :| Up(nodes, nodes[i].parent, k) == 0;
      UpFrom(nodes, i, 1, k);
      assert Up(nodes, i, 0) == i && Up(nodes, i, 1) == nodes[i].parent;
    }
  }

  /** Every reachable file system passes its own validator. */
  lemma SoundIsWellFormed(fs: Fs)
    requires Sound(fs)
    ensures WellFormed(fs) && Validated(fs) == OK
  {
    hide Lookup;
    forall i | 0 < i < |fs.nodes| && fs.nodes[i].used ensures EntryFits(fs.nodes, fs.nodes[i]) && Rooted(fs.nodes, i) {
      assert EntryOk(fs.nodes, fs.nodes[i]) && NodeOk(fs.nodes[i]) && HasPath(fs.nodes, i);
      var names :| AllPlain(names) && Lookup(fs.nodes, names) == Some(i);
      PathIsRooted(fs.nodes, i, names);
    }
    forall k | 0 <= k < |fs.slots| ensures SlotFits(fs.nodes, fs.slots[k]) {
      assert SlotOk(fs.nodes, fs.slots[k]);
    }
    ValidatorIsExact(fs);
  }

  ghost predicate NamesArePlain(nodes: seq<Node>) {
    forall i :: 0 < i < |nodes| && nodes[i].used ==> Plain(nodes[i].name)
  }

  lemma {:induction false} RootedHasPath(nodes: seq<Node>, i: nat, k: nat)
    requires WellFormedTree(nodes) && NamesArePlain(nodes) && i < |nodes| && nodes[i].used && Up(nodes, i, k) == 0
    ensures HasPath(nodes, i)
    decreases k
  {
    if i == 0 {
      assert AllPlain([]) && Lookup(nodes, []) == Some(0);
    } else {
      assert k > 0;
      var p := nodes[i].parent;
      assert EntryFits(nodes, nodes[i]);
      UpFrom(nodes, i, 1, k - 1);
      assert Up(nodes, i, 0) == i && Up(nodes, i, 1) == p;
      RootedHasPath(nodes, p, k - 1);
      var names :| AllPlain(names) && Lookup(nodes, names) == Some(p);
      OnlyChild(nodes, i);
      LookupStep(nodes, names, nodes[i].name);
      assert AllPlain(names + [nodes[i].name]);
    }
  }

  lemma OnlyChild(nodes: seq<Node>, i: nat)
    requires nodes != [] && RootOk(nodes[0]) && NamesDiffer(nodes) && 0 < i < |nodes| && nodes[i].used && Plain(nodes[i].name)
    ensures FindChild(nodes, nodes[i].parent, nodes[i].name) == Some(i)
  {
    assert ROOT_NAME[0] == SLASH;
    assert IsChild(nodes[i], nodes[i].parent, nodes[i].name);
  }

  /** A table that passes the validator and whose names could be spelled in a path is a tree in the
      sense of the path map. */
  lemma WellFormedIsTree(nodes: seq<Node>)
    requires WellFormedTree(nodes) && NamesArePlain(nodes)
    ensures Tree(nodes)
  {
    hide Lookup;
    forall i | 0 <= i < |nodes| && nodes[i].used ensures HasPath(nodes, i) {
      if i == 0 { assert Up(nodes, i, 0) == 0; }
      assert Rooted(nodes, i);
      var k: nat :| Up(nodes, i, k) == 0;
      RootedHasPath(nodes, i, k);
    }
    forall i | 0 < i < |nodes| && nodes[i].used ensures EntryOk(nodes, nodes[i]) {
      assert EntryFits(nodes, nodes[i]);
    }
  }
}
