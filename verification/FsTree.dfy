/** The node table of the file system as a tree: which tables are sound, and what each operation does
    to the map from paths to nodes. */
module FsTree {
  import opened FsModel

  // ---------------------------------------------------------------- soundness

  predicate RootOk(node: Node) {
    node.used && node.kind == DIRECTORY && node.parent == 0 && node.name == ROOT_NAME
  }

  /** A node other than the root. */
  predicate EntryOk(nodes: seq<Node>, node: Node) {
    && (node.kind == DIRECTORY || node.kind == REGULAR)
    && Plain(node.name)
    && node.parent < |nodes| && nodes[node.parent].used && nodes[node.parent].kind == DIRECTORY
  }

  ghost predicate NamesDiffer(nodes: seq<Node>) {
    forall i, j :: 0 < i < j < |nodes| && nodes[i].used && nodes[j].used && nodes[i].parent == nodes[j].parent ==>
      nodes[i].name != nodes[j].name
  }

  ghost predicate HasPath(nodes: seq<Node>, i: nat)
    requires nodes != []
  {
    exists names :: AllPlain(names) && Lookup(nodes, names) == Some(i)
  }

  /** A rooted tree: every node in use is reached from the root by names. */
  ghost predicate Tree(nodes: seq<Node>) {
    && nodes != [] && RootOk(nodes[0])
    && (forall i :: 0 < i < |nodes| && nodes[i].used ==> EntryOk(nodes, nodes[i]))
    && NamesDiffer(nodes)
    && (forall i :: 0 <= i < |nodes| && nodes[i].used ==> HasPath(nodes, i))
  }

  // ---------------------------------------------------------------- children and paths

  lemma FindChildIs(nodes: seq<Node>, parent: nat, name: Name, i: nat)
    requires Tree(nodes) && Plain(name) && i < |nodes| && IsChild(nodes[i], parent, name)
    ensures FindChild(nodes, parent, name) == Some(i) && i != 0
  {
    assert ROOT_NAME[0] == SLASH;
    var r := FindChild(nodes, parent, name);
    assert r.Some? && IsChild(nodes[r.value], parent, name);
  }

  lemma SameChild(nodes: seq<Node>, parent: nat, name: Name, i: nat, j: nat)
    requires Tree(nodes) && Plain(name) && i < |nodes| && j < |nodes|
    requires IsChild(nodes[i], parent, name) && IsChild(nodes[j], parent, name)
    ensures i == j
  {
    FindChildIs(nodes, parent, name, i);
    FindChildIs(nodes, parent, name, j);
  }

  /** Names lead to a child of where all but the last lead. */
  lemma LookupStep(nodes: seq<Node>, names: seq<Name>, name: Name)
    requires nodes != []
    ensures Lookup(nodes, names + [name]) ==
            match Lookup(nodes, names) { case None => None case Some(at) => FindChild(nodes, at, name) }
  {
    assert (names + [name])[..|names|] == names;
  }

  /** A path to a node continues the path of its parent by its name. */
  lemma LookupLast(nodes: seq<Node>, names: seq<Name>)
    requires Tree(nodes) && AllPlain(names) && Lookup(nodes, names).Some? && names != []
    ensures
      var i := Lookup(nodes, names).value;
      && i != 0 && nodes[i].used && nodes[i].name == names[|names| - 1]
      && Lookup(nodes, names[..|names| - 1]) == Some(nodes[i].parent)
  {
    var i := Lookup(nodes, names).value;
    FindChildIs(nodes, nodes[i].parent, names[|names| - 1], i);
  }

  lemma LookupUsed(nodes: seq<Node>, names: seq<Name>)
    requires Tree(nodes) && AllPlain(names) && Lookup(nodes, names).Some?
    ensures nodes[Lookup(nodes, names).value].used
  {
    if names != [] { LookupLast(nodes, names); }
  }

  /** No two paths lead to the same node. */
  lemma {:induction false} PathIsUnique(nodes: seq<Node>, a: seq<Name>, b: seq<Name>)
    requires Tree(nodes) && AllPlain(a) && AllPlain(b)
    requires Lookup(nodes, a).Some? && Lookup(nodes, a) == Lookup(nodes, b)
    ensures a == b
    decreases |a|
  {
    if a != [] { LookupLast(nodes, a); }
    if b != [] { LookupLast(nodes, b); }
    if a != [] && b != [] {
      PathIsUnique(nodes, a[..|a| - 1], b[..|b| - 1]);
      assert a == a[..|a| - 1] + [a[|a| - 1]] && b == b[..|b| - 1] + [b[|b| - 1]];
    }
  }

  /** What leads somewhere leads through existing nodes. */
  lemma {:induction false} PrefixExists(nodes: seq<Node>, names: seq<Name>, k: nat)
    requires nodes != [] && k <= |names| && Lookup(nodes, names).Some?
    ensures Lookup(nodes, names[..k]).Some?
    decreases |names|
  {
    if k == |names| {
      assert names[..k] == names;
    } else {
      assert names[..|names| - 1][..k] == names[..k];
      PrefixExists(nodes, names[..|names| - 1], k);
    }
  }

  /** Every proper prefix of a path leads to a directory. */
  lemma PrefixIsDirectory(nodes: seq<Node>, names: seq<Name>, k: nat)
    requires Tree(nodes) && AllPlain(names) && k < |names| && Lookup(nodes, names).Some?
    ensures Lookup(nodes, names[..k]).Some? && nodes[Lookup(nodes, names[..k]).value].kind == DIRECTORY
  {
    var next := names[..k + 1];
    PrefixExists(nodes, names, k + 1);
    LookupLast(nodes, next);
    assert next[..k] == names[..k];
  }

  // ---------------------------------------------------------------- fs_resolve_parent_path

  /** The loop finds the directory that all names but the last lead to, and exactly then succeeds. */
  lemma {:induction false} PlaceFromIs(nodes: seq<Node>, done: seq<Name>, at: nat, tokens: Tokens)
    requires Tree(nodes) && AllPlain(done) && AllPlain(tokens.names) && Lookup(nodes, done) == Some(at)
    requires nodes[at].kind == DIRECTORY
    ensures
      var r, names := PlaceFrom(nodes, at, tokens), done + tokens.names;
      && (r.Ok? ==> tokens.names != [] && !tokens.overlong)
      && (tokens.names != [] && !tokens.overlong ==>
            IsPlace(nodes, names, r))
    decreases |tokens.names|
  {
    var names := done + tokens.names;
    if |tokens.names| == 1 {
      assert names[..|names| - 1] == done;
      assert names[|names| - 1] == tokens.names[0];
    } else if tokens.names != [] {
      var next := done + [tokens.names[0]];
      LookupStep(nodes, done, tokens.names[0]);
      assert names == next + tokens.names[1..];
      match FindChild(nodes, at, tokens.names[0])
      case None => NotThere(nodes, done, at, tokens.names);
      case Some(child) =>
        if nodes[child].kind != DIRECTORY {
          NotADirectory(nodes, names, |next|);
        } else {
          PlaceFromIs(nodes, next, child, Tokens(tokens.names[1..], tokens.overlong));
        }
    }
  }

  /** Where an entry of this path would go, when there is such a place. */
  ghost predicate IsPlace(nodes: seq<Node>, names: seq<Name>, r: Result<Place>)
    requires nodes != [] && names != []
  {
    var at := Lookup(nodes, names[..|names| - 1]);
    && (r.Ok? <==> at.Some? && nodes[at.value].kind == DIRECTORY)
    && (r.Ok? ==> r.value == Place(at.value, names[|names| - 1]))
    && (r.Err? ==> r.error == if MeetsFile(nodes, names) then ENOTDIR else ENOENT)
  }

  /** Some name on the way to the last one leads to a node that is not a directory. */
  ghost predicate MeetsFile(nodes: seq<Node>, names: seq<Name>)
    requires nodes != []
  {
    exists k :: 0 < k < |names| && Lookup(nodes, names[..k]).Some? && nodes[Lookup(nodes, names[..k]).value].kind != DIRECTORY
  }

  lemma NotThere(nodes: seq<Node>, done: seq<Name>, at: nat, more: seq<Name>)
    requires Tree(nodes) && AllPlain(done) && Lookup(nodes, done) == Some(at) && nodes[at].kind == DIRECTORY
    requires |more| > 1 && FindChild(nodes, at, more[0]) == None
    ensures IsPlace(nodes, done + more, Err(ENOENT))
  {
    var names, next := done + more, done + [more[0]];
    LookupStep(nodes, done, more[0]);
    forall k | |done| < k <= |names| ensures Lookup(nodes, names[..k]) == None {
      assert names[..k][..|next|] == next;
      if Lookup(nodes, names[..k]).Some? { PrefixExists(nodes, names[..k], |next|); }
    }
    forall k | 0 < k <= |done| ensures Lookup(nodes, names[..k]).Some? && nodes[Lookup(nodes, names[..k]).value].kind == DIRECTORY {
      assert names[..k] == done[..k];
      if k < |done| { PrefixIsDirectory(nodes, done, k); } else { assert names[..k] == done; }
    }
  }

  lemma NotADirectory(nodes: seq<Node>, names: seq<Name>, k: nat)
    requires Tree(nodes) && AllPlain(names) && 0 < k < |names| && Lookup(nodes, names[..k]).Some?
    requires nodes[Lookup(nodes, names[..k]).value].kind != DIRECTORY
    ensures IsPlace(nodes, names, Err(ENOTDIR))
  {
    var init := names[..|names| - 1];
    if Lookup(nodes, init).Some? {
      if k < |init| {
        assert init[..k] == names[..k];
        PrefixIsDirectory(nodes, init, k);
      } else {
        assert init == names[..k];
      }
    }
  }

  lemma PlaceOfIs(nodes: seq<Node>, path: seq<Letter>)
    requires Tree(nodes) && IsAbsolute(path) && NamesOf(path) != [] && !Tokenize(path).overlong
    ensures IsPlace(nodes, NamesOf(path), PlaceOf(nodes, path))
  {
    TokensArePlain(path);
    PlaceFromIs(nodes, [], 0, Tokenize(path));
    assert [] + NamesOf(path) == NamesOf(path);
    assert SkipSlashes([SLASH][1..]) == [];
  }

  lemma PlaceOfOk(nodes: seq<Node>, path: seq<Letter>)
    requires Tree(nodes) && PlaceOf(nodes, path).Ok?
    ensures NamesOf(path) != [] && !Tokenize(path).overlong && AllPlain(NamesOf(path))
    ensures var names, place := NamesOf(path), PlaceOf(nodes, path).value;
      && Lookup(nodes, names[..|names| - 1]) == Some(place.parent) && nodes[place.parent].kind == DIRECTORY
      && place.leaf == names[|names| - 1] && nodes[place.parent].used
  {
    TokensArePlain(path);
    PlaceFromIs(nodes, [], 0, Tokenize(path));
    PlaceOfIs(nodes, path);
    LookupUsed(nodes, NamesOf(path)[..|NamesOf(path)| - 1]);
  }

  // ---------------------------------------------------------------- adding an entry

  /** `nodes'` has one entry more: node `i`, reached by `names`, in a place that was free. */
  ghost predicate Adds(nodes: seq<Node>, nodes': seq<Node>, names: seq<Name>, i: nat) {
    && nodes != [] && names != [] && AllPlain(names) && 0 < i < |nodes| && !nodes[i].used
    && |nodes'| == |nodes| && nodes' == nodes[i := nodes'[i]] && Lookup(nodes, names) == None
    && Lookup(nodes, names[..|names| - 1]) == Some(nodes'[i].parent) && nodes[nodes'[i].parent].kind == DIRECTORY
    && nodes'[i].used && nodes'[i].name == names[|names| - 1]
    && (nodes'[i].kind == DIRECTORY || nodes'[i].kind == REGULAR)
  }

  lemma AddedChild(nodes: seq<Node>, nodes': seq<Node>, names: seq<Name>, i: nat, at: nat, name: Name)
    requires Tree(nodes) && Adds(nodes, nodes', names, i) && Plain(name) && at < |nodes|
    ensures FindChild(nodes', at, name) ==
            if at == i then None
            else if at == nodes'[i].parent && name == names[|names| - 1] then Some(i)
            else FindChild(nodes, at, name)
    ensures at == nodes'[i].parent && name == names[|names| - 1] ==> FindChild(nodes, at, name) == None
  {
    var last := names[|names| - 1];
    assert names == names[..|names| - 1] + [last];
    LookupStep(nodes, names[..|names| - 1], last);
    LookupUsed(nodes, names[..|names| - 1]);
    var r := FindChild(nodes, at, name);
    var r' := FindChild(nodes', at, name);
    forall j | 0 <= j < |nodes| && j != i ensures IsChild(nodes'[j], at, name) == IsChild(nodes[j], at, name) {
      assert nodes'[j] == nodes[j];
    }
    if at == i {
      forall j | 0 <= j < |nodes| ensures !IsChild(nodes'[j], i, name) {
        if j > 0 && j != i && nodes[j].used { assert EntryOk(nodes, nodes[j]); }
      }
    }
  }

  /** The path map gains exactly one path. */
  lemma {:induction false} AddedPath(nodes: seq<Node>, nodes': seq<Node>, names: seq<Name>, i: nat, q: seq<Name>)
    requires Tree(nodes) && Adds(nodes, nodes', names, i) && AllPlain(q)
    ensures Lookup(nodes', q) == if q == names then Some(i) else Lookup(nodes, q)
    decreases |q|
  {
    if q != [] {
      var r, n := q[..|q| - 1], q[|q| - 1];
      assert q == r + [n];
      AddedPath(nodes, nodes', names, i, r);
      if r == names {
        AddedChild(nodes, nodes', names, i, i, n);
        assert q[..|q| - 1] == names;
      } else if Lookup(nodes, r).Some? {
        var at := Lookup(nodes, r).value;
        LookupUsed(nodes, r);
        AddedChild(nodes, nodes', names, i, at, n);
        if at == nodes'[i].parent {
          PathIsUnique(nodes, r, names[..|names| - 1]);
          assert names == names[..|names| - 1] + [names[|names| - 1]];
        }
      }
      if q == names { assert r == names[..|names| - 1]; }
    }
  }

  lemma AddingKeepsTree(nodes: seq<Node>, nodes': seq<Node>, names: seq<Name>, i: nat)
    requires Tree(nodes) && Adds(nodes, nodes', names, i)
    ensures Tree(nodes')
  {
    var init, last := names[..|names| - 1], names[|names| - 1];
    assert names == init + [last];
    LookupStep(nodes, init, last);
    LookupUsed(nodes, init);
    forall j | 0 < j < |nodes'| && nodes'[j].used ensures EntryOk(nodes', nodes'[j]) {
      if j != i { assert EntryOk(nodes, nodes[j]); }
    }
    forall j, k | 0 < j < k < |nodes'| && nodes'[j].used && nodes'[k].used && nodes'[j].parent == nodes'[k].parent
      ensures nodes'[j].name != nodes'[k].name
    {
      var other := if j == i then k else j;
      if j == i || k == i {
        assert !IsChild(nodes[other], nodes'[i].parent, last);
      }
    }
    forall j | 0 <= j < |nodes'| && nodes'[j].used ensures HasPath(nodes', j) {
      if j == i {
        AddedPath(nodes, nodes', names, i, names);
      } else {
        assert HasPath(nodes, j);
        var q :| AllPlain(q) && Lookup(nodes, q) == Some(j);
        AddedPath(nodes, nodes', names, i, q);
      }
    }
  }

  // ---------------------------------------------------------------- removing an entry

  /** `nodes'` lacks node `i`, which `names` led to and which had no entries of its own. */
  ghost predicate Drops(nodes: seq<Node>, nodes': seq<Node>, names: seq<Name>, i: nat) {
    && nodes != [] && names != [] && AllPlain(names) && i < |nodes| && Lookup(nodes, names) == Some(i)
    && !HasChildren(nodes, i) && nodes' == nodes[i := FreeNode()]
  }

  lemma DroppedChild(nodes: seq<Node>, nodes': seq<Node>, names: seq<Name>, i: nat, at: nat, name: Name)
    requires Tree(nodes) && Drops(nodes, nodes', names, i) && Plain(name) && at < |nodes|
    ensures FindChild(nodes', at, name) ==
            if at == nodes[i].parent && name == nodes[i].name then None else FindChild(nodes, at, name)
    ensures FindChild(nodes, i, name) == None
  {
    LookupLast(nodes, names);
    var r := FindChild(nodes, at, name);
    var r' := FindChild(nodes', at, name);
    forall j | 0 <= j < |nodes| && j != i ensures IsChild(nodes'[j], at, name) == IsChild(nodes[j], at, name) {
      assert nodes'[j] == nodes[j];
    }
    if at == nodes[i].parent && name == nodes[i].name {
      forall j | 0 <= j < |nodes| ensures !IsChild(nodes'[j], at, name) {
        if IsChild(nodes[j], at, name) { SameChild(nodes, at, name, i, j); }
      }
    }
    forall j | 0 <= j < |nodes| ensures !IsChild(nodes[j], i, name) {
      if j == i && IsChild(nodes[i], i, name) { SelfParent(nodes, names, i); }
    }
  }

  /** Only the root is its own parent. */
  lemma SelfParent(nodes: seq<Node>, names: seq<Name>, i: nat)
    requires Tree(nodes) && AllPlain(names) && Lookup(nodes, names) == Some(i) && nodes[i].parent == i
    ensures i == 0
  {
    if names != [] {
      LookupLast(nodes, names);
      PathIsUnique(nodes, names, names[..|names| - 1]);
    }
  }

  /** The path map loses exactly one path. */
  lemma {:induction false} DroppedPath(nodes: seq<Node>, nodes': seq<Node>, names: seq<Name>, i: nat, q: seq<Name>)
    requires Tree(nodes) && Drops(nodes, nodes', names, i) && AllPlain(q)
    ensures Lookup(nodes', q) == if q == names then None else Lookup(nodes, q)
    decreases |q|
  {
    LookupLast(nodes, names);
    if q != [] {
      var r, n := q[..|q| - 1], q[|q| - 1];
      DroppedPath(nodes, nodes', names, i, r);
      if Lookup(nodes, r).Some? {
        var at := Lookup(nodes, r).value;
        DroppedChild(nodes, nodes', names, i, at, n);
        if at == nodes[i].parent && n == nodes[i].name {
          PathIsUnique(nodes, r, names[..|names| - 1]);
          assert q == r + [n] && names == names[..|names| - 1] + [names[|names| - 1]];
        }
      }
    }
  }

  lemma DroppingKeepsTree(nodes: seq<Node>, nodes': seq<Node>, names: seq<Name>, i: nat)
    requires Tree(nodes) && Drops(nodes, nodes', names, i)
    ensures Tree(nodes')
  {
    LookupLast(nodes, names);
    forall j | 0 < j < |nodes'| && nodes'[j].used ensures EntryOk(nodes', nodes'[j]) {
      assert EntryOk(nodes, nodes[j]);
    }
    forall j | 0 <= j < |nodes'| && nodes'[j].used ensures HasPath(nodes', j) {
      assert HasPath(nodes, j);
      var q :| AllPlain(q) && Lookup(nodes, q) == Some(j);
      DroppedPath(nodes, nodes', names, i, q);
    }
  }

  // ---------------------------------------------------------------- moving a subtree

  predicate Within(names: seq<Name>, prefix: seq<Name>) {
    |prefix| <= |names| && names[..|prefix|] == prefix
  }

  /** Where `q` leads once the subtree at `from` has become the subtree at `to`. */
  function MovedLookup(nodes: seq<Node>, from: seq<Name>, to: seq<Name>, q: seq<Name>): Option<nat>
    requires nodes != []
  {
    if Within(q, to) then Lookup(nodes, from + q[|to|..])
    else if Within(q, from) then None
    else Lookup(nodes, q)
  }

  /** `nodes'` has node `i` of path `from` at the free place `to`, which is not inside the node. */
  ghost predicate Moves(nodes: seq<Node>, nodes': seq<Node>, from: seq<Name>, to: seq<Name>, i: nat) {
    && nodes != [] && |nodes| <= UINT32 && from != [] && to != [] && AllPlain(from) && AllPlain(to) && i < |nodes|
    && Lookup(nodes, from) == Some(i) && Lookup(nodes, to) == None && !Within(to, from)
    && Lookup(nodes, to[..|to| - 1]).Some?
    && nodes[Lookup(nodes, to[..|to| - 1]).value].kind == DIRECTORY
    && nodes' == Moved(nodes, i, Place(Lookup(nodes, to[..|to| - 1]).value, to[|to| - 1]))
  }

  lemma MovedChild(nodes: seq<Node>, nodes': seq<Node>, from: seq<Name>, to: seq<Name>, i: nat, at: nat, name: Name)
    requires Tree(nodes) && Moves(nodes, nodes', from, to, i) && Plain(name) && at < |nodes|
    ensures FindChild(nodes', at, name) ==
            if Lookup(nodes, to[..|to| - 1]) == Some(at) && name == to[|to| - 1] then Some(i)
            else if at == nodes[i].parent && name == nodes[i].name then None
            else FindChild(nodes, at, name)
  {
    hide Tree, Lookup;
    LookupLast(nodes, from);
    var p, leaf := Lookup(nodes, to[..|to| - 1]).value, to[|to| - 1];
    assert to == to[..|to| - 1] + [leaf];
    LookupStep(nodes, to[..|to| - 1], leaf);
    var r, r' := FindChild(nodes, at, name), FindChild(nodes', at, name);
    forall j | 0 <= j < |nodes| && j != i ensures IsChild(nodes'[j], at, name) == IsChild(nodes[j], at, name) {
      assert nodes'[j] == nodes[j];
    }
    if at == p && name == leaf {
      assert IsChild(nodes'[i], at, name);
    } else if at == nodes[i].parent && name == nodes[i].name {
      forall j | 0 <= j < |nodes| ensures !IsChild(nodes'[j], at, name) {
        if IsChild(nodes[j], at, name) { SameChild(nodes, at, name, i, j); }
      }
    }
  }

  /** The whole subtree moves, and nothing else does. */
  lemma {:induction false} MovedPath(nodes: seq<Node>, nodes': seq<Node>, from: seq<Name>, to: seq<Name>, i: nat, q: seq<Name>)
    requires Tree(nodes) && Moves(nodes, nodes', from, to, i) && AllPlain(q)
    ensures Lookup(nodes', q) == MovedLookup(nodes, from, to, q)
    decreases |q|
  {
    hide Tree, FindChild;
    if q != [] {
      var r, n := q[..|q| - 1], q[|q| - 1];
      assert q == r + [n];
      assert nodes' != [];
      MovedPath(nodes, nodes', from, to, i, r);
      LookupStep(nodes', r, n);
      if Within(r, to) {
        MovedInside(nodes, nodes', from, to, i, r, n);
      } else if q == to {
        MovedHere(nodes, nodes', from, to, i);
      } else {
        if Within(q, to) { WithinInit(q, to); }
        MovedElsewhere(nodes, nodes', from, to, i, r, n);
      }
    }
  }

  lemma WithinOfInit(q: seq<Name>, prefix: seq<Name>)
    requires q != [] && Within(q[..|q| - 1], prefix)
    ensures Within(q, prefix)
  {
    assert q[..|q| - 1][..|prefix|] == q[..|prefix|];
  }

  lemma WithinInit(q: seq<Name>, prefix: seq<Name>)
    requires q != [] && Within(q, prefix) && q != prefix
    ensures Within(q[..|q| - 1], prefix)
  {
    assert q[..|q|] == q;
    assert q[..|q| - 1][..|prefix|] == q[..|prefix|];
  }

  /** Below the new place. */
  lemma MovedInside(nodes: seq<Node>, nodes': seq<Node>, from: seq<Name>, to: seq<Name>, i: nat, r: seq<Name>, n: Name)
    requires Tree(nodes) && Moves(nodes, nodes', from, to, i) && AllPlain(r) && Plain(n) && Within(r, to)
    requires Lookup(nodes', r) == MovedLookup(nodes, from, to, r)
    ensures match Lookup(nodes', r) {
        case None => None
        case Some(at) => FindChild(nodes', at, n)
      } == MovedLookup(nodes, from, to, r + [n])
  {
    hide Tree, Lookup, FindChild, Moved;
    var below := from + r[|to|..];
    assert (r + [n])[..|to|] == r[..|to|] && (r + [n])[|to|..] == r[|to|..] + [n];
    assert from + (r + [n])[|to|..] == below + [n];
    LookupStep(nodes, below, n);
    if Lookup(nodes, below).Some? {
      var at := Lookup(nodes, below).value;
      MovedChild(nodes, nodes', from, to, i, at, n);
      if Lookup(nodes, to[..|to| - 1]) == Some(at) {
        PathIsUnique(nodes, below, to[..|to| - 1]);
        WithinOfInit(to, from);
      }
      if at == nodes[i].parent {
        LookupLast(nodes, from);
        PathIsUnique(nodes, below, from[..|from| - 1]);
      }
    }
  }

  /** At the new place. */
  lemma MovedHere(nodes: seq<Node>, nodes': seq<Node>, from: seq<Name>, to: seq<Name>, i: nat)
    requires Tree(nodes) && Moves(nodes, nodes', from, to, i)
    requires Lookup(nodes', to[..|to| - 1]) == MovedLookup(nodes, from, to, to[..|to| - 1])
    ensures Lookup(nodes', to) == MovedLookup(nodes, from, to, to) == Some(i)
  {
    var init := to[..|to| - 1];
    assert from + to[|to|..] == from;
    if Within(init, from) { WithinOfInit(to, from); }
    MovedChild(nodes, nodes', from, to, i, Lookup(nodes, init).value, to[|to| - 1]);
  }

  /** Anywhere that is not at or below the new place. */
  lemma MovedElsewhere(nodes: seq<Node>, nodes': seq<Node>, from: seq<Name>, to: seq<Name>, i: nat, r: seq<Name>, n: Name)
    requires Tree(nodes) && Moves(nodes, nodes', from, to, i) && AllPlain(r) && Plain(n)
    requires !Within(r, to) && r + [n] != to && !Within(r + [n], to)
    requires Lookup(nodes', r) == MovedLookup(nodes, from, to, r)
    ensures match Lookup(nodes', r) {
        case None => None
        case Some(at) => FindChild(nodes', at, n)
      } == MovedLookup(nodes, from, to, r + [n])
  {
    hide Tree, Lookup, FindChild, Moved;
    var q := r + [n];
    assert q[..|q| - 1] == r;
    LookupLast(nodes, from);
    if Within(r, from) {
      assert q[..|from|] == r[..|from|];
    } else {
      LookupStep(nodes, r, n);
      if Lookup(nodes, r).Some? {
        var at := Lookup(nodes, r).value;
        MovedChild(nodes, nodes', from, to, i, at, n);
        if Lookup(nodes, to[..|to| - 1]) == Some(at) {
          PathIsUnique(nodes, r, to[..|to| - 1]);
          assert to == to[..|to| - 1] + [to[|to| - 1]];
        }
        if at == nodes[i].parent && n == nodes[i].name {
          PathIsUnique(nodes, r, from[..|from| - 1]);
          assert from == from[..|from| - 1] + [from[|from| - 1]];
        }
        if Within(q, from) {
          if q != from { WithinInit(q, from); }
        }
      } else if Within(q, from) && q != from {
        WithinInit(q, from);
      }
    }
  }

  lemma MovingKeepsNames(nodes: seq<Node>, nodes': seq<Node>, from: seq<Name>, to: seq<Name>, i: nat)
    requires Tree(nodes) && Moves(nodes, nodes', from, to, i)
    ensures NamesDiffer(nodes')
  {
    hide Lookup, HasPath;
    var init, leaf := to[..|to| - 1], to[|to| - 1];
    var p := Lookup(nodes, init).value;
    assert to == init + [leaf];
    LookupStep(nodes, init, leaf);
    forall j, k | 0 < j < k < |nodes'| && nodes'[j].used && nodes'[k].used && nodes'[j].parent == nodes'[k].parent
      ensures nodes'[j].name != nodes'[k].name
    {
      var other := if j == i then k else j;
      if j == i || k == i {
        assert !IsChild(nodes[other], p, leaf);
      }
    }
  }

  lemma MovingKeepsTree(nodes: seq<Node>, nodes': seq<Node>, from: seq<Name>, to: seq<Name>, i: nat)
    requires Tree(nodes) && Moves(nodes, nodes', from, to, i)
    ensures Tree(nodes')
  {
    hide Lookup, HasPath, NamesDiffer;
    var init := to[..|to| - 1];
    LookupLast(nodes, from);
    LookupUsed(nodes, init);
    forall j | 0 < j < |nodes'| && nodes'[j].used ensures EntryOk(nodes', nodes'[j]) {
      assert EntryOk(nodes, nodes[j]);
    }
    MovingKeepsNames(nodes, nodes', from, to, i);
    forall j | 0 <= j < |nodes'| && nodes'[j].used ensures HasPath(nodes', j) {
      assert HasPath(nodes, j);
      MovedHasPath(nodes, nodes', from, to, i, j);
    }
  }

  lemma MovedHasPath(nodes: seq<Node>, nodes': seq<Node>, from: seq<Name>, to: seq<Name>, i: nat, j: nat)
    requires Tree(nodes) && Moves(nodes, nodes', from, to, i) && HasPath(nodes, j)
    ensures HasPath(nodes', j)
  {
    hide Tree, Lookup, FindChild;
    var q :| AllPlain(q) && Lookup(nodes, q) == Some(j);
    var q' := if Within(q, from) then to + q[|from|..] else q;
    MovedPath(nodes, nodes', from, to, i, q');
    if Within(q, from) {
      assert q'[..|to|] == to && q'[|to|..] == q[|from|..];
      assert q == from + q[|from|..];
    } else if Within(q, to) {
      PrefixExists(nodes, q, |to|);
    }
  }

  /** A set of naturals below `n` has at most `n` members. */
  lemma {:induction false} BelowIsSmall(s: set<nat>, n: nat)
    requires forall x :: x in s ==> x < n
    ensures |s| <= n
  {
    if n == 0 {
      assert s == {};
    } else {
      BelowIsSmall(s - {n - 1}, n - 1);
    }
  }
}
