/** The scheduler's red-black ready queue over parallel arrays (kernel/scheduler.c). */
module ReadyQueues {
  import opened ProcessModel
  import opened RbTree
  import opened RbLinks
  import opened RbFixup
  import opened RbSplice
  import opened RunOrder

  function First(t: Tree): nat { if t.Leaf? then NIL else LeftmostNode(t).key }

  /** `x` belongs after `pre` and before `post`. */
  ghost predicate FitsBetween(ranks: seq<Rank>, pre: seq<nat>, x: nat, post: seq<nat>)
    requires x < |ranks|
  {
    && (forall k :: k in pre ==> k < |ranks| && RunsBefore(ranks, k, x))
    && (forall k :: k in post ==> k < |ranks| && RunsBefore(ranks, x, k))
  }

  /** The cached leftmost node is the member that runs first. */
  lemma LeftmostRunsFirst(ranks: seq<Rank>, t: Tree)
    requires InRunOrder(ranks, Inorder(t))
    ensures if t.Leaf? then First(t) == NIL && Keys(t) == {} else IsFirst(ranks, Keys(t), First(t))
  {
    InorderKeys(t);
    if t.Node? {
      LeftmostPlug(t);
      forall k | k in Keys(t) && k != First(t) ensures RunsBefore(ranks, First(t), k) {
        var j :| 0 <= j < |Inorder(t)| && Inorder(t)[j] == k;
      }
    }
  }

  lemma RootFacts(s: Links, t: Tree)
    requires Holds(s, Top, t)
    ensures s.root == Ix(t) && (if t.Leaf? then s.root == NIL else s.root < |s.parent| <= NIL)
  {
  }

  /** Both children of the focused node are in place. */
  lemma DescendStep(s: Links, p: Path, t: Tree)
    requires Holds(s, p, t) && t.Node?
    ensures t.key < |s.parent| && s.left[t.key] == Ix(t.left) && s.right[t.key] == Ix(t.right)
    ensures (Ix(t.left) == NIL && t.left.Leaf?) || (Ix(t.left) < |s.parent| && t.left.Node?)
    ensures (Ix(t.right) == NIL && t.right.Leaf?) || (Ix(t.right) < |s.parent| && t.right.Node?)
    ensures Holds(s, InLeft(p, t.color, t.key, t.right), t.left)
    ensures Holds(s, InRight(p, t.color, t.left, t.key), t.right)
  {
    assert Rep(s, t.left, t.key) && Rep(s, t.right, t.key);
    StepUp(s, p, t.color, t.key, t.right, true, t.left);
    StepUp(s, p, t.color, t.key, t.left, false, t.right);
  }

  lemma OrderAround(ranks: seq<Rank>, pre: seq<nat>, l: seq<nat>, m: nat, r: seq<nat>, post: seq<nat>)
    requires InRunOrder(ranks, pre + (l + [m] + r) + post)
    ensures m < |ranks|
    ensures forall k :: k in l ==> k < |ranks| && RunsBefore(ranks, k, m)
    ensures forall k :: k in r ==> k < |ranks| && RunsBefore(ranks, m, k)
  {
    var order, i := pre + (l + [m] + r) + post, |pre| + |l|;
    assert order[i] == m;
    forall k | k in l ensures k < |ranks| && RunsBefore(ranks, k, m) {
      var j :| 0 <= j < |l| && l[j] == k;
      assert order[|pre| + j] == k;
    }
    forall k | k in r ensures k < |ranks| && RunsBefore(ranks, m, k) {
      var j :| 0 <= j < |r| && r[j] == k;
      assert order[i + 1 + j] == k;
    }
  }

  lemma AttachHolds(s: Links, s': Links, p: Path, x: nat)
    requires Holds(s, p, Leaf) && Sized(s') && |s'.parent| == |s.parent|
    requires x < |s.parent| && x !in PathKeys(p)
    requires s'.parent[x] == UpIx(p) && s'.left[x] == NIL && s'.right[x] == NIL && s'.color[x] == Red
    requires PointsTo(s, s', p, x)
    requires forall k :: k != x && k != UpIx(p) ==> SameAt(s, s', k)
    ensures Holds(s', p, Node(Red, Leaf, x, Leaf))
  {
    PathMoved(s, s', p, NIL, x);
  }

  /** A red leaf hung in the right place of a valid tree: the fixup loop may start. */
  lemma InsertReady(p: Path, ranks: seq<Rank>, x: nat)
    requires IsRedBlack(Plug(p, Leaf)) && x < |ranks| && InRunOrder(ranks, Inorder(Plug(p, Leaf)))
    requires FitsBetween(ranks, Before(p), x, After(p))
    ensures InsertInv(p, Node(Red, Leaf, x, Leaf), 0)
    ensures InRunOrder(ranks, Inorder(Plug(p, Node(Red, Leaf, x, Leaf))))
    ensures Keys(Plug(p, Node(Red, Leaf, x, Leaf))) == Keys(Plug(p, Leaf)) + {x}
  {
    var t := Node(Red, Leaf, x, Leaf);
    var total: nat :| Balanced(Plug(p, Leaf), total);
    var h := UnplugBalanced(p, Leaf, total);
    UnplugNoRedRed(p, Leaf);
    UnplugRoot(p, Leaf);
    PlugInorder(p, Leaf);
    PlugInorder(p, t);
    assert Inorder(Plug(p, Leaf)) == Before(p) + After(p);
    assert Inorder(Plug(p, t)) == Before(p) + [x] + After(p);
    InsertKeepsOrder(ranks, Before(p), x, After(p));
    PlugKeys(p, Leaf);
    PlugKeys(p, t);
  }

  /** Taking a key out leaves the others, in order. */
  lemma RemovedFacts(t: Tree, x: nat, p: Path, t': Tree, ranks: seq<Rank>)
    requires WithoutKey(Inorder(t), x, Inorder(Plug(p, t'))) && InRunOrder(ranks, Inorder(t))
    ensures Keys(Plug(p, t')) == Keys(t) - {x} && Keys(Plug(p, t')) == Keys(t') + PathKeys(p)
    ensures InRunOrder(ranks, Inorder(Plug(p, t')))
  {
    InorderKeys(t);
    InorderKeys(Plug(p, t'));
    PlugKeys(p, t');
    CutKeepsOrder(ranks, Inorder(t), x, Inorder(Plug(p, t')));
  }

  lemma CutKeepsOrder(ranks: seq<Rank>, order: seq<nat>, x: nat, order': seq<nat>)
    requires WithoutKey(order, x, order') && InRunOrder(ranks, order)
    ensures forall k :: k in order' <==> k in order && k != x
    ensures InRunOrder(ranks, order')
  {
    var i :| 0 <= i < |order| && order[i] == x && order' == order[..i] + order[i + 1..];
    CutAt(ranks, order, i, order');
  }

  lemma CutAt(ranks: seq<Rank>, order: seq<nat>, i: nat, order': seq<nat>)
    requires i < |order| && order' == order[..i] + order[i + 1..] && InRunOrder(ranks, order)
    ensures forall k :: k in order' <==> k in order && k != order[i]
    ensures InRunOrder(ranks, order')
  {
    var x := order[i];
    assert forall j :: 0 <= j < |order'| ==> order'[j] == order[if j < i then j else j + 1];
    RunsBeforeIsTotal(ranks, x, x, x);
    forall j | 0 <= j < |order| && j != i ensures order[j] != x {
      assert if j < i then RunsBefore(ranks, order[j], x) else RunsBefore(ranks, x, order[j]);
    }
    forall k | k in order && k != x ensures k in order' {
      var j :| 0 <= j < |order| && order[j] == k;
      assert order'[if j < i then j else j - 1] == k;
    }
  }

  function Sibling(p: Path): Tree
    requires p != Top
  {
    if p.InLeft? then p.right else p.left
  }

  /** What the arrays tell about the focused node and the node above it. */
  lemma FocusFacts(s: Links, p: Path, t: Tree)
    requires Holds(s, p, t) && t.Node?
    ensures t.key < |s.parent| && s.parent[t.key] == UpIx(p) && s.color[t.key] == t.color
    ensures s.left[t.key] == Ix(t.left) && s.right[t.key] == Ix(t.right)
    ensures s.root == t.key <==> p == Top
    ensures p != Top ==> UpIx(p) < |s.parent| && s.color[UpIx(p)] == p.color
    ensures p.InLeft? ==> s.left[UpIx(p)] == t.key && s.right[UpIx(p)] == Ix(p.right) != t.key
    ensures p.InRight? ==> s.right[UpIx(p)] == t.key && s.left[UpIx(p)] == Ix(p.left) != t.key
  {
    UpFacts(s, p, t.key);
    if p != Top { RootOfPath(s, p, t.key); }
  }

  /** The child of a node on the given side, and the other one. */
  function Near(t: Tree, isLeft: bool): Tree
    requires t.Node?
  {
    if isLeft then t.left else t.right
  }

  function Far(t: Tree, isLeft: bool): Tree
    requires t.Node?
  {
    if isLeft then t.right else t.left
  }

  lemma FocusUp(s: Links, p: Path, t: Tree)
    requires Holds(s, p, t) && p != Top
    ensures p.key < |s.parent| && s.color[p.key] == p.color
  {
  }

  /** What the arrays tell about the sibling of a hole that is one black node short. */
  lemma SiblingFacts(s: Links, p: Path, t: Tree, h: nat)
    requires Holds(s, p, t) && DeleteInv(p, t, h) && p != Top
    ensures p.key < |s.parent| && UpIx(p) == p.key
    ensures var sib := Sibling(p);
      && sib.Node? && sib.key < |s.parent| && sib.key != NIL && s.color[sib.key] == sib.color
      && s.left[sib.key] == Ix(sib.left) && s.right[sib.key] == Ix(sib.right)
      && (p.InLeft? ==> s.right[p.key] == sib.key) && (p.InRight? ==> s.left[p.key] == sib.key)
      && (sib.left.Leaf? || (sib.left.key < |s.parent| && sib.left.key != NIL && s.color[sib.left.key] == sib.left.color))
      && (sib.right.Leaf? || (sib.right.key < |s.parent| && sib.right.key != NIL && s.color[sib.right.key] == sib.right.color))
  {
    var sib := Sibling(p);
    SiblingExists(p.up, p.color, p.key, sib, p.InLeft?, t, h);
    assert Rep(s, sib, p.key);
    assert Rep(s, sib.left, sib.key) && Rep(s, sib.right, sib.key);
  }

  /** What the arrays tell about the hole, empty or not. */
  lemma HoleFacts(s: Links, p: Path, t: Tree)
    requires Holds(s, p, t)
    ensures t.Leaf? || (t.key < |s.parent| && t.key != NIL && s.color[t.key] == t.color)
    ensures Ix(t) == s.root <==> p == Top
    ensures p != Top ==> UpIx(p) < |s.parent| && UpIx(p) != NIL
  {
    if p != Top {
      RootOfPath(s, p, Ix(t));
      PathKeysInRange(s, p, Ix(t));
    }
    if t.Node? { FocusFacts(s, p, t); }
  }

  /** Comparing the hole with the left link tells the side even for an empty hole, because the
      sibling is not empty. */
  lemma HoleSide(s: Links, p: Path, t: Tree, h: nat)
    requires Holds(s, p, t) && DeleteInv(p, t, h) && p != Top
    ensures UpIx(p) < |s.parent|
    ensures Ix(t) == s.left[UpIx(p)] <==> p.InLeft?
  {
    HoleFacts(s, p, t);
    SiblingFacts(s, p, t, h);
    if t.Node? { FocusFacts(s, p, t); }
  }

  lemma {:induction false} RootOfPath(s: Links, p: Path, hole: nat)
    requires Sized(s) && RepPath(s, p, hole) && p != Top
    ensures s.root in PathKeys(p)
  {
    match p
    case InLeft(up, _, k, _) => if up != Top { RootOfPath(s, up, k); }
    case InRight(up, _, _, k) => if up != Top { RootOfPath(s, up, k); }
  }

  /** Comparing with the focused node's key narrows the place down to one of its sides. */
  lemma FitsNarrower(ranks: seq<Rank>, p: Path, t: Tree, x: nat)
    requires t.Node? && x < |ranks| && InRunOrder(ranks, Inorder(Plug(p, t)))
    requires FitsBetween(ranks, Before(p), x, After(p)) && x !in Keys(Plug(p, t))
    ensures t.key < |ranks|
    ensures RunsBefore(ranks, x, t.key) ==>
      FitsBetween(ranks, Before(InLeft(p, t.color, t.key, t.right)), x, After(InLeft(p, t.color, t.key, t.right)))
    ensures !RunsBefore(ranks, x, t.key) ==>
      FitsBetween(ranks, Before(InRight(p, t.color, t.left, t.key)), x, After(InRight(p, t.color, t.left, t.key)))
  {
    PlugInorder(p, t);
    PlugKeys(p, t);
    assert t.key in Keys(t);
    Narrow(ranks, Before(p), Inorder(t.left), t.key, Inorder(t.right), After(p), x);
  }

  lemma Narrow(ranks: seq<Rank>, pre: seq<nat>, l: seq<nat>, m: nat, r: seq<nat>, post: seq<nat>, x: nat)
    requires x < |ranks| && x != m && InRunOrder(ranks, pre + (l + [m] + r) + post) && FitsBetween(ranks, pre, x, post)
    ensures m < |ranks|
    ensures RunsBefore(ranks, x, m) ==> FitsBetween(ranks, pre, x, [m] + r + post)
    ensures !RunsBefore(ranks, x, m) ==> FitsBetween(ranks, pre + l + [m], x, post)
  {
    OrderAround(ranks, pre, l, m, r, post);
    RunsBeforeIsTotal(ranks, x, m, x);
    if RunsBefore(ranks, x, m) {
      forall k | k in [m] + r + post ensures k < |ranks| && RunsBefore(ranks, x, k) {
        if k in r { RunsBeforeIsTotal(ranks, x, m, k); }
      }
    } else {
      forall k | k in pre + l + [m] ensures k < |ranks| && RunsBefore(ranks, k, x) {
        if k in l { RunsBeforeIsTotal(ranks, k, m, x); }
      }
    }
  }

  class ReadyQueue {
    // Shared with the scheduler, which alone writes them; the queue only reads its keys there.
    const procs: array<Process>
    const vruntime: array<nat>

    const parent: array<nat>
    const left: array<nat>
    const right: array<nat>
    const color: array<Color>
    const onRq: array<bool>
    var root: nat
    var leftmost: nat

    /** The tree that the arrays hold. */
    ghost var tree: Tree

    ghost function Footprint(): set<object> { {this, parent, left, right, color, onRq} }

    ghost predicate Separate() {
      && parent != left && parent != right && left != right
      && procs as object !in Footprint() && vruntime as object !in Footprint() && procs as object != vruntime
      && parent.Length == left.Length == right.Length == color.Length == onRq.Length == procs.Length == vruntime.Length <= NIL
    }

    ghost function Shape(): Links
      reads this, parent, left, right, color
    {
      Links(parent[..], left[..], right[..], color[..], root)
    }

    ghost function CurrentRanks(): seq<Rank>
      requires vruntime.Length == procs.Length
      reads procs, vruntime
    {
      Ranks(vruntime[..], procs[..])
    }

    ghost function Members(): set<nat>
      reads this
    {
      Keys(tree)
    }

    ghost predicate Valid()
      reads this, Footprint(), procs, vruntime
    {
      && Separate()
      && Holds(Shape(), Top, tree) && IsRedBlack(tree)
      && InRunOrder(CurrentRanks(), Inorder(tree))
      && leftmost == First(tree)
      && forall i :: 0 <= i < onRq.Length ==> (onRq[i] <==> i in Keys(tree))
    }

    constructor (procs: array<Process>, vruntime: array<nat>)
      requires procs.Length == vruntime.Length <= NIL && procs as object != vruntime
      ensures this.procs == procs && this.vruntime == vruntime
      ensures Valid() && Members() == {} && fresh(Footprint())
    {
      this.procs, this.vruntime := procs, vruntime;
      var n := procs.Length;
      parent, left, right := new nat[n](_ => NIL), new nat[n](_ => NIL), new nat[n](_ => NIL);
      color := new Color[n](_ => Black);
      onRq := new bool[n](_ => false);
      root, leftmost := NIL, NIL;
      tree := Leaf;
      new;
      assert Balanced(tree, 0);
    }

    // ------------------------------------------------------------ single assignments

    method SetColor(index: nat, c: Color)
      requires Separate() && index < parent.Length
      modifies color
      ensures Sized(old(Shape())) && Shape() == Colored(old(Shape()), index, c)
    {
      color[index] := c;
    }

    method RotateLeft(index: nat)
      requires Separate() && CanRotateLeft(Shape(), index)
      modifies this`root, parent, left, right
      ensures Shape() == RotatedLeft(old(Shape()), index)
    {
      var r := right[index];
      var up := parent[index];

      right[index] := left[r];
      if left[r] != NIL {
        parent[left[r]] := index;
      }

      parent[r] := up;
      if up == NIL {
        root := r;
      } else if left[up] == index {
        left[up] := r;
      } else {
        right[up] := r;
      }

      left[r] := index;
      parent[index] := r;
    }

    method RotateRight(index: nat)
      requires Separate() && CanRotateRight(Shape(), index)
      modifies this`root, parent, left, right
      ensures Shape() == RotatedRight(old(Shape()), index)
    {
      var l := left[index];
      var up := parent[index];

      left[index] := right[l];
      if right[l] != NIL {
        parent[right[l]] := index;
      }

      parent[l] := up;
      if up == NIL {
        root := l;
      } else if right[up] == index {
        right[up] := l;
      } else {
        left[up] := l;
      }

      right[l] := index;
      parent[index] := l;
    }

    method Transplant(oldIndex: nat, newIndex: nat)
      requires Separate() && oldIndex < parent.Length && (newIndex == NIL || newIndex < parent.Length)
      requires parent[oldIndex] == NIL || parent[oldIndex] < parent.Length
      modifies this`root, parent, left, right
      ensures Sized(old(Shape())) && Shape() == Transplanted(old(Shape()), oldIndex, newIndex)
    {
      var up := parent[oldIndex];
      if up == NIL {
        root := newIndex;
      } else if left[up] == oldIndex {
        left[up] := newIndex;
      } else {
        right[up] := newIndex;
      }
      if newIndex != NIL {
        parent[newIndex] := up;
      }
    }

    // ------------------------------------------------------------ insertion

    method Insert(index: nat)
      requires Valid() && index < procs.Length
      modifies Footprint()
      ensures Valid() && Members() == old(Members()) + {index}
    {
      if onRq[index] {
        return;
      }
      assert index !in Keys(tree);
      ghost var ranks := CurrentRanks();
      assert IsRedBlack(tree) && InRunOrder(ranks, Inorder(tree)) && |ranks| == procs.Length;
      ClearChildren(index);
      ghost var p;
      var parentIndex;
      parentIndex, p := FindPlace(index, ranks);
      Link(index, parentIndex, p);
      Rebalance(index, p, ranks);
    }

    method ClearChildren(index: nat)
      requires Separate() && Holds(Shape(), Top, tree) && index < procs.Length && index !in Keys(tree)
      modifies left, right
      ensures Holds(Shape(), Top, tree) && left[index] == NIL && right[index] == NIL
    {
      left[index] := NIL;
      right[index] := NIL;
      HoldsFrame(old(Shape()), Shape(), Top, tree);
    }

    /** From a red leaf in the right place to a valid queue. */
    method Rebalance(index: nat, ghost p: Path, ghost ranks: seq<Rank>)
      requires Separate() && Holds(Shape(), p, Node(Red, Leaf, index, Leaf)) && index < |ranks|
      requires ranks == CurrentRanks() && InRunOrder(ranks, Inorder(Plug(p, Leaf)))
      requires IsRedBlack(Plug(p, Leaf)) && FitsBetween(ranks, Before(p), index, After(p))
      requires forall i :: 0 <= i < onRq.Length ==> (onRq[i] <==> i == index || i in Keys(Plug(p, Leaf)))
      modifies parent, left, right, color, this
      ensures Valid() && Members() == Keys(Plug(p, Leaf)) + {index}
    {
      hide Holds, IsRedBlack, Inorder, InRunOrder, InsertInv, FitsBetween, Keys, PathKeys, RunsBefore, Plug;
      InsertReady(p, ranks, index);
      InsertFixup(index, p);
      InorderKeys(tree);
      InorderKeys(Plug(p, Node(Red, Leaf, index, Leaf)));
      Finish(ranks, Inorder(Plug(p, Node(Red, Leaf, index, Leaf))));
      InorderKeys(tree);
    }

    /** Where `index` belongs: the empty place under `parentIndex`. */
    method FindPlace(index: nat, ghost ranks: seq<Rank>) returns (parentIndex: nat, ghost p: Path)
      requires Separate() && Holds(Shape(), Top, tree) && index < procs.Length && index !in Keys(tree)
      requires ranks == CurrentRanks() && InRunOrder(ranks, Inorder(tree))
      ensures Holds(Shape(), p, Leaf) && Plug(p, Leaf) == tree && parentIndex == UpIx(p) && index !in PathKeys(p)
      ensures FitsBetween(ranks, Before(p), index, After(p))
      ensures p.InLeft? ==> p.key < procs.Length && RunsBefore(ranks, index, p.key)
      ensures p.InRight? ==> p.key < procs.Length && !RunsBefore(ranks, index, p.key)
    {
      hide InRunOrder, Holds, Inorder;
      var cursor := root;
      parentIndex := NIL;
      p := Top;
      ghost var t := tree;
      RootFacts(Shape(), tree);
      while cursor != NIL
        invariant Holds(Shape(), p, t) && Plug(p, t) == tree
        invariant parentIndex == UpIx(p) && cursor == Ix(t)
        invariant (cursor == NIL && t.Leaf?) || (cursor < procs.Length && t.Node?)
        invariant FitsBetween(ranks, Before(p), index, After(p))
        invariant p.InLeft? ==> p.key < procs.Length && RunsBefore(ranks, index, p.key)
        invariant p.InRight? ==> p.key < procs.Length && !RunsBefore(ranks, index, p.key)
        decreases t
      {
        parentIndex := cursor;
        var before := VruntimeBefore(index, cursor);
        DescendStep(Shape(), p, t);
        FitsNarrower(ranks, p, t, index);
        if before {
          cursor := left[cursor];
          p, t := InLeft(p, t.color, t.key, t.right), t.left;
        } else {
          cursor := right[cursor];
          p, t := InRight(p, t.color, t.left, t.key), t.right;
        }
      }
      PlugKeys(p, t);
    }

    /** Hangs the red leaf `index` under `parentIndex`. */
    method Link(index: nat, parentIndex: nat, ghost p: Path)
      requires Separate() && Holds(Shape(), p, Leaf) && parentIndex == UpIx(p)
      requires index < procs.Length && index !in PathKeys(p) && left[index] == NIL && right[index] == NIL
      requires p.InLeft? ==> p.key < procs.Length && RunsBefore(CurrentRanks(), index, p.key)
      requires p.InRight? ==> p.key < procs.Length && !RunsBefore(CurrentRanks(), index, p.key)
      modifies Footprint() - {this}, this`root
      ensures Holds(Shape(), p, Node(Red, Leaf, index, Leaf))
      ensures onRq[..] == old(onRq[..])[index := true]
    {
      parent[index] := parentIndex;
      color[index] := Red;
      onRq[index] := true;

      assert p != Top ==> UpIx(p) in PathKeys(p);
      if parentIndex == NIL {
        root := index;
      } else {
        var before := VruntimeBefore(index, parentIndex);
        if before {
          left[parentIndex] := index;
        } else {
          right[parentIndex] := index;
        }
      }
      AttachHolds(old(Shape()), Shape(), p, index);
    }

    /** Parent and uncle become black, the grandparent red. */
    method Recolor(parentIndex: nat, uncle: nat, grandparent: nat,
                   ghost g: Path, ghost u: Tree, ghost gl: bool, ghost sib: Tree, ghost pl: bool, ghost t: Tree, ghost h: nat)
      requires Separate() && Holds(Shape(), Under(Under(g, Black, grandparent, u, gl), Red, parentIndex, sib, pl), t)
      requires InsertInv(Under(Under(g, Black, grandparent, u, gl), Red, parentIndex, sib, pl), t, h)
      requires IsRed(u) && uncle == u.key
      modifies color
      ensures
        var t' := Join(Red, grandparent, Join(Black, parentIndex, t, sib, pl), Blackened(u), gl);
        && Holds(Shape(), g, t') && InsertInv(g, t', h + 1)
        && SameOrder(Under(Under(g, Black, grandparent, u, gl), Red, parentIndex, sib, pl), t, g, t')
    {
      hide Holds, InsertInv, SameOrder;
      InsertRecolor(Shape(), g, grandparent, u, gl, parentIndex, sib, pl, t, h);
      SetColor(parentIndex, Black);
      SetColor(uncle, Black);
      SetColor(grandparent, Red);
    }

    /** The parent becomes black and is rotated over the grandparent, which becomes red. */
    method LiftParent(parentIndex: nat, grandparent: nat,
                      ghost g: Path, ghost u: Tree, gl: bool, ghost sib: Tree, ghost t: Tree, ghost h: nat)
      requires Separate() && Holds(Shape(), Under(Under(g, Black, grandparent, u, gl), Red, parentIndex, sib, gl), t)
      requires InsertInv(Under(Under(g, Black, grandparent, u, gl), Red, parentIndex, sib, gl), t, h)
      requires !IsRed(u)
      modifies parent, left, right, color, this`root
      ensures
        var p' := Under(g, Black, parentIndex, Join(Red, grandparent, u, sib, !gl), gl);
        && Holds(Shape(), p', t) && InsertInv(p', t, h)
        && SameOrder(Under(Under(g, Black, grandparent, u, gl), Red, parentIndex, sib, gl), t, p', t)
    {
      hide Holds, InsertInv, SameOrder, RotatedLeft, RotatedRight, CanRotateLeft, CanRotateRight;
      InsertRotate(Shape(), g, grandparent, u, gl, parentIndex, sib, t, h);
      SetColor(parentIndex, Black);
      SetColor(grandparent, Red);
      if gl {
        RotateRight(grandparent);
      } else {
        RotateLeft(grandparent);
      }
    }

    /** One turn of the loop when the parent is a left child. */
    method InsertStepLeft(start: nat, ghost p: Path, ghost t: Tree, ghost h: nat)
      returns (index: nat, ghost p': Path, ghost t': Tree, ghost h': nat)
      requires Separate() && Holds(Shape(), p, t) && InsertInv(p, t, h) && IsRed(t) && start == t.key
      requires p != Top && p.color == Red && p.up.InLeft? && p.up.color == Black
      modifies parent, left, right, color, this`root
      ensures Holds(Shape(), p', t') && InsertInv(p', t', h') && IsRed(t') && index == t'.key && SameOrder(p, t, p', t')
      ensures PathLength(p') < PathLength(p) || (PathLength(p') == PathLength(p) && p'.color == Black)
    {
      hide Holds, InsertInv, Inorder, Plug, Rep, RepPath, Distinct, PathDistinct, Keys, PathKeys, CanRotateLeft, CanRotateRight,
        RotatedLeft, RotatedRight, Colored, Blackened;
      index := start;
      ghost var g, gk, u := p.up.up, p.up.key, p.up.right;
      var parentIndex, grandparent, uncle := Family(start, p, t);
      if uncle != NIL && color[uncle] == Red {
        Recolor(parentIndex, uncle, grandparent, g, u, true, Sibling(p), p.InLeft?, t, h);
        p', t', h' := g, Join(Red, gk, Join(Black, parentIndex, t, Sibling(p), p.InLeft?), Blackened(u), true), h + 1;
        index := grandparent;
      } else {
        p', t', h' := p, t, h;
        if right[parentIndex] == index {
          index := parentIndex;
          InsertZigzag(Shape(), g, gk, u, true, parentIndex, Sibling(p), t, t.left, t.right, h);
          RotateLeft(index);
          p', t' := Under(p.up, Red, t.key, t.right, true), Join(Red, index, Sibling(p), t.left, true);
          parentIndex, grandparent, uncle := Family(index, p', t');
        }
        LiftParent(parentIndex, grandparent, g, u, true, Sibling(p'), t', h);
        p' := Under(g, Black, parentIndex, Join(Red, gk, u, Sibling(p'), false), true);
      }
    }

    /** One turn of the loop when the parent is a right child. */
    method InsertStepRight(start: nat, ghost p: Path, ghost t: Tree, ghost h: nat)
      returns (index: nat, ghost p': Path, ghost t': Tree, ghost h': nat)
      requires Separate() && Holds(Shape(), p, t) && InsertInv(p, t, h) && IsRed(t) && start == t.key
      requires p != Top && p.color == Red && p.up.InRight? && p.up.color == Black
      modifies parent, left, right, color, this`root
      ensures Holds(Shape(), p', t') && InsertInv(p', t', h') && IsRed(t') && index == t'.key && SameOrder(p, t, p', t')
      ensures PathLength(p') < PathLength(p) || (PathLength(p') == PathLength(p) && p'.color == Black)
    {
      hide Holds, InsertInv, Inorder, Plug, Rep, RepPath, Distinct, PathDistinct, Keys, PathKeys, CanRotateLeft, CanRotateRight,
        RotatedLeft, RotatedRight, Colored, Blackened;
      index := start;
      ghost var g, gk, u := p.up.up, p.up.key, p.up.left;
      var parentIndex, grandparent, uncle := Family(start, p, t);
      if uncle != NIL && color[uncle] == Red {
        Recolor(parentIndex, uncle, grandparent, g, u, false, Sibling(p), p.InLeft?, t, h);
        p', t', h' := g, Join(Red, gk, Join(Black, parentIndex, t, Sibling(p), p.InLeft?), Blackened(u), false), h + 1;
        index := grandparent;
      } else {
        p', t', h' := p, t, h;
        if left[parentIndex] == index {
          index := parentIndex;
          InsertZigzag(Shape(), g, gk, u, false, parentIndex, Sibling(p), t, t.right, t.left, h);
          RotateRight(index);
          p', t' := Under(p.up, Red, t.key, t.left, false), Join(Red, index, Sibling(p), t.right, false);
          parentIndex, grandparent, uncle := Family(index, p', t');
        }
        LiftParent(parentIndex, grandparent, g, u, false, Sibling(p'), t', h);
        p' := Under(g, Black, parentIndex, Join(Red, gk, u, Sibling(p'), true), false);
      }
    }

    /** Parent, grandparent and uncle, read from the arrays. */
    method Family(index: nat, ghost p: Path, ghost t: Tree) returns (parentIndex: nat, grandparent: nat, uncle: nat)
      requires Separate() && Holds(Shape(), p, t) && t.Node? && index == t.key
      requires p != Top && p.up != Top
      ensures index < parent.Length && parentIndex < parent.Length && grandparent < parent.Length
      ensures parentIndex == p.key && grandparent == p.up.key && uncle == Ix(Sibling(p.up))
      ensures uncle != NIL <==> Sibling(p.up).Node?
      ensures uncle != NIL ==> uncle < parent.Length && color[uncle] == Sibling(p.up).color
      ensures (left[parentIndex] == index) == p.InLeft? && (right[parentIndex] == index) == p.InRight?
    {
      FocusFacts(Shape(), p, t);
      StepUp(Shape(), p.up, p.color, p.key, Sibling(p), p.InLeft?, t);
      FocusFacts(Shape(), p.up, Join(p.color, p.key, t, Sibling(p), p.InLeft?));
      StepAcross(Shape(), p.up.up, p.up.color, p.up.key, Sibling(p.up), p.up.InLeft?, Join(p.color, p.key, t, Sibling(p), p.InLeft?));
      parentIndex := parent[index];
      grandparent := parent[parentIndex];
      if left[grandparent] == parentIndex {
        uncle := right[grandparent];
      } else {
        uncle := left[grandparent];
      }
    }

    method InsertFixup(start: nat, ghost startPath: Path)
      requires Separate() && Holds(Shape(), startPath, Node(Red, Leaf, start, Leaf))
      requires InsertInv(startPath, Node(Red, Leaf, start, Leaf), 0)
      modifies parent, left, right, color, this`root, this`tree
      ensures Holds(Shape(), Top, tree) && IsRedBlack(Blackened(tree)) && tree.Node?
      ensures Inorder(tree) == Inorder(Plug(startPath, Node(Red, Leaf, start, Leaf)))
    {
      hide Holds, InsertInv, Inorder, Rep, RepPath, Distinct, PathDistinct, Keys, PathKeys;
      var index := start;
      ghost var t0 := Node(Red, Leaf, start, Leaf);
      ghost var p, t, h: nat := startPath, t0, 0;
      FocusFacts(Shape(), p, t);
      while index != root && color[parent[index]] == Red
        invariant Holds(Shape(), p, t) && InsertInv(p, t, h) && IsRed(t) && index == t.key
        invariant index < parent.Length && (index == root <==> p == Top)
        invariant p != Top ==> parent[index] == UpIx(p) < parent.Length && color[parent[index]] == p.color
        invariant SameOrder(startPath, t0, p, t)
        decreases PathLength(p), if p != Top && p.color == Red then 1 else 0
      {
        var parentIndex := parent[index];
        RedParentHasParent(p.up, p.key, Sibling(p), p.InLeft?, t, h);
        assert p == Under(p.up, Red, parentIndex, Sibling(p), p.InLeft?);
        StepUp(Shape(), p.up, Red, parentIndex, Sibling(p), p.InLeft?, t);
        FocusFacts(Shape(), p.up, Join(Red, parentIndex, t, Sibling(p), p.InLeft?));
        if left[parent[parentIndex]] == parentIndex {
          index, p, t, h := InsertStepLeft(index, p, t, h);
        } else {
          index, p, t, h := InsertStepRight(index, p, t, h);
        }
        FocusFacts(Shape(), p, t);
      }
      tree := Plug(p, t);
      if p != Top { PlugRootKey(p, t, t); }
      InsertDone(p, t, h);
      Refocus(Shape(), p, t);
    }

    // ------------------------------------------------------------ removal

    method Minimum(start: nat, ghost p: Path, ghost t: Tree) returns (index: nat)
      requires Separate() && Holds(Shape(), p, t) && t.Node? && start == t.key
      ensures index == LeftmostNode(t).key
    {
      hide Holds;
      index := start;
      ghost var p', t' := p, t;
      DescendStep(Shape(), p', t');
      while index != NIL && left[index] != NIL
        invariant Holds(Shape(), p', t') && t'.Node? && index == t'.key < left.Length && left[index] == Ix(t'.left)
        invariant (Ix(t'.left) == NIL && t'.left.Leaf?) || (Ix(t'.left) < left.Length && t'.left.Node?)
        invariant LeftmostNode(t') == LeftmostNode(t)
        decreases t'
      {
        DescendStep(Shape(), p', t');
        index := left[index];
        p', t' := InLeft(p', t'.color, t'.key, t'.right), t'.left;
        DescendStep(Shape(), p', t');
      }
    }

    /** The pointer moves by which `y` takes the place of `index`. */
    method TakePlace(index: nat, y: nat) returns (replacement: nat, replacementParent: nat, removedColor: Color)
      requires Separate() && CanSucceed(Shape(), index, y)
      modifies parent, left, right, color, this`root
      ensures Shape() == Succeeded(old(Shape()), index, y)
      ensures replacement == old(right[y]) && removedColor == old(color[y])
      ensures replacementParent == if old(parent[y]) == index then y else old(parent[y])
    {
      removedColor := color[y];
      replacement := right[y];
      replacementParent := Detach(index, y);
      Transplant(index, y);
      left[y] := left[index];
      parent[left[y]] := y;
      color[y] := color[index];
    }

    /** Frees `y` from its place, unless it is a child of `index` already. */
    method Detach(index: nat, y: nat) returns (replacementParent: nat)
      requires Separate() && CanSucceed(Shape(), index, y)
      modifies parent, left, right, this`root
      ensures Shape() == Detached(old(Shape()), index, y)
      ensures replacementParent == if old(parent[y]) == index then y else old(parent[y])
    {
      var replacement := right[y];
      if parent[y] == index {
        replacementParent := y;
        if replacement != NIL {
          parent[replacement] := y;
        }
      } else {
        replacementParent := parent[y];
        Transplant(y, right[y]);
        right[y] := right[index];
        parent[right[y]] := y;
      }
    }

    /** Takes the node `index` out of the tree; what is left may be one black node short. */
    method Splice(index: nat, ghost p: Path, ghost m: Tree)
      returns (replacement: nat, replacementParent: nat, removedColor: Color, ghost p': Path, ghost t': Tree, ghost h: nat)
      requires Separate() && Holds(Shape(), p, m) && m.Node? && m.key == index && IsRedBlack(Plug(p, m))
      modifies parent, left, right, color, this`root
      ensures Holds(Shape(), p', t') && replacement == Ix(t') && replacementParent == UpIx(p')
      ensures removedColor == Black ==> DeleteInv(p', t', h)
      ensures removedColor == Red ==> IsRedBlack(Plug(p', t'))
      ensures WithoutKey(Inorder(Plug(p, m)), index, Inorder(Plug(p', t')))
    {
      hide Holds, IsRedBlack, DeleteInv, WithoutKey, Inorder, Plug, CanSucceed, Succeeded, Transplanted;
      DescendStep(Shape(), p, m);
      FocusFacts(Shape(), p, m);
      removedColor := color[index];
      if left[index] == NIL {
        replacement, replacementParent := right[index], parent[index];
        TransplantHolds(Shape(), p, m.color, index, m.right, false);
        h := SplicedShape(p, m.color, index, m.right, false);
        SplicedOrder(p, m.color, index, m.right, false);
        Transplant(index, right[index]);
        p', t' := p, m.right;
      } else if right[index] == NIL {
        replacement, replacementParent := left[index], parent[index];
        TransplantHolds(Shape(), p, m.color, index, m.left, true);
        h := SplicedShape(p, m.color, index, m.left, true);
        SplicedOrder(p, m.color, index, m.left, true);
        Transplant(index, left[index]);
        p', t' := p, m.left;
      } else {
        var removedIndex := Minimum(right[index], InRight(p, m.color, m.left, index), m.right);
        h := SuccessorTakesPlace(Shape(), p, m);
        replacement, replacementParent, removedColor := TakePlace(index, removedIndex);
        ghost var y := LeftmostNode(m.right);
        p', t' := Append(LeftmostPath(m.right), InRight(p, m.color, m.left, y.key)), y.right;
      }
    }

    method Remove(index: nat)
      requires Valid() && index < procs.Length
      modifies Footprint()
      ensures Valid() && Members() == old(Members()) - {index}
    {
      if !onRq[index] {
        return;
      }
      ghost var ranks := CurrentRanks();
      ghost var p, m := PathTo(tree, index), NodeAt(tree, index);
      PathToPlug(tree, index);
      Refocus(Shape(), p, m);
      assert Holds(Shape(), p, m) && IsRedBlack(tree) && InRunOrder(ranks, Inorder(tree));
      hide Holds, IsRedBlack, InRunOrder, WithoutKey, DeleteInv, Inorder, Plug, PathTo, NodeAt;
      ghost var h;
      var replacement, replacementParent, removedColor;
      replacement, replacementParent, removedColor, p, m, h := Splice(index, p, m);
      RemovedFacts(tree, index, p, m, ranks);
      Retire(index, p, m);
      RemoveRest(replacement, replacementParent, removedColor, p, m, h);
    }

    /** The removed slot forgets its links. */
    method Retire(index: nat, ghost p: Path, ghost t: Tree)
      requires Separate() && Holds(Shape(), p, t) && index < procs.Length && index !in Keys(t) + PathKeys(p)
      modifies Footprint() - {this}
      ensures Holds(Shape(), p, t) && onRq[..] == old(onRq[..])[index := false]
    {
      onRq[index] := false;
      parent[index] := NIL;
      left[index] := NIL;
      right[index] := NIL;
      color[index] := Black;
      HoldsFrame(old(Shape()), Shape(), p, t);
    }

    /** Restores the balance where a black node is missing. */
    method RemoveRest(replacement: nat, replacementParent: nat, removedColor: Color,
                      ghost p: Path, ghost t: Tree, ghost h: nat)
      requires Separate() && Holds(Shape(), p, t) && replacement == Ix(t) && replacementParent == UpIx(p)
      requires removedColor == Black ==> DeleteInv(p, t, h)
      requires removedColor == Red ==> IsRedBlack(Plug(p, t))
      requires InRunOrder(CurrentRanks(), Inorder(Plug(p, t)))
      requires forall i :: 0 <= i < onRq.Length ==> (onRq[i] <==> i in Keys(Plug(p, t)))
      modifies parent, left, right, color, this
      ensures Valid() && Members() == Keys(Plug(p, t))
    {
      hide Holds, IsRedBlack, DeleteInv, Inorder, InRunOrder, Keys, Plug;
      tree := Plug(p, t);
      Refocus(Shape(), p, t);
      if removedColor == Black {
        RemoveFixup(replacement, replacementParent, p, t, h);
      }
      InorderKeys(tree);
      InorderKeys(Plug(p, t));
      RecomputeLeftmost();
    }

    /** Where the fixup stands: `index` is the root of the subtree `t` in the hole of `p`, and unless it is
        done that subtree lacks one black node. */
    ghost predicate AtHole(index: nat, up: nat, p0: Path, t0: Tree, p: Path, t: Tree, h: nat, done: bool)
      reads this, parent, left, right, color
    {
      && Holds(Shape(), p, t) && SameOrder(p0, t0, p, t)
      && index == Ix(t) && (t.Leaf? || (index < color.Length && color[index] == t.color && index != NIL))
      && (index == root <==> p == Top)
      && (done ==> p == Top && IsRedBlack(t))
      && (!done ==> DeleteInv(p, t, h) && up == UpIx(p) && (p != Top ==> up < left.Length && up != NIL))
      && (!done && p != Top ==> (index == left[up] <==> p.InLeft?))
    }

    method RemoveFixup(start: nat, startParent: nat, ghost p0: Path, ghost t0: Tree, ghost h0: nat)
      requires Separate() && Holds(Shape(), p0, t0) && start == Ix(t0) && startParent == UpIx(p0)
      requires DeleteInv(p0, t0, h0)
      modifies parent, left, right, color, this`root, this`tree
      ensures Holds(Shape(), Top, tree) && IsRedBlack(tree) && Inorder(tree) == Inorder(Plug(p0, t0))
    {
      hide Holds, IsRedBlack, DeleteInv, Inorder, Plug, PathLength, Blackened, PathKeys, Keys;
      var index, up := start, startParent;
      ghost var p, t, h, done := p0, t0, h0, false;
      HoleFacts(Shape(), p, t);
      if p != Top { HoleSide(Shape(), p, t, h); }
      while index != root && (index == NIL || color[index] == Black)
        invariant AtHole(index, up, p0, t0, p, t, h, done)
        decreases PathLength(p), if IsRed(t) then 0 else 1
      {
        if up == NIL {
          break;
        }
        index, up, p, t, h, done := RemoveTurn(index, up, p0, t0, p, t, h);
      }
      RemoveFinish(index, p, t, h, done);
      assert SameOrder(p0, t0, p, t);
    }

    /** One turn of the loop of the removal fixup. */
    method RemoveTurn(start: nat, startUp: nat, ghost p0: Path, ghost t0: Tree, ghost ps: Path, ghost ts: Tree, ghost hs: nat)
      returns (index: nat, up: nat, ghost p: Path, ghost t: Tree, ghost h: nat, ghost done: bool)
      requires Separate() && AtHole(start, startUp, p0, t0, ps, ts, hs, false)
      requires start != root && (start == NIL || color[start] == Black) && startUp != NIL
      modifies parent, left, right, color, this`root
      ensures AtHole(index, up, p0, t0, p, t, h, done)
      ensures PathLength(p) < PathLength(ps) || (PathLength(p) == PathLength(ps) && IsRed(t) && !IsRed(ts))
    {
      hide Holds, IsRedBlack, DeleteInv, Inorder, Plug, PathLength, Blackened, PathKeys, Keys;
      if start == left[startUp] {
        index, up, p, t, h, done := RemoveStepLeft(start, startUp, ps, ts, hs);
      } else {
        index, up, p, t, h, done := RemoveStepRight(start, startUp, ps, ts, hs);
      }
      HoleFacts(Shape(), p, t);
      if !done && p != Top { HoleSide(Shape(), p, t, h); }
    }

    method RemoveFinish(index: nat, ghost p: Path, ghost t: Tree, ghost h: nat, ghost done: bool)
      requires Separate() && Holds(Shape(), p, t) && index == Ix(t)
      requires done ==> p == Top && IsRedBlack(t)
      requires !done ==> DeleteInv(p, t, h) && (p == Top || IsRed(t))
      modifies color, this`tree
      ensures Holds(Shape(), Top, tree) && IsRedBlack(tree) && Inorder(tree) == Inorder(Plug(p, t))
    {
      HoleFacts(Shape(), p, t);
      if !done { DeleteDone(p, t, h); }
      SameOrderHere(p, t, Blackened(t));
      if index != NIL {
        PaintHolds(Shape(), p, t, Black);
        SetColor(index, Black);
      }
      tree := Plug(p, Blackened(t));
      Refocus(Shape(), p, Blackened(t));
    }

    method Rotate(index: nat, toLeft: bool)
      requires Separate() && CanRotate(Shape(), index, toLeft)
      modifies this`root, parent, left, right
      ensures Shape() == Rotated(old(Shape()), index, toLeft)
    {
      if toLeft {
        RotateLeft(index);
      } else {
        RotateRight(index);
      }
    }

    /** A red sibling is painted black and rotated over `up`, which becomes red. */
    method RaiseSibling(up: nat, sibling: nat, isLeft: bool, ghost p: Path, ghost t: Tree, ghost h: nat) returns (ghost p': Path)
      requires Separate() && Holds(Shape(), p, t) && DeleteInv(p, t, h) && !IsRed(t)
      requires p != Top && p.InLeft? == isLeft && up == p.key && IsRed(Sibling(p)) && sibling == Sibling(p).key
      modifies parent, left, right, color, this`root
      ensures Holds(Shape(), p', t) && DeleteInv(p', t, h) && SameOrder(p, t, p', t)
      ensures p' != Top && p'.InLeft? == isLeft && p'.key == up && p'.color == Red && !IsRed(Sibling(p'))
      ensures PathLength(p') == PathLength(p) + 1
    {
      ghost var sib := Sibling(p);
      ghost var near, far := Near(sib, isLeft), Far(sib, isLeft);
      assert sib == Join(Red, sibling, near, far, isLeft);
      assert p == Under(p.up, p.color, up, sib, isLeft);
      hide Holds, DeleteInv, Rotated, CanRotate, SameOrder;
      DeleteRedSibling(Shape(), p.up, p.color, up, sibling, near, far, isLeft, t, h);
      p' := Under(Under(p.up, Black, sibling, far, isLeft), Red, up, near, isLeft);
      SetColor(sibling, Black);
      SetColor(up, Red);
      Rotate(up, isLeft);
    }

    /** A red near nephew is painted black and rotated over the sibling, which becomes red. */
    method RaiseNephew(nephew: nat, sibling: nat, isLeft: bool, ghost p: Path, ghost t: Tree, ghost h: nat) returns (ghost p': Path)
      requires Separate() && Holds(Shape(), p, t) && DeleteInv(p, t, h) && p != Top && p.InLeft? == isLeft
      requires Sibling(p).Node? && Sibling(p).color == Black && sibling == Sibling(p).key
      requires IsRed(Near(Sibling(p), isLeft)) && nephew == Near(Sibling(p), isLeft).key && !IsRed(Far(Sibling(p), isLeft))
      modifies parent, left, right, color, this`root
      ensures Holds(Shape(), p', t) && DeleteInv(p', t, h) && SameOrder(p, t, p', t)
      ensures p' != Top && p'.InLeft? == isLeft && p'.key == p.key && p'.color == p.color && p'.up == p.up
      ensures Sibling(p').Node? && Sibling(p').color == Black && IsRed(Far(Sibling(p'), isLeft))
    {
      ghost var sib := Sibling(p);
      ghost var near, far := Near(sib, isLeft), Far(sib, isLeft);
      ghost var n1, n2 := Near(near, isLeft), Far(near, isLeft);
      assert sib == Join(Black, sibling, near, far, isLeft);
      assert near == Join(Red, nephew, n1, n2, isLeft);
      assert p == Under(p.up, p.color, p.key, sib, isLeft);
      hide Holds, DeleteInv, Rotated, CanRotate, SameOrder;
      DeleteNearRed(Shape(), p.up, p.color, p.key, sibling, near, n1, n2, far, isLeft, t, h);
      p' := Under(p.up, p.color, p.key, Join(Black, nephew, n1, Join(Red, sibling, n2, far, isLeft), isLeft), isLeft);
      SetColor(nephew, Black);
      SetColor(sibling, Red);
      Rotate(sibling, !isLeft);
    }

    /** A red far nephew: the sibling takes the place and colour of `up`, and the balance is restored. */
    method Settle(up: nat, sibling: nat, nephew: nat, isLeft: bool, ghost p: Path, ghost t: Tree, ghost h: nat) returns (ghost t': Tree)
      requires Separate() && Holds(Shape(), p, t) && DeleteInv(p, t, h) && !IsRed(t) && p != Top && p.InLeft? == isLeft
      requires up == p.key && Sibling(p).Node? && Sibling(p).color == Black && sibling == Sibling(p).key
      requires IsRed(Far(Sibling(p), isLeft)) && nephew == Far(Sibling(p), isLeft).key
      modifies parent, left, right, color, this`root
      ensures Holds(Shape(), Top, t') && IsRedBlack(t') && SameOrder(p, t, Top, t') && root == Ix(t')
    {
      ghost var sib := Sibling(p);
      ghost var near, far := Near(sib, isLeft), Far(sib, isLeft);
      assert sib == Join(Black, sibling, near, far, isLeft);
      assert p == Under(p.up, p.color, up, sib, isLeft);
      FocusUp(Shape(), p, t);
      hide Holds, DeleteInv, Rotated, CanRotate, IsRedBlack;
      DeleteFarRed(Shape(), p.up, p.color, up, sibling, near, far, isLeft, t, h);
      ghost var m := Join(p.color, sibling, Join(Black, up, t, near, isLeft), Blackened(far), isLeft);
      SetColor(sibling, color[up]);
      SetColor(up, Black);
      SetColor(nephew, Black);
      Rotate(up, isLeft);
      t' := Plug(p.up, m);
      Refocus(Shape(), p.up, m);
      RootFacts(Shape(), t');
    }

    /** A black sibling without red children is painted red. */
    method Redden(sibling: nat, ghost p: Path, ghost t: Tree, ghost h: nat) returns (ghost t': Tree, ghost h': nat)
      requires Separate() && Holds(Shape(), p, t) && DeleteInv(p, t, h) && !IsRed(t) && p != Top
      requires Sibling(p).Node? && Sibling(p).color == Black && sibling == Sibling(p).key
      requires !IsRed(Sibling(p).left) && !IsRed(Sibling(p).right)
      modifies color
      ensures Holds(Shape(), p.up, t') && DeleteInv(p.up, t', h') && SameOrder(p, t, p.up, t')
      ensures t'.Node? && t'.key == p.key && t'.color == p.color
    {
      assert p == Under(p.up, p.color, p.key, Sibling(p), p.InLeft?);
      hide Holds, DeleteInv, SameOrder;
      h' := DeleteRecolor(Shape(), p.up, p.color, p.key, Sibling(p), p.InLeft?, t, h);
      t' := Join(p.color, p.key, t, Node(Red, Sibling(p).left, sibling, Sibling(p).right), p.InLeft?);
      SetColor(sibling, Red);
    }

    /** One turn of the loop on the left side of `up`. */
    method RemoveStepLeft(start: nat, startUp: nat, ghost p: Path, ghost t: Tree, ghost h: nat)
      returns (index: nat, up: nat, ghost p': Path, ghost t': Tree, ghost h': nat, ghost done: bool)
      requires Separate() && Holds(Shape(), p, t) && DeleteInv(p, t, h) && !IsRed(t)
      requires p.InLeft? && start == Ix(t) && startUp == UpIx(p)
      modifies parent, left, right, color, this`root
      ensures Holds(Shape(), p', t') && SameOrder(p, t, p', t') && index == Ix(t')
      ensures done ==> p' == Top && IsRedBlack(t')
      ensures !done ==> DeleteInv(p', t', h') && up == UpIx(p')
      ensures PathLength(p') < PathLength(p) || (PathLength(p') == PathLength(p) && IsRed(t'))
    {
      hide Holds, IsRedBlack, DeleteInv, Inorder, Plug;
      index, up := start, startUp;
      p', t', h', done := p, t, h, false;
      SiblingFacts(Shape(), p', t, h);
      var sibling := right[up];

      if sibling != NIL && color[sibling] == Red {
        p' := RaiseSibling(up, sibling, true, p', t, h);
        SiblingFacts(Shape(), p', t, h);
        sibling := right[up];
      }

      if sibling == NIL ||
         ((left[sibling] == NIL || color[left[sibling]] == Black) &&
          (right[sibling] == NIL || color[right[sibling]] == Black)) {
        if sibling != NIL {
          t', h' := Redden(sibling, p', t, h);
        }
        index := up;
        p' := p'.up;
        FocusFacts(Shape(), p', t');
        up := parent[index];
      } else {
        if right[sibling] == NIL || color[right[sibling]] == Black {
          p' := RaiseNephew(left[sibling], sibling, true, p', t, h);
          SiblingFacts(Shape(), p', t, h);
          sibling := right[up];
        }
        t' := Settle(up, sibling, right[sibling], true, p', t, h);
        p', done := Top, true;
        index := root;
      }
    }

    /** One turn of the loop on the right side of `up`. */
    method RemoveStepRight(start: nat, startUp: nat, ghost p: Path, ghost t: Tree, ghost h: nat)
      returns (index: nat, up: nat, ghost p': Path, ghost t': Tree, ghost h': nat, ghost done: bool)
      requires Separate() && Holds(Shape(), p, t) && DeleteInv(p, t, h) && !IsRed(t)
      requires p.InRight? && start == Ix(t) && startUp == UpIx(p)
      modifies parent, left, right, color, this`root
      ensures Holds(Shape(), p', t') && SameOrder(p, t, p', t') && index == Ix(t')
      ensures done ==> p' == Top && IsRedBlack(t')
      ensures !done ==> DeleteInv(p', t', h') && up == UpIx(p')
      ensures PathLength(p') < PathLength(p) || (PathLength(p') == PathLength(p) && IsRed(t'))
    {
      hide Holds, IsRedBlack, DeleteInv, Inorder, Plug;
      index, up := start, startUp;
      p', t', h', done := p, t, h, false;
      SiblingFacts(Shape(), p', t, h);
      var sibling := left[up];

      if sibling != NIL && color[sibling] == Red {
        p' := RaiseSibling(up, sibling, false, p', t, h);
        SiblingFacts(Shape(), p', t, h);
        sibling := left[up];
      }

      if sibling == NIL ||
         ((left[sibling] == NIL || color[left[sibling]] == Black) &&
          (right[sibling] == NIL || color[right[sibling]] == Black)) {
        if sibling != NIL {
          t', h' := Redden(sibling, p', t, h);
        }
        index := up;
        p' := p'.up;
        FocusFacts(Shape(), p', t');
        up := parent[index];
      } else {
        if left[sibling] == NIL || color[left[sibling]] == Black {
          p' := RaiseNephew(right[sibling], sibling, false, p', t, h);
          SiblingFacts(Shape(), p', t, h);
          sibling := left[up];
        }
        t' := Settle(up, sibling, left[sibling], false, p', t, h);
        p', done := Top, true;
        index := root;
      }
    }

    method VruntimeBefore(a: nat, b: nat) returns (before: bool)
      requires vruntime.Length == procs.Length && a < procs.Length && b < procs.Length
      ensures before == RunsBefore(CurrentRanks(), a, b)
    {
      if vruntime[a] < vruntime[b] {
        return true;
      }
      if vruntime[a] > vruntime[b] {
        return false;
      }
      if procs[a].pid < procs[b].pid {
        return true;
      }
      if procs[a].pid > procs[b].pid {
        return false;
      }
      return a < b;
    }

    /** Paints the root black and caches the leftmost node again. */
    method Finish(ghost ranks: seq<Rank>, ghost order: seq<nat>)
      requires Separate() && Holds(Shape(), Top, tree) && IsRedBlack(Blackened(tree))
      requires tree.Node?
      requires ranks == CurrentRanks() && order == Inorder(tree) && InRunOrder(ranks, order)
      requires forall i :: 0 <= i < onRq.Length ==> (onRq[i] <==> i in Keys(tree))
      modifies color, this
      ensures Valid() && Inorder(tree) == order
    {
      KeysInRange(Shape(), tree, NIL);
      assert tree.key in Keys(tree);
      PaintHolds(Shape(), Top, tree, Black);
      SetColor(root, Black);
      tree := Blackened(tree);
      RecomputeLeftmost();
    }

    method RecomputeLeftmost()
      requires Separate() && Holds(Shape(), Top, tree)
      modifies this`leftmost
      ensures leftmost == First(tree)
    {
      RootFacts(Shape(), tree);
      hide Holds;
      var index := root;
      if index == NIL {
        leftmost := NIL;
        return;
      }
      ghost var p, t := Top, tree;
      DescendStep(Shape(), p, t);
      while left[index] != NIL
        invariant Holds(Shape(), p, t) && t.Node? && index == t.key < left.Length && left[index] == Ix(t.left)
        invariant (Ix(t.left) == NIL && t.left.Leaf?) || (Ix(t.left) < left.Length && t.left.Node?)
        invariant LeftmostNode(t) == LeftmostNode(tree)
        decreases t
      {
        DescendStep(Shape(), p, t);
        index := left[index];
        p, t := InLeft(p, t.color, t.key, t.right), t.left;
        DescendStep(Shape(), p, t);
      }
      leftmost := index;
    }
  }
}
