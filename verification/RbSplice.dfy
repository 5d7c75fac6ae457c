/** Taking a node out of the tree before any rebalancing: an only child takes its place, or
    the least node of its right subtree does. */
module RbSplice {
  import opened RbTree
  import opened RbLinks
  import opened RbFixup

  /** The links left by replacing `x`, which has two children, by the least node `y` of its right subtree. */
  function Succeeded(s: Links, x: nat, y: nat): Links
    requires CanSucceed(s, x, y)
  {
    var s2 := Transplanted(Detached(s, x, y), x, y);
    s2.(left := s2.left[y := s2.left[x]], parent := s2.parent[s2.left[x] := y], color := s2.color[y := s2.color[x]])
  }

  function Detached(s: Links, x: nat, y: nat): Links
    requires CanSucceed(s, x, y)
  {
    if s.parent[y] == x then ParentSet(s, s.right[y], y)
    else
      var s' := Transplanted(s, y, s.right[y]);
      s'.(right := s'.right[y := s'.right[x]], parent := s'.parent[s'.right[x] := y])
  }

  predicate CanSucceed(s: Links, x: nat, y: nat) {
    && Sized(s) && x < |s.parent| && y < |s.parent| && x != y
    && s.left[x] < |s.parent| && s.right[x] < |s.parent|
    && (s.right[y] == NIL || s.right[y] < |s.parent|)
    && s.parent[y] < |s.parent| && (s.parent[x] == NIL || s.parent[x] < |s.parent|)
    && s.right[y] != x && s.parent[y] != y && s.parent[x] != y && s.left[x] != y && s.left[x] != x
    && s.left[x] != s.parent[x]
    && (s.parent[y] != x ==> s.right[x] != y && s.right[x] != x && s.left[s.parent[y]] == y)
  }

  /** A node assembled from parts that are already in place, once their links point to it. */
  lemma AssembleHolds(s: Links, s': Links, p: Path, hole: nat, c: Color, l: Tree, lup: nat, y: nat, r: Tree, rup: nat)
    requires Sized(s) && Sized(s') && |s.parent| == |s'.parent| && y < |s.parent|
    requires Rep(s, l, lup) && Rep(s, r, rup) && RepPath(s, p, hole)
    requires Distinct(Node(c, l, y, r)) && PathDistinct(p) && Keys(Node(c, l, y, r)) !! PathKeys(p)
    requires s'.parent[y] == UpIx(p) && s'.left[y] == Ix(l) && s'.right[y] == Ix(r) && s'.color[y] == c
    requires l.Node? ==> MovedAt(s, s', l.key, y)
    requires r.Node? ==> MovedAt(s, s', r.key, y)
    requires PointsTo(s, s', p, y)
    requires forall k :: k in Keys(l) + Keys(r) + PathKeys(p) && k != Ix(l) && k != Ix(r) && k != UpIx(p) ==> SameAt(s, s', k)
    ensures Holds(s', p, Node(c, l, y, r))
  {
    KeysInRange(s, l, lup);
    KeysInRange(s, r, rup);
    PathKeysInRange(s, p, hole);
    assert p != Top ==> UpIx(p) in PathKeys(p);
    assert l.Node? ==> l.key in Keys(l);
    assert r.Node? ==> r.key in Keys(r);
    assert Keys(Node(c, l, y, r)) == Keys(l) + {y} + Keys(r);
    RepMoved(s, s', l, lup, y);
    RepMoved(s, s', r, rup, y);
    PathMoved(s, s', p, hole, y);
  }

  /** Cell by cell, `y` now has `x`'s place and children. */
  ghost predicate TookPlace(s: Links, s': Links, p: Path, x: nat, l: nat, y: nat, r: nat)
    requires Sized(s) && Sized(s') && |s.parent| == |s'.parent|
  {
    && x < |s.parent| && y < |s.parent|
    && s'.parent[y] == UpIx(p) && s'.left[y] == l && s'.right[y] == r && s'.color[y] == s.color[x]
    && MovedAt(s, s', l, y) && MovedAt(s, s', r, y) && PointsTo(s, s', p, y)
    && forall k :: k != x && k != y && k != l && k != r && k != UpIx(p) ==> SameAt(s, s', k)
  }

  lemma TookPlaceHolds(s: Links, s': Links, p: Path, c: Color, l: Tree, lup: nat, x: nat, y: nat, r: Tree, rup: nat)
    requires Sized(s) && Sized(s') && |s.parent| == |s'.parent|
    requires Rep(s, l, lup) && Rep(s, r, rup) && RepPath(s, p, x)
    requires Distinct(Node(c, l, y, r)) && PathDistinct(p) && Keys(Node(c, l, y, r)) !! PathKeys(p)
    requires x !in Keys(l) && x !in Keys(r) && x !in PathKeys(p)
    requires x < |s.parent| && s.color[x] == c
    requires TookPlace(s, s', p, x, Ix(l), y, Ix(r))
    ensures Holds(s', p, Node(c, l, y, r))
  {
    assert Keys(Node(c, l, y, r)) == Keys(l) + {y} + Keys(r);
    AssembleHolds(s, s', p, x, c, l, lup, y, r, rup);
  }

  lemma TookPlaceAdjacent(s: Links, p: Path, x: nat, y: nat)
    requires CanSucceed(s, x, y) && s.parent[y] == x && s.parent[x] == UpIx(p)
    requires p != Top ==> UpIx(p) < |s.parent|
    requires p.InLeft? ==> s.left[UpIx(p)] == x
    requires p.InRight? ==> s.left[UpIx(p)] != x
    requires s.right[y] != UpIx(p) || s.right[y] == NIL
    requires s.right[y] != NIL ==> s.parent[s.right[y]] == y && s.right[y] != s.left[x] && s.right[y] != y
    requires UpIx(p) != x && UpIx(p) != y
    ensures var s' := Succeeded(s, x, y);
      && Sized(s') && |s'.parent| == |s.parent|
      && TookPlace(s, s', p, x, s.left[x], y, s.right[y])
  {
  }

  lemma TookPlaceDeep(s: Links, s1: Links, p: Path, x: nat, y: nat)
    requires CanSucceed(s, x, y) && s.parent[y] != x
    requires s1 == Transplanted(s, y, s.right[y])
    requires s1.parent[x] == UpIx(p) && s1.left[x] == s.left[x] && s1.right[x] == s.right[x] && s1.color[x] == s.color[x]
    requires p != Top ==> UpIx(p) < |s.parent|
    requires p.InLeft? ==> s1.left[UpIx(p)] == x
    requires p.InRight? ==> s1.left[UpIx(p)] != x
    requires s.right[x] != UpIx(p) && s.left[x] != s.right[x]
    requires UpIx(p) != x && UpIx(p) != y
    ensures var s' := Succeeded(s, x, y);
      && Sized(s1) && |s1.parent| == |s.parent| && Sized(s') && |s'.parent| == |s.parent|
      && TookPlace(s1, s', p, x, s.left[x], y, s.right[x])
  {
  }

  /** The successor is the right child of `x` itself. */
  lemma SucceedAdjacent(s: Links, p: Path, c: Color, l: Tree, x: nat, cy: Color, y: nat, ry: Tree)
    requires Holds(s, p, Node(c, l, x, Node(cy, Leaf, y, ry))) && l.Node?
    ensures CanSucceed(s, x, y) && s.parent[y] == x
    ensures Holds(Succeeded(s, x, y), InRight(p, c, l, y), ry)
  {
    var yt := Node(cy, Leaf, y, ry);
    assert Rep(s, yt, x) && Distinct(yt) && Keys(yt) == Keys(ry) + {y};
    assert Keys(Node(c, l, x, yt)) == Keys(l) + {x} + Keys(yt);
    UpFacts(s, p, x);
    AdjacentReady(s, p, x, l, y, ry);
    TookPlaceAdjacent(s, p, x, y);
    assert Keys(Node(c, l, y, ry)) == Keys(l) + {y} + Keys(ry);
    TookPlaceHolds(s, Succeeded(s, x, y), p, c, l, x, x, y, ry, y);
    StepUp(Succeeded(s, x, y), p, c, y, l, false, ry);
  }

  lemma AdjacentReady(s: Links, p: Path, x: nat, l: Tree, y: nat, ry: Tree)
    requires Sized(s) && x < |s.parent| && y < |s.parent| && x != y
    requires Rep(s, l, x) && Rep(s, ry, y) && RepPath(s, p, x) && l.Node?
    requires s.left[x] == l.key && s.right[x] == y && s.parent[x] == UpIx(p)
    requires s.right[y] == Ix(ry) && s.parent[y] == x
    requires x !in Keys(l) && y !in Keys(l) && x !in Keys(ry) && y !in Keys(ry) && Keys(l) !! Keys(ry)
    requires Keys(l) !! PathKeys(p) && Keys(ry) !! PathKeys(p) && x !in PathKeys(p) && y !in PathKeys(p)
    ensures CanSucceed(s, x, y)
    ensures UpIx(p) != x && UpIx(p) != y
    ensures s.right[y] != UpIx(p) || s.right[y] == NIL
    ensures s.right[y] != NIL ==> s.parent[s.right[y]] == y && s.right[y] != s.left[x] && s.right[y] != y
  {
    KeysInRange(s, l, x);
    KeysInRange(s, ry, y);
    PathKeysInRange(s, p, x);
    assert l.key in Keys(l);
    assert ry.Node? ==> ry.key in Keys(ry);
    assert p != Top ==> UpIx(p) in PathKeys(p);
  }

  /** The successor lies deeper: its own child takes its place first. */
  lemma SucceedDeep(s: Links, p: Path, c: Color, l: Tree, x: nat, q: Path, cy: Color, y: nat, ry: Tree)
    requires Holds(s, p, Node(c, l, x, Plug(q, Node(cy, Leaf, y, ry)))) && l.Node? && q.InLeft?
    ensures CanSucceed(s, x, y) && s.parent[y] != x && s.parent[y] == UpIx(q)
    ensures Holds(Succeeded(s, x, y), Append(q, InRight(p, c, l, y)), ry)
  {
    var yt := Node(cy, Leaf, y, ry);
    var r, r' := Plug(q, yt), Plug(q, ry);
    PlugRootKey(q, yt, ry);
    assert Keys(Node(c, l, x, r)) == Keys(l) + {x} + Keys(r);
    DeepKeys(q, cy, y, ry);
    DeepFocus(s, p, c, l, x, q, cy, y, ry);
    var s1 := Transplanted(s, y, Ix(ry));
    DeepReady(s, s1, p, c, l, x, r, q, y, r');
    TookPlaceDeep(s, s1, p, x, y);
    assert Keys(Node(c, l, x, r')) == Keys(l) + {x} + Keys(r');
    assert Keys(Node(c, l, y, r')) == Keys(l) + {y} + Keys(r');
    var s' := Succeeded(s, x, y);
    TookPlaceHolds(s1, s', p, c, l, x, x, y, r', x);
    StepUp(s', p, c, y, l, false, r');
    Redescend(s', InRight(p, c, l, y), q, ry);
  }

  lemma Redescend(s: Links, base: Path, q: Path, t: Tree)
    ensures Holds(s, base, Plug(q, t)) <==> Holds(s, Append(q, base), t)
  {
    Refocus(s, base, Plug(q, t));
    PlugAppend(q, base, t);
    Refocus(s, Append(q, base), t);
  }

  lemma DeepKeys(q: Path, cy: Color, y: nat, ry: Tree)
    requires Distinct(Plug(q, Node(cy, Leaf, y, ry))) && q.InLeft?
    ensures Keys(Plug(q, Node(cy, Leaf, y, ry))) == Keys(Plug(q, ry)) + {y}
    ensures y !in Keys(Plug(q, ry)) && Distinct(Plug(q, ry))
    ensures q.key in Keys(Plug(q, ry)) && (ry.Node? ==> ry.key in Keys(Plug(q, ry)))
  {
    var yt := Node(cy, Leaf, y, ry);
    PlugKeys(q, yt);
    PlugKeys(q, ry);
    PlugDistinct(q, yt);
    PlugDistinct(q, ry);
    assert Keys(yt) == Keys(ry) + {y};
    assert q.key in PathKeys(q);
  }

  lemma DeepFocus(s: Links, p: Path, c: Color, l: Tree, x: nat, q: Path, cy: Color, y: nat, ry: Tree)
    requires Holds(s, p, Node(c, l, x, Plug(q, Node(cy, Leaf, y, ry)))) && q.InLeft?
    ensures y < |s.parent| && s.parent[y] == q.key && q.key < |s.parent| && s.left[q.key] == y && s.right[y] == Ix(ry)
    ensures Ix(ry) == NIL || Ix(ry) < |s.parent|
    ensures var s1 := Transplanted(s, y, Ix(ry));
      && Holds(s1, p, Node(c, l, x, Plug(q, ry))) && |s1.parent| == |s.parent|
  {
    var yt := Node(cy, Leaf, y, ry);
    var base := InRight(p, c, l, x);
    StepUp(s, p, c, x, l, false, Plug(q, yt));
    Redescend(s, base, q, yt);
    var full := Append(q, base);
    assert full.InLeft? && UpIx(full) == q.key;
    TransplantHolds(s, full, cy, y, ry, false);
    PathKeysInRange(s, full, y);
    var s1 := Transplanted(s, y, Ix(ry));
    Redescend(s1, base, q, ry);
    StepUp(s1, p, c, x, l, false, Plug(q, ry));
  }

  lemma DeepReady(s: Links, s1: Links, p: Path, c: Color, l: Tree, x: nat, r: Tree, q: Path, y: nat, r': Tree)
    requires Holds(s, p, Node(c, l, x, r)) && Holds(s1, p, Node(c, l, x, r')) && |s1.parent| == |s.parent|
    requires l.Node? && r.Node? && r'.Node? && r.key == r'.key && q.InLeft?
    requires y < |s.parent| && s.parent[y] == q.key && q.key < |s.parent| && s.left[q.key] == y
    requires s.right[y] == NIL || s.right[y] < |s.parent|
    requires s.right[y] == NIL || s.right[y] in Keys(r)
    requires Keys(r) == Keys(r') + {y} && y !in Keys(r') && q.key in Keys(r')
    ensures CanSucceed(s, x, y) && s.parent[y] != x
    ensures s1.parent[x] == UpIx(p) && s1.left[x] == s.left[x] && s1.right[x] == s.right[x] && s1.color[x] == s.color[x]
    ensures p != Top ==> UpIx(p) < |s.parent|
    ensures p.InLeft? ==> s1.left[UpIx(p)] == x
    ensures p.InRight? ==> s1.left[UpIx(p)] != x
    ensures s.right[x] != UpIx(p) && s.left[x] != s.right[x]
    ensures UpIx(p) != x && UpIx(p) != y
  {
    assert Keys(Node(c, l, x, r)) == Keys(l) + {x} + Keys(r);
    assert l.key in Keys(l) && r'.key in Keys(r');
    UpFacts(s1, p, x);
    UpFacts(s, p, x);
    KeysInRange(s, l, x);
    KeysInRange(s, r, x);
  }

  lemma {:induction false} PlugRootKey(p: Path, t: Tree, t': Tree)
    requires p != Top
    ensures Plug(p, t).Node? && Plug(p, t').Node? && Plug(p, t).key == Plug(p, t').key
  {
    match p
    case InLeft(up, c, k, r) => if up != Top { PlugRootKey(up, Node(c, t, k, r), Node(c, t', k, r)); }
    case InRight(up, c, l, k) => if up != Top { PlugRootKey(up, Node(c, l, k, t), Node(c, l, k, t')); }
  }

  // ---------------------------------------------------------------- shape and order after the removal

  /** The colours and heights of a path do not depend on the key of its last step. */
  lemma {:induction false} RekeyPath(q: Path, up: Path, c: Color, l: Tree, x: nat, y: nat, h: nat, red: bool)
    ensures PathBalanced(Append(q, InRight(up, c, l, x)), h) <==> PathBalanced(Append(q, InRight(up, c, l, y)), h)
    ensures PathNoRedRed(Append(q, InRight(up, c, l, x)), red) <==> PathNoRedRed(Append(q, InRight(up, c, l, y)), red)
    ensures PathRootBlack(Append(q, InRight(up, c, l, x))) <==> PathRootBlack(Append(q, InRight(up, c, l, y)))
  {
    match q
    case Top =>
    case InLeft(up', c', k, r) => RekeyPath(up', up, c, l, x, y, if c' == Black then h + 1 else h, c' == Red);
    case InRight(up', c', l', k) => RekeyPath(up', up, c, l, x, y, if c' == Black then h + 1 else h, c' == Red);
  }

  /** Replacing a node that has at most one child by that child: either nothing was lost, or one
      black node is missing there. */
  lemma SplicedShape(p: Path, c: Color, k: nat, child: Tree, isLeft: bool) returns (h: nat)
    requires IsRedBlack(Plug(p, Join(c, k, child, Leaf, isLeft)))
    ensures c == Black ==> DeleteInv(p, child, h)
    ensures c == Red ==> child == Leaf && IsRedBlack(Plug(p, child))
  {
    var t := Join(c, k, child, Leaf, isLeft);
    var total: nat :| Balanced(Plug(p, t), total);
    h := UnplugBalanced(p, t, total);
    UnplugNoRedRed(p, t);
    UnplugRoot(p, t);
    OpenNode(c, k, child, Leaf, isLeft, h);
    LessRed(p, c == Red);
    if c == Black {
      h := h - 1;
      assert NoRedRed(Blackened(child));
    } else {
      assert child == Leaf && h == 0;
      var total' := PlugBalanced(p, Leaf, 0);
      PlugNoRedRed(p, Leaf);
      if p != Top { PlugRoot(p, Leaf); }
    }
  }

  /** The same when the node was taken from under `x` and put in its place. */
  lemma SucceededShape(p: Path, c: Color, l: Tree, x: nat, q: Path, cy: Color, y: nat, ry: Tree) returns (h: nat)
    requires IsRedBlack(Plug(p, Node(c, l, x, Plug(q, Node(cy, Leaf, y, ry)))))
    ensures cy == Black ==> DeleteInv(Append(q, InRight(p, c, l, y)), ry, h)
    ensures cy == Red ==> ry == Leaf && IsRedBlack(Plug(p, Node(c, l, y, Plug(q, ry))))
  {
    var yt := Node(cy, Leaf, y, ry);
    var full := Append(q, InRight(p, c, l, x));
    PlugAppend(q, InRight(p, c, l, x), yt);
    h := SplicedShape(full, cy, y, ry, false);
    RekeyPath(q, p, c, l, x, y, h + 1, false);
    if cy == Red {
      PlugAppend(q, InRight(p, c, l, x), ry);
      PlugAppend(q, InRight(p, c, l, y), ry);
      RekeyRedBlack(p, c, l, x, y, Plug(q, ry));
    }
  }

  lemma RekeyRedBlack(p: Path, c: Color, l: Tree, x: nat, y: nat, r: Tree)
    requires IsRedBlack(Plug(p, Node(c, l, x, r)))
    ensures IsRedBlack(Plug(p, Node(c, l, y, r)))
  {
    var t, t' := Node(c, l, x, r), Node(c, l, y, r);
    var total: nat :| Balanced(Plug(p, t), total);
    var h := UnplugBalanced(p, t, total);
    UnplugNoRedRed(p, t);
    UnplugRoot(p, t);
    assert Balanced(t', h) && NoRedRed(t');
    var total' := PlugBalanced(p, t', h);
    PlugNoRedRed(p, t');
    if p != Top { PlugRoot(p, t'); }
  }

  /** `order` without the key `x`. */
  ghost predicate WithoutKey(order: seq<nat>, x: nat, order': seq<nat>) {
    exists i :: 0 <= i < |order| && order[i] == x && order' == order[..i] + order[i + 1..]
  }

  lemma CutOut(pre: seq<nat>, x: nat, post: seq<nat>)
    ensures WithoutKey(pre + [x] + post, x, pre + post)
  {
    var order, i := pre + [x] + post, |pre|;
    assert order[i] == x && pre + post == order[..i] + order[i + 1..];
  }

  lemma SplicedOrder(p: Path, c: Color, x: nat, child: Tree, isLeft: bool)
    ensures WithoutKey(Inorder(Plug(p, Join(c, x, child, Leaf, isLeft))), x, Inorder(Plug(p, child)))
  {
    var t := Join(c, x, child, Leaf, isLeft);
    var pre, post := Before(p), After(p);
    PlugInorder(p, t);
    PlugInorder(p, child);
    if isLeft {
      CutOut(pre + Inorder(child), x, post);
      assert Inorder(t) == Inorder(child) + [x];
      Reassociate(pre, Inorder(child), [x], post);
    } else {
      CutOut(pre, x, Inorder(child) + post);
      assert Inorder(t) == [x] + Inorder(child);
      Reassociate(pre, [x], Inorder(child), post);
      Reassociate(pre, [], Inorder(child), post);
      assert pre + [] == pre && [] + Inorder(child) == Inorder(child);
    }
  }

  lemma {:induction false} LeftmostOrder(r: Tree)
    requires r.Node?
    ensures Inorder(r) == [LeftmostNode(r).key] + Inorder(Plug(LeftmostPath(r), LeftmostNode(r).right))
  {
    var q, m := LeftmostPath(r), LeftmostNode(r);
    LeftmostPlug(r);
    PlugInorder(q, m);
    PlugInorder(q, m.right);
    assert [] + ([] + [m.key] + Inorder(m.right)) + After(q) == [m.key] + ([] + Inorder(m.right) + After(q));
  }

  lemma Regroup(a: seq<nat>, b: seq<nat>, m: seq<nat>, c: seq<nat>, d: seq<nat>)
    ensures a + (b + m + c) + d == (a + b) + m + (c + d)
  {
  }

  lemma SucceededOrder(p: Path, c: Color, l: Tree, x: nat, r: Tree, y: nat, rest: Tree)
    requires Inorder(r) == [y] + Inorder(rest)
    ensures WithoutKey(Inorder(Plug(p, Node(c, l, x, r))), x, Inorder(Plug(p, Node(c, l, y, rest))))
  {
    var order, order' := Inorder(Plug(p, Node(c, l, x, r))), Inorder(Plug(p, Node(c, l, y, rest)));
    var pre, post := Before(p) + Inorder(l), Inorder(r) + After(p);
    assert order == pre + [x] + post by {
      PlugInorder(p, Node(c, l, x, r));
      Regroup(Before(p), Inorder(l), [x], Inorder(r), After(p));
    }
    assert order' == pre + [y] + (Inorder(rest) + After(p)) by {
      PlugInorder(p, Node(c, l, y, rest));
      Regroup(Before(p), Inorder(l), [y], Inorder(rest), After(p));
    }
    assert order' == pre + post;
    CutOut(pre, x, post);
  }

  lemma {:induction false} LeftmostPathGoesLeft(t: Tree)
    requires t.Node?
    ensures LeftmostPath(t) == Top <==> t.left.Leaf?
    ensures LeftmostPath(t) == Top ==> LeftmostNode(t) == t
    ensures LeftmostPath(t) != Top ==> LeftmostPath(t).InLeft?
  {
    if t.left.Node? { LeftmostPathGoesLeft(t.left); }
  }

  /** Everything about replacing the focused node, which has two children, by its successor. */
  lemma SuccessorTakesPlace(s: Links, p: Path, m: Tree) returns (h: nat)
    requires Holds(s, p, m) && m.Node? && m.left.Node? && m.right.Node? && IsRedBlack(Plug(p, m))
    ensures var q, y := LeftmostPath(m.right), LeftmostNode(m.right);
      var p' := Append(q, InRight(p, m.color, m.left, y.key));
      && y.key < |s.parent| && s.color[y.key] == y.color && s.right[y.key] == Ix(y.right)
      && CanSucceed(s, m.key, y.key)
      && Holds(Succeeded(s, m.key, y.key), p', y.right)
      && UpIx(p') == (if s.parent[y.key] == m.key then y.key else s.parent[y.key])
      && (y.color == Black ==> DeleteInv(p', y.right, h))
      && (y.color == Red ==> IsRedBlack(Plug(p', y.right)))
      && WithoutKey(Inorder(Plug(p, m)), m.key, Inorder(Plug(p', y.right)))
  {
    var r, q, y := m.right, LeftmostPath(m.right), LeftmostNode(m.right);
    LeftmostPlug(r);
    LeftmostPathGoesLeft(r);
    assert y == Node(y.color, Leaf, y.key, y.right);
    SuccessorCells(s, p, m, q, y);
    if q == Top {
      SucceedAdjacent(s, p, m.color, m.left, m.key, y.color, y.key, y.right);
    } else {
      SucceedDeep(s, p, m.color, m.left, m.key, q, y.color, y.key, y.right);
    }
    h := SucceededShape(p, m.color, m.left, m.key, q, y.color, y.key, y.right);
    LeftmostOrder(r);
    SucceededOrder(p, m.color, m.left, m.key, r, y.key, Plug(q, y.right));
    PlugAppend(q, InRight(p, m.color, m.left, y.key), y.right);
  }

  lemma SuccessorCells(s: Links, p: Path, m: Tree, q: Path, y: Tree)
    requires Holds(s, p, m) && m.Node? && m.right == Plug(q, y) && y.Node?
    ensures y.key < |s.parent| && s.color[y.key] == y.color && s.right[y.key] == Ix(y.right)
  {
    StepUp(s, p, m.color, m.key, m.left, false, m.right);
    Redescend(s, InRight(p, m.color, m.left, m.key), q, y);
  }
}
