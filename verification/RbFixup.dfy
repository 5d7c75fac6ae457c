/** What the recolouring and rotation steps of insertion and removal do to the tree: each
    step keeps the keys in order and re-establishes its loop's invariant. */
module RbFixup {
  import opened RbTree
  import opened RbLinks

  // A node, or a step of a path, with the side as a parameter.

  function Join(c: Color, k: nat, t: Tree, other: Tree, isLeft: bool): Tree {
    if isLeft then Node(c, t, k, other) else Node(c, other, k, t)
  }

  function Under(up: Path, c: Color, k: nat, other: Tree, isLeft: bool): Path {
    if isLeft then InLeft(up, c, k, other) else InRight(up, c, other, k)
  }

  function Blackened(t: Tree): Tree {
    match t
    case Leaf => Leaf
    case Node(_, l, k, r) => Node(Black, l, k, r)
  }

  /** Rotates `x` down to the left, or to the right. */
  predicate CanRotate(s: Links, x: nat, toLeft: bool) {
    if toLeft then CanRotateLeft(s, x) else CanRotateRight(s, x)
  }

  function Rotated(s: Links, x: nat, toLeft: bool): Links
    requires CanRotate(s, x, toLeft)
  {
    if toLeft then RotatedLeft(s, x) else RotatedRight(s, x)
  }

  lemma OpenNode(c: Color, k: nat, t: Tree, other: Tree, isLeft: bool, h: nat)
    ensures Balanced(Join(c, k, t, other, isLeft), h) <==>
      if c == Red then Balanced(t, h) && Balanced(other, h)
      else h > 0 && Balanced(t, h - 1) && Balanced(other, h - 1)
    ensures NoRedRed(Join(c, k, t, other, isLeft)) <==>
      (c == Red ==> !IsRed(t) && !IsRed(other)) && NoRedRed(t) && NoRedRed(other)
  {
  }

  lemma OpenStep(up: Path, c: Color, k: nat, other: Tree, isLeft: bool, h: nat, red: bool)
    ensures PathBalanced(Under(up, c, k, other, isLeft), h) <==>
      Balanced(other, h) && PathBalanced(up, if c == Black then h + 1 else h)
    ensures PathNoRedRed(Under(up, c, k, other, isLeft), red) <==>
      NoRedRed(other) && (c == Red ==> !red && !IsRed(other)) && PathNoRedRed(up, c == Red)
    ensures PathRootBlack(Under(up, c, k, other, isLeft)) <==> if up == Top then c == Black else PathRootBlack(up)
  {
  }

  lemma LessRed(p: Path, red: bool)
    requires PathNoRedRed(p, red)
    ensures PathNoRedRed(p, false)
  {
  }

  lemma StepUp(s: Links, up: Path, c: Color, k: nat, other: Tree, isLeft: bool, t: Tree)
    ensures Holds(s, Under(up, c, k, other, isLeft), t) <==> Holds(s, up, Join(c, k, t, other, isLeft))
  {
  }

  lemma StepAcross(s: Links, up: Path, c: Color, k: nat, other: Tree, isLeft: bool, t: Tree)
    ensures Holds(s, Under(up, c, k, other, isLeft), t) <==> Holds(s, Under(up, c, k, t, !isLeft), other)
  {
    StepUp(s, up, c, k, other, isLeft, t);
    StepUp(s, up, c, k, t, !isLeft, other);
  }

  lemma PaintHolds(s: Links, p: Path, t: Tree, c: Color)
    requires Holds(s, p, t) && t.Node?
    ensures t.key < |s.parent|
    ensures Holds(Colored(s, t.key, c), p, Node(c, t.left, t.key, t.right))
  {
    ColoredHolds(s, p, t.color, t.left, t.key, t.right, c);
  }

  /** The node above the focus. */
  lemma PaintUpHolds(s: Links, up: Path, pc: Color, k: nat, other: Tree, isLeft: bool, t: Tree, c: Color)
    requires Holds(s, Under(up, pc, k, other, isLeft), t)
    ensures k < |s.parent|
    ensures Holds(Colored(s, k, c), Under(up, c, k, other, isLeft), t)
  {
    StepUp(s, up, pc, k, other, isLeft, t);
    PaintHolds(s, up, Join(pc, k, t, other, isLeft), c);
    StepUp(Colored(s, k, c), up, c, k, other, isLeft, t);
  }

  /** The sibling of the focus. */
  lemma PaintSiblingHolds(s: Links, up: Path, pc: Color, k: nat, sib: Tree, isLeft: bool, t: Tree, c: Color)
    requires Holds(s, Under(up, pc, k, sib, isLeft), t) && sib.Node?
    ensures sib.key < |s.parent|
    ensures Holds(Colored(s, sib.key, c), Under(up, pc, k, Node(c, sib.left, sib.key, sib.right), isLeft), t)
  {
    StepAcross(s, up, pc, k, sib, isLeft, t);
    PaintHolds(s, Under(up, pc, k, t, !isLeft), sib, c);
    StepAcross(Colored(s, sib.key, c), up, pc, k, Node(c, sib.left, sib.key, sib.right), isLeft, t);
  }

  /** `x` goes down on the side of `a`; its other child `y` comes up and hands over its near child `b`. */
  lemma RotateHolds(s: Links, p: Path, cx: Color, a: Tree, x: nat, cy: Color, b: Tree, y: nat, c: Tree, toLeft: bool)
    requires Holds(s, p, Join(cx, x, a, Join(cy, y, b, c, toLeft), toLeft))
    ensures CanRotate(s, x, toLeft)
    ensures Holds(Rotated(s, x, toLeft), p, Join(cy, y, Join(cx, x, a, b, toLeft), c, toLeft))
  {
    if toLeft {
      RotateLeftHolds(s, p, cx, a, x, cy, b, y, c);
    } else {
      RotateRightHolds(s, p, cx, cy, c, y, b, x, a);
    }
  }

  lemma RotateKeepsOrder(p: Path, cx: Color, a: Tree, x: nat, cy: Color, b: Tree, y: nat, c: Tree, toLeft: bool,
                         cx': Color, cy': Color)
    ensures Inorder(Join(cx, x, a, Join(cy, y, b, c, toLeft), toLeft))
         == Inorder(Join(cy', y, Join(cx', x, a, b, toLeft), c, toLeft))
  {
    if toLeft {
      assert Inorder(a) + [x] + (Inorder(b) + [y] + Inorder(c)) == (Inorder(a) + [x] + Inorder(b)) + [y] + Inorder(c);
    } else {
      assert (Inorder(c) + [y] + Inorder(b)) + [x] + Inorder(a) == Inorder(c) + [y] + (Inorder(b) + [x] + Inorder(a));
    }
  }

  /** Two zippers with the same keys in the same order. */
  predicate SameOrder(p: Path, t: Tree, p': Path, t': Tree) {
    Inorder(Plug(p, t)) == Inorder(Plug(p', t'))
  }

  lemma SameOrderHere(p: Path, t: Tree, t': Tree)
    requires Inorder(t) == Inorder(t')
    ensures SameOrder(p, t, p, t')
  {
    PlugInorder(p, t);
    PlugInorder(p, t');
  }

  // ---------------------------------------------------------------- insertion

  /** The fresh red node `t` may clash with a red parent; everything else is in order. */
  predicate InsertInv(p: Path, t: Tree, h: nat) {
    && IsRed(t) && NoRedRed(t) && Balanced(t, h)
    && PathBalanced(p, h) && PathNoRedRed(p, false) && PathRootBlack(p)
  }

  /** A red parent has a black parent of its own. */
  lemma RedParentHasParent(up: Path, k: nat, other: Tree, isLeft: bool, t: Tree, h: nat)
    requires InsertInv(Under(up, Red, k, other, isLeft), t, h)
    ensures up != Top
    ensures up.color == Black
  {
    OpenStep(up, Red, k, other, isLeft, h, false);
    assert PathNoRedRed(up, true);
  }

  lemma InsertRecolorShape(g: Path, gk: nat, uncle: Tree, gl: bool, pk: nat, sib: Tree, pl: bool, t: Tree, h: nat)
    requires InsertInv(Under(Under(g, Black, gk, uncle, gl), Red, pk, sib, pl), t, h)
    requires IsRed(uncle)
    ensures InsertInv(g, Join(Red, gk, Join(Black, pk, t, sib, pl), Blackened(uncle), gl), h + 1)
  {
    OpenStep(Under(g, Black, gk, uncle, gl), Red, pk, sib, pl, h, false);
    OpenStep(g, Black, gk, uncle, gl, h, true);
    OpenNode(Black, pk, t, sib, pl, h + 1);
    OpenNode(Red, uncle.key, uncle.left, uncle.right, true, h);
    OpenNode(Black, uncle.key, uncle.left, uncle.right, true, h + 1);
    OpenNode(Red, gk, Join(Black, pk, t, sib, pl), Blackened(uncle), gl, h + 1);
  }

  lemma InsertRotateShape(g: Path, gk: nat, uncle: Tree, gl: bool, pk: nat, sib: Tree, t: Tree, h: nat)
    requires InsertInv(Under(Under(g, Black, gk, uncle, gl), Red, pk, sib, gl), t, h)
    requires !IsRed(uncle)
    ensures InsertInv(Under(g, Black, pk, Join(Red, gk, uncle, sib, !gl), gl), t, h)
  {
    OpenStep(Under(g, Black, gk, uncle, gl), Red, pk, sib, gl, h, false);
    OpenStep(g, Black, gk, uncle, gl, h, true);
    OpenNode(Red, gk, uncle, sib, !gl, h);
    OpenStep(g, Black, pk, Join(Red, gk, uncle, sib, !gl), gl, h, false);
  }

  lemma InsertRecolor(s: Links, g: Path, gk: nat, uncle: Tree, gl: bool, pk: nat, sib: Tree, pl: bool, t: Tree, h: nat)
    requires Holds(s, Under(Under(g, Black, gk, uncle, gl), Red, pk, sib, pl), t)
    requires InsertInv(Under(Under(g, Black, gk, uncle, gl), Red, pk, sib, pl), t, h)
    requires IsRed(uncle)
    ensures pk < |s.parent| && gk < |s.parent| && uncle.key < |s.parent|
    ensures
      var s' := Colored(Colored(Colored(s, pk, Black), uncle.key, Black), gk, Red);
      var t' := Join(Red, gk, Join(Black, pk, t, sib, pl), Blackened(uncle), gl);
      && Holds(s', g, t') && InsertInv(g, t', h + 1)
      && SameOrder(Under(Under(g, Black, gk, uncle, gl), Red, pk, sib, pl), t, g, t')
  {
    var gp := Under(g, Black, gk, uncle, gl);
    var pt := Join(Red, pk, t, sib, pl);
    var pt' := Join(Black, pk, t, sib, pl);
    StepUp(s, gp, Red, pk, sib, pl, t);
    PaintHolds(s, gp, pt, Black);
    var s1 := Colored(s, pk, Black);
    PaintSiblingHolds(s1, g, Black, gk, uncle, gl, pt', Black);
    var s2 := Colored(s1, uncle.key, Black);
    PaintUpHolds(s2, g, Black, gk, Blackened(uncle), gl, pt', Red);
    var t' := Join(Red, gk, pt', Blackened(uncle), gl);
    StepUp(Colored(s2, gk, Red), g, Red, gk, Blackened(uncle), gl, pt');
    InsertRecolorShape(g, gk, uncle, gl, pk, sib, pl, t, h);
    SameOrderHere(g, Join(Black, gk, pt, uncle, gl), t');
  }

  /** An inner grandchild is rotated to the outside. */
  lemma InsertZigzag(s: Links, g: Path, gk: nat, uncle: Tree, gl: bool, pk: nat, sib: Tree, t: Tree, near: Tree, far: Tree, h: nat)
    requires Holds(s, Under(Under(g, Black, gk, uncle, gl), Red, pk, sib, !gl), t)
    requires InsertInv(Under(Under(g, Black, gk, uncle, gl), Red, pk, sib, !gl), t, h)
    requires t == Join(Red, t.key, near, far, gl)
    ensures CanRotate(s, pk, gl)
    ensures
      var p' := Under(Under(g, Black, gk, uncle, gl), Red, t.key, far, gl);
      var t' := Join(Red, pk, sib, near, gl);
      && Holds(Rotated(s, pk, gl), p', t') && InsertInv(p', t', h)
      && SameOrder(Under(Under(g, Black, gk, uncle, gl), Red, pk, sib, !gl), t, p', t')
  {
    var gp := Under(g, Black, gk, uncle, gl);
    StepUp(s, gp, Red, pk, sib, !gl, t);
    RotateHolds(s, gp, Red, sib, pk, Red, near, t.key, far, gl);
    StepUp(Rotated(s, pk, gl), gp, Red, t.key, far, gl, Join(Red, pk, sib, near, gl));
    RotateKeepsOrder(gp, Red, sib, pk, Red, near, t.key, far, gl, Red, Red);
    SameOrderHere(gp, Join(Red, pk, t, sib, !gl), Join(Red, t.key, Join(Red, pk, sib, near, gl), far, gl));
  }

  /** The outer case ends the loop: the parent takes the grandparent's place. */
  lemma InsertRotate(s: Links, g: Path, gk: nat, uncle: Tree, gl: bool, pk: nat, sib: Tree, t: Tree, h: nat)
    requires Holds(s, Under(Under(g, Black, gk, uncle, gl), Red, pk, sib, gl), t)
    requires InsertInv(Under(Under(g, Black, gk, uncle, gl), Red, pk, sib, gl), t, h)
    requires !IsRed(uncle)
    ensures pk < |s.parent| && gk < |s.parent|
    ensures
      var s1 := Colored(Colored(s, pk, Black), gk, Red);
      var p' := Under(g, Black, pk, Join(Red, gk, uncle, sib, !gl), gl);
      && CanRotate(s1, gk, !gl) && Holds(Rotated(s1, gk, !gl), p', t) && InsertInv(p', t, h)
      && SameOrder(Under(Under(g, Black, gk, uncle, gl), Red, pk, sib, gl), t, p', t)
  {
    var gp := Under(g, Black, gk, uncle, gl);
    var pt, pt' := Join(Red, pk, t, sib, gl), Join(Black, pk, t, sib, gl);
    StepUp(s, gp, Red, pk, sib, gl, t);
    PaintHolds(s, gp, pt, Black);
    var s0 := Colored(s, pk, Black);
    PaintUpHolds(s0, g, Black, gk, uncle, gl, pt', Red);
    var s1 := Colored(s0, gk, Red);
    StepUp(s1, g, Red, gk, uncle, gl, pt');
    assert Join(Red, gk, pt', uncle, gl) == Join(Red, gk, uncle, Join(Black, pk, sib, t, !gl), !gl);
    RotateHolds(s1, g, Red, uncle, gk, Black, sib, pk, t, !gl);
    var other := Join(Red, gk, uncle, sib, !gl);
    assert Join(Black, pk, other, t, !gl) == Join(Black, pk, t, other, gl);
    StepUp(Rotated(s1, gk, !gl), g, Black, pk, other, gl, t);
    RotateKeepsOrder(g, Black, uncle, gk, Red, sib, pk, t, !gl, Red, Black);
    assert Join(Black, gk, pt, uncle, gl) == Join(Black, gk, uncle, Join(Red, pk, sib, t, !gl), !gl);
    SameOrderHere(g, Join(Black, gk, pt, uncle, gl), Join(Black, pk, t, other, gl));
    InsertRotateShape(g, gk, uncle, gl, pk, sib, t, h);
  }

  /** The loop has ended and the root is painted black. */
  lemma InsertDone(p: Path, t: Tree, h: nat)
    requires InsertInv(p, t, h)
    requires p != Top ==> p.color == Black
    ensures IsRedBlack(Blackened(Plug(p, t)))
  {
    if p == Top {
      assert Balanced(Blackened(t), h + 1);
    } else {
      PlugNoRedRed(p, t);
      var total := PlugBalanced(p, t, h);
      PlugRoot(p, t);
    }
  }

  // ---------------------------------------------------------------- removal

  /** `t` is one black node short; painted black it has no red-red pair. */
  predicate DeleteInv(p: Path, t: Tree, h: nat) {
    && NoRedRed(Blackened(t)) && Balanced(t, h)
    && PathBalanced(p, h + 1) && PathNoRedRed(p, false) && PathRootBlack(p)
  }

  /** A missing black node means that there is a sibling. */
  lemma SiblingExists(up: Path, pc: Color, pk: nat, sib: Tree, l: bool, t: Tree, h: nat)
    requires DeleteInv(Under(up, pc, pk, sib, l), t, h)
    ensures sib.Node? && NoRedRed(sib) && Balanced(sib, h + 1)
    ensures IsRed(sib) ==> pc == Black && sib.left.Node? && sib.right.Node?
    ensures IsRed(sib) ==> !IsRed(sib.left) && !IsRed(sib.right)
  {
    OpenStep(up, pc, pk, sib, l, h + 1, false);
    OpenNode(sib.color, sib.key, sib.left, sib.right, true, h + 1);
  }

  lemma DeleteRedSiblingShape(g: Path, pc: Color, pk: nat, sk: nat, near: Tree, far: Tree, l: bool, t: Tree, h: nat)
    requires DeleteInv(Under(g, pc, pk, Join(Red, sk, near, far, l), l), t, h)
    ensures !IsRed(near)
    ensures DeleteInv(Under(Under(g, Black, sk, far, l), Red, pk, near, l), t, h)
  {
    OpenStep(g, pc, pk, Join(Red, sk, near, far, l), l, h + 1, false);
    OpenNode(Red, sk, near, far, l, h + 1);
    OpenStep(g, Black, sk, far, l, h + 1, true);
    OpenStep(Under(g, Black, sk, far, l), Red, pk, near, l, h + 1, false);
  }

  lemma DeleteRecolorShape(g: Path, pc: Color, pk: nat, sib: Tree, l: bool, t: Tree, h: nat)
    requires DeleteInv(Under(g, pc, pk, sib, l), t, h) && !IsRed(t)
    requires sib.Node? && sib.color == Black && !IsRed(sib.left) && !IsRed(sib.right)
    ensures DeleteInv(g, Join(pc, pk, t, Node(Red, sib.left, sib.key, sib.right), l), if pc == Black then h + 1 else h)
  {
    var sib' := Node(Red, sib.left, sib.key, sib.right);
    OpenStep(g, pc, pk, sib, l, h + 1, false);
    OpenNode(Black, sib.key, sib.left, sib.right, true, h + 1);
    OpenNode(Red, sib.key, sib.left, sib.right, true, h);
    OpenNode(pc, pk, t, sib', l, if pc == Black then h + 1 else h);
    OpenNode(Black, pk, t, sib', l, h + 1);
    LessRed(g, pc == Red);
    assert Blackened(t) == t;
  }

  lemma DeleteNearRedShape(g: Path, pc: Color, pk: nat, sk: nat, near: Tree, n1: Tree, n2: Tree, far: Tree, l: bool,
                           t: Tree, h: nat)
    requires DeleteInv(Under(g, pc, pk, Join(Black, sk, near, far, l), l), t, h)
    requires IsRed(near) && !IsRed(far) && near == Join(Red, near.key, n1, n2, l)
    ensures DeleteInv(Under(g, pc, pk, Join(Black, near.key, n1, Join(Red, sk, n2, far, l), l), l), t, h)
  {
    var sib' := Join(Black, near.key, n1, Join(Red, sk, n2, far, l), l);
    OpenStep(g, pc, pk, Join(Black, sk, near, far, l), l, h + 1, false);
    OpenNode(Black, sk, near, far, l, h + 1);
    OpenNode(Red, near.key, n1, n2, l, h);
    OpenNode(Red, sk, n2, far, l, h);
    OpenNode(Black, near.key, n1, Join(Red, sk, n2, far, l), l, h + 1);
    OpenStep(g, pc, pk, sib', l, h + 1, false);
  }

  /** A red sibling is rotated up, so that the new sibling is black. */
  lemma DeleteRedSibling(s: Links, g: Path, pc: Color, pk: nat, sk: nat, near: Tree, far: Tree, l: bool, t: Tree, h: nat)
    requires Holds(s, Under(g, pc, pk, Join(Red, sk, near, far, l), l), t)
    requires DeleteInv(Under(g, pc, pk, Join(Red, sk, near, far, l), l), t, h) && !IsRed(t)
    ensures pk < |s.parent| && sk < |s.parent|
    ensures
      var s1 := Colored(Colored(s, sk, Black), pk, Red);
      var p' := Under(Under(g, Black, sk, far, l), Red, pk, near, l);
      && CanRotate(s1, pk, l) && Holds(Rotated(s1, pk, l), p', t) && DeleteInv(p', t, h)
      && SameOrder(Under(g, pc, pk, Join(Red, sk, near, far, l), l), t, p', t)
      && !IsRed(near)
  {
    var sib, sib' := Join(Red, sk, near, far, l), Join(Black, sk, near, far, l);
    PaintSiblingHolds(s, g, pc, pk, sib, l, t, Black);
    var s0 := Colored(s, sk, Black);
    PaintUpHolds(s0, g, pc, pk, sib', l, t, Red);
    var s1 := Colored(s0, pk, Red);
    StepUp(s1, g, Red, pk, sib', l, t);
    RotateHolds(s1, g, Red, t, pk, Black, near, sk, far, l);
    var s2 := Rotated(s1, pk, l);
    StepUp(s2, g, Black, sk, far, l, Join(Red, pk, t, near, l));
    StepUp(s2, Under(g, Black, sk, far, l), Red, pk, near, l, t);
    RotateKeepsOrder(g, pc, t, pk, Red, near, sk, far, l, Red, Black);
    SameOrderHere(g, Join(pc, pk, t, sib, l), Join(Black, sk, Join(Red, pk, t, near, l), far, l));
    DeleteRedSiblingShape(g, pc, pk, sk, near, far, l, t, h);
  }

  /** A black sibling with no red child is painted red, and the shortage moves up. */
  lemma DeleteRecolor(s: Links, g: Path, pc: Color, pk: nat, sib: Tree, l: bool, t: Tree, h: nat) returns (h': nat)
    requires Holds(s, Under(g, pc, pk, sib, l), t)
    requires DeleteInv(Under(g, pc, pk, sib, l), t, h) && !IsRed(t)
    requires sib.Node? && sib.color == Black && !IsRed(sib.left) && !IsRed(sib.right)
    ensures sib.key < |s.parent|
    ensures
      var t' := Join(pc, pk, t, Node(Red, sib.left, sib.key, sib.right), l);
      && Holds(Colored(s, sib.key, Red), g, t') && DeleteInv(g, t', h')
      && SameOrder(Under(g, pc, pk, sib, l), t, g, t')
  {
    PaintSiblingHolds(s, g, pc, pk, sib, l, t, Red);
    var sib' := Node(Red, sib.left, sib.key, sib.right);
    StepUp(Colored(s, sib.key, Red), g, pc, pk, sib', l, t);
    SameOrderHere(g, Join(pc, pk, t, sib, l), Join(pc, pk, t, sib', l));
    h' := if pc == Black then h + 1 else h;
    DeleteRecolorShape(g, pc, pk, sib, l, t, h);
  }

  /** A red near nephew is rotated up, so that the far nephew is red. */
  lemma DeleteNearRed(s: Links, g: Path, pc: Color, pk: nat, sk: nat, near: Tree, n1: Tree, n2: Tree, far: Tree, l: bool,
                      t: Tree, h: nat)
    requires Holds(s, Under(g, pc, pk, Join(Black, sk, near, far, l), l), t)
    requires DeleteInv(Under(g, pc, pk, Join(Black, sk, near, far, l), l), t, h)
    requires IsRed(near) && !IsRed(far) && near == Join(Red, near.key, n1, n2, l)
    ensures near.key < |s.parent| && sk < |s.parent|
    ensures
      var s1 := Colored(Colored(s, near.key, Black), sk, Red);
      var p' := Under(g, pc, pk, Join(Black, near.key, n1, Join(Red, sk, n2, far, l), l), l);
      && CanRotate(s1, sk, !l) && Holds(Rotated(s1, sk, !l), p', t) && DeleteInv(p', t, h)
      && SameOrder(Under(g, pc, pk, Join(Black, sk, near, far, l), l), t, p', t)
  {
    var sib := Join(Black, sk, near, far, l);
    var away := Under(g, pc, pk, t, !l);
    StepAcross(s, g, pc, pk, sib, l, t);
    StepUp(s, away, Black, sk, far, l, near);
    PaintHolds(s, Under(away, Black, sk, far, l), near, Black);
    var s0 := Colored(s, near.key, Black);
    PaintUpHolds(s0, away, Black, sk, far, l, Blackened(near), Red);
    var s1 := Colored(s0, sk, Red);
    StepUp(s1, away, Red, sk, far, l, Blackened(near));
    assert Join(Red, sk, Blackened(near), far, l) == Join(Red, sk, far, Join(Black, near.key, n2, n1, !l), !l);
    RotateHolds(s1, away, Red, far, sk, Black, n2, near.key, n1, !l);
    var sib' := Join(Black, near.key, n1, Join(Red, sk, n2, far, l), l);
    assert sib' == Join(Black, near.key, Join(Red, sk, far, n2, !l), n1, !l);
    StepAcross(Rotated(s1, sk, !l), g, pc, pk, sib', l, t);
    RotateKeepsOrder(away, Black, far, sk, Red, n2, near.key, n1, !l, Red, Black);
    assert sib == Join(Black, sk, far, Join(Red, near.key, n2, n1, !l), !l);
    SameOrderHere(g, Join(pc, pk, t, sib, l), Join(pc, pk, t, sib', l));
    DeleteNearRedShape(g, pc, pk, sk, near, n1, n2, far, l, t, h);
  }

  /** A red far nephew ends the loop: one more black node on the short side. */
  lemma DeleteFarRed(s: Links, g: Path, pc: Color, pk: nat, sk: nat, near: Tree, far: Tree, l: bool, t: Tree, h: nat)
    requires Holds(s, Under(g, pc, pk, Join(Black, sk, near, far, l), l), t)
    requires DeleteInv(Under(g, pc, pk, Join(Black, sk, near, far, l), l), t, h) && !IsRed(t)
    requires IsRed(far)
    ensures pk < |s.parent| && sk < |s.parent| && far.key < |s.parent|
    ensures
      var s1 := Colored(Colored(Colored(s, sk, pc), pk, Black), far.key, Black);
      var t' := Join(pc, sk, Join(Black, pk, t, near, l), Blackened(far), l);
      && CanRotate(s1, pk, l) && Holds(Rotated(s1, pk, l), g, t') && IsRedBlack(Plug(g, t'))
      && SameOrder(Under(g, pc, pk, Join(Black, sk, near, far, l), l), t, g, t')
  {
    var sib := Join(Black, sk, near, far, l);
    PaintSiblingHolds(s, g, pc, pk, sib, l, t, pc);
    var s0 := Colored(s, sk, pc);
    var sib0 := Join(pc, sk, near, far, l);
    PaintUpHolds(s0, g, pc, pk, sib0, l, t, Black);
    var s00 := Colored(s0, pk, Black);
    var away := Under(g, Black, pk, t, !l);
    StepAcross(s00, g, Black, pk, sib0, l, t);
    assert sib0 == Join(pc, sk, far, near, !l);
    StepUp(s00, away, pc, sk, near, !l, far);
    PaintHolds(s00, Under(away, pc, sk, near, !l), far, Black);
    var s1 := Colored(s00, far.key, Black);
    StepUp(s1, away, pc, sk, near, !l, Blackened(far));
    StepUp(s1, g, Black, pk, t, !l, Join(pc, sk, Blackened(far), near, !l));
    RotateHolds(s1, g, Black, t, pk, pc, near, sk, Blackened(far), l);
    RotateKeepsOrder(g, pc, t, pk, Black, near, sk, far, l, Black, pc);
    var t' := Join(pc, sk, Join(Black, pk, t, near, l), Blackened(far), l);
    SameOrderHere(g, Join(pc, pk, t, sib, l), t');
    DeleteFarRedShape(g, pc, pk, sk, near, far, l, t, h);
  }

  lemma DeleteFarRedShape(g: Path, pc: Color, pk: nat, sk: nat, near: Tree, far: Tree, l: bool, t: Tree, h: nat)
    requires DeleteInv(Under(g, pc, pk, Join(Black, sk, near, far, l), l), t, h) && !IsRed(t)
    requires IsRed(far)
    ensures IsRedBlack(Plug(g, Join(pc, sk, Join(Black, pk, t, near, l), Blackened(far), l)))
  {
    var t' := Join(pc, sk, Join(Black, pk, t, near, l), Blackened(far), l);
    assert Blackened(t) == t;
    OpenStep(g, pc, pk, Join(Black, sk, near, far, l), l, h + 1, false);
    OpenNode(Black, sk, near, far, l, h + 1);
    OpenNode(Black, pk, t, near, l, h + 1);
    OpenNode(Red, far.key, far.left, far.right, true, h);
    OpenNode(Black, far.key, far.left, far.right, true, h + 1);
    var h' := if pc == Black then h + 2 else h + 1;
    OpenNode(pc, sk, Join(Black, pk, t, near, l), Blackened(far), l, h');
    var total := PlugBalanced(g, t', h');
    PlugNoRedRed(g, t');
    if g != Top { PlugRoot(g, t'); }
  }

  /** The loop has ended at the root or at a red node, which is painted black. */
  lemma DeleteDone(p: Path, t: Tree, h: nat)
    requires DeleteInv(p, t, h) && (p == Top || IsRed(t))
    ensures IsRedBlack(Plug(p, Blackened(t)))
  {
    var t' := Blackened(t);
    if IsRed(t) {
      assert Balanced(t', h + 1);
      var total := PlugBalanced(p, t', h + 1);
      PlugNoRedRed(p, t');
      if p != Top { PlugRoot(p, t'); }
    } else {
      assert t' == t;
    }
  }

  // ---------------------------------------------------------------- taking a tree apart

  lemma {:induction false} UnplugBalanced(p: Path, t: Tree, total: nat) returns (h: nat)
    requires Balanced(Plug(p, t), total)
    ensures Balanced(t, h) && PathBalanced(p, h)
  {
    match p
    case Top => h := total;
    case InLeft(up, c, k, r) =>
      var h' := UnplugBalanced(up, Node(c, t, k, r), total);
      h := if c == Black then h' - 1 else h';
    case InRight(up, c, l, k) =>
      var h' := UnplugBalanced(up, Node(c, l, k, t), total);
      h := if c == Black then h' - 1 else h';
  }

  lemma {:induction false} UnplugNoRedRed(p: Path, t: Tree)
    requires NoRedRed(Plug(p, t))
    ensures NoRedRed(t) && PathNoRedRed(p, IsRed(t))
  {
    match p
    case Top =>
    case InLeft(up, c, k, r) => UnplugNoRedRed(up, Node(c, t, k, r));
    case InRight(up, c, l, k) => UnplugNoRedRed(up, Node(c, l, k, t));
  }

  lemma {:induction false} UnplugRoot(p: Path, t: Tree)
    requires !IsRed(Plug(p, t))
    ensures PathRootBlack(p) && (p == Top ==> !IsRed(t))
  {
    match p
    case Top =>
    case InLeft(up, c, k, r) => UnplugRoot(up, Node(c, t, k, r));
    case InRight(up, c, l, k) => UnplugRoot(up, Node(c, l, k, t));
  }

  /** The way from the root to the node with key `k`, and that node. */
  function PathTo(t: Tree, k: nat): Path
    requires k in Keys(t)
  {
    if t.key == k then Top
    else if k in Keys(t.left) then Append(PathTo(t.left, k), InLeft(Top, t.color, t.key, t.right))
    else Append(PathTo(t.right, k), InRight(Top, t.color, t.left, t.key))
  }

  function NodeAt(t: Tree, k: nat): (m: Tree)
    requires k in Keys(t)
    ensures m.Node? && m.key == k
  {
    if t.key == k then t else if k in Keys(t.left) then NodeAt(t.left, k) else NodeAt(t.right, k)
  }

  lemma {:induction false} PathToPlug(t: Tree, k: nat)
    requires k in Keys(t)
    ensures Plug(PathTo(t, k), NodeAt(t, k)) == t
  {
    if t.key == k {
    } else if k in Keys(t.left) {
      PathToPlug(t.left, k);
      PlugAppend(PathTo(t.left, k), InLeft(Top, t.color, t.key, t.right), NodeAt(t.left, k));
    } else {
      PathToPlug(t.right, k);
      PlugAppend(PathTo(t.right, k), InRight(Top, t.color, t.left, t.key), NodeAt(t.right, k));
    }
  }
}
