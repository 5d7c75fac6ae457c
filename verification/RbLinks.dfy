/** The scheduler's link arrays as a value, what it means for them to hold a tree, and what
    each pointer operation does to the tree they hold. */
module RbLinks {
  import opened RbTree

  /** UINT32_MAX, "no index". */
  const NIL: nat := 0xFFFF_FFFF

  datatype Links = Links(parent: seq<nat>, left: seq<nat>, right: seq<nat>, color: seq<Color>, root: nat)

  predicate Sized(s: Links) {
    |s.parent| == |s.left| == |s.right| == |s.color| <= NIL
  }

  function Ix(t: Tree): nat { if t.Leaf? then NIL else t.key }

  function UpIx(p: Path): nat {
    match p
    case Top => NIL
    case InLeft(_, _, k, _) => k
    case InRight(_, _, _, k) => k
  }

  /** The arrays hold `t`, hanging under the node `up`. */
  predicate Rep(s: Links, t: Tree, up: nat)
    requires Sized(s)
  {
    match t
    case Leaf => true
    case Node(c, l, k, r) =>
      && k < |s.parent|
      && s.parent[k] == up && s.left[k] == Ix(l) && s.right[k] == Ix(r) && s.color[k] == c
      && Rep(s, l, k) && Rep(s, r, k)
  }

  /** The arrays hold everything around the hole, and point to `hole` there. */
  predicate RepPath(s: Links, p: Path, hole: nat)
    requires Sized(s)
  {
    match p
    case Top => s.root == hole
    case InLeft(up, c, k, r) =>
      && k < |s.parent|
      && s.parent[k] == UpIx(up) && s.left[k] == hole && s.right[k] == Ix(r) && s.color[k] == c
      && Rep(s, r, k) && RepPath(s, up, k)
    case InRight(up, c, l, k) =>
      && k < |s.parent|
      && s.parent[k] == UpIx(up) && s.left[k] == Ix(l) && s.right[k] == hole && s.color[k] == c
      && Rep(s, l, k) && RepPath(s, up, k)
  }

  /** The arrays hold `Plug(p, t)`, seen from the subtree `t`. */
  predicate Holds(s: Links, p: Path, t: Tree) {
    && Sized(s)
    && Rep(s, t, UpIx(p)) && RepPath(s, p, Ix(t))
    && Distinct(t) && PathDistinct(p) && Keys(t) !! PathKeys(p)
  }

  /** Seen from the root or from the hole, it is the same tree. */
  lemma {:induction false} Refocus(s: Links, p: Path, t: Tree)
    ensures Holds(s, p, t) <==> Holds(s, Top, Plug(p, t))
  {
    match p
    case Top =>
    case InLeft(up, c, k, r) => Refocus(s, up, Node(c, t, k, r));
    case InRight(up, c, l, k) => Refocus(s, up, Node(c, l, k, t));
  }

  lemma {:induction false} KeysInRange(s: Links, t: Tree, up: nat)
    requires Sized(s) && Rep(s, t, up)
    ensures forall k :: k in Keys(t) ==> k < |s.parent|
  {
    match t
    case Leaf =>
    case Node(_, l, k, r) => KeysInRange(s, l, k); KeysInRange(s, r, k);
  }

  lemma {:induction false} PathKeysInRange(s: Links, p: Path, hole: nat)
    requires Sized(s) && RepPath(s, p, hole)
    ensures forall k :: k in PathKeys(p) ==> k < |s.parent|
  {
    match p
    case Top =>
    case InLeft(up, _, k, r) => KeysInRange(s, r, k); PathKeysInRange(s, up, k);
    case InRight(up, _, l, k) => KeysInRange(s, l, k); PathKeysInRange(s, up, k);
  }

  // ---------------------------------------------------------------- frames

  predicate SameAt(s: Links, s': Links, k: nat)
    requires Sized(s) && Sized(s') && |s.parent| == |s'.parent|
  {
    k < |s.parent| ==>
      s'.parent[k] == s.parent[k] && s'.left[k] == s.left[k] && s'.right[k] == s.right[k] && s'.color[k] == s.color[k]
  }

  lemma {:induction false} RepFrame(s: Links, s': Links, t: Tree, up: nat)
    requires Sized(s) && Sized(s') && |s.parent| == |s'.parent|
    requires Rep(s, t, up)
    requires forall k :: k in Keys(t) ==> SameAt(s, s', k)
    ensures Rep(s', t, up)
  {
    match t
    case Leaf =>
    case Node(_, l, k, r) =>
      assert SameAt(s, s', k);
      RepFrame(s, s', l, k);
      RepFrame(s, s', r, k);
  }

  lemma {:induction false} PathFrame(s: Links, s': Links, p: Path, hole: nat)
    requires Sized(s) && Sized(s') && |s.parent| == |s'.parent| && s.root == s'.root
    requires RepPath(s, p, hole)
    requires forall k :: k in PathKeys(p) ==> SameAt(s, s', k)
    ensures RepPath(s', p, hole)
  {
    match p
    case Top =>
    case InLeft(up, _, k, r) =>
      assert SameAt(s, s', k);
      RepFrame(s, s', r, k);
      PathFrame(s, s', up, k);
    case InRight(up, _, l, k) =>
      assert SameAt(s, s', k);
      RepFrame(s, s', l, k);
      PathFrame(s, s', up, k);
  }

  /** Only cells that belong to neither the tree nor the path changed. */
  lemma HoldsFrame(s: Links, s': Links, p: Path, t: Tree)
    requires Holds(s, p, t)
    requires Sized(s') && |s.parent| == |s'.parent| && s.root == s'.root
    requires forall k :: k in Keys(t) + PathKeys(p) ==> SameAt(s, s', k)
    ensures Holds(s', p, t)
  {
    RepFrame(s, s', t, UpIx(p));
    PathFrame(s, s', p, Ix(t));
  }

  // ---------------------------------------------------------------- pointer operations

  /** Makes `up`, which points to `old`, point to `target` instead; the left link is tested first. */
  function Hung(s: Links, up: nat, old_: nat, target: nat): Links
    requires Sized(s) && (up == NIL || up < |s.parent|)
  {
    if up == NIL then s.(root := target)
    else if s.left[up] == old_ then s.(left := s.left[up := target])
    else s.(right := s.right[up := target])
  }

  /** The same with the right link tested first. */
  function HungMirror(s: Links, up: nat, old_: nat, target: nat): Links
    requires Sized(s) && (up == NIL || up < |s.parent|)
  {
    if up == NIL then s.(root := target)
    else if s.right[up] == old_ then s.(right := s.right[up := target])
    else s.(left := s.left[up := target])
  }

  function ParentSet(s: Links, child: nat, up: nat): Links
    requires Sized(s) && (child == NIL || child < |s.parent|)
  {
    if child == NIL then s else s.(parent := s.parent[child := up])
  }

  predicate CanRotateLeft(s: Links, x: nat) {
    && Sized(s) && x < |s.parent|
    && (s.parent[x] == NIL || s.parent[x] < |s.parent|)
    && s.right[x] < |s.parent| && s.right[x] != x
    && (s.left[s.right[x]] == NIL || s.left[s.right[x]] < |s.parent|)
  }

  /** scheduler_ready_queue_rotate_left, assignment by assignment. */
  function RotatedLeft(s: Links, x: nat): Links
    requires CanRotateLeft(s, x)
  {
    var y, up := s.right[x], s.parent[x];
    var s1 := s.(right := s.right[x := s.left[y]]);
    var s2 := ParentSet(s1, s.left[y], x);
    var s3 := Hung(s2.(parent := s2.parent[y := up]), up, x, y);
    s3.(left := s3.left[y := x], parent := s3.parent[x := y])
  }

  predicate CanRotateRight(s: Links, x: nat) {
    && Sized(s) && x < |s.parent|
    && (s.parent[x] == NIL || s.parent[x] < |s.parent|)
    && s.left[x] < |s.parent| && s.left[x] != x
    && (s.right[s.left[x]] == NIL || s.right[s.left[x]] < |s.parent|)
  }

  function RotatedRight(s: Links, x: nat): Links
    requires CanRotateRight(s, x)
  {
    var y, up := s.left[x], s.parent[x];
    var s1 := s.(left := s.left[x := s.right[y]]);
    var s2 := ParentSet(s1, s.right[y], x);
    var s3 := HungMirror(s2.(parent := s2.parent[y := up]), up, x, y);
    s3.(right := s3.right[y := x], parent := s3.parent[x := y])
  }

  /** scheduler_ready_queue_transplant. */
  function Transplanted(s: Links, old_: nat, target: nat): Links
    requires Sized(s) && old_ < |s.parent| && (target == NIL || target < |s.parent|)
    requires s.parent[old_] == NIL || s.parent[old_] < |s.parent|
  {
    var up := s.parent[old_];
    ParentSet(Hung(s, up, old_, target), target, up)
  }

  function Colored(s: Links, x: nat, c: Color): Links
    requires Sized(s) && x < |s.parent|
  {
    s.(color := s.color[x := c])
  }

  // ---------------------------------------------------------------- what they do to the tree

  /** As `SameAt`, except that the parent link is now `up`. */
  predicate MovedAt(s: Links, s': Links, k: nat, up: nat)
    requires Sized(s) && Sized(s') && |s.parent| == |s'.parent|
  {
    k < |s.parent| ==>
      s'.parent[k] == up && s'.left[k] == s.left[k] && s'.right[k] == s.right[k] && s'.color[k] == s.color[k]
  }

  lemma RepMoved(s: Links, s': Links, t: Tree, up: nat, up': nat)
    requires Sized(s) && Sized(s') && |s.parent| == |s'.parent|
    requires Rep(s, t, up) && Distinct(t)
    requires t.Node? ==> MovedAt(s, s', t.key, up')
    requires forall k :: k in Keys(t) && k != Ix(t) ==> SameAt(s, s', k)
    ensures Rep(s', t, up')
  {
    match t
    case Leaf =>
    case Node(_, l, k, r) =>
      RepFrame(s, s', l, k);
      RepFrame(s, s', r, k);
  }

  /** The step just above the hole now points to `target`; root, if there is no step. */
  predicate PointsTo(s: Links, s': Links, p: Path, target: nat)
    requires Sized(s) && Sized(s') && |s.parent| == |s'.parent|
  {
    match p
    case Top => s'.root == target
    case InLeft(_, _, k, _) => s'.root == s.root && (k < |s.parent| ==>
      s'.parent[k] == s.parent[k] && s'.left[k] == target && s'.right[k] == s.right[k] && s'.color[k] == s.color[k])
    case InRight(_, _, _, k) => s'.root == s.root && (k < |s.parent| ==>
      s'.parent[k] == s.parent[k] && s'.left[k] == s.left[k] && s'.right[k] == target && s'.color[k] == s.color[k])
  }

  lemma PathMoved(s: Links, s': Links, p: Path, hole: nat, target: nat)
    requires Sized(s) && Sized(s') && |s.parent| == |s'.parent|
    requires RepPath(s, p, hole) && PathDistinct(p)
    requires PointsTo(s, s', p, target)
    requires forall k :: k in PathKeys(p) && k != UpIx(p) ==> SameAt(s, s', k)
    ensures RepPath(s', p, target)
  {
    match p
    case Top =>
    case InLeft(up, _, k, r) =>
      RepFrame(s, s', r, k);
      PathFrame(s, s', up, k);
    case InRight(up, _, l, k) =>
      RepFrame(s, s', l, k);
      PathFrame(s, s', up, k);
  }

  /** The facts about the hole's surroundings that the pointer operations rely on. */
  lemma UpFacts(s: Links, p: Path, hole: nat)
    requires Sized(s) && RepPath(s, p, hole) && PathDistinct(p)
    requires hole < |s.parent| && hole !in PathKeys(p)
    ensures p == Top ==> UpIx(p) == NIL && s.root == hole
    ensures p != Top ==> UpIx(p) < |s.parent| && UpIx(p) in PathKeys(p)
    ensures p.InLeft? ==> s.left[UpIx(p)] == hole && s.right[UpIx(p)] != hole
    ensures p.InRight? ==> s.right[UpIx(p)] == hole && s.left[UpIx(p)] != hole
  {
    match p
    case Top =>
    case InLeft(_, _, k, r) => assert r.Node? ==> r.key in Keys(r);
    case InRight(_, _, l, k) => assert l.Node? ==> l.key in Keys(l);
  }

  lemma ColoredHolds(s: Links, p: Path, c: Color, l: Tree, k: nat, r: Tree, c': Color)
    requires Holds(s, p, Node(c, l, k, r))
    ensures Holds(Colored(s, k, c'), p, Node(c', l, k, r))
  {
    var s' := Colored(s, k, c');
    RepFrame(s, s', l, k);
    RepFrame(s, s', r, k);
    PathFrame(s, s', p, k);
  }

  // Each operation is described twice over: by what it stores in each cell, and then by what
  // these cells make of the tree.

  /** Cell by cell, `y` has been lifted over its parent `x`, and `b` moved from `y` to `x`. */
  ghost predicate Lifted(s: Links, s': Links, p: Path, x: nat, y: nat, b: nat)
    requires Sized(s) && Sized(s') && |s.parent| == |s'.parent|
  {
    && (b != NIL ==> MovedAt(s, s', b, x))
    && PointsTo(s, s', p, y)
    && forall k :: k != x && k != y && k != b && k != UpIx(p) ==> SameAt(s, s', k)
  }

  lemma RotatedLeftCells(s: Links, p: Path, x: nat, y: nat, b: nat)
    requires Sized(s) && x < |s.parent| && y < |s.parent| && (b == NIL || b < |s.parent|)
    requires s.right[x] == y && s.left[y] == b && s.parent[x] == UpIx(p)
    requires x != y && b != x && b != y && UpIx(p) != x && UpIx(p) != y && (b != NIL ==> UpIx(p) != b)
    requires p != Top ==> UpIx(p) < |s.parent|
    requires p.InLeft? ==> s.left[UpIx(p)] == x
    requires p.InRight? ==> s.right[UpIx(p)] == x && s.left[UpIx(p)] != x
    ensures CanRotateLeft(s, x) && Sized(RotatedLeft(s, x)) && |RotatedLeft(s, x).parent| == |s.parent|
    ensures var s' := RotatedLeft(s, x);
      && s'.parent[y] == UpIx(p) && s'.left[y] == x && s'.right[y] == s.right[y] && s'.color[y] == s.color[y]
      && s'.parent[x] == y && s'.left[x] == s.left[x] && s'.right[x] == b && s'.color[x] == s.color[x]
      && Lifted(s, s', p, x, y, b)
  {
  }

  lemma RotatedRightCells(s: Links, p: Path, x: nat, y: nat, b: nat)
    requires Sized(s) && x < |s.parent| && y < |s.parent| && (b == NIL || b < |s.parent|)
    requires s.left[x] == y && s.right[y] == b && s.parent[x] == UpIx(p)
    requires x != y && b != x && b != y && UpIx(p) != x && UpIx(p) != y && (b != NIL ==> UpIx(p) != b)
    requires p != Top ==> UpIx(p) < |s.parent|
    requires p.InRight? ==> s.right[UpIx(p)] == x
    requires p.InLeft? ==> s.left[UpIx(p)] == x && s.right[UpIx(p)] != x
    ensures CanRotateRight(s, x) && Sized(RotatedRight(s, x)) && |RotatedRight(s, x).parent| == |s.parent|
    ensures var s' := RotatedRight(s, x);
      && s'.parent[y] == UpIx(p) && s'.right[y] == x && s'.left[y] == s.left[y] && s'.color[y] == s.color[y]
      && s'.parent[x] == y && s'.right[x] == s.right[x] && s'.left[x] == b && s'.color[x] == s.color[x]
      && Lifted(s, s', p, x, y, b)
  {
    if p.InLeft? {
    } else if p.InRight? {
    } else {
    }
  }

  /** A subtree none of whose cells a rotation touches. */
  lemma RepAside(s: Links, s': Links, p: Path, x: nat, y: nat, b: Tree, t: Tree, up: nat)
    requires Sized(s) && Sized(s') && |s.parent| == |s'.parent|
    requires Lifted(s, s', p, x, y, Ix(b))
    requires Rep(s, t, up) && x !in Keys(t) && y !in Keys(t) && Keys(t) !! Keys(b) && Keys(t) !! PathKeys(p)
    ensures Rep(s', t, up)
  {
    KeysInRange(s, t, up);
    forall k | k in Keys(t) ensures SameAt(s, s', k) {
      assert b.Node? ==> b.key in Keys(b);
      assert p != Top ==> UpIx(p) in PathKeys(p);
    }
    RepFrame(s, s', t, up);
  }

  lemma RotateLeftHolds(s: Links, p: Path, cx: Color, a: Tree, x: nat, cy: Color, b: Tree, y: nat, c: Tree)
    requires Holds(s, p, Node(cx, a, x, Node(cy, b, y, c)))
    ensures CanRotateLeft(s, x)
    ensures Holds(RotatedLeft(s, x), p, Node(cy, Node(cx, a, x, b), y, c))
  {
    var yt := Node(cy, b, y, c);
    assert Rep(s, yt, x) && Distinct(yt);
    assert y in Keys(yt) && Keys(b) <= Keys(yt) && Keys(c) <= Keys(yt);
    var xt := Node(cx, a, x, yt);
    assert x in Keys(xt) && Keys(yt) <= Keys(xt) && Keys(a) <= Keys(xt);
    UpFacts(s, p, x);
    KeysInRange(s, b, y);
    assert b.Node? ==> b.key in Keys(b);
    RotatedLeftCells(s, p, x, y, Ix(b));
    LiftedLeftHolds(s, RotatedLeft(s, x), p, cx, a, x, cy, b, y, c);
  }

  lemma LiftedLeftHolds(s: Links, s': Links, p: Path, cx: Color, a: Tree, x: nat, cy: Color, b: Tree, y: nat, c: Tree)
    requires Sized(s') && |s.parent| == |s'.parent|
    requires Holds(s, p, Node(cx, a, x, Node(cy, b, y, c)))
    requires x < |s.parent| && y < |s.parent|
    requires s'.parent[y] == UpIx(p) && s'.left[y] == x && s'.right[y] == s.right[y] && s'.color[y] == s.color[y]
    requires s'.parent[x] == y && s'.left[x] == s.left[x] && s'.right[x] == Ix(b) && s'.color[x] == s.color[x]
    requires Lifted(s, s', p, x, y, Ix(b))
    ensures Holds(s', p, Node(cy, Node(cx, a, x, b), y, c))
  {
    var yt := Node(cy, b, y, c);
    assert Rep(s, yt, x) && Distinct(yt);
    assert y in Keys(yt) && Keys(b) <= Keys(yt) && Keys(c) <= Keys(yt);
    assert Keys(Node(cx, a, x, yt)) == Keys(a) + {x} + Keys(yt);
    RepAside(s, s', p, x, y, b, a, x);
    RepAside(s, s', p, x, y, b, c, y);
    LiftedMiddle(s, s', p, x, y, b);
    LiftedPath(s, s', p, x, y, b);
    var xt' := Node(cx, a, x, b);
    assert Rep(s', xt', y) && Distinct(xt') && Keys(xt') == Keys(a) + {x} + Keys(b);
    assert Keys(Node(cy, xt', y, c)) == Keys(a) + {x} + Keys(b) + {y} + Keys(c);
  }

  lemma LiftedMiddle(s: Links, s': Links, p: Path, x: nat, y: nat, b: Tree)
    requires Sized(s) && Sized(s') && |s.parent| == |s'.parent|
    requires Lifted(s, s', p, x, y, Ix(b))
    requires Rep(s, b, y) && Distinct(b) && x !in Keys(b) && y !in Keys(b) && Keys(b) !! PathKeys(p)
    ensures Rep(s', b, x)
  {
    KeysInRange(s, b, y);
    assert p != Top ==> UpIx(p) in PathKeys(p);
    RepMoved(s, s', b, y, x);
  }

  lemma LiftedPath(s: Links, s': Links, p: Path, x: nat, y: nat, b: Tree)
    requires Sized(s) && Sized(s') && |s.parent| == |s'.parent|
    requires Lifted(s, s', p, x, y, Ix(b))
    requires RepPath(s, p, x) && PathDistinct(p)
    requires x !in PathKeys(p) && y !in PathKeys(p) && Keys(b) !! PathKeys(p)
    ensures RepPath(s', p, y)
  {
    PathKeysInRange(s, p, x);
    assert b.Node? ==> b.key in Keys(b);
    PathMoved(s, s', p, x, y);
  }

  lemma RotateRightHolds(s: Links, p: Path, cx: Color, cy: Color, a: Tree, y: nat, b: Tree, x: nat, c: Tree)
    requires Holds(s, p, Node(cx, Node(cy, a, y, b), x, c))
    ensures CanRotateRight(s, x)
    ensures Holds(RotatedRight(s, x), p, Node(cy, a, y, Node(cx, b, x, c)))
  {
    var yt := Node(cy, a, y, b);
    assert Rep(s, yt, x) && Distinct(yt);
    assert y in Keys(yt) && Keys(b) <= Keys(yt) && Keys(a) <= Keys(yt);
    var xt := Node(cx, yt, x, c);
    assert x in Keys(xt) && Keys(yt) <= Keys(xt) && Keys(c) <= Keys(xt);
    UpFacts(s, p, x);
    KeysInRange(s, b, y);
    assert b.Node? ==> b.key in Keys(b);
    RotatedRightCells(s, p, x, y, Ix(b));
    LiftedRightHolds(s, RotatedRight(s, x), p, cx, cy, a, y, b, x, c);
  }

  lemma LiftedRightHolds(s: Links, s': Links, p: Path, cx: Color, cy: Color, a: Tree, y: nat, b: Tree, x: nat, c: Tree)
    requires Sized(s') && |s.parent| == |s'.parent|
    requires Holds(s, p, Node(cx, Node(cy, a, y, b), x, c))
    requires x < |s.parent| && y < |s.parent|
    requires s'.parent[y] == UpIx(p) && s'.right[y] == x && s'.left[y] == s.left[y] && s'.color[y] == s.color[y]
    requires s'.parent[x] == y && s'.right[x] == s.right[x] && s'.left[x] == Ix(b) && s'.color[x] == s.color[x]
    requires Lifted(s, s', p, x, y, Ix(b))
    ensures Holds(s', p, Node(cy, a, y, Node(cx, b, x, c)))
  {
    var yt := Node(cy, a, y, b);
    assert Rep(s, yt, x) && Distinct(yt);
    assert y in Keys(yt) && Keys(b) <= Keys(yt) && Keys(a) <= Keys(yt);
    assert Keys(Node(cx, yt, x, c)) == Keys(yt) + {x} + Keys(c);
    RepAside(s, s', p, x, y, b, a, y);
    RepAside(s, s', p, x, y, b, c, x);
    LiftedMiddle(s, s', p, x, y, b);
    LiftedPath(s, s', p, x, y, b);
    var xt' := Node(cx, b, x, c);
    assert Rep(s', xt', y) && Distinct(xt') && Keys(xt') == Keys(b) + {x} + Keys(c);
    assert Keys(Node(cy, a, y, xt')) == Keys(a) + {y} + (Keys(b) + {x} + Keys(c));
  }

  lemma TransplantedCells(s: Links, p: Path, x: nat, child: nat)
    requires Sized(s) && x < |s.parent| && (child == NIL || child < |s.parent|)
    requires s.parent[x] == UpIx(p) && (child != NIL ==> UpIx(p) != child)
    requires p != Top ==> UpIx(p) < |s.parent|
    requires p.InLeft? ==> s.left[UpIx(p)] == x
    requires p.InRight? ==> s.left[UpIx(p)] != x
    ensures var s' := Transplanted(s, x, child);
      && Sized(s') && |s.parent| == |s'.parent|
      && (child != NIL ==> MovedAt(s, s', child, UpIx(p)))
      && PointsTo(s, s', p, child)
      && forall k :: k != child && k != UpIx(p) ==> SameAt(s, s', k)
  {
  }

  /** Transplanting an only child of the focused node over it: the child takes its place. */
  lemma TransplantHolds(s: Links, p: Path, c: Color, x: nat, child: Tree, left: bool)
    requires Holds(s, p, if left then Node(c, child, x, Leaf) else Node(c, Leaf, x, child))
    ensures x < |s.parent| && (Ix(child) == NIL || Ix(child) < |s.parent|)
    ensures s.parent[x] == UpIx(p) && (UpIx(p) == NIL || UpIx(p) < |s.parent|)
    ensures Holds(Transplanted(s, x, Ix(child)), p, child)
    ensures forall k :: k != Ix(child) && k != UpIx(p) ==> SameAt(s, Transplanted(s, x, Ix(child)), k)
  {
    var t := if left then Node(c, child, x, Leaf) else Node(c, Leaf, x, child);
    assert Keys(t) == Keys(child) + {x};
    assert Rep(s, child, x) && Distinct(child) && x !in PathKeys(p);
    UpFacts(s, p, x);
    KeysInRange(s, child, x);
    PathKeysInRange(s, p, x);
    assert child.Node? ==> child.key in Keys(child);
    TransplantedCells(s, p, x, Ix(child));
    var s' := Transplanted(s, x, Ix(child));
    RepMoved(s, s', child, x, UpIx(p));
    PathMoved(s, s', p, x, Ix(child));
  }
}
