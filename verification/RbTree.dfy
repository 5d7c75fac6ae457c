/** Red-black trees as values, and trees with a hole ("paths"): the shapes that the
    scheduler's parallel link arrays stand for. */
module RbTree {
  datatype Color = Red | Black

  datatype Tree = Leaf | Node(color: Color, left: Tree, key: nat, right: Tree)

  /** What surrounds a subtree: the steps from it up to the root. */
  datatype Path =
    | Top
    | InLeft(up: Path, color: Color, key: nat, right: Tree)
    | InRight(up: Path, color: Color, left: Tree, key: nat)

  function Plug(p: Path, t: Tree): Tree {
    match p
    case Top => t
    case InLeft(up, c, k, r) => Plug(up, Node(c, t, k, r))
    case InRight(up, c, l, k) => Plug(up, Node(c, l, k, t))
  }

  /** `p` followed upwards by `base`. */
  function Append(p: Path, base: Path): Path {
    match p
    case Top => base
    case InLeft(up, c, k, r) => InLeft(Append(up, base), c, k, r)
    case InRight(up, c, l, k) => InRight(Append(up, base), c, l, k)
  }

  function PathLength(p: Path): nat {
    match p
    case Top => 0
    case InLeft(up, _, _, _) => 1 + PathLength(up)
    case InRight(up, _, _, _) => 1 + PathLength(up)
  }

  lemma {:induction false} PlugAppend(p: Path, base: Path, t: Tree)
    ensures Plug(Append(p, base), t) == Plug(base, Plug(p, t))
  {
    match p
    case Top =>
    case InLeft(up, c, k, r) => PlugAppend(up, base, Node(c, t, k, r));
    case InRight(up, c, l, k) => PlugAppend(up, base, Node(c, l, k, t));
  }

  // ---------------------------------------------------------------- contents and order

  function Inorder(t: Tree): seq<nat> {
    match t
    case Leaf => []
    case Node(_, l, k, r) => Inorder(l) + [k] + Inorder(r)
  }

  /** The keys that precede, and that follow, the hole. */
  function Before(p: Path): seq<nat> {
    match p
    case Top => []
    case InLeft(up, _, _, _) => Before(up)
    case InRight(up, _, l, k) => Before(up) + Inorder(l) + [k]
  }

  function After(p: Path): seq<nat> {
    match p
    case Top => []
    case InLeft(up, _, k, r) => [k] + Inorder(r) + After(up)
    case InRight(up, _, _, _) => After(up)
  }

  lemma {:induction false} PlugInorder(p: Path, t: Tree)
    ensures Inorder(Plug(p, t)) == Before(p) + Inorder(t) + After(p)
  {
    match p
    case Top =>
    case InLeft(up, c, k, r) =>
      PlugInorder(up, Node(c, t, k, r));
      Reassociate(Before(up), Inorder(t), [k] + Inorder(r), After(up));
      assert Inorder(t) + [k] + Inorder(r) == Inorder(t) + ([k] + Inorder(r));
    case InRight(up, c, l, k) =>
      PlugInorder(up, Node(c, l, k, t));
      Reassociate(Before(up), Inorder(l) + [k], Inorder(t), After(up));
      assert Before(up) + (Inorder(l) + [k]) == Before(up) + Inorder(l) + [k];
  }

  lemma Reassociate(a: seq<nat>, b: seq<nat>, c: seq<nat>, d: seq<nat>)
    ensures a + (b + c) + d == (a + b) + c + d == a + b + (c + d)
  {
  }

  function Keys(t: Tree): set<nat> {
    match t
    case Leaf => {}
    case Node(_, l, k, r) => Keys(l) + {k} + Keys(r)
  }

  function PathKeys(p: Path): set<nat> {
    match p
    case Top => {}
    case InLeft(up, _, k, r) => PathKeys(up) + {k} + Keys(r)
    case InRight(up, _, l, k) => PathKeys(up) + {k} + Keys(l)
  }

  lemma {:induction false} PlugKeys(p: Path, t: Tree)
    ensures Keys(Plug(p, t)) == Keys(t) + PathKeys(p)
  {
    match p
    case Top =>
    case InLeft(up, c, k, r) => PlugKeys(up, Node(c, t, k, r));
    case InRight(up, c, l, k) => PlugKeys(up, Node(c, l, k, t));
  }

  lemma {:induction false} InorderKeys(t: Tree)
    ensures forall k :: k in Inorder(t) <==> k in Keys(t)
  {
    match t
    case Leaf =>
    case Node(_, l, k, r) => InorderKeys(l); InorderKeys(r);
  }

  /** No key occurs twice. */
  predicate Distinct(t: Tree) {
    match t
    case Leaf => true
    case Node(_, l, k, r) =>
      k !in Keys(l) && k !in Keys(r) && Keys(l) !! Keys(r) && Distinct(l) && Distinct(r)
  }

  predicate PathDistinct(p: Path) {
    match p
    case Top => true
    case InLeft(up, _, k, r) =>
      k !in Keys(r) && k !in PathKeys(up) && Keys(r) !! PathKeys(up) && Distinct(r) && PathDistinct(up)
    case InRight(up, _, l, k) =>
      k !in Keys(l) && k !in PathKeys(up) && Keys(l) !! PathKeys(up) && Distinct(l) && PathDistinct(up)
  }

  lemma {:induction false} PlugDistinct(p: Path, t: Tree)
    ensures Distinct(Plug(p, t)) <==> Distinct(t) && PathDistinct(p) && Keys(t) !! PathKeys(p)
  {
    match p
    case Top =>
    case InLeft(up, c, k, r) => PlugDistinct(up, Node(c, t, k, r));
    case InRight(up, c, l, k) => PlugDistinct(up, Node(c, l, k, t));
  }

  // ---------------------------------------------------------------- red-black shape

  predicate IsRed(t: Tree) { t.Node? && t.color == Red }

  /** Every way down passes exactly `h` black nodes. */
  predicate Balanced(t: Tree, h: nat) {
    match t
    case Leaf => h == 0
    case Node(Red, l, _, r) => Balanced(l, h) && Balanced(r, h)
    case Node(Black, l, _, r) => h > 0 && Balanced(l, h - 1) && Balanced(r, h - 1)
  }

  /** No red node has a red child. */
  predicate NoRedRed(t: Tree) {
    match t
    case Leaf => true
    case Node(c, l, _, r) => (c == Red ==> !IsRed(l) && !IsRed(r)) && NoRedRed(l) && NoRedRed(r)
  }

  /** Plugging in a tree of black height `h` gives a balanced tree. */
  predicate PathBalanced(p: Path, h: nat) {
    match p
    case Top => true
    case InLeft(up, c, _, r) => Balanced(r, h) && PathBalanced(up, if c == Black then h + 1 else h)
    case InRight(up, c, l, _) => Balanced(l, h) && PathBalanced(up, if c == Black then h + 1 else h)
  }

  /** Plugging in a tree whose root is red (`red`) or not causes no red-red pair on the path. */
  predicate PathNoRedRed(p: Path, red: bool) {
    match p
    case Top => true
    case InLeft(up, c, _, r) =>
      NoRedRed(r) && (c == Red ==> !red && !IsRed(r)) && PathNoRedRed(up, c == Red)
    case InRight(up, c, l, _) =>
      NoRedRed(l) && (c == Red ==> !red && !IsRed(l)) && PathNoRedRed(up, c == Red)
  }

  /** The node at the top of the path is black. */
  predicate PathRootBlack(p: Path) {
    match p
    case Top => true
    case InLeft(up, c, _, _) => if up == Top then c == Black else PathRootBlack(up)
    case InRight(up, c, _, _) => if up == Top then c == Black else PathRootBlack(up)
  }

  /** A whole red-black tree. */
  ghost predicate IsRedBlack(t: Tree) {
    !IsRed(t) && NoRedRed(t) && exists h: nat :: Balanced(t, h)
  }

  lemma {:induction false} PlugBalanced(p: Path, t: Tree, h: nat) returns (total: nat)
    requires Balanced(t, h) && PathBalanced(p, h)
    ensures Balanced(Plug(p, t), total)
  {
    match p
    case Top => total := h;
    case InLeft(up, c, k, r) =>
      var h' := if c == Black then h + 1 else h;
      assert Balanced(Node(c, t, k, r), h');
      total := PlugBalanced(up, Node(c, t, k, r), h');
    case InRight(up, c, l, k) =>
      var h' := if c == Black then h + 1 else h;
      assert Balanced(Node(c, l, k, t), h');
      total := PlugBalanced(up, Node(c, l, k, t), h');
  }

  lemma {:induction false} PlugNoRedRed(p: Path, t: Tree)
    requires NoRedRed(t) && PathNoRedRed(p, IsRed(t))
    ensures NoRedRed(Plug(p, t))
  {
    match p
    case Top =>
    case InLeft(up, c, k, r) => PlugNoRedRed(up, Node(c, t, k, r));
    case InRight(up, c, l, k) => PlugNoRedRed(up, Node(c, l, k, t));
  }

  lemma {:induction false} PlugRoot(p: Path, t: Tree)
    requires p != Top && PathRootBlack(p)
    ensures Plug(p, t).Node? && Plug(p, t).color == Black
  {
    match p
    case InLeft(up, c, k, r) => if up != Top { PlugRoot(up, Node(c, t, k, r)); }
    case InRight(up, c, l, k) => if up != Top { PlugRoot(up, Node(c, l, k, t)); }
  }

  // ---------------------------------------------------------------- height

  function Max(a: nat, b: nat): nat { if a > b then a else b }

  function Height(t: Tree): nat {
    match t
    case Leaf => 0
    case Node(_, l, _, r) => 1 + Max(Height(l), Height(r))
  }

  function Pow2(n: nat): nat { if n == 0 then 1 else 2 * Pow2(n - 1) }

  lemma {:induction false} BlackHeightBounds(t: Tree, h: nat)
    requires Balanced(t, h) && NoRedRed(t)
    ensures Pow2(h) <= |Inorder(t)| + 1
    ensures Height(t) <= 2 * h + (if IsRed(t) then 1 else 0)
  {
    match t
    case Leaf =>
    case Node(c, l, _, r) =>
      var h' := if c == Black then h - 1 else h;
      BlackHeightBounds(l, h');
      BlackHeightBounds(r, h');
  }

  lemma {:induction false} Pow2Sum(a: nat, b: nat)
    ensures Pow2(a + b) == Pow2(a) * Pow2(b)
  {
    if a > 0 { Pow2Sum(a - 1, b); }
  }

  lemma {:induction false} Pow2Monotone(a: nat, b: nat)
    requires a <= b
    ensures Pow2(a) <= Pow2(b)
  {
    if a < b { Pow2Monotone(a, b - 1); }
  }

  lemma SquareMonotone(a: nat, b: nat)
    requires a <= b
    ensures a * a <= b * b
  {
    assert a * a <= a * b <= b * b;
  }

  lemma {:induction false} InorderLength(t: Tree)
    requires Distinct(t)
    ensures |Inorder(t)| == |Keys(t)|
  {
    if t.Node? {
      InorderLength(t.left);
      InorderLength(t.right);
      assert |Keys(t)| == |Keys(t.left)| + |{t.key}| + |Keys(t.right)|;
    }
  }

  /** Height is at most 2 * log2(n + 1) for n keys, stated without logarithms. */
  lemma {:induction false} HeightLogarithmic(t: Tree)
    requires IsRedBlack(t) && Distinct(t)
    ensures Pow2(Height(t)) <= (|Keys(t)| + 1) * (|Keys(t)| + 1)
  {
    InorderLength(t);
    var h: nat :| Balanced(t, h);
    BlackHeightBounds(t, h);
    Pow2Monotone(Height(t), h + h);
    Pow2Square(h, |Keys(t)| + 1);
  }

  lemma Pow2Square(h: nat, n: nat)
    requires Pow2(h) <= n
    ensures Pow2(h + h) <= n * n
  {
    Pow2Sum(h, h);
    SquareMonotone(Pow2(h), n);
  }

  // ---------------------------------------------------------------- the least element

  /** The way from the root of `t` down its left edge, and the node found there. */
  function LeftmostPath(t: Tree): Path
    requires t.Node?
  {
    if t.left.Leaf? then Top else Append(LeftmostPath(t.left), InLeft(Top, t.color, t.key, t.right))
  }

  function LeftmostNode(t: Tree): (m: Tree)
    requires t.Node?
    ensures m.Node? && m.left.Leaf?
  {
    if t.left.Leaf? then t else LeftmostNode(t.left)
  }

  lemma {:induction false} LeftmostPlug(t: Tree)
    requires t.Node?
    ensures Plug(LeftmostPath(t), LeftmostNode(t)) == t
    ensures Before(LeftmostPath(t)) == []
    ensures Inorder(t) != [] && Inorder(t)[0] == LeftmostNode(t).key
  {
    if t.left.Node? {
      var base := InLeft(Top, t.color, t.key, t.right);
      LeftmostPlug(t.left);
      PlugAppend(LeftmostPath(t.left), base, LeftmostNode(t.left));
      BeforeAppend(LeftmostPath(t.left), base);
    }
  }

  lemma {:induction false} BeforeAppend(p: Path, base: Path)
    ensures Before(Append(p, base)) == Before(base) + Before(p)
    ensures After(Append(p, base)) == After(p) + After(base)
  {
    match p
    case Top =>
    case InLeft(up, c, k, r) =>
      BeforeAppend(up, base);
      assert [k] + Inorder(r) + (After(up) + After(base)) == [k] + Inorder(r) + After(up) + After(base);
    case InRight(up, c, l, k) =>
      BeforeAppend(up, base);
      assert Before(base) + Before(up) + Inorder(l) + [k] == Before(base) + (Before(up) + Inorder(l) + [k]);
  }
}
