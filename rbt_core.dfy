/**
 * Red-black nodes and what every red-black variant of rbt/ shares: colours,
 * black heights, the double rotation, and the validator all of them print
 * (`_rbt_validate_rec` / `_rbt_validate_helper`).
 *
 * A NULL link counts as black.  `BH` counts the black nodes on the way down
 * the left spine; a tree is black-balanced when both children of every node
 * have the same black height, so every root-to-NULL path meets the same
 * number of black nodes.
 */
module RbCore {
  import opened Trees
  import opened SearchOrder

  datatype Color = Red | Black

  /** `is_red` (or `color`) and the `void *value` of a node; 0 plays NULL. */
  datatype RbInfo = RbInfo(color: Color, value: int)

  type RbTree = Tree<int, RbInfo>

  /** `rbt_node_new`: a red node with both links NULL. */
  function NewNode(key: int, value: int): (n: RbTree)
    ensures IsLeaf(n) && n.key == key && n.info == RbInfo(Red, value)
  {
    Node(Nil, key, RbInfo(Red, value), Nil)
  }

  /** `IS_RED`: NULL is black. */
  predicate IsRed(t: RbTree)
  {
    t.Node? && t.info.color == Red
  }

  /** The node with its colour set, links and key untouched. */
  function Paint(t: RbTree, c: Color): (r: RbTree)
    requires t.Node?
    ensures r.Node? && r.left == t.left && r.right == t.right && r.key == t.key
    ensures r.info.color == c && r.info.value == t.info.value
  {
    Node(t.left, t.key, RbInfo(c, t.info.value), t.right)
  }

  /** No red node has a red child. */
  predicate NoRedRed(t: RbTree)
  {
    match t
    case Nil => true
    case Node(l, _, i, r) =>
      (i.color == Red ==> !IsRed(l) && !IsRed(r)) && NoRedRed(l) && NoRedRed(r)
  }

  /** Black nodes from `t` down its left spine, NULL counting none. */
  function BH(t: RbTree): nat
  {
    match t
    case Nil => 0
    case Node(l, _, i, _) => BH(l) + (if i.color == Black then 1 else 0)
  }

  /** Both children of every node have the same black height. */
  predicate BlackBalanced(t: RbTree)
  {
    match t
    case Nil => true
    case Node(l, _, _, r) => BH(l) == BH(r) && BlackBalanced(l) && BlackBalanced(r)
  }

  /** The two red-black rules (the validator's "Red-Red" and "Black height"). */
  predicate RbOk(t: RbTree)
  {
    NoRedRed(t) && BlackBalanced(t)
  }

  /** Every node without children is black (what the external variants keep for their leaves). */
  predicate LeavesBlack(t: RbTree)
  {
    match t
    case Nil => true
    case Node(l, _, i, r) => (IsLeaf(t) ==> i.color == Black) && LeavesBlack(l) && LeavesBlack(r)
  }

  /** Recolouring a node changes no black height below it and keeps the balance. */
  lemma PaintKeeps(t: RbTree, c: Color)
    requires t.Node?
    ensures Keys(Paint(t, c)) == Keys(t) && LeafKeys(Paint(t, c)) == LeafKeys(t)
    ensures Full(Paint(t, c)) == Full(t) && IsLeaf(Paint(t, c)) == IsLeaf(t)
    ensures forall pol :: Ordered(Paint(t, c), pol) == Ordered(t, pol)
    ensures BlackBalanced(Paint(t, c)) == BlackBalanced(t)
    ensures BH(Paint(t, c)) == BH(t.left) + (if c == Black then 1 else 0)
  {
  }

  // ---------------------------------------------------------------------
  // rotate_double
  // ---------------------------------------------------------------------

  /** `rotate_double(root, dir)`: `root->link[!dir]` rotates toward `!dir`, then `root` toward `dir`. */
  function RotateDouble(t: RbTree, d: Dir): (r: RbTree)
    requires t.Node? && Child(t, Flip(d)).Node? && Child(Child(t, Flip(d)), d).Node?
    ensures r.Node? && r.key == Child(Child(t, Flip(d)), d).key && r.info == Child(Child(t, Flip(d)), d).info
  {
    Rotate(WithChild(t, Flip(d), Rotate(Child(t, Flip(d)), Flip(d))), d)
  }

  /** The grandchild moves to the top, with the old root and child below it and its own children split between them. */
  lemma RotateDoubleShape(t: RbTree, d: Dir)
    requires t.Node? && Child(t, Flip(d)).Node? && Child(Child(t, Flip(d)), d).Node?
    ensures var c := Child(t, Flip(d)); var g := Child(c, d); var r := RotateDouble(t, d);
      Child(r, d) == WithChild(t, Flip(d), Child(g, d))
      && Child(r, Flip(d)) == WithChild(c, d, Child(g, Flip(d)))
  {
  }

  /** A double rotation keeps the keys and the order, and in an external tree the leaves and the shape. */
  lemma RotateDoubleKeeps(t: RbTree, d: Dir, pol: Policy)
    requires t.Node? && Child(t, Flip(d)).Node? && Child(Child(t, Flip(d)), d).Node?
    requires Ordered(t, pol)
    requires pol == External ==> Full(t) && !IsLeaf(Child(Child(t, Flip(d)), d))
    ensures Keys(RotateDouble(t, d)) == Keys(t) && Ordered(RotateDouble(t, d), pol)
    ensures pol == External ==> Full(RotateDouble(t, d)) && LeafKeys(RotateDouble(t, d)) == LeafKeys(t)
  {
    var c := Child(t, Flip(d));
    OrderedFocus([FrameOf(t, Flip(d))], c, pol);
    assert Ordered(c, pol);
    RotateOrdered(c, Flip(d), pol);
    var c' := Rotate(c, Flip(d));
    RotateKeys(c, Flip(d));
    if pol == External {
      RotateLeaves(c, Flip(d));
    }
    var t' := WithChild(t, Flip(d), c');
    assert Content(c', pol) == Content(c, pol);
    assert Ordered(t', pol);
    assert Keys(t') == Keys(t);
    RotateOrdered(t', d, pol);
    RotateKeys(t', d);
    if pol == External {
      assert LeafKeys(t') == LeafKeys(t);
      RotateLeaves(t', d);
    }
  }

  // ---------------------------------------------------------------------
  // The validator
  // ---------------------------------------------------------------------

  /**
   * The static counters `_rbt_validate_rec` bumps: nodes, paths (a node
   * with a NULL link ends one), the black height of the first path (-1
   * before any), paths whose black height differs from it, red-red edges
   * and BST violations.  The red/black node counts and the path-length
   * extremes only feed the printout.
   */
  datatype Tally = Tally(totalNodes: nat, totalPaths: nat, bh: int, bhDiffs: nat, redRed: nat, bstViolations: nat)

  function FreshTally(): Tally
  {
    Tally(0, 0, -1, 0, 0, 0)
  }

  /**
   * The validator's own order test, between a node and its children only:
   * a left child above the node (with `strictLeft`, one equal to it too) or
   * a right child not above it is a violation.
   */
  predicate LocallyOrdered(t: RbTree, strictLeft: bool)
  {
    match t
    case Nil => true
    case Node(l, k, _, r) =>
      (l.Node? ==> (if strictLeft then l.key < k else l.key <= k)) && (r.Node? ==> k < r.key)
      && LocallyOrdered(l, strictLeft) && LocallyOrdered(r, strictLeft)
  }

  /** Every path ending inside `t` (at a node with a NULL link), with `d` black nodes above `t`, has exactly `b` black nodes. */
  predicate PathsAt(t: RbTree, d: int, b: int)
  {
    match t
    case Nil => true
    case Node(l, _, i, r) =>
      var d' := d + (if i.color == Black then 1 else 0);
      (l.Nil? || r.Nil? ==> d' == b) && PathsAt(l, d', b) && PathsAt(r, d', b)
  }

  /** Equal black counts on every path is black balance. */
  lemma {:induction false} PathsAtBalanced(t: RbTree, d: int, b: int)
    ensures PathsAt(t, d, b) && (t.Nil? ==> d == b) <==> BlackBalanced(t) && d + BH(t) == b
  {
    if t.Node? {
      var d' := d + (if t.info.color == Black then 1 else 0);
      PathsAtBalanced(t.left, d', b);
      PathsAtBalanced(t.right, d', b);
    }
  }

  /** In a black-balanced tree the first path has the tree's black height. */
  lemma {:induction false} FirstPathBalanced(t: RbTree, d: int)
    requires t.Node? && BlackBalanced(t)
    ensures FirstPath(t, d) == d + BH(t)
  {
    if t.left.Node? && t.right.Node? {
      FirstPathBalanced(t.left, d + (if t.info.color == Black then 1 else 0));
    }
  }

  function PathCount(t: RbTree): nat
  {
    match t
    case Nil => 0
    case Node(l, _, _, r) => (if l.Nil? || r.Nil? then 1 else 0) + PathCount(l) + PathCount(r)
  }

  /** The black count of the first path the validator meets below a node: down the left links while they are not NULL. */
  function FirstPath(t: RbTree, d: int): int
    requires t.Node?
  {
    var d' := d + (if t.info.color == Black then 1 else 0);
    if t.left.Nil? || t.right.Nil? then d' else FirstPath(t.left, d')
  }

  /** What `_rbt_validate_rec` records at the node `t` itself, with `d` black nodes above it. */
  function Visit(t: RbTree, d: int, strictLeft: bool, c: Tally): (r: Tally)
    requires t.Node?
    ensures var d' := d + (if t.info.color == Black then 1 else 0); var isPath := t.left.Nil? || t.right.Nil?;
      r.totalNodes == c.totalNodes + 1 && r.totalPaths == c.totalPaths + (if isPath then 1 else 0)
      && r.bh == (if isPath && c.bh == -1 then d' else c.bh)
      && r.bhDiffs == c.bhDiffs + (if isPath && c.bh != -1 && d' != c.bh then 1 else 0)
      && (r.redRed == c.redRed <==> (t.info.color == Red ==> !IsRed(t.left) && !IsRed(t.right)))
      && (r.bstViolations == c.bstViolations <==>
            (t.left.Node? ==> (if strictLeft then t.left.key < t.key else t.left.key <= t.key)) && (t.right.Node? ==> t.key < t.right.key))
      && r.redRed >= c.redRed && r.bstViolations >= c.bstViolations
  {
    var d' := d + (if t.info.color == Black then 1 else 0);
    var isPath := t.left.Nil? || t.right.Nil?;
    Tally(c.totalNodes + 1, c.totalPaths + (if isPath then 1 else 0),
          if isPath && c.bh == -1 then d' else c.bh,
          c.bhDiffs + (if isPath && c.bh != -1 && d' != c.bh then 1 else 0),
          c.redRed + (if t.info.color == Red && (IsRed(t.left) || IsRed(t.right)) then 1 else 0),
          c.bstViolations + (if t.left.Node? && (if strictLeft then t.left.key >= t.key else t.left.key > t.key) then 1 else 0)
                          + (if t.right.Node? && t.right.key <= t.key then 1 else 0))
  }

  /**
   * `_rbt_validate_rec(root, _bh, _th)` with `d` black nodes above `t`:
   * counts the nodes and the paths, fixes the black height on the first
   * path, counts a later path with another black count, a red node with a
   * red child, and a child on the wrong side; then the left subtree, then
   * the right.
   */
  function ValidateRec(t: RbTree, d: int, strictLeft: bool, c: Tally): (r: Tally)
    requires d >= 0 && c.bh >= -1
    ensures r.totalNodes == c.totalNodes + Size(t) && r.totalPaths == c.totalPaths + PathCount(t)
    ensures r.redRed == c.redRed <==> NoRedRed(t)
    ensures r.bstViolations == c.bstViolations <==> LocallyOrdered(t, strictLeft)
    ensures r.redRed >= c.redRed && r.bstViolations >= c.bstViolations && r.bhDiffs >= c.bhDiffs
    ensures r.bh >= -1 && (t.Nil? ==> r == c)
  {
    if t.Nil? then c
    else
      var d' := d + (if t.info.color == Black then 1 else 0);
      ValidateRec(t.right, d', strictLeft, ValidateRec(t.left, d', strictLeft, Visit(t, d, strictLeft, c)))
  }

  /**
   * The black-height bookkeeping of `_rbt_validate_rec`: a known black
   * height stays and a path differing from it is counted; an unknown one
   * is fixed by the first path and the later ones compared with it.
   */
  lemma ValidateRecPaths(t: RbTree, d: int, strictLeft: bool, c: Tally)
    requires d >= 0 && c.bh >= -1
    ensures var r := ValidateRec(t, d, strictLeft, c);
      (c.bh >= 0 ==> r.bh == c.bh && (r.bhDiffs == c.bhDiffs <==> PathsAt(t, d, c.bh)))
      && (c.bh < 0 && t.Node? ==> r.bh == FirstPath(t, d) >= 0 && (r.bhDiffs == c.bhDiffs <==> PathsAt(t, d, r.bh)))
  {
    if c.bh >= 0 {
      KnownHeightKept(t, d, strictLeft, c);
    } else if t.Node? {
      FirstPathFixes(t, d, strictLeft, c);
    }
  }

  /** With the black height known, every path is compared with it and it stays. */
  lemma {:induction false} KnownHeightKept(t: RbTree, d: int, strictLeft: bool, c: Tally)
    requires d >= 0 && c.bh >= 0
    ensures var r := ValidateRec(t, d, strictLeft, c);
      r.bh == c.bh && (r.bhDiffs == c.bhDiffs <==> PathsAt(t, d, c.bh))
  {
    if t.Node? {
      var d' := d + (if t.info.color == Black then 1 else 0);
      var c1 := Visit(t, d, strictLeft, c);
      KnownHeightKept(t.left, d', strictLeft, c1);
      var c2 := ValidateRec(t.left, d', strictLeft, c1);
      KnownHeightKept(t.right, d', strictLeft, c2);
    }
  }

  /** With the black height unknown, the first path fixes it and the others are compared with it. */
  lemma {:induction false} FirstPathFixes(t: RbTree, d: int, strictLeft: bool, c: Tally)
    requires d >= 0 && c.bh == -1 && t.Node?
    ensures var r := ValidateRec(t, d, strictLeft, c);
      r.bh == FirstPath(t, d) >= 0 && (r.bhDiffs == c.bhDiffs <==> PathsAt(t, d, r.bh))
  {
    var d' := d + (if t.info.color == Black then 1 else 0);
    var c1 := Visit(t, d, strictLeft, c);
    var c2 := ValidateRec(t.left, d', strictLeft, c1);
    if t.left.Nil? || t.right.Nil? {
      assert c1.bh == d' == FirstPath(t, d) && c1.bhDiffs == c.bhDiffs;
      KnownHeightKept(t.left, d', strictLeft, c1);
      KnownHeightKept(t.right, d', strictLeft, c2);
    } else {
      assert c1.bh == -1 && c1.bhDiffs == c.bhDiffs;
      FirstPathFixes(t.left, d', strictLeft, c1);
      assert c2.bh == FirstPath(t, d);
      KnownHeightKept(t.right, d', strictLeft, c2);
    }
  }

  /** `_rbt_validate_helper`: fresh counters; valid iff no black-height difference, no red-red edge and no BST violation. */
  function Validate(t: RbTree, strictLeft: bool): (ok: bool)
    ensures ok <==> RbOk(t) && LocallyOrdered(t, strictLeft)
  {
    var r := ValidateRec(t, 0, strictLeft, FreshTally());
    assert t.Node? ==> (r.bhDiffs == 0 <==> BlackBalanced(t)) by {
      if t.Node? {
        ValidateRecPaths(t, 0, strictLeft, FreshTally());
        PathsAtBalanced(t, 0, r.bh);
        if BlackBalanced(t) {
          FirstPathBalanced(t, 0);
        }
      }
    }
    r.bhDiffs == 0 && r.redRed == 0 && r.bstViolations == 0
  }

  /** An external search tree passes the order test with a non-strict left side. */
  lemma {:induction false} ExternalLocallyOrdered(t: RbTree)
    requires Full(t) && Ordered(t, External)
    ensures LocallyOrdered(t, false)
  {
    if t.Node? && !IsLeaf(t) {
      ExternalLocallyOrdered(t.left);
      ExternalLocallyOrdered(t.right);
      var hi := MaxLeaf(t.left);
      assert hi in Content(t.left, External);
      var lo := MinLeaf(t.right);
      assert lo in Content(t.right, External);
    }
  }

  /** In an ordered external tree some leaf is at least the node's key... */
  lemma {:induction false} MaxLeaf(t: RbTree) returns (w: int)
    requires Full(t) && Ordered(t, External) && t.Node?
    ensures w in LeafKeys(t) && t.key <= w
  {
    if IsLeaf(t) {
      w := t.key;
    } else {
      w := FullHasLeaf(t.right);
      assert w in Content(t.right, External);
    }
  }

  /** ...and some leaf at most it. */
  lemma {:induction false} MinLeaf(t: RbTree) returns (w: int)
    requires Full(t) && Ordered(t, External) && t.Node?
    ensures w in LeafKeys(t) && w <= t.key
  {
    if IsLeaf(t) {
      w := t.key;
    } else {
      w := FullHasLeaf(t.left);
      assert w in Content(t.left, External);
    }
  }

  /** An internal search tree passes the order test, strict or not. */
  lemma {:induction false} InternalLocallyOrdered(t: RbTree, strictLeft: bool)
    requires Ordered(t, Internal)
    ensures LocallyOrdered(t, strictLeft)
  {
    if t.Node? {
      InternalLocallyOrdered(t.left, strictLeft);
      InternalLocallyOrdered(t.right, strictLeft);
      if t.left.Node? {
        assert t.left.key in Content(t.left, Internal);
      }
      if t.right.Node? {
        assert t.right.key in Content(t.right, Internal);
      }
    }
  }

  // ---------------------------------------------------------------------
  // Red-black facts the variants share
  // ---------------------------------------------------------------------

  /** A node whose children have been painted black over a red node: the colour flip. */
  function ColorFlip(t: RbTree): (r: RbTree)
    requires t.Node? && t.left.Node? && t.right.Node?
    ensures r.Node? && r.key == t.key && r.info.color == Red && Keys(r) == Keys(t) && LeafKeys(r) == LeafKeys(t)
    ensures !IsRed(r.left) && !IsRed(r.right)
  {
    Node(Paint(t.left, Black), t.key, RbInfo(Red, t.info.value), Paint(t.right, Black))
  }

  /** A colour flip over a black node with two red children keeps the black height and the balance. */
  lemma ColorFlipKeeps(t: RbTree)
    requires t.Node? && t.left.Node? && t.right.Node?
    ensures Full(ColorFlip(t)) == Full(t)
    ensures forall pol :: Ordered(ColorFlip(t), pol) == Ordered(t, pol)
    ensures t.info.color == Black && IsRed(t.left) && IsRed(t.right) && BlackBalanced(t)
      ==> BlackBalanced(ColorFlip(t)) && BH(ColorFlip(t)) == BH(t)
  {
    PaintKeeps(t.left, Black);
    PaintKeeps(t.right, Black);
    forall pol
      ensures Ordered(ColorFlip(t), pol) == Ordered(t, pol)
    {
      assert Content(Paint(t.left, Black), pol) == Content(t.left, pol);
      assert Content(Paint(t.right, Black), pol) == Content(t.right, pol);
    }
  }

  // ---------------------------------------------------------------------
  // Recolouring and the red-black rules along a path
  // ---------------------------------------------------------------------

  /** The tree with colours and values forgotten: all that search order and key sets depend on. */
  function Strip(t: RbTree): (r: Tree<int, ()>)
    ensures r.Nil? <==> t.Nil?
  {
    match t
    case Nil => Nil
    case Node(l, k, _, rt) => Node(Strip(l), k, (), Strip(rt))
  }

  lemma {:induction false} StripFacts(t: RbTree)
    ensures Keys(Strip(t)) == Keys(t) && LeafKeys(Strip(t)) == LeafKeys(t)
    ensures Full(Strip(t)) == Full(t) && Height(Strip(t)) == Height(t) && IsLeaf(Strip(t)) == IsLeaf(t)
    ensures Ordered(Strip(t), External) == Ordered(t, External) && Ordered(Strip(t), Internal) == Ordered(t, Internal)
  {
    if t.Node? {
      StripFacts(t.left);
      StripFacts(t.right);
      assert Content(Strip(t.left), External) == Content(t.left, External);
      assert Content(Strip(t.right), External) == Content(t.right, External);
      assert Content(Strip(t.left), Internal) == Content(t.left, Internal);
      assert Content(Strip(t.right), Internal) == Content(t.right, Internal);
    }
  }

  /** Two trees that differ only in colours and values hold the same keys in the same order and shape. */
  lemma Recoloured(a: RbTree, b: RbTree)
    requires Strip(a) == Strip(b)
    ensures Keys(a) == Keys(b) && LeafKeys(a) == LeafKeys(b) && Full(a) == Full(b) && Height(a) == Height(b)
    ensures IsLeaf(a) == IsLeaf(b)
    ensures Ordered(a, External) == Ordered(b, External) && Ordered(a, Internal) == Ordered(b, Internal)
  {
    StripFacts(a);
    StripFacts(b);
  }

  /** A frame with its node recoloured, its key, value and other child untouched. */
  function PaintFrame(f: Frame<int, RbInfo>, c: Color): (g: Frame<int, RbInfo>)
    ensures g.dir == f.dir && g.key == f.key && g.other == f.other && g.info == RbInfo(c, f.info.value)
  {
    Frame(f.dir, f.key, RbInfo(c, f.info.value), f.other)
  }

  /** A node whose parent (the last frame of `path`) is red is not red itself. */
  predicate ParentAllows(path: seq<Frame<int, RbInfo>>, t: RbTree)
  {
    path != [] && path[|path| - 1].info.color == Red ==> !IsRed(t)
  }

  /** The red-black rules of a whole tree hold in each subtree, and a subtree under a red node is not red. */
  lemma {:induction false} RbFocus(path: seq<Frame<int, RbInfo>>, t: RbTree)
    requires RbOk(Plug(path, t)) && LeavesBlack(Plug(path, t))
    ensures RbOk(t) && LeavesBlack(t) && ParentAllows(path, t)
  {
    if path != [] {
      var init, f := path[..|path| - 1], path[|path| - 1];
      assert init + [f] == path;
      PlugSnoc(init, f, t);
      RbFocus(init, Attach(f, t));
    }
  }

  /**
   * Replacing a subtree by one with the same black height that keeps the
   * rules, and is not red under a red parent, keeps the rules of the whole
   * tree; at the root any black height will do.
   */
  lemma {:induction false} RbReplace(path: seq<Frame<int, RbInfo>>, t: RbTree, u: RbTree)
    requires RbOk(Plug(path, t)) && LeavesBlack(Plug(path, t)) && t.Node? && u.Node?
    requires RbOk(u) && LeavesBlack(u) && ParentAllows(path, u) && (path != [] ==> BH(u) == BH(t))
    ensures RbOk(Plug(path, u)) && LeavesBlack(Plug(path, u))
    ensures path != [] ==> BH(Plug(path, u)) == BH(Plug(path, t))
  {
    if path != [] {
      var init, f := path[..|path| - 1], path[|path| - 1];
      assert init + [f] == path;
      PlugSnoc(init, f, t);
      PlugSnoc(init, f, u);
      RbFocus(init, Attach(f, t));
      RbReplace(init, Attach(f, t), Attach(f, u));
    }
  }
}
