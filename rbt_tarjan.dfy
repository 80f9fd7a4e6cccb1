/**
 * The external red-black tree of rbt/rbt_links_td_tarjan_ext.c, after
 * Tarjan's top-down updating with windows.  Keys live in the leaves and a
 * search goes right iff `node->key < key`, as in rbt/rbt_links_td_ext.c,
 * whose lookup, validator and warm-up this file shares word for word.
 *
 * An update walks down from a window root, keeping a stack of the nodes
 * below it, until it reaches a node that can serve as the next window root
 * (insert: a black node with a black child; delete: a node that is red or
 * has a red child or grandchild).  A 4-node met on the way (insert) or a
 * 2-node over 2-nodes (delete) is split or merged and the violation this
 * leaves is repaired bottom-up, but only within the window's stack.
 *
 * The walk is modelled on a zipper: `path` holds the frames from the root
 * down to the current node's parent, and `w` is the depth of the window
 * root, so the source's `node_stack[i]` is the node at depth `w + i - 1`.
 * `ACCESS_PATH_MAX_DEPTH` keeps its default, 0: a window holds at most
 * two nodes below its root.
 */
module RbTarjan {
  import opened Trees
  import opened SearchOrder
  import opened RbCore
  import opened RbBottomUp
  import RbTdExt
  import RbBuExt

  /**
   * What every operation keeps: a full ordered external tree with the
   * red-black rules and black leaves.  The root may be red: an insert into
   * a one-leaf tree leaves it red, and a delete may paint it red.
   */
  predicate Valid(t: RbTree)
  {
    RbBuExt.Sound(t)
  }

  // ---------------------------------------------------------------------
  // replace_external_node
  // ---------------------------------------------------------------------

  /**
   * `replace_external_node` (lines 158-179): 0 when the leaf holds the key;
   * otherwise the leaf turns red and gets the black pair `new[0]`,
   * `new[1]` as children, the larger key on the right, and 1.
   */
  function ReplaceExternal(leaf: RbTree, key: int, value: int): (r: (RbTree, int))
    requires IsLeaf(leaf)
    ensures r.1 == 1 <==> leaf.key != key
    ensures r.1 == 0 ==> r.0 == leaf
    ensures r.1 == 1 ==> Valid(r.0) && LeafKeys(r.0) == {leaf.key, key} && IsRed(r.0) && BH(r.0) == 1
  {
    if leaf.key == key then (leaf, 0)
    else
      RbTdExt.SplitValid(leaf, key, value);
      (RbTdExt.Split(leaf, key, value), 1)
  }

  // ---------------------------------------------------------------------
  // Insert: the window and the walk below its root
  // ---------------------------------------------------------------------

  /** The insert's test for a new window root: a black inner node with a black child. */
  predicate Anchor(t: RbTree)
  {
    t.Node? && !IsLeaf(t) && !IsRed(t) && (!IsRed(t.left) || !IsRed(t.right))
  }

  /**
   * An insert window rooted at `wr`, below the frames `pw`: the walk's
   * facts, and `wr` is an anchor, or red (after a double rotation) with an
   * anchor as its child on the key's side.
   */
  predicate InsertWindow(pw: Path, wr: RbTree, key: int)
  {
    RbTdExt.Walk(pw, wr, key) && !IsLeaf(wr)
    && (IsRed(wr) ==> Anchor(Child(wr, RbTdExt.Way(wr, key))))
    && (!IsRed(wr) ==> Anchor(wr))
  }

  /**
   * The walk inside a window rooted at depth `w`, about to look at `q`: one
   * step below the root, `q` is an anchor under a red root and is not red
   * beside a red sibling under a black one; two steps below, the step
   * passed a red node under a black root whose other child is black.
   */
  predicate InWindow(path: Path, q: RbTree, key: int, w: nat)
  {
    RbTdExt.Walk(path, q, key) && w < |path| <= w + 2
    && (|path| == w + 2 ==> path[w + 1].info.color == Red && path[w].info.color == Black && !IsRed(path[w].other))
    && (|path| == w + 1 ==>
          if path[w].info.color == Red then Anchor(q) else !(IsRed(q) && IsRed(path[w].other)))
  }

  /** The first step below a window root enters the window. */
  lemma EnterWindow(pw: Path, wr: RbTree, key: int)
    requires InsertWindow(pw, wr, key)
    ensures var d := RbTdExt.Way(wr, key);
      InWindow(pw + [FrameOf(wr, d)], Child(wr, d), key, |pw|)
      && Plug(pw + [FrameOf(wr, d)], Child(wr, d)) == Plug(pw, wr)
  {
    var d := RbTdExt.Way(wr, key);
    var path := pw + [FrameOf(wr, d)];
    FullPlug(pw, wr);
    AttachFrameOf(wr, d);
    PlugSnoc(pw, FrameOf(wr, d), Child(wr, d));
    RoutesSnoc(pw, FrameOf(wr, d), key, External);
    assert path[|pw|] == FrameOf(wr, d);
  }

  /** A red node met in a window is one step below a black root; the walk passes it. */
  lemma PassRed(path: Path, q: RbTree, key: int, w: nat)
    requires InWindow(path, q, key, w) && IsRed(q)
    ensures var d := RbTdExt.Way(q, key);
      |path| == w + 1 && InWindow(path + [FrameOf(q, d)], Child(q, d), key, w)
      && Plug(path + [FrameOf(q, d)], Child(q, d)) == Plug(path, q) && Height(Child(q, d)) < Height(q)
  {
    var d := RbTdExt.Way(q, key);
    RbFocus(path, q);
    FullPlug(path, q);
    assert !IsLeaf(q);
    AttachFrameOf(q, d);
    PlugSnoc(path, FrameOf(q, d), Child(q, d));
    RoutesSnoc(path, FrameOf(q, d), key, External);
    var path' := path + [FrameOf(q, d)];
    assert path'[w] == path[w] && path'[w + 1] == FrameOf(q, d);
  }

  /** An anchor met in a window becomes the next window root. */
  lemma AnchorWindow(path: Path, q: RbTree, key: int, w: nat)
    requires InWindow(path, q, key, w) && Anchor(q)
    ensures InsertWindow(path, q, key) && Height(Child(q, RbTdExt.Way(q, key))) < Height(q)
  {
  }

  /**
   * A colour flip at `q` leaves, on the key's side, a black inner child
   * whose children are black: an anchor.
   */
  lemma FlipLeavesAnchor(q: RbTree, key: int)
    requires q.Node? && !IsLeaf(q) && IsRed(q.left) && IsRed(q.right) && RbOk(q) && LeavesBlack(q) && Full(q)
    ensures var c := Child(ColorFlip(q), RbTdExt.Way(ColorFlip(q), key));
      Anchor(c) && !IsRed(c.left) && !IsRed(c.right) && Height(c) < Height(q)
  {
    var f := ColorFlip(q);
    assert f.left == Paint(q.left, Black) && f.right == Paint(q.right, Black);
    var d := RbTdExt.Way(f, key);
    var x := Child(q, d);
    assert Child(f, d) == Paint(x, Black);
    assert x == q.left || x == q.right;
    assert NoRedRed(x) && IsRed(x) && LeavesBlack(x);
    assert !IsRed(x.left) && !IsRed(x.right) && !IsLeaf(x);
    assert Height(x) < Height(q);
  }

  // ---------------------------------------------------------------------
  // _insert_fix_violation
  // ---------------------------------------------------------------------

  /** A split or flip in a window, two steps below its root: the red `q1` under a red parent under the black root is a repair site. */
  lemma WindowFixSite(path: Path, q: RbTree, q1: RbTree, key: int, value: int, w: nat)
    requires InWindow(path, q, key, w) && RbTdExt.Visited(q, q1, key, value) && q1 != q && |path| == w + 2
    ensures var init := path[..w];
      RbTdExt.FixSite(init, path[w], path[w + 1], q, q1, key)
      && Plug(path, q1) == Plug(init, Attach(path[w], Attach(path[w + 1], q1)))
      && Plug(path, q) == Plug(init, Attach(path[w], Attach(path[w + 1], q)))
  {
    var n := |path|;
    RbTdExt.VisitFacts(path, q, q1, key, value);
    RbTdExt.PlugTwo(path, q);
    RbTdExt.PlugTwo(path, q1);
    var init := path[..w];
    var g0 := Attach(path[w], Attach(path[w + 1], q));
    var g1 := Attach(path[w], Attach(path[w + 1], q1));
    FullPlug(init, g0);
    FullPlug(init, g1);
    RbFocus(init, g0);
    OrderedFocus(init, g1, External);
    RoutesPrefix(path, w, key, External);
    FullPlug(path, q1);
  }

  /** The single rotation at the window root: the red parent rises black over `q1`, which stays its child on the key's side. */
  lemma WindowSingleFix(init: Path, gf: Frame<int, RbInfo>, pf: Frame<int, RbInfo>, q: RbTree, q1: RbTree, key: int)
    requires RbTdExt.FixSite(init, gf, pf, q, q1, key) && pf.dir == gf.dir
    ensures var r := RbTdExt.SingleFix(gf, pf, q1); var path' := init + [FrameOf(r, gf.dir)];
      Valid(Plug(path', q1)) && Routes(path', key, External)
      && LeafKeys(Plug(path', q1)) == LeafKeys(Plug(init, Attach(gf, Attach(pf, q1))))
  {
    var r := RbTdExt.SingleFix(gf, pf, q1);
    RbTdExt.SingleFixRb(gf, pf, q, q1);
    RbTdExt.SingleFixOrder(gf, pf, q1);
    RbTdExt.Regraft(init, Attach(gf, Attach(pf, q)), Attach(gf, Attach(pf, q1)), r);
    AttachFrameOf(r, gf.dir);
    PlugSnoc(init, FrameOf(r, gf.dir), q1);
    RoutesSnoc(init, FrameOf(r, gf.dir), key, External);
  }

  /**
   * The double rotation at the window root: `q1` rises black over both; on
   * the key's side it has a red child whose own child on that side is
   * `q1`'s old child there.
   */
  lemma WindowDoubleFix(init: Path, gf: Frame<int, RbInfo>, pf: Frame<int, RbInfo>, q: RbTree, q1: RbTree, key: int)
    requires RbTdExt.FixSite(init, gf, pf, q, q1, key) && pf.dir != gf.dir
    ensures var r := RbTdExt.DoubleFix(gf, pf, q1); var c := Child(r, RbTdExt.Way(r, key));
      Valid(Plug(init, r)) && Routes(init, key, External)
      && LeafKeys(Plug(init, r)) == LeafKeys(Plug(init, Attach(gf, Attach(pf, q1))))
      && c.Node? && IsRed(c) && Child(c, RbTdExt.Way(c, key)) == Child(q1, RbTdExt.Way(q1, key))
  {
    var r := RbTdExt.DoubleFix(gf, pf, q1);
    RbTdExt.DoubleFixRb(gf, pf, q, q1);
    RbTdExt.DoubleFixOrder(gf, pf, q1);
    RbTdExt.Regraft(init, Attach(gf, Attach(pf, q)), Attach(gf, Attach(pf, q1)), r);
  }

  /** Without a red parent below the window root there is nothing to repair: the visited tree is valid. */
  lemma FixNotNeeded(path: Path, q: RbTree, q1: RbTree, key: int, value: int, w: nat)
    requires InWindow(path, q, key, w) && RbTdExt.Visited(q, q1, key, value) && q1 != q
    requires |path| <= w + 1 || !IsRed(Attach(path[|path| - 1], q1))
    ensures Valid(Plug(path, q1)) && Routes(path, key, External)
  {
    RbTdExt.VisitFacts(path, q, q1, key, value);
    RbReplace(path, q, q1);
  }

  /**
   * Two steps below the window root the parent of `q1` is red, its other
   * child black, so the source's test of the parent's child on the side of
   * the grandparent's link tells whether `q1` is an outer grandchild.
   */
  lemma FixTurns(path: Path, q: RbTree, q1: RbTree, key: int, value: int, w: nat)
    requires InWindow(path, q, key, w) && RbTdExt.Visited(q, q1, key, value) && q1 != q
    requires |path| > w + 1
    ensures |path| == w + 2 && IsRed(Attach(path[w + 1], q1))
    ensures IsRed(Child(Attach(path[w + 1], q1), path[w].dir)) <==> path[w + 1].dir == path[w].dir
  {
    RbTdExt.VisitFacts(path, q, q1, key, value);
    var pf := path[w + 1];
    RbFocus(path[..w + 1], Attach(pf, q));
    assert path[..w + 1] + [pf] == path;
    PlugSnoc(path[..w + 1], pf, q);
  }

  /** The single rotation at the window root, on the whole zipper. */
  lemma FixSingle(path: Path, q: RbTree, q1: RbTree, key: int, value: int, w: nat)
    requires InWindow(path, q, key, w) && RbTdExt.Visited(q, q1, key, value) && q1 != q
    requires |path| == w + 2 && path[w + 1].dir == path[w].dir
    ensures var r := RbTdExt.SingleFix(path[w], path[w + 1], q1); var path' := path[..w] + [FrameOf(r, path[w].dir)];
      Valid(Plug(path', q1)) && Routes(path', key, External) && LeafKeys(Plug(path', q1)) == LeafKeys(Plug(path, q1))
  {
    WindowFixSite(path, q, q1, key, value, w);
    WindowSingleFix(path[..w], path[w], path[w + 1], q, q1, key);
  }

  /** The double rotation at the window root, on the whole zipper. */
  lemma FixDouble(path: Path, q: RbTree, q1: RbTree, key: int, value: int, w: nat)
    requires InWindow(path, q, key, w) && RbTdExt.Visited(q, q1, key, value) && q1 != q
    requires |path| == w + 2 && path[w + 1].dir != path[w].dir
    ensures var r := RbTdExt.DoubleFix(path[w], path[w + 1], q1); var c := Child(r, RbTdExt.Way(r, key));
      Valid(Plug(path[..w], r)) && Routes(path[..w], key, External) && LeafKeys(Plug(path[..w], r)) == LeafKeys(Plug(path, q1))
      && c.Node? && IsRed(c) && Child(c, RbTdExt.Way(c, key)) == Child(q1, RbTdExt.Way(q1, key))
  {
    WindowFixSite(path, q, q1, key, value, w);
    WindowDoubleFix(path[..w], path[w], path[w + 1], q, q1, key);
  }

  /**
   * `_insert_fix_violation` (lines 101-156) after a split or a flip made
   * `q` the red `q1`: the loop looks at the red node's parent while that
   * parent lies below the window root (`top > 1`).  A black parent ends it
   * (0).  A red parent is one step below a black window root whose other
   * child is black, so the colour-flip branch (lines 125-129), the only
   * one that climbs further, never runs inside a window; the parent's child on the side of the parent's own
   * link decides between the single (1) and the double (2) rotation at
   * the window root.  Returns the frames and the subtree at the place the
   * source's `curr` pointer finally addresses: `q1` itself, or after a
   * double rotation the node `q1` that rose.
   */
  method InsertFixViolation(path: Path, ghost q: RbTree, q1: RbTree, key: int, ghost value: int, w: nat)
      returns (path': Path, x: RbTree, ret: int)
    requires InWindow(path, q, key, w) && RbTdExt.Visited(q, q1, key, value) && q1 != q
    ensures Valid(Plug(path', x)) && Routes(path', key, External)
    ensures LeafKeys(Plug(path', x)) == LeafKeys(Plug(path, q1))
    ensures x.Node? && x.key == q1.key && 0 <= ret <= 2
    ensures ret == 0 ==> path' == path && x == q1
    ensures ret == 1 ==> |path'| == |path| - 1 && x == q1
    ensures ret == 2 ==> |path'| == |path| - 2 && (var c := Child(x, RbTdExt.Way(x, key));
      c.Node? && IsRed(c) && Child(c, RbTdExt.Way(c, key)) == Child(q1, RbTdExt.Way(q1, key)))
  {
    path', x, ret := path, q1, 0;
    // The loop `while (top > 1)` goes round again only after a colour flip,
    // which cannot occur inside a window: it runs its body at most once.
    if |path| > w + 1 {
      var n := |path|;
      var curr := Attach(path[n - 1], q1);
      if IsRed(curr) {
        FixTurns(path, q, q1, key, value, w);
        var init, gf, pf := path[..n - 2], path[n - 2], path[n - 1];
        if IsRed(Child(curr, gf.dir)) {
          FixSingle(path, q, q1, key, value, w);
          var r := RbTdExt.SingleFix(gf, pf, q1);
          return init + [FrameOf(r, gf.dir)], q1, 1;
        } else {
          FixDouble(path, q, q1, key, value, w);
          return init, RbTdExt.DoubleFix(gf, pf, q1), 2;
        }
      }
    }
    FixNotNeeded(path, q, q1, key, value, w);
  }
  // ---------------------------------------------------------------------
  // _rbt_insert_helper
  // ---------------------------------------------------------------------

  /**
   * After a flip and its repair, the child on the key's side of the node
   * the source's `curr` addresses is the next window root.
   */
  lemma FlipWindow(path: Path, q: RbTree, key: int, w: nat, path': Path, x: RbTree, ret: int)
    requires InWindow(path, q, key, w) && !IsLeaf(q) && IsRed(q.left) && IsRed(q.right)
    requires Valid(Plug(path', x)) && Routes(path', key, External) && x.Node? && x.key == q.key
    requires ret != 2 ==> x == ColorFlip(q)
    requires ret == 2 ==> var c := Child(x, RbTdExt.Way(x, key));
      c.Node? && IsRed(c) && Child(c, RbTdExt.Way(c, key)) == Child(ColorFlip(q), RbTdExt.Way(ColorFlip(q), key))
    ensures var d := RbTdExt.Way(x, key); var c := Child(x, d);
      InsertWindow(path' + [FrameOf(x, d)], c, key) && Plug(path' + [FrameOf(x, d)], c) == Plug(path', x)
      && Height(Child(c, RbTdExt.Way(c, key))) < Height(q)
  {
    RbFocus(path, q);
    FullPlug(path, q);
    FlipLeavesAnchor(q, key);
    var d := RbTdExt.Way(x, key);
    var c := Child(x, d);
    FullPlug(path', x);
    assert c.Node?;
    AttachFrameOf(x, d);
    PlugSnoc(path', FrameOf(x, d), c);
    RoutesSnoc(path', FrameOf(x, d), key, External);
    RbFocus(path' + [FrameOf(x, d)], c);
    FullPlug(path' + [FrameOf(x, d)], c);
  }

  /**
   * One window of `_rbt_insert_helper` (lines 232-282): from the window
   * root, step down; a leaf is replaced (and the violation repaired) or
   * found to hold the key, which ends the insert; an anchor becomes the
   * next window root; a black node with two red children is flipped, the
   * violation repaired, and the child on the key's side of the node
   * `curr` then addresses becomes the next window root; a red node is
   * passed.
   */
  method InsertWalk(pw: Path, wr: RbTree, key: int, value: int) returns (done: bool, ret: int, path': Path, x: RbTree)
    requires InsertWindow(pw, wr, key)
    ensures done ==> (Valid(Plug(path', x)) && LeafKeys(Plug(path', x)) == LeafKeys(Plug(pw, wr)) + {key}
                      && (ret == 1 <==> key !in LeafKeys(Plug(pw, wr))) && (ret == 0 || ret == 1))
    ensures !done ==> (InsertWindow(path', x, key) && LeafKeys(Plug(path', x)) == LeafKeys(Plug(pw, wr))
                       && Height(Child(x, RbTdExt.Way(x, key))) < Height(Child(wr, RbTdExt.Way(wr, key))))
  {
    var w := |pw|;
    EnterWindow(pw, wr, key);
    var path := pw + [FrameOf(wr, RbTdExt.Way(wr, key))];
    var q := Child(wr, RbTdExt.Way(wr, key));
    ghost var m := Height(q);
    while true
      invariant InWindow(path, q, key, w) && Plug(path, q) == Plug(pw, wr) && Height(q) <= m
      decreases Height(q)
    {
      if IsLeaf(q) {
        var (q1, r) := ReplaceExternal(q, key, value);
        if r == 0 {
          LeafOnRoute(path, q, key);
          return true, 0, path, q;
        }
        RbTdExt.VisitFacts(path, q, q1, key, value);
        var r1;
        path', x, r1 := InsertFixViolation(path, q, q1, key, value, w);
        return true, 1, path', x;
      }
      if !IsRed(q) && (!IsRed(q.left) || !IsRed(q.right)) {
        AnchorWindow(path, q, key, w);
        return false, 0, path, q;
      }
      if IsRed(q.left) && IsRed(q.right) {
        var q1 := ColorFlip(q);
        RbTdExt.VisitFacts(path, q, q1, key, value);
        var p2, x2, r := InsertFixViolation(path, q, q1, key, value, w);
        FlipWindow(path, q, key, w, p2, x2, r);
        var d := RbTdExt.Way(x2, key);
        return false, 0, p2 + [FrameOf(x2, d)], Child(x2, d);
      }
      PassRed(path, q, key, w);
      var d := RbTdExt.Way(q, key);
      path := path + [FrameOf(q, d)];
      q := Child(q, d);
    }
  }

  /**
   * Lines 206-222: a red root turns black; a black root with two red
   * children has them turn black.  Either way the root becomes the first
   * window root.
   */
  lemma RootWindow(root: RbTree, wr: RbTree, key: int)
    requires Valid(root) && root.Node? && !IsLeaf(root)
    requires wr == if IsRed(root) then Paint(root, Black)
      else if IsRed(root.left) && IsRed(root.right) then Node(Paint(root.left, Black), root.key, root.info, Paint(root.right, Black))
      else root
    ensures InsertWindow([], wr, key) && LeafKeys(wr) == LeafKeys(root)
  {
    if IsRed(root) {
      RedRootAnchor(root);
    } else if IsRed(root.left) && IsRed(root.right) {
      FlipRootAnchor(root);
      assert wr == Paint(ColorFlip(root), Black);
    } else {
      assert Anchor(wr);
    }
    SoundWindow(wr, key);
  }

  /** A red root over a sound tree, painted black, is an anchor. */
  lemma RedRootAnchor(root: RbTree)
    requires Valid(root) && IsRed(root) && !IsLeaf(root)
    ensures RbBuExt.Sound(Paint(root, Black)) && Anchor(Paint(root, Black))
    ensures LeafKeys(Paint(root, Black)) == LeafKeys(root)
  {
    var wr := Paint(root, Black);
    PaintKeeps(root, Black);
    assert RbOk(wr) && LeavesBlack(wr);
    assert NoRedRed(root) && !IsRed(wr.left);
  }

  /** A black root over two red children, flipped and painted black, is an anchor. */
  lemma FlipRootAnchor(root: RbTree)
    requires Valid(root) && root.Node? && IsRed(root.left) && IsRed(root.right)
    ensures var wr := Paint(ColorFlip(root), Black);
      RbBuExt.Sound(wr) && Anchor(wr) && LeafKeys(wr) == LeafKeys(root)
  {
    ColorFlipKeeps(root);
    PaintKeeps(ColorFlip(root), Black);
    var wr := Paint(ColorFlip(root), Black);
    var l, r := Paint(root.left, Black), Paint(root.right, Black);
    assert NoRedRed(root) && root.info.color == Black;
    assert wr == Node(l, root.key, RbInfo(Black, root.info.value), r);
    assert NoRedRed(root.left) && NoRedRed(root.right) && LeavesBlack(root.left) && LeavesBlack(root.right);
    assert NoRedRed(l) && NoRedRed(r) && LeavesBlack(l) && LeavesBlack(r);
    assert NoRedRed(wr) && LeavesBlack(wr) && BlackBalanced(wr);
  }

  /** A sound black tree that is not a leaf and has a black child is an insert window at the top. */
  lemma SoundWindow(wr: RbTree, key: int)
    requires RbBuExt.Sound(wr) && Anchor(wr)
    ensures InsertWindow([], wr, key)
  {
    assert Plug([], wr) == wr;
  }

  /**
   * `_rbt_insert_helper` (lines 181-371): an empty tree gets `node[0]` as a
   * black root; a one-leaf tree has its leaf replaced; otherwise the root
   * is recoloured and the walk goes from window to window until a leaf is
   * reached.  Returns 1 iff the pair was linked, i.e. the key was absent.
   */
  method Insert(root: RbTree, key: int, value: int) returns (t: RbTree, ret: int)
    requires Valid(root)
    ensures Valid(t) && LeafKeys(t) == LeafKeys(root) + {key}
    ensures ret == 1 <==> key !in LeafKeys(root)
    ensures ret == 0 || ret == 1
  {
    if root.Nil? {
      return Node(Nil, key, RbInfo(Black, value), Nil), 1;
    }
    if IsLeaf(root) {
      var (t', r) := ReplaceExternal(root, key, value);
      return t', r;
    }
    var wr := root;
    if IsRed(root) {
      wr := Paint(root, Black);
    } else if IsRed(root.left) && IsRed(root.right) {
      wr := Node(Paint(root.left, Black), root.key, root.info, Paint(root.right, Black));
    }
    RootWindow(root, wr, key);
    var pw: Path := [];
    while true
      invariant InsertWindow(pw, wr, key) && LeafKeys(Plug(pw, wr)) == LeafKeys(root)
      decreases Height(Child(wr, RbTdExt.Way(wr, key)))
    {
      var done, r, path', x := InsertWalk(pw, wr, key, value);
      if done {
        return Plug(path', x), r;
      }
      pw, wr := path', x;
    }
  }
  // ---------------------------------------------------------------------
  // delete_external_node and _delete_fix_violation
  // ---------------------------------------------------------------------

  /**
   * `delete_external_node` (lines 383-400): a leaf not holding the key is
   * kept (0); otherwise the leaf and its parent, the last frame of `path`,
   * go, and the parent's other child takes the parent's place (1).
   */
  function DeleteExternal(path: Path, leaf: RbTree, key: int): (r: (Path, RbTree, int))
    requires path != [] && IsLeaf(leaf)
    ensures r.2 == 1 <==> leaf.key == key
    ensures r.2 == 0 ==> r.0 == path && r.1 == leaf
    ensures r.2 == 1 ==> |r.0| == |path| - 1
  {
    if leaf.key != key then (path, leaf, 0)
    else (path[..|path| - 1], path[|path| - 1].other, 1)
  }

  /**
   * At the leaf the key routes to, `delete_external_node` returns 1 iff
   * the tree holds the key, and then leaves the other leaves: in a valid
   * tree when the unlinked parent was red, in a tree one black node short
   * at the hoisted sibling when it was black (lines 571-583).
   */
  lemma DeleteExternalOk(path: Path, leaf: RbTree, key: int)
    requires RbTdExt.Walk(path, leaf, key) && IsLeaf(leaf) && path != []
    ensures var (init, s, ret) := DeleteExternal(path, leaf, key); var keys := LeafKeys(Plug(path, leaf));
      (ret == 1 <==> key in keys)
      && (ret == 1 && path[|path| - 1].info.color == Black ==> RbBuExt.Mending(init, s, key, keys - {key}))
      && (ret == 1 && path[|path| - 1].info.color == Red ==> Valid(Plug(init, s)) && LeafKeys(Plug(init, s)) == keys - {key})
  {
    LeafOnRoute(path, leaf, key);
    if leaf.key == key {
      var n := |path|;
      var init, parent := path[..n - 1], path[n - 1];
      var s := parent.other;
      assert path == init + [parent];
      PlugSnoc(init, parent, leaf);
      HoistSibling(init, parent, leaf, key);
      RbBuExt.LeavesBlackPlug(path, leaf);
      RbBuExt.HoistOk(init, parent, leaf);
      RoutesPrefix(path, n - 1, key, External);
      RbBuExt.PathLeavesBlackPrefix(path, n - 1);
      RbBuExt.LeavesBlackPlug(init, s);
    }
  }

  /** A short subtree that is red, or at the root, painted black leaves a valid tree. */
  lemma BlackenShort(path: Path, x: RbTree, key: int, keys: set<int>)
    requires RbBuExt.Mending(path, x, key, keys) && (IsRed(x) || path == [])
    ensures Valid(Plug(path, Blacken(x))) && LeafKeys(Plug(path, Blacken(x))) == keys
  {
    if path == [] {
      PaintKeeps(x, Black);
    } else {
      RbBuExt.MendRed(path, x, key, keys);
    }
  }

  /**
   * `_delete_fix_violation` (lines 403-491), from the subtree `x0`, one
   * black node short, at the bottom of `path0`: a red `x` turns black;
   * otherwise the sibling, made black by case 1 if it is red, turns red
   * when its children are black and the parent becomes the short subtree
   * (case 2), or one or two rotations end the repair (cases 3 and 4).
   * Returns the number of rotations of the last step.
   */
  method DeleteFixViolation(path0: Path, x0: RbTree, key: int, ghost keys: set<int>) returns (t: RbTree, ret: int)
    requires RbBuExt.Mending(path0, x0, key, keys)
    ensures Valid(t) && LeafKeys(t) == keys && 0 <= ret <= 2
  {
    var path, x := path0, x0;
    while true
      invariant RbBuExt.Mending(path, x, key, keys)
      decreases |path| + (if IsRed(x) then 0 else 1)
    {
      if IsRed(x) || path == [] {
        // The source's stack ends at the window root's parent and is never
        // used up (its `assert(0)`); the model's stack reaches the root,
        // where a black short tree is a valid one.
        BlackenShort(path, x, key, keys);
        return Plug(path, Blacken(x)), 0;
      }
      var p := path[|path| - 1];
      assert p.other.Node? by {
        FullPlug(path, x);
      }
      if IsRed(p.other) {
        RbBuExt.MendLift(path, x, key, keys);
        path := LiftSibling(path);
        p := path[|path| - 1];
      }
      var s := p.other;
      if !IsRed(s.left) && !IsRed(s.right) {
        RbBuExt.MendPush(path, x, key, keys);
        x := PushUp(p, x);
        path := path[..|path| - 1];
      } else {
        RbBuExt.MendFar(path, x, key, keys);
        if IsRed(Child(s, Flip(p.dir))) {
          return Plug(path[..|path| - 1], TurnFar(p, x)), 1;
        }
        return Plug(path[..|path| - 1], TurnNearFar(p, x)), 2;
      }
    }
  }

  // ---------------------------------------------------------------------
  // Delete: the window and the walk below its root
  // ---------------------------------------------------------------------

  /** `t` has a red child; NULL and a leaf have none. */
  predicate RedBelow(t: RbTree)
  {
    t.Node? && (IsRed(t.left) || IsRed(t.right))
  }

  /** Lines 577-584: the delete's test for a new window root, a node that is red or has a red child or grandchild. */
  predicate WindowRoot(t: RbTree)
  {
    t.Node? && (IsRed(t) || RedBelow(t) || RedBelow(t.left) || RedBelow(t.right))
  }

  /** Lines 593-599: a black node over two black inner nodes whose children are black. */
  predicate DoubleBlack(t: RbTree)
  {
    t.Node? && !IsRed(t) && t.left.Node? && t.right.Node? && !IsLeaf(t.left) && !IsLeaf(t.right)
    && !IsRed(t.left) && !IsRed(t.right) && !RedBelow(t.left) && !RedBelow(t.right)
  }

  /** A delete window rooted at `wr`, below the frames `pw`: the walk's facts, and `wr` passes the window root test. */
  predicate DeleteWindow(pw: Path, wr: RbTree, key: int)
  {
    RbTdExt.Walk(pw, wr, key) && !IsLeaf(wr) && WindowRoot(wr)
  }

  /**
   * The delete's walk inside a window rooted at depth `w`, about to look
   * at `q`: one step below the root, the root passes the window root test;
   * two steps below, `q` is a leaf.
   */
  predicate InDeleteWindow(path: Path, q: RbTree, key: int, w: nat)
  {
    RbTdExt.Walk(path, q, key) && w < |path| <= w + 2
    && (|path| == w + 1 ==> WindowRoot(Attach(path[w], q)))
    && (|path| == w + 2 ==> IsLeaf(q))
  }

  /** The first step below a window root enters the window. */
  lemma EnterDeleteWindow(pw: Path, wr: RbTree, key: int)
    requires DeleteWindow(pw, wr, key)
    ensures var d := RbTdExt.Way(wr, key);
      InDeleteWindow(pw + [FrameOf(wr, d)], Child(wr, d), key, |pw|)
      && Plug(pw + [FrameOf(wr, d)], Child(wr, d)) == Plug(pw, wr) && Height(Child(wr, d)) < Height(wr)
  {
    var d := RbTdExt.Way(wr, key);
    var path := pw + [FrameOf(wr, d)];
    FullPlug(pw, wr);
    AttachFrameOf(wr, d);
    PlugSnoc(pw, FrameOf(wr, d), Child(wr, d));
    RoutesSnoc(pw, FrameOf(wr, d), key, External);
    assert path[|pw|] == FrameOf(wr, d);
  }

  /**
   * A node that is neither a window root nor a 2-node over 2-nodes is
   * black with black children and no red grandchild, one of its children
   * being a leaf: then both are, and the walk passes it to a leaf.
   */
  lemma PassBlack(path: Path, q: RbTree, key: int, w: nat)
    requires InDeleteWindow(path, q, key, w) && !IsLeaf(q) && !WindowRoot(q) && !DoubleBlack(q)
    ensures var d := RbTdExt.Way(q, key);
      |path| == w + 1 && IsLeaf(q.left) && IsLeaf(q.right)
      && InDeleteWindow(path + [FrameOf(q, d)], Child(q, d), key, w)
      && Plug(path + [FrameOf(q, d)], Child(q, d)) == Plug(path, q) && Height(Child(q, d)) < Height(q)
  {
    var d := RbTdExt.Way(q, key);
    RbFocus(path, q);
    FullPlug(path, q);
    assert q.left.Node? && q.right.Node? && !IsRed(q.left) && !IsRed(q.right);
    assert IsLeaf(q.left) || IsLeaf(q.right);
    assert BH(q.left) == BH(q.right);
    if !IsLeaf(q.left) {
      RbTdExt.BHPositive(q.left.left);
    }
    if !IsLeaf(q.right) {
      RbTdExt.BHPositive(q.right.left);
    }
    AttachFrameOf(q, d);
    PlugSnoc(path, FrameOf(q, d), Child(q, d));
    RoutesSnoc(path, FrameOf(q, d), key, External);
  }

  /**
   * A 2-node over 2-nodes below a window root, painted red, is one black
   * node short there, and keeps the red-black rules itself.
   */
  lemma RedShort(path: Path, c: RbTree, key: int)
    requires RbTdExt.Walk(path, c, key) && path != [] && DoubleBlack(c)
    ensures RbBuExt.Mending(path, Paint(c, Red), key, LeafKeys(Plug(path, c))) && RbOk(Paint(c, Red))
    ensures path[|path| - 1].other.Node?
  {
    var x := Paint(c, Red);
    PlugOk(path, c);
    PaintKeeps(c, Red);
    assert Blacken(x) == c;
    assert Strip(x) == Strip(c);
    RecolourIn(path, c, x);
    RbBuExt.LeavesBlackPlug(path, c);
    SiblingExists(path, x);
  }

  /** With a black sibling over black children, a window root over a 2-node over 2-nodes is red. */
  lemma MergeUnderRed(p: Frame<int, RbInfo>, c: RbTree)
    requires DoubleBlack(c) && WindowRoot(Attach(p, c)) && p.other.Node?
    requires !IsRed(p.other) && !IsRed(p.other.left) && !IsRed(p.other.right)
    ensures p.info.color == Red
  {
    if p.dir == Left {
      assert Attach(p, c) == Node(c, p.key, p.info, p.other);
    } else {
      assert Attach(p, c) == Node(p.other, p.key, p.info, c);
    }
  }

  /** The node cases 3 and 4 rotate up keeps the old parent, painted black, over `x` on `x`'s side. */
  lemma TurnKeepsParent(p: Frame<int, RbInfo>, x: RbTree, far: bool)
    requires p.other.Node? && (if far then Child(p.other, Flip(p.dir)) else Child(p.other, p.dir)).Node?
    ensures var t := if far then TurnFar(p, x) else TurnNearFar(p, x);
      Child(t, p.dir).Node? && Child(t, p.dir).key == p.key && Child(Child(t, p.dir), p.dir) == x
  {
    if !far {
      RotateDoubleShape(Attach(p, x), p.dir);
    }
  }

  /**
   * The sibling and its near child hold keys on the sibling's side of the
   * parent, so the key routes past each the way it routes past the parent.
   */
  lemma BesideRoutes(path: Path, x: RbTree, key: int)
    requires Routes(path, key, External) && path != [] && x.Node?
    requires Full(Plug(path, x)) && Ordered(Plug(path, x), External)
    ensures var p := path[|path| - 1]; var s := p.other;
      s.Node? && (if p.dir == Left then key <= s.key else s.key < key)
      && (!IsLeaf(s) ==> var g := Child(s, p.dir); g.Node? && if p.dir == Left then key <= g.key else g.key < key)
  {
    var n, p := |path|, path[|path| - 1];
    var init := path[..n - 1];
    var u := Attach(p, x);
    assert path == init + [p];
    PlugSnoc(init, p, x);
    OrderedFocus(init, u, External);
    FullPlug(init, u);
    var s := p.other;
    assert s.Node? && Full(s) && Ordered(s, External);
    RbTdExt.ChildKeys(u);
    assert key <= p.key <==> p.dir == Left;
    if p.dir == Left {
      assert u.right == s;
      var w := MinLeaf(s);
      if !IsLeaf(s) {
        var v := MinLeaf(s.left);
      }
    } else {
      assert u.left == s;
      var w := MaxLeaf(s);
      if !IsLeaf(s) {
        var v := MaxLeaf(s.right);
      }
    }
  }

  /** Cases 3 and 4 at the window root leave a valid tree, and the old window root, over `x`, below the risen node on the key's path. */
  lemma MergeTurn(q: Path, x: RbTree, key: int, keys: set<int>, far: bool)
    requires RbBuExt.Mending(q, x, key, keys) && q != [] && RbOk(x)
    requires var p := q[|q| - 1]; var s := p.other;
      s.Node? && !IsRed(s) && (IsRed(s.left) || IsRed(s.right)) && far == IsRed(Child(s, Flip(p.dir)))
    ensures var m, p := |q|, q[|q| - 1]; var d := p.dir;
      Child(p.other, Flip(d)).Node? && Child(p.other, d).Node?
      && var t := if far then TurnFar(p, x) else TurnNearFar(p, x); var prefix := q[..m - 1] + [FrameOf(t, d)];
      Child(t, d).Node? && Child(t, d).key == p.key && Child(Child(t, d), d) == x
      && Valid(Plug(prefix, Child(t, d))) && LeafKeys(Plug(prefix, Child(t, d))) == keys && Routes(prefix, key, External)
  {
    var m, p := |q|, q[|q| - 1];
    var d := p.dir;
    RbBuExt.MendFar(q, x, key, keys);
    var t := if far then TurnFar(p, x) else TurnNearFar(p, x);
    TurnKeepsParent(p, x, far);
    BesideRoutes(q, x, key);
    RoutesPrefix(q, m - 1, key, External);
    AttachFrameOf(t, d);
    PlugSnoc(q[..m - 1], FrameOf(t, d), Child(t, d));
    RoutesSnoc(q[..m - 1], FrameOf(t, d), key, External);
  }

  /** The old window root `u` over the red `x`, on the key's path, makes `x` the next window root. */
  lemma MergeFinish(prefix: Path, u: RbTree, d: Dir, x: RbTree, key: int, keys: set<int>)
    requires Valid(Plug(prefix, u)) && LeafKeys(Plug(prefix, u)) == keys && Routes(prefix, key, External)
    requires u.Node? && Child(u, d) == x && IsRed(x) && !IsLeaf(x)
    requires if d == Left then key <= u.key else u.key < key
    ensures DeleteWindow(prefix + [FrameOf(u, d)], x, key) && LeafKeys(Plug(prefix + [FrameOf(u, d)], x)) == keys
  {
    AttachFrameOf(u, d);
    PlugSnoc(prefix, FrameOf(u, d), x);
    RoutesSnoc(prefix, FrameOf(u, d), key, External);
  }

  /**
   * The bb step of lines 600-611 as it evidently should be: `c`, a 2-node
   * over 2-nodes and a child of the window root (the last frame of
   * `path`), turns red, which leaves its side one black node short, and
   * the delete fix-up's cases at the window root restore the balance
   * there: case 1 if the sibling is red, then case 2 (the window root,
   * red by then, turns black) or case 3 or 4.  The old window root stays
   * `c`'s parent, and `c` becomes the next window root.  Returns the
   * frames down to that parent, and the parent.
   */
  method MergeDown(path: Path, c: RbTree, key: int) returns (prefix: Path, u: RbTree)
    requires RbTdExt.Walk(path, c, key) && path != [] && DoubleBlack(c) && WindowRoot(Attach(path[|path| - 1], c))
    ensures u.Node?
    ensures var d := path[|path| - 1].dir; var path' := prefix + [FrameOf(u, d)];
      Child(u, d) == Paint(c, Red) && DeleteWindow(path', Paint(c, Red), key)
      && LeafKeys(Plug(path', Paint(c, Red))) == LeafKeys(Plug(path, c))
  {
    var d := path[|path| - 1].dir;
    var x := Paint(c, Red);
    ghost var keys := LeafKeys(Plug(path, c));
    RedShort(path, c, key);
    var q := path;
    var p := path[|path| - 1];
    if IsRed(p.other) {
      RbBuExt.MendLift(path, x, key, keys);
      q := LiftSibling(path);
      p := q[|q| - 1];
    }
    var m := |q|;
    var s := p.other;
    if !IsRed(s.left) && !IsRed(s.right) {
      if q == path {
        MergeUnderRed(p, c);
      }
      RbBuExt.MendPush(q, x, key, keys);
      BlackenShort(q[..m - 1], PushUp(p, x), key, keys);
      RoutesPrefix(q, m - 1, key, External);
      assert q[m - 1] == p;
      prefix, u := q[..m - 1], Blacken(PushUp(p, x));
    } else {
      var far := IsRed(Child(s, Flip(d)));
      MergeTurn(q, x, key, keys, far);
      var t := if far then TurnFar(p, x) else TurnNearFar(p, x);
      prefix, u := q[..m - 1] + [FrameOf(t, d)], Child(t, d);
    }
    MergeFinish(prefix, u, d, x, key, keys);
  }
  /**
   * Lines 600-606 as written, when the window root `w` is red: both its
   * children turn red, and the fix-up, started at `w`, finds it red and
   * only paints it black (lines 414-416).
   */
  function MergeAsWritten(w: RbTree): (r: RbTree)
    requires w.Node? && w.left.Node? && w.right.Node? && IsRed(w)
    ensures r.Node? && r.key == w.key && !IsRed(r) && IsRed(r.left) && IsRed(r.right) && Strip(r) == Strip(w)
  {
    Node(Paint(w.left, Red), w.key, RbInfo(Black, w.info.value), Paint(w.right, Red))
  }

  /** A black node over the leaves `lo` and `lo + 1`. */
  function Pair(lo: int): RbTree
  {
    Node(Node(Nil, lo, RbInfo(Black, 0), Nil), lo, RbInfo(Black, 0), Node(Nil, lo + 1, RbInfo(Black, 0), Nil))
  }

  /**
   * A red window root, key `k + 4`, over the 2-node over 2-nodes
   * `Pair(k + 1) k + 2 Pair(k + 3)` and the black sibling
   * `(Pair(k + 5) k + 6 Pair(k + 7)) k + 8 Pair(k + 9)` whose left child
   * is red.
   */
  function MergeExample(k: int): RbTree
  {
    Node(Node(Pair(k + 1), k + 2, RbInfo(Black, 0), Pair(k + 3)), k + 4, RbInfo(Red, 0),
         Node(Node(Pair(k + 5), k + 6, RbInfo(Red, 0), Pair(k + 7)), k + 8, RbInfo(Black, 0), Pair(k + 9)))
  }

  /**
   * The bb step as written breaks the red rule: in a valid tree whose red
   * window root has, on the key's side, a 2-node over 2-nodes as a child,
   * painting the sibling red puts it over its own red child.
   */
  lemma MergeAsWrittenBreaksRedRule(k: int)
    ensures var w := MergeExample(k);
      Valid(w) && WindowRoot(w) && DoubleBlack(w.left) && RbTdExt.Way(w, k + 1) == Left
      && !NoRedRed(MergeAsWritten(w))
  {
    var w := MergeExample(k);
    ExampleChild(k);
    ExampleSibling(k);
    JoinFacts(w.left, k + 4, Red, w.right);
    var m := MergeAsWritten(w);
    assert IsRed(m.right) && IsRed(m.right.left);
  }

  /** The example's child on the key's side: a valid 2-node over 2-nodes. */
  lemma ExampleChild(k: int)
    ensures var c := MergeExample(k).left;
      Full(c) && Ordered(c, External) && RbOk(c) && LeavesBlack(c) && BH(c) == 3 && c.Node? && !IsRed(c)
      && (forall x :: x in LeafKeys(c) ==> x <= k + 4) && DoubleBlack(c)
  {
    PairFacts(k + 1);
    PairFacts(k + 3);
    JoinFacts(Pair(k + 1), k + 2, Black, Pair(k + 3));
  }

  /** The example's other child: a valid black node with a red child. */
  lemma ExampleSibling(k: int)
    ensures var s := MergeExample(k).right;
      Full(s) && Ordered(s, External) && RbOk(s) && LeavesBlack(s) && BH(s) == 3 && s.Node? && !IsRed(s)
      && (forall x :: x in LeafKeys(s) ==> k + 4 < x) && RedBelow(s)
  {
    ExampleNephew(k);
    PairFacts(k + 9);
    JoinFacts(MergeExample(k).right.left, k + 8, Black, Pair(k + 9));
  }

  /** The sibling's red child. */
  lemma ExampleNephew(k: int)
    ensures var n := MergeExample(k).right.left;
      Full(n) && Ordered(n, External) && RbOk(n) && LeavesBlack(n) && BH(n) == 2 && n.Node? && IsRed(n)
      && (forall x :: x in LeafKeys(n) ==> k + 4 < x <= k + 8)
  {
    PairFacts(k + 5);
    PairFacts(k + 7);
    JoinFacts(Pair(k + 5), k + 6, Red, Pair(k + 7));
  }

  /** What the example's 2-nodes keep. */
  lemma PairFacts(lo: int)
    ensures var t := Pair(lo);
      Full(t) && Ordered(t, External) && RbOk(t) && LeavesBlack(t) && BH(t) == 2 && LeafKeys(t) == {lo, lo + 1}
      && !IsLeaf(t) && !IsRed(t) && !RedBelow(t)
  {
    assert BH(Pair(lo).left) == 1;
  }

  /** A node over two valid subtrees of equal black height, its key between their leaves, is valid. */
  lemma JoinFacts(l: RbTree, k: int, color: Color, r: RbTree)
    requires Full(l) && Ordered(l, External) && RbOk(l) && LeavesBlack(l) && l.Node?
    requires Full(r) && Ordered(r, External) && RbOk(r) && LeavesBlack(r) && r.Node? && BH(l) == BH(r)
    requires forall x :: x in LeafKeys(l) ==> x <= k
    requires forall x :: x in LeafKeys(r) ==> k < x
    requires color == Red ==> !IsRed(l) && !IsRed(r)
    ensures var t := Node(l, k, RbInfo(color, 0), r);
      Full(t) && Ordered(t, External) && RbOk(t) && LeavesBlack(t) && LeafKeys(t) == LeafKeys(l) + LeafKeys(r)
      && BH(t) == BH(l) + (if color == Black then 1 else 0)
  {
  }

  /**
   * One window of `_rbt_delete_helper` (lines 556-613): from the window
   * root, step down; at a leaf the key is found and unlinked, the tree
   * repaired if the unlinked parent was black, or found missing, which
   * ends the delete; a node passing the window root test becomes the next
   * window root; a 2-node over 2-nodes is merged (`MergeDown`) and becomes
   * the next window root; any other node is passed.
   */
  method DeleteWalk(pw: Path, wr: RbTree, key: int) returns (done: bool, ret: int, path': Path, x: RbTree)
    requires DeleteWindow(pw, wr, key)
    ensures done ==> (Valid(Plug(path', x)) && LeafKeys(Plug(path', x)) == LeafKeys(Plug(pw, wr)) - {key}
                      && (ret == 1 <==> key in LeafKeys(Plug(pw, wr))) && (ret == 0 || ret == 1))
    ensures !done ==> (DeleteWindow(path', x, key) && LeafKeys(Plug(path', x)) == LeafKeys(Plug(pw, wr))
                       && Height(x) < Height(wr))
  {
    var w := |pw|;
    EnterDeleteWindow(pw, wr, key);
    var path := pw + [FrameOf(wr, RbTdExt.Way(wr, key))];
    var q := Child(wr, RbTdExt.Way(wr, key));
    while true
      invariant InDeleteWindow(path, q, key, w) && Plug(path, q) == Plug(pw, wr) && Height(q) < Height(wr)
      decreases Height(q)
    {
      if IsLeaf(q) {
        DeleteExternalOk(path, q, key);
        var (init, s, r) := DeleteExternal(path, q, key);
        if r == 0 {
          return true, 0, path, q;
        }
        if path[|path| - 1].info.color == Black {
          var t, _ := DeleteFixViolation(init, s, key, LeafKeys(Plug(pw, wr)) - {key});
          return true, 1, [], t;
        }
        return true, 1, init, s;
      }
      if WindowRoot(q) {
        return false, 0, path, q;
      }
      if DoubleBlack(q) {
        var prefix, u := MergeDown(path, q, key);
        return false, 0, prefix + [FrameOf(u, path[|path| - 1].dir)], Paint(q, Red);
      }
      PassBlack(path, q, key, w);
      var d := RbTdExt.Way(q, key);
      path := path + [FrameOf(q, d)];
      q := Child(q, d);
    }
  }

  /**
   * Lines 510-528: a black root with black children and no red grandchild
   * turns red.  Either way the root becomes the first window root.
   */
  lemma DeleteRootWindow(root: RbTree, wr: RbTree, key: int)
    requires Valid(root) && root.Node? && !IsLeaf(root)
    requires wr == if !IsRed(root) && !IsRed(root.left) && !IsRed(root.right) && !RedBelow(root.left) && !RedBelow(root.right)
      then Paint(root, Red) else root
    ensures DeleteWindow([], wr, key) && LeafKeys(wr) == LeafKeys(root)
  {
    PaintKeeps(root, Red);
    assert RbOk(wr) && LeavesBlack(wr);
  }

  /**
   * `_rbt_delete_helper` (lines 493-613): an empty tree is left alone; a
   * one-leaf tree becomes empty if the leaf holds the key; otherwise the
   * root may be recoloured and the walk goes from window to window until
   * a leaf is reached.  Returns 1 iff the key was present.
   */
  method Delete(root: RbTree, key: int) returns (t: RbTree, ret: int)
    requires Valid(root)
    ensures Valid(t) && LeafKeys(t) == LeafKeys(root) - {key}
    ensures ret == 1 <==> key in LeafKeys(root)
    ensures ret == 0 || ret == 1
  {
    if root.Nil? {
      return root, 0;
    }
    if IsLeaf(root) {
      if root.key == key {
        return Nil, 1;
      }
      return root, 0;
    }
    var wr := root;
    if !IsRed(root) && !IsRed(root.left) && !IsRed(root.right) && !RedBelow(root.left) && !RedBelow(root.right) {
      wr := Paint(root, Red);
    }
    DeleteRootWindow(root, wr, key);
    var pw: Path := [];
    while true
      invariant DeleteWindow(pw, wr, key) && LeafKeys(Plug(pw, wr)) == LeafKeys(root)
      decreases Height(wr)
    {
      var done, r, path', x := DeleteWalk(pw, wr, key);
      if done {
        return Plug(path', x), r;
      }
      pw, wr := path', x;
    }
  }
}
