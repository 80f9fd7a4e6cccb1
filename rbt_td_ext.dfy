/**
 * The sequential top-down external red-black tree of
 * rbt/rbt_links_td_ext.c.  Keys live in the leaves; a search goes right iff
 * `node->key < key`.  Insert and delete walk down once, with the
 * great-grandparent/grandparent/parent/current pointers `gg, g, p, q`
 * hanging below a dummy `head`, recolouring and rotating on the way so
 * that the bottom step needs no repair going up.
 *
 * The walk is modelled on a zipper: `path` is the list of frames from the
 * root down to `p` (the last frame is `p`, the one before it `g`), and the
 * focus is `q`; `Plug(path, q)` is the whole tree.  A rotation at `g`
 * replaces the subtree at `g`'s place in `gg`, which is the prefix of the
 * path above `g`.
 */
module RbTdExt {
  import opened Trees
  import opened SearchOrder
  import opened RbCore
  import opened Wrappers
  import WarmupKeys

  type Path = seq<Frame<int, RbInfo>>

  /**
   * What every operation keeps: an external search tree, the red-black
   * rules, black leaves and a black root.
   */
  predicate Valid(t: RbTree)
  {
    Full(t) && Ordered(t, External) && RbOk(t) && LeavesBlack(t) && !IsRed(t)
  }

  /**
   * `_rbt_validate_helper` (lines 377-413), whose order test lets a left
   * child equal its parent, accepts every tree the operations keep.
   */
  lemma ValidPasses(t: RbTree)
    requires Valid(t)
    ensures Validate(t, false)
  {
    ExternalLocallyOrdered(t);
  }

  /**
   * The bottom step of an insert: the reached leaf `q` turns red and gets
   * the node pair `node[0]`, `node[1]` (both black, both holding the new
   * key and value) as children; the larger key goes right, and `q` keeps
   * the smaller one.
   */
  function Split(leaf: RbTree, key: int, value: int): (s: RbTree)
    requires IsLeaf(leaf) && leaf.key != key
    ensures s.Node? && IsLeaf(s.left) && IsLeaf(s.right) && s.info == RbInfo(Red, leaf.info.value)
    ensures s.left.info.color == Black && s.right.info.color == Black
    ensures s.key == s.left.key && s.left.key < s.right.key
    ensures s.left.key in {key, leaf.key} && s.right.key in {key, leaf.key}
  {
    if leaf.key > key then
      Node(Node(Nil, key, RbInfo(Black, value), Nil), key, RbInfo(Red, leaf.info.value), Node(Nil, leaf.key, RbInfo(Black, value), Nil))
    else
      Node(Node(Nil, leaf.key, RbInfo(Black, value), Nil), leaf.key, RbInfo(Red, leaf.info.value), Node(Nil, key, RbInfo(Black, value), Nil))
  }

  /** The split pair is an ordered external red-black tree with the black height of a black leaf. */
  lemma SplitValid(leaf: RbTree, key: int, value: int)
    requires IsLeaf(leaf) && leaf.key != key
    ensures var s := Split(leaf, key, value);
      Full(s) && Ordered(s, External) && LeafKeys(s) == {key, leaf.key}
      && RbOk(s) && LeavesBlack(s) && BH(s) == 1
  {
    var s := Split(leaf, key, value);
    assert LeafKeys(s) == {s.left.key, s.right.key};
    assert BH(s.left) == 1;
    if leaf.key > key {
      assert {s.left.key, s.right.key} == {key, leaf.key};
    } else {
      assert {s.left.key, s.right.key} == {key, leaf.key};
    }
    assert Content(s.left, External) == {s.left.key};
    assert Content(s.right, External) == {s.right.key};
  }

  // ---------------------------------------------------------------------
  // Lookup
  // ---------------------------------------------------------------------

  /** `_rbt_lookup_helper`: 0 on an empty tree, else whether the leaf reached going right iff `node->key < key` holds the key. */
  method Lookup(root: RbTree, key: int) returns (found: bool)
    requires Full(root)
    ensures found <==> ExtDescend(root, key).1.Node? && ExtDescend(root, key).1.key == key
    ensures Ordered(root, External) ==> (found <==> key in LeafKeys(root))
  {
    if root.Nil? {
      return false;
    }
    var curr := root;
    ghost var path: Path := [];
    assert [] + ExtDescend(curr, key).0 == ExtDescend(curr, key).0;
    while !IsLeaf(curr)
      invariant curr.Node? && Full(curr)
      invariant ExtDescend(root, key) == (path + ExtDescend(curr, key).0, ExtDescend(curr, key).1)
      decreases curr
    {
      var d := if curr.key < key then Right else Left;
      ExtDescendStep(root, key, path, curr);
      path := path + [FrameOf(curr, d)];
      curr := Child(curr, d);
    }
    found := curr.key == key;
    if Ordered(root, External) {
      ExtDescendFinds(root, key);
    }
  }

  // ---------------------------------------------------------------------
  // Insert: the walk and its invariant
  // ---------------------------------------------------------------------

  /** Which way a search for `key` leaves a node. */
  function Way(t: RbTree, key: int): (d: Dir)
    requires t.Node?
    ensures d == Right <==> t.key < key
  {
    if t.key < key then Right else Left
  }

  /** A node the insert walk passes untouched: black, not a 4-node, and, if a leaf, one holding the key. */
  predicate Quiet(q: RbTree, key: int)
  {
    q.Node? && !IsRed(q) && (IsLeaf(q) ==> q.key == key) && (!IsLeaf(q) ==> !(IsRed(q.left) && IsRed(q.right)))
  }

  /**
   * The insert walk at the top of its loop, about to visit `q`: the tree is
   * an ordered external red-black tree with black leaves (its root may be
   * red), the path is the search path of `key`; at the root `q` is black;
   * when `p` is the root and red, or `p` and its sibling are both red, `q`
   * is quiet; and `q` and its sibling are not both red.
   */
  predicate InsertInv(path: Path, q: RbTree, key: int)
  {
    Walk(path, q, key) && RedRules(path, q, key)
  }

  /** The tree around the walk is an external red-black tree with black leaves, and the path is the key's search path. */
  predicate Walk(path: Path, q: RbTree, key: int)
  {
    q.Node? && Full(Plug(path, q)) && Ordered(Plug(path, q), External) && Routes(path, key, External)
    && RbOk(Plug(path, q)) && LeavesBlack(Plug(path, q))
  }

  /** The colour facts about `q`, its parent, its sibling and its uncle that make a repair possible where it is needed. */
  predicate RedRules(path: Path, q: RbTree, key: int)
  {
    var n := |path|;
    (n == 0 ==> !IsRed(q))
    && (n == 1 && path[0].info.color == Red ==> Quiet(q, key))
    && (n >= 2 && path[n - 1].info.color == Red && IsRed(path[n - 2].other) ==> Quiet(q, key))
    && (n >= 1 ==> !(IsRed(q) && IsRed(path[n - 1].other)))
  }

  /** What a visit of `q` does before any repair: split a leaf not holding the key, flip a 4-node, or nothing. */
  predicate Visited(q: RbTree, q1: RbTree, key: int, value: int)
  {
    q.Node? &&
    if IsLeaf(q) then q.key != key && q1 == Split(q, key, value)
    else if IsRed(q.left) && IsRed(q.right) then q1 == ColorFlip(q)
    else q1 == q
  }

  /** The red-black facts of a node, in terms of one child and the frame holding the other. */
  lemma AttachRb(f: Frame<int, RbInfo>, t: RbTree)
    ensures var n := Attach(f, t);
      (RbOk(n) <==> RbOk(t) && RbOk(f.other) && BH(t) == BH(f.other) && (f.info.color == Red ==> !IsRed(t) && !IsRed(f.other)))
      && (BH(t) == BH(f.other) ==> BH(n) == BH(t) + (if f.info.color == Black then 1 else 0))
      && (LeavesBlack(n) <==> LeavesBlack(t) && LeavesBlack(f.other) && (t.Nil? && f.other.Nil? ==> f.info.color == Black))
      && (Full(n) <==> (t.Nil? <==> f.other.Nil?) && Full(t) && Full(f.other))
      && (IsLeaf(n) <==> t.Nil? && f.other.Nil?) && (IsRed(n) <==> f.info.color == Red)
  {
  }

  /** A leaf not holding the key is split. */
  lemma VisitSplit(path: Path, q: RbTree, key: int, value: int)
    requires Walk(path, q, key) && IsLeaf(q) && q.key != key
    ensures var q1 := Split(q, key, value);
      Full(Plug(path, q1)) && Ordered(Plug(path, q1), External)
      && LeafKeys(Plug(path, q1)) == LeafKeys(Plug(path, q)) + {key}
      && key !in LeafKeys(Plug(path, q))
      && RbOk(q1) && LeavesBlack(q1) && BH(q1) == BH(q)
      && Quiet(Child(q1, Way(q1, key)), key)
  {
    var q1 := Split(q, key, value);
    RbFocus(path, q);
    OrderedFocus(path, q, External);
    SplitValid(q, key, value);
    LeafOnRoute(path, q, key);
    assert AllRoute(path, Content(q1, External), External);
    OrderedReplace(path, q, q1, External);
    FullPlug(path, q);
    FullPlug(path, q1);
    LeafKeysPlug(path, q);
    LeafKeysPlug(path, q1);
  }

  /** A black node with two red children is flipped. */
  lemma VisitFlip(path: Path, q: RbTree, key: int)
    requires Walk(path, q, key) && !IsLeaf(q) && IsRed(q.left) && IsRed(q.right)
    ensures var q1 := ColorFlip(q);
      Full(Plug(path, q1)) && Ordered(Plug(path, q1), External)
      && LeafKeys(Plug(path, q1)) == LeafKeys(Plug(path, q))
      && RbOk(q1) && LeavesBlack(q1) && BH(q1) == BH(q) && Height(q1) == Height(q)
      && !IsRed(q) && Quiet(q1.left, key) && Quiet(q1.right, key)
  {
    var q1 := ColorFlip(q);
    RbFocus(path, q);
    FullPlug(path, q);
    OrderedFocus(path, q, External);
    assert Strip(q1) == Strip(q);
    Recoloured(q, q1);
    ColorFlipKeeps(q);
    ExtReplaceSame(path, q, q1);
    assert !IsLeaf(q.left) && !IsLeaf(q.right);
    assert NoRedRed(q.left) && NoRedRed(q.right);
    assert NoRedRed(q1.left) && NoRedRed(q1.right);
    assert LeavesBlack(q1.left) && LeavesBlack(q1.right);
  }

  /** After a visit: the order and the leaves, and the red-black facts about the visited node. */
  lemma VisitFacts(path: Path, q: RbTree, q1: RbTree, key: int, value: int)
    requires Walk(path, q, key) && Visited(q, q1, key, value)
    ensures q1.Node? && !IsLeaf(q1)
    ensures Full(Plug(path, q1)) && Ordered(Plug(path, q1), External)
    ensures LeafKeys(Plug(path, q1)) == LeafKeys(Plug(path, q)) + (if IsLeaf(q) then {key} else {})
    ensures IsLeaf(q) ==> key !in LeafKeys(Plug(path, q))
    ensures RbOk(q1) && LeavesBlack(q1) && BH(q1) == BH(q)
    ensures IsLeaf(q) || Height(q1) == Height(q)
    ensures q1 == q ==> !(IsRed(q1.left) && IsRed(q1.right))
    ensures q1 != q ==> IsRed(q1) && !IsRed(q1.left) && !IsRed(q1.right) && !Quiet(q, key) && Quiet(Child(q1, Way(q1, key)), key)
  {
    if IsLeaf(q) {
      VisitSplit(path, q, key, value);
    } else if IsRed(q.left) && IsRed(q.right) {
      VisitFlip(path, q, key);
    } else {
      RbFocus(path, q);
    }
  }

  /** A visit with no red violation to repair, then one step down. */
  lemma NoFixStep(path: Path, q: RbTree, q1: RbTree, key: int, value: int)
    requires InsertInv(path, q, key) && Visited(q, q1, key, value)
    requires !(IsRed(q1) && |path| >= 1 && path[|path| - 1].info.color == Red)
    ensures var d := Way(q1, key);
      InsertInv(path + [FrameOf(q1, d)], Child(q1, d), key)
      && Plug(path + [FrameOf(q1, d)], Child(q1, d)) == Plug(path, q1)
  {
    VisitFacts(path, q, q1, key, value);
    var d := Way(q1, key);
    var n := |path|;
    var path' := path + [FrameOf(q1, d)];
    PlugSnoc(path, FrameOf(q1, d), Child(q1, d));
    AttachFrameOf(q1, d);
    RbReplace(path, q, q1);
    RoutesSnoc(path, FrameOf(q1, d), key, External);
    FullPlug(path, q1);
    assert Child(q1, d).Node?;
    assert path'[n] == FrameOf(q1, d) && path'[n].other == Child(q1, Flip(d));
    assert n >= 1 ==> path'[n - 1] == path[n - 1];
    assert IsRed(q1.left) && IsRed(q1.right) <==> IsRed(Child(q1, d)) && IsRed(Child(q1, Flip(d)));
    assert Walk(path', Child(q1, d), key);
  }

  /** A red `q` under a red `p` has a grandparent, and it and the uncle are black. */
  lemma FixFacts(path: Path, q: RbTree, q1: RbTree, key: int, value: int)
    requires InsertInv(path, q, key) && Visited(q, q1, key, value)
    requires IsRed(q1) && |path| >= 1 && path[|path| - 1].info.color == Red
    ensures |path| >= 2 && path[|path| - 2].info.color == Black && !IsRed(path[|path| - 2].other)
    ensures q1 != q && Quiet(Child(q1, Way(q1, key)), key)
  {
    VisitFacts(path, q, q1, key, value);
    RbFocus(path, q);
    var n := |path|;
    if n >= 2 {
      var init := path[..n - 2];
      assert init + [path[n - 2]] + [path[n - 1]] == path;
      PlugSnoc(init + [path[n - 2]], path[n - 1], q);
      PlugSnoc(init, path[n - 2], Attach(path[n - 1], q));
      RbFocus(init, Attach(path[n - 2], Attach(path[n - 1], q)));
    }
  }

  /**
   * Lines 149-165, `q` on the same side of `p` as `p` of `g`: `g` turns red,
   * `p` black, and `rotate_single(g, !last)` lifts `p` into `g`'s place.
   */
  function SingleFix(gf: Frame<int, RbInfo>, pf: Frame<int, RbInfo>, q1: RbTree): (r: RbTree)
    requires q1.Node? && pf.dir == gf.dir
    ensures r.Node? && r.key == pf.key && !IsRed(r) && Child(r, gf.dir) == q1
    ensures Child(r, Flip(gf.dir)) == Attach(PaintFrame(gf, Red), pf.other)
  {
    Rotate(Attach(PaintFrame(gf, Red), Attach(PaintFrame(pf, Black), q1)), Flip(gf.dir))
  }

  /**
   * Lines 166-180, `q` on the other side: `g` turns red, `q` black, and
   * `rotate_double(g, !last)` lifts `q` into `g`'s place, with `p` and `g`
   * below it sharing `q`'s children.
   */
  function DoubleFix(gf: Frame<int, RbInfo>, pf: Frame<int, RbInfo>, q1: RbTree): (r: RbTree)
    requires q1.Node? && pf.dir == Flip(gf.dir)
    ensures r.Node? && r.key == q1.key && !IsRed(r)
    ensures Child(r, gf.dir) == Attach(pf, Child(q1, gf.dir))
    ensures Child(r, Flip(gf.dir)) == Attach(PaintFrame(gf, Red), Child(q1, Flip(gf.dir)))
  {
    var t := Attach(PaintFrame(gf, Red), Attach(pf, Paint(q1, Black)));
    RotateDoubleShape(t, Flip(gf.dir));
    RotateDouble(t, Flip(gf.dir))
  }

  /** The single repair keeps the red-black rules and the black height at `g`'s place. */
  lemma SingleFixRb(gf: Frame<int, RbInfo>, pf: Frame<int, RbInfo>, q: RbTree, q1: RbTree)
    requires q.Node? && q1.Node? && pf.dir == gf.dir
    requires RbOk(Attach(gf, Attach(pf, q))) && LeavesBlack(Attach(gf, Attach(pf, q))) && Full(Attach(gf, Attach(pf, q)))
    requires pf.info.color == Red && gf.info.color == Black && !IsRed(gf.other)
    requires RbOk(q1) && LeavesBlack(q1) && BH(q1) == BH(q) && IsRed(q1)
    ensures var r := SingleFix(gf, pf, q1);
      RbOk(r) && LeavesBlack(r) && BH(r) == BH(Attach(gf, Attach(pf, q)))
  {
    var r := SingleFix(gf, pf, q1);
    var gn := Attach(PaintFrame(gf, Red), pf.other);
    AttachRb(gf, Attach(pf, q));
    AttachRb(pf, q);
    AttachRb(PaintFrame(gf, Red), pf.other);
    AttachFrameOf(r, gf.dir);
    assert FrameOf(r, gf.dir).other == gn;
    AttachRb(FrameOf(r, gf.dir), q1);
  }

  /** The double repair keeps the red-black rules and the black height at `g`'s place. */
  lemma DoubleFixRb(gf: Frame<int, RbInfo>, pf: Frame<int, RbInfo>, q: RbTree, q1: RbTree)
    requires q.Node? && q1.Node? && pf.dir == Flip(gf.dir)
    requires RbOk(Attach(gf, Attach(pf, q))) && LeavesBlack(Attach(gf, Attach(pf, q))) && Full(Attach(gf, Attach(pf, q)))
    requires pf.info.color == Red && gf.info.color == Black && !IsRed(gf.other)
    requires RbOk(q1) && LeavesBlack(q1) && BH(q1) == BH(q) && !IsLeaf(q1) && IsRed(q1)
    ensures var r := DoubleFix(gf, pf, q1);
      RbOk(r) && LeavesBlack(r) && BH(r) == BH(Attach(gf, Attach(pf, q)))
  {
    var r := DoubleFix(gf, pf, q1);
    var last := gf.dir;
    var pn := Attach(pf, Child(q1, last));
    var gn := Attach(PaintFrame(gf, Red), Child(q1, Flip(last)));
    AttachRb(gf, Attach(pf, q));
    AttachRb(pf, q);
    AttachFrameOf(q1, last);
    AttachRb(FrameOf(q1, last), Child(q1, last));
    AttachRb(pf, Child(q1, last));
    AttachRb(PaintFrame(gf, Red), Child(q1, Flip(last)));
    AttachFrameOf(r, last);
    assert FrameOf(r, last).other == gn;
    AttachRb(FrameOf(r, last), pn);
  }

  /** Recolouring a frame and its focus changes no key and no link. */
  lemma StripAttach(f: Frame<int, RbInfo>, t: RbTree, f': Frame<int, RbInfo>, t': RbTree)
    requires f.dir == f'.dir && f.key == f'.key && Strip(f.other) == Strip(f'.other) && Strip(t) == Strip(t')
    ensures Strip(Attach(f, t)) == Strip(Attach(f', t'))
  {
  }

  /** The subtree at `g`'s place, with `q` below `p` below `g`. */
  lemma PlugTwo(path: Path, q: RbTree)
    requires |path| >= 2
    ensures Plug(path, q) == Plug(path[..|path| - 2], Attach(path[|path| - 2], Attach(path[|path| - 1], q)))
  {
    var n := |path|;
    var init := path[..n - 2];
    assert init + [path[n - 2]] + [path[n - 1]] == path;
    PlugSnoc(init + [path[n - 2]], path[n - 1], q);
    PlugSnoc(init, path[n - 2], Attach(path[n - 1], q));
  }

  /** Two steps down from `a`, in the frames the walk records. */
  lemma PlugPair(init: Path, a: RbTree, d1: Dir, d2: Dir)
    requires a.Node? && Child(a, d1).Node?
    ensures Plug(init + [FrameOf(a, d1)] + [FrameOf(Child(a, d1), d2)], Child(Child(a, d1), d2)) == Plug(init, a)
  {
    AttachFrameOf(a, d1);
    AttachFrameOf(Child(a, d1), d2);
    PlugSnoc(init + [FrameOf(a, d1)], FrameOf(Child(a, d1), d2), Child(Child(a, d1), d2));
    PlugSnoc(init, FrameOf(a, d1), Child(a, d1));
  }

  /** Two steps of the search down from `a`, recorded as frames, keep the walk's facts. */
  lemma WalkPair(init: Path, a: RbTree, d1: Dir, d2: Dir, key: int)
    requires a.Node? && Child(a, d1).Node? && Child(Child(a, d1), d2).Node?
    requires Full(Plug(init, a)) && Ordered(Plug(init, a), External) && RbOk(Plug(init, a)) && LeavesBlack(Plug(init, a))
    requires Routes(init, key, External) && d1 == Way(a, key) && d2 == Way(Child(a, d1), key)
    ensures var path' := init + [FrameOf(a, d1)] + [FrameOf(Child(a, d1), d2)];
      Walk(path', Child(Child(a, d1), d2), key) && Plug(path', Child(Child(a, d1), d2)) == Plug(init, a)
      && |path'| == |init| + 2 && path'[|init|] == FrameOf(a, d1) && path'[|init| + 1] == FrameOf(Child(a, d1), d2)
  {
    PlugPair(init, a, d1, d2);
    RoutesSnoc(init, FrameOf(a, d1), key, External);
    RoutesSnoc(init + [FrameOf(a, d1)], FrameOf(Child(a, d1), d2), key, External);
  }

  /** A subtree `r` with the right leaves, the right black height and an allowed colour, put in the place of `g0`/`g1`. */
  lemma Regraft(init: Path, g0: RbTree, g1: RbTree, r: RbTree)
    requires g0.Node? && g1.Node? && r.Node?
    requires RbOk(Plug(init, g0)) && LeavesBlack(Plug(init, g0))
    requires Full(Plug(init, g1)) && Ordered(Plug(init, g1), External)
    requires Full(r) && Ordered(r, External) && LeafKeys(r) == LeafKeys(g1)
    requires RbOk(r) && LeavesBlack(r) && ParentAllows(init, r) && (init != [] ==> BH(r) == BH(g0))
    ensures Full(Plug(init, r)) && Ordered(Plug(init, r), External) && LeafKeys(Plug(init, r)) == LeafKeys(Plug(init, g1))
    ensures RbOk(Plug(init, r)) && LeavesBlack(Plug(init, r))
  {
    RbReplace(init, g0, r);
    ExtReplaceSame(init, g1, r);
  }

  /** The single repair keeps the shape, the order and the leaves. */
  lemma SingleFixOrder(gf: Frame<int, RbInfo>, pf: Frame<int, RbInfo>, q1: RbTree)
    requires q1.Node? && !IsLeaf(q1) && pf.dir == gf.dir
    requires Full(Attach(gf, Attach(pf, q1))) && Ordered(Attach(gf, Attach(pf, q1)), External)
    ensures var r := SingleFix(gf, pf, q1);
      Full(r) && Ordered(r, External) && LeafKeys(r) == LeafKeys(Attach(gf, Attach(pf, q1)))
  {
    var g1 := Attach(gf, Attach(pf, q1));
    var t := Attach(PaintFrame(gf, Red), Attach(PaintFrame(pf, Black), q1));
    StripAttach(PaintFrame(pf, Black), q1, pf, q1);
    StripAttach(PaintFrame(gf, Red), Attach(PaintFrame(pf, Black), q1), gf, Attach(pf, q1));
    Recoloured(t, g1);
    assert Child(t, gf.dir) == Attach(PaintFrame(pf, Black), q1);
    RotateOrdered(t, Flip(gf.dir), External);
    RotateLeaves(t, Flip(gf.dir));
  }

  /** The double repair keeps the shape, the order and the leaves. */
  lemma DoubleFixOrder(gf: Frame<int, RbInfo>, pf: Frame<int, RbInfo>, q1: RbTree)
    requires q1.Node? && !IsLeaf(q1) && pf.dir == Flip(gf.dir)
    requires Full(Attach(gf, Attach(pf, q1))) && Ordered(Attach(gf, Attach(pf, q1)), External)
    ensures var r := DoubleFix(gf, pf, q1);
      Full(r) && Ordered(r, External) && LeafKeys(r) == LeafKeys(Attach(gf, Attach(pf, q1)))
  {
    var g1 := Attach(gf, Attach(pf, q1));
    var t := Attach(PaintFrame(gf, Red), Attach(pf, Paint(q1, Black)));
    PaintKeeps(q1, Black);
    assert Strip(Paint(q1, Black)) == Strip(q1);
    StripAttach(pf, Paint(q1, Black), pf, q1);
    StripAttach(PaintFrame(gf, Red), Attach(pf, Paint(q1, Black)), gf, Attach(pf, q1));
    Recoloured(t, g1);
    RotateDoubleKeeps(t, Flip(gf.dir), External);
  }

  /**
   * The situation a repair starts from: `q` (visited as `q1`, now red)
   * below a red `p` below a black `g` with a black uncle, and `init` the
   * path down to `g`'s parent.
   */
  predicate FixSite(init: Path, gf: Frame<int, RbInfo>, pf: Frame<int, RbInfo>, q: RbTree, q1: RbTree, key: int)
  {
    var g0 := Attach(gf, Attach(pf, q));
    var g1 := Attach(gf, Attach(pf, q1));
    q.Node? && q1.Node?
    && RbOk(Plug(init, g0)) && LeavesBlack(Plug(init, g0)) && Full(g0) && RbOk(g0) && LeavesBlack(g0)
    && Full(Plug(init, g1)) && Ordered(Plug(init, g1), External) && Full(g1) && Ordered(g1, External)
    && gf.info.color == Black && !IsRed(gf.other) && pf.info.color == Red
    && RbOk(q1) && LeavesBlack(q1) && BH(q1) == BH(q) && !IsLeaf(q1) && Full(q1) && IsRed(q1)
    && Quiet(Child(q1, Way(q1, key)), key)
    && Routes(init, key, External)
    && (if pf.dir == Left then key <= pf.key else pf.key < key)
    && (if gf.dir == Left then key <= gf.key else gf.key < key)
  }

  /** A red `q` visited under a red `p` is at a repair site. */
  lemma FixPlace(path: Path, q: RbTree, q1: RbTree, key: int, value: int)
    requires InsertInv(path, q, key) && Visited(q, q1, key, value)
    requires IsRed(q1) && |path| >= 1 && path[|path| - 1].info.color == Red
    ensures |path| >= 2
    ensures var n := |path|; var init := path[..n - 2];
      FixSite(init, path[n - 2], path[n - 1], q, q1, key)
      && Plug(path, q1) == Plug(init, Attach(path[n - 2], Attach(path[n - 1], q1)))
  {
    var n := |path|;
    VisitFacts(path, q, q1, key, value);
    FixFacts(path, q, q1, key, value);
    PlugTwo(path, q);
    PlugTwo(path, q1);
    var init := path[..n - 2];
    var g0 := Attach(path[n - 2], Attach(path[n - 1], q));
    var g1 := Attach(path[n - 2], Attach(path[n - 1], q1));
    FullPlug(init, g0);
    FullPlug(init, g1);
    RbFocus(init, g0);
    OrderedFocus(init, g1, External);
    RoutesPrefix(path, n - 2, key, External);
    FullPlug(path, q1);
  }

  /** Below a red parent with a red sibling of its own, a quiet node satisfies the colour rules. */
  lemma QuietUnderRedPair(path: Path, q: RbTree, key: int)
    requires |path| >= 2 && path[|path| - 1].info.color == Red && IsRed(path[|path| - 2].other) && Quiet(q, key)
    ensures RedRules(path, q, key)
  {
  }

  /** The single repair, then one step down from `q`. */
  lemma SingleFixStep(init: Path, gf: Frame<int, RbInfo>, pf: Frame<int, RbInfo>, q: RbTree, q1: RbTree, key: int)
    requires FixSite(init, gf, pf, q, q1, key) && pf.dir == gf.dir
    ensures var r := SingleFix(gf, pf, q1); var d := Way(q1, key);
      var path' := init + [FrameOf(r, gf.dir)] + [FrameOf(q1, d)];
      InsertInv(path', Child(q1, d), key) && LeafKeys(Plug(path', Child(q1, d))) == LeafKeys(Plug(init, Attach(gf, Attach(pf, q1))))
  {
    var r := SingleFix(gf, pf, q1);
    var d := Way(q1, key);
    SingleFixRb(gf, pf, q, q1);
    SingleFixOrder(gf, pf, q1);
    Regraft(init, Attach(gf, Attach(pf, q)), Attach(gf, Attach(pf, q1)), r);
    var path' := init + [FrameOf(r, gf.dir)] + [FrameOf(q1, d)];
    assert Way(r, key) == gf.dir;
    WalkPair(init, r, gf.dir, d, key);
    AttachRb(PaintFrame(gf, Red), pf.other);
    QuietUnderRedPair(path', Child(q1, d), key);
  }

  /** The double repair, then the two steps down from the lifted `q` that the source takes before it continues. */
  lemma DoubleFixStep(init: Path, gf: Frame<int, RbInfo>, pf: Frame<int, RbInfo>, q: RbTree, q1: RbTree, key: int)
    requires FixSite(init, gf, pf, q, q1, key) && pf.dir != gf.dir
    ensures var r := DoubleFix(gf, pf, q1);
      var d1 := Way(r, key); var m := Child(r, d1); var d2 := Way(m, key);
      var path' := init + [FrameOf(r, d1)] + [FrameOf(m, d2)];
      Child(m, d2) == Child(q1, Way(q1, key))
      && InsertInv(path', Child(m, d2), key) && LeafKeys(Plug(path', Child(m, d2))) == LeafKeys(Plug(init, Attach(gf, Attach(pf, q1))))
  {
    var r := DoubleFix(gf, pf, q1);
    var d1 := Way(r, key);
    var m := Child(r, d1);
    var d2 := Way(m, key);
    DoubleFixRb(gf, pf, q, q1);
    DoubleFixOrder(gf, pf, q1);
    Regraft(init, Attach(gf, Attach(pf, q)), Attach(gf, Attach(pf, q1)), r);
    assert Child(m, d2) == Child(q1, d1);
    var path' := init + [FrameOf(r, d1)] + [FrameOf(m, d2)];
    WalkPair(init, r, d1, d2, key);
    AttachRb(pf, Child(q1, gf.dir));
    AttachRb(PaintFrame(gf, Red), Child(q1, Flip(gf.dir)));
    QuietUnderRedPair(path', Child(m, d2), key);
  }

  /** What a visit does to the leaves: a split adds the key, which was absent; anything else keeps the height. */
  lemma VisitKeys(path: Path, q: RbTree, q1: RbTree, key: int, value: int)
    requires InsertInv(path, q, key) && Visited(q, q1, key, value)
    ensures q1.Node? && LeafKeys(Plug(path, q1)) == LeafKeys(Plug(path, q)) + (if IsLeaf(q) then {key} else {})
    ensures IsLeaf(q) ==> key !in LeafKeys(Plug(path, q))
    ensures IsLeaf(q) || Height(Child(q1, Way(q1, key))) < Height(q)
  {
    VisitFacts(path, q, q1, key, value);
  }

  /**
   * Lines 147-187, after `q` was visited (as `q1`): a red `q` under a red
   * `p` is repaired by a rotation at `g` (after a double rotation the walk
   * continues from the lifted `q`), and the walk moves one step down.  In
   * every case the new `q` is the child of the visited node on the key's
   * side.
   */
  method RepairAndDescend(path: Path, ghost q: RbTree, q1: RbTree, key: int, ghost value: int) returns (path': Path, q': RbTree)
    requires InsertInv(path, q, key) && Visited(q, q1, key, value)
    ensures q1.Node? && q' == Child(q1, Way(q1, key))
    ensures InsertInv(path', q', key) && LeafKeys(Plug(path', q')) == LeafKeys(Plug(path, q1))
  {
    var n := |path|;
    var next := q1;
    path' := path;
    if IsRed(q1) && n >= 1 && path[n - 1].info.color == Red {
      FixPlace(path, q, q1, key, value);
      var gf, pf := path[n - 2], path[n - 1];
      if pf.dir == gf.dir {
        SingleFixStep(path[..n - 2], gf, pf, q, q1, key);
        var r := SingleFix(gf, pf, q1);
        path' := path[..n - 2] + [FrameOf(r, gf.dir)];
      } else {
        DoubleFixStep(path[..n - 2], gf, pf, q, q1, key);
        var r := DoubleFix(gf, pf, q1);
        var d1 := Way(r, key);
        path' := path[..n - 2] + [FrameOf(r, d1)];
        next := Child(r, d1);
      }
    } else {
      NoFixStep(path, q, q1, key, value);
    }
    var d := Way(next, key);
    path' := path' + [FrameOf(next, d)];
    q' := Child(next, d);
  }

  /**
   * `_rbt_insert_helper`: an empty tree gets `node[0]` as a black root;
   * otherwise one walk down flips 4-nodes, repairs a red `q` under a red
   * `p` by a rotation at `g`, and splits the leaf it reaches unless that
   * leaf holds the key; the root ends black.  Returns whether a pair was
   * linked.
   */
  method Insert(root: RbTree, key: int, value: int) returns (t: RbTree, inserted: bool)
    requires Valid(root)
    ensures Valid(t)
    ensures LeafKeys(t) == LeafKeys(root) + {key}
    ensures inserted <==> key !in LeafKeys(root)
  {
    if root.Nil? {
      return Node(Nil, key, RbInfo(Black, value), Nil), true;
    }
    var path: Path := [];
    var q := root;
    inserted := false;
    while true
      invariant InsertInv(path, q, key)
      invariant LeafKeys(Plug(path, q)) == LeafKeys(root) + (if inserted then {key} else {})
      invariant inserted ==> key !in LeafKeys(root)
      decreases if inserted then 0 else 1, Height(q)
    {
      var q1 := q;
      if IsLeaf(q) {
        if q.key == key {
          break;
        }
        q1 := Split(q, key, value);
      } else if IsRed(q.left) && IsRed(q.right) {
        q1 := ColorFlip(q);
      }
      VisitKeys(path, q, q1, key, value);
      if IsLeaf(q) {
        inserted := true;
      }
      path, q := RepairAndDescend(path, q, q1, key, value);
    }
    LeafOnRoute(path, q, key);
    t := Plug(path, q);
    if IsRed(t) {
      t := Paint(t, Black);
      PaintKeeps(Plug(path, q), Black);
    }
  }

  // ---------------------------------------------------------------------
  // Delete: the walk and its invariant
  // ---------------------------------------------------------------------

  /**
   * The delete walk at the top of its loop, about to visit `q`: the walk's
   * facts, and `q` is red, or its parent is, or the parent is the root and
   * `q`'s sibling is black.
   */
  predicate DeleteInv(path: Path, q: RbTree, key: int)
  {
    var n := |path|;
    Walk(path, q, key)
    && (n >= 1 ==> IsRed(q) || path[n - 1].info.color == Red || (n == 1 && !IsRed(path[0].other)))
  }

  /** Every subtree with black leaves has black height at least one. */
  lemma {:induction false} BHPositive(t: RbTree)
    requires t.Node? && Full(t) && LeavesBlack(t)
    ensures BH(t) >= 1
  {
    if !IsLeaf(t) {
      BHPositive(t.left);
    }
  }

  /** In an external search tree, an inner node's key lies between its children's keys. */
  lemma ChildKeys(t: RbTree)
    requires Full(t) && Ordered(t, External) && !IsLeaf(t) && t.Node?
    ensures t.left.key <= t.key < t.right.key
    ensures forall w :: w in LeafKeys(t.left) ==> w <= t.key
    ensures forall w :: w in LeafKeys(t.right) ==> t.key < w
  {
    var a := MaxLeaf(t.left);
    assert a in Content(t.left, External);
    var b := MinLeaf(t.right);
    assert b in Content(t.right, External);
    assert Content(t.left, External) == LeafKeys(t.left) && Content(t.right, External) == LeafKeys(t.right);
  }

  /** A grandchild's key lies on the same side of a node as the child above it. */
  lemma GrandchildKey(t: RbTree, d: Dir, e: Dir)
    requires Full(t) && Ordered(t, External) && !IsLeaf(t) && t.Node? && !IsLeaf(Child(t, d)) && Child(Child(t, d), e).Node?
    ensures var g := Child(Child(t, d), e); if d == Left then g.key <= t.key else t.key < g.key
  {
    ChildKeys(t);
    var c := Child(t, d);
    var g := Child(c, e);
    assert Full(c) && Ordered(c, External) && Full(g) && Ordered(g, External);
    assert LeafKeys(g) <= LeafKeys(c);
    if d == Left {
      var w := MaxLeaf(g);
    } else {
      var w := MinLeaf(g);
    }
  }

  /** A visit that changes nothing: `q` is red, or the walk goes on to a red child, or `q` is a black root with black children. */
  lemma PassStep(path: Path, q: RbTree, key: int)
    requires DeleteInv(path, q, key) && !IsLeaf(q)
    requires var dir := Way(q, key);
      IsRed(q) || IsRed(Child(q, dir)) || (|path| == 0 && !IsRed(Child(q, Flip(dir))))
    ensures var dir := Way(q, key); var path' := path + [FrameOf(q, dir)];
      DeleteInv(path', Child(q, dir), key) && Plug(path', Child(q, dir)) == Plug(path, q)
  {
    var dir := Way(q, key);
    var n := |path|;
    var path' := path + [FrameOf(q, dir)];
    PlugSnoc(path, FrameOf(q, dir), Child(q, dir));
    AttachFrameOf(q, dir);
    RoutesSnoc(path, FrameOf(q, dir), key, External);
    FullPlug(path, q);
    assert Child(q, dir).Node?;
    assert path'[n] == FrameOf(q, dir);
  }

  /**
   * Lines 250-256: a black `q` whose child on the key's side is black and
   * whose other child is red: `q` turns red, that child black, and
   * `rotate_single(q, dir)` lifts the child into `q`'s place.
   */
  function LiftRed(q: RbTree, dir: Dir): (r: RbTree)
    requires q.Node? && Child(q, Flip(dir)).Node?
    ensures var c := Child(q, Flip(dir));
      r == Attach(Frame(dir, c.key, RbInfo(Black, c.info.value), Child(c, Flip(dir))),
                  Attach(Frame(dir, q.key, RbInfo(Red, q.info.value), Child(c, dir)), Child(q, dir)))
  {
    Rotate(WithChild(Paint(q, Red), Flip(dir), Paint(Child(q, Flip(dir)), Black)), dir)
  }

  /** The lift keeps the red-black rules and the black height, and leaves `q` red under a black node. */
  lemma LiftRedRb(q: RbTree, dir: Dir)
    requires q.Node? && !IsLeaf(q) && Full(q) && RbOk(q) && LeavesBlack(q)
    requires !IsRed(q) && !IsRed(Child(q, dir)) && IsRed(Child(q, Flip(dir)))
    ensures var r := LiftRed(q, dir);
      RbOk(r) && LeavesBlack(r) && BH(r) == BH(q) && !IsRed(r) && IsRed(Child(r, dir))
  {
    var c := Child(q, Flip(dir));
    var inner := Attach(Frame(dir, q.key, RbInfo(Red, q.info.value), Child(c, dir)), Child(q, dir));
    AttachFrameOf(q, dir);
    AttachRb(FrameOf(q, dir), Child(q, dir));
    AttachFrameOf(c, dir);
    AttachRb(FrameOf(c, dir), Child(c, dir));
    AttachRb(Frame(dir, q.key, RbInfo(Red, q.info.value), Child(c, dir)), Child(q, dir));
    AttachRb(Frame(dir, c.key, RbInfo(Black, c.info.value), Child(c, Flip(dir))), inner);
  }

  /** The lift keeps the shape, the order and the leaves, and the walk still turns the same way at the lifted node. */
  lemma LiftRedOrder(q: RbTree, dir: Dir, key: int)
    requires q.Node? && Full(q) && Ordered(q, External) && LeavesBlack(q) && IsRed(Child(q, Flip(dir))) && dir == Way(q, key)
    ensures var r := LiftRed(q, dir);
      Full(r) && Ordered(r, External) && LeafKeys(r) == LeafKeys(q) && Way(r, key) == dir
  {
    var c := Child(q, Flip(dir));
    var t := WithChild(Paint(q, Red), Flip(dir), Paint(c, Black));
    assert !IsLeaf(q) && !IsLeaf(c);
    assert Strip(Paint(c, Black)) == Strip(c);
    assert Strip(t) == Strip(q);
    Recoloured(t, q);
    RotateOrdered(t, dir, External);
    RotateLeaves(t, dir);
    ChildKeys(q);
  }

  /** The lift, then the walk's two steps down to `q`'s child on the key's side. */
  lemma LiftStep(path: Path, q: RbTree, key: int)
    requires DeleteInv(path, q, key) && !IsLeaf(q) && !IsRed(q)
    requires !IsRed(Child(q, Way(q, key))) && IsRed(Child(q, Flip(Way(q, key))))
    ensures var dir := Way(q, key); var r := LiftRed(q, dir);
      var path' := path + [FrameOf(r, dir)] + [FrameOf(Child(r, dir), dir)];
      Child(Child(r, dir), dir) == Child(q, dir)
      && DeleteInv(path', Child(Child(r, dir), dir), key)
      && LeafKeys(Plug(path', Child(Child(r, dir), dir))) == LeafKeys(Plug(path, q))
  {
    var dir := Way(q, key);
    var r := LiftRed(q, dir);
    RbFocus(path, q);
    FullPlug(path, q);
    OrderedFocus(path, q, External);
    LiftRedRb(q, dir);
    LiftRedOrder(q, dir, key);
    Regraft(path, q, q, r);
    WalkPair(path, r, dir, dir, key);
  }

  /**
   * The situation at a black `q` with black children below a parent `p`
   * (the last frame, `init` the path above it): the sibling `s` is a black
   * inner node, and `p` is red unless it is the root.
   */
  predicate BorrowSite(init: Path, pf: Frame<int, RbInfo>, q: RbTree, key: int)
  {
    var p0 := Attach(pf, q);
    var s := pf.other;
    q.Node? && !IsLeaf(q) && !IsRed(q) && !IsRed(q.left) && !IsRed(q.right)
    && Full(Plug(init, p0)) && Ordered(Plug(init, p0), External) && RbOk(Plug(init, p0)) && LeavesBlack(Plug(init, p0))
    && Full(p0) && Ordered(p0, External) && RbOk(p0) && LeavesBlack(p0) && ParentAllows(init, p0)
    && Routes(init, key, External) && (if pf.dir == Left then key <= pf.key else pf.key < key)
    && s.Node? && !IsLeaf(s) && !IsRed(s) && (pf.info.color == Red || init == [])
  }

  /** A black `q` with black children below a parent is at a borrow site. */
  lemma BorrowPlace(path: Path, q: RbTree, key: int)
    requires DeleteInv(path, q, key) && |path| >= 1 && !IsLeaf(q) && !IsRed(q) && !IsRed(q.left) && !IsRed(q.right)
    ensures var n := |path|;
      BorrowSite(path[..n - 1], path[n - 1], q, key) && Plug(path, q) == Plug(path[..n - 1], Attach(path[n - 1], q))
  {
    var n := |path|;
    var init, pf := path[..n - 1], path[n - 1];
    var p0 := Attach(pf, q);
    assert init + [pf] == path;
    PlugSnoc(init, pf, q);
    FullPlug(init, p0);
    RbFocus(init, p0);
    OrderedFocus(init, p0, External);
    RoutesPrefix(path, n - 1, key, External);
    var s := pf.other;
    AttachRb(pf, q);
    assert s.Node?;
    BHPositive(q.left);
  }

  /**
   * Lines 262-269: the sibling's children are black too: `p` turns black
   * and `q` and its sibling red; then the walk steps down from `q`.
   */
  lemma RecolourStep(init: Path, pf: Frame<int, RbInfo>, q: RbTree, key: int)
    requires BorrowSite(init, pf, q, key) && !IsRed(pf.other.left) && !IsRed(pf.other.right)
    ensures var dir := Way(q, key);
      var pf' := Frame(pf.dir, pf.key, RbInfo(Black, pf.info.value), Paint(pf.other, Red));
      var path' := init + [pf'] + [FrameOf(Paint(q, Red), dir)];
      DeleteInv(path', Child(Paint(q, Red), dir), key)
      && LeafKeys(Plug(path', Child(Paint(q, Red), dir))) == LeafKeys(Plug(init, Attach(pf, q)))
  {
    var dir := Way(q, key);
    var s := pf.other;
    var q' := Paint(q, Red);
    var pf' := Frame(pf.dir, pf.key, RbInfo(Black, pf.info.value), Paint(s, Red));
    var p0 := Attach(pf, q);
    var p1 := Attach(pf', q');
    AttachRb(pf, q);
    AttachRb(pf', q');
    assert RbOk(q') && RbOk(Paint(s, Red));
    assert LeavesBlack(q') && LeavesBlack(Paint(s, Red));
    PaintKeeps(q, Red);
    PaintKeeps(s, Red);
    assert Strip(Paint(s, Red)) == Strip(s) && Strip(q') == Strip(q);
    StripAttach(pf', q', pf, q);
    Recoloured(p1, p0);
    Regraft(init, p0, p0, p1);
    assert FrameOf(p1, pf.dir) == pf';
    WalkPair(init, p1, pf.dir, dir, key);
  }

  /**
   * Lines 271-279: the sibling `s` has a red child on `q`'s side: `p`
   * turns black, `q` red, and `rotate_double(p, last)` lifts that child
   * into `p`'s place, keeping its colour.
   */
  function BorrowDouble(pf: Frame<int, RbInfo>, q: RbTree): (r: RbTree)
    requires q.Node? && pf.other.Node? && Child(pf.other, pf.dir).Node?
    ensures var last := pf.dir; var s := pf.other; var x := Child(s, last);
      r == Attach(Frame(last, x.key, x.info, Attach(Frame(last, s.key, s.info, Child(s, Flip(last))), Child(x, Flip(last)))),
                  Attach(Frame(last, pf.key, RbInfo(Black, pf.info.value), Child(x, last)), Paint(q, Red)))
  {
    var t := Attach(PaintFrame(pf, Black), Paint(q, Red));
    RotateDoubleShape(t, pf.dir);
    RotateDouble(t, pf.dir)
  }

  /**
   * Lines 280-289: only the far child of `s` is red: `p` turns black, `q`
   * and `s` red, that child black, and `rotate_single(p, last)` lifts `s`
   * into `p`'s place.
   */
  function BorrowSingle(pf: Frame<int, RbInfo>, q: RbTree): (r: RbTree)
    requires q.Node? && pf.other.Node? && Child(pf.other, Flip(pf.dir)).Node?
    ensures var last := pf.dir; var s := pf.other; var y := Child(s, Flip(last));
      r == Attach(Frame(last, s.key, RbInfo(Red, s.info.value), Paint(y, Black)),
                  Attach(Frame(last, pf.key, RbInfo(Black, pf.info.value), Child(s, last)), Paint(q, Red)))
  {
    var s := pf.other;
    var s' := WithChild(Paint(s, Red), Flip(pf.dir), Paint(Child(s, Flip(pf.dir)), Black));
    Rotate(Attach(Frame(pf.dir, pf.key, RbInfo(Black, pf.info.value), s'), Paint(q, Red)), pf.dir)
  }

  /** The double borrow keeps the red-black rules, and the black height where `p` was not the root. */
  lemma BorrowDoubleRb(init: Path, pf: Frame<int, RbInfo>, q: RbTree, key: int)
    requires BorrowSite(init, pf, q, key) && IsRed(Child(pf.other, pf.dir))
    ensures var r := BorrowDouble(pf, q);
      RbOk(r) && LeavesBlack(r) && ParentAllows(init, r) && (init != [] ==> BH(r) == BH(Attach(pf, q)))
  {
    var last := pf.dir;
    var s := pf.other;
    var x := Child(s, last);
    var q' := Paint(q, Red);
    AttachRb(pf, q);
    AttachFrameOf(s, last);
    AttachRb(FrameOf(s, last), x);
    AttachFrameOf(x, last);
    AttachRb(FrameOf(x, last), Child(x, last));
    PaintKeeps(q, Red);
    assert RbOk(q') && LeavesBlack(q') && BH(q') == BH(q) - 1;
    var sn := Attach(Frame(last, s.key, s.info, Child(s, Flip(last))), Child(x, Flip(last)));
    var pn := Attach(Frame(last, pf.key, RbInfo(Black, pf.info.value), Child(x, last)), q');
    AttachRb(Frame(last, s.key, s.info, Child(s, Flip(last))), Child(x, Flip(last)));
    AttachRb(Frame(last, pf.key, RbInfo(Black, pf.info.value), Child(x, last)), q');
    AttachRb(Frame(last, x.key, x.info, sn), pn);
  }

  /** The single borrow keeps the red-black rules, and the black height where `p` was not the root. */
  lemma BorrowSingleRb(init: Path, pf: Frame<int, RbInfo>, q: RbTree, key: int)
    requires BorrowSite(init, pf, q, key) && !IsRed(Child(pf.other, pf.dir)) && IsRed(Child(pf.other, Flip(pf.dir)))
    ensures var r := BorrowSingle(pf, q);
      RbOk(r) && LeavesBlack(r) && ParentAllows(init, r) && (init != [] ==> BH(r) == BH(Attach(pf, q)))
  {
    var last := pf.dir;
    var s := pf.other;
    var y := Child(s, Flip(last));
    var q' := Paint(q, Red);
    AttachRb(pf, q);
    AttachFrameOf(s, last);
    AttachRb(FrameOf(s, last), Child(s, last));
    AttachFrameOf(y, last);
    AttachRb(FrameOf(y, last), Child(y, last));
    PaintKeeps(q, Red);
    PaintKeeps(y, Black);
    assert RbOk(q') && LeavesBlack(q') && BH(q') == BH(q) - 1;
    assert RbOk(Paint(y, Black)) && LeavesBlack(Paint(y, Black)) && BH(Paint(y, Black)) == BH(y) + 1;
    var pn := Attach(Frame(last, pf.key, RbInfo(Black, pf.info.value), Child(s, last)), q');
    AttachRb(Frame(last, pf.key, RbInfo(Black, pf.info.value), Child(s, last)), q');
    AttachRb(Frame(last, s.key, RbInfo(Red, s.info.value), Paint(y, Black)), pn);
  }

  /** The double borrow keeps the shape, the order and the leaves, and the walk turns towards `q` at both lifted nodes. */
  lemma BorrowDoubleOrder(pf: Frame<int, RbInfo>, q: RbTree, key: int)
    requires q.Node? && Full(Attach(pf, q)) && Ordered(Attach(pf, q), External) && LeavesBlack(Attach(pf, q))
    requires pf.other.Node? && !IsLeaf(pf.other) && IsRed(Child(pf.other, pf.dir))
    requires if pf.dir == Left then key <= pf.key else pf.key < key
    ensures var r := BorrowDouble(pf, q);
      Full(r) && Ordered(r, External) && LeafKeys(r) == LeafKeys(Attach(pf, q))
      && Way(r, key) == pf.dir && Way(Child(r, pf.dir), key) == pf.dir
  {
    var p0 := Attach(pf, q);
    var t := Attach(PaintFrame(pf, Black), Paint(q, Red));
    PaintKeeps(q, Red);
    assert Strip(Paint(q, Red)) == Strip(q);
    StripAttach(PaintFrame(pf, Black), Paint(q, Red), pf, q);
    Recoloured(t, p0);
    assert Child(t, Flip(pf.dir)) == pf.other && LeavesBlack(pf.other);
    assert LeavesBlack(Child(pf.other, pf.dir));
    RotateDoubleKeeps(t, pf.dir, External);
    GrandchildKey(p0, Flip(pf.dir), pf.dir);
  }

  /** The single borrow keeps the shape, the order and the leaves, and the walk turns towards `q` at both lifted nodes. */
  lemma BorrowSingleOrder(pf: Frame<int, RbInfo>, q: RbTree, key: int)
    requires q.Node? && Full(Attach(pf, q)) && Ordered(Attach(pf, q), External) && LeavesBlack(Attach(pf, q))
    requires pf.other.Node? && !IsLeaf(pf.other) && IsRed(Child(pf.other, Flip(pf.dir)))
    requires if pf.dir == Left then key <= pf.key else pf.key < key
    ensures var r := BorrowSingle(pf, q);
      Full(r) && Ordered(r, External) && LeafKeys(r) == LeafKeys(Attach(pf, q))
      && Way(r, key) == pf.dir && Way(Child(r, pf.dir), key) == pf.dir
  {
    var p0 := Attach(pf, q);
    var s := pf.other;
    var s' := WithChild(Paint(s, Red), Flip(pf.dir), Paint(Child(s, Flip(pf.dir)), Black));
    var t := Attach(Frame(pf.dir, pf.key, RbInfo(Black, pf.info.value), s'), Paint(q, Red));
    PaintKeeps(q, Red);
    assert Strip(Paint(q, Red)) == Strip(q);
    assert Strip(Paint(Child(s, Flip(pf.dir)), Black)) == Strip(Child(s, Flip(pf.dir)));
    assert Strip(s') == Strip(s);
    StripAttach(Frame(pf.dir, pf.key, RbInfo(Black, pf.info.value), s'), Paint(q, Red), pf, q);
    Recoloured(t, p0);
    assert !IsLeaf(s');
    RotateOrdered(t, pf.dir, External);
    RotateLeaves(t, pf.dir);
    AttachRb(pf, q);
    ChildKeys(p0);
  }

  /** A lifted subtree `r` in `p`'s place, then the walk's three steps down to `q`'s child on the key's side. */
  lemma BorrowDescend(init: Path, pf: Frame<int, RbInfo>, q: RbTree, key: int, r: RbTree)
    requires BorrowSite(init, pf, q, key)
    requires r.Node? && Child(r, pf.dir).Node? && Child(Child(r, pf.dir), pf.dir) == Paint(q, Red)
    requires RbOk(r) && LeavesBlack(r) && ParentAllows(init, r) && (init != [] ==> BH(r) == BH(Attach(pf, q)))
    requires Full(r) && Ordered(r, External) && LeafKeys(r) == LeafKeys(Attach(pf, q))
    requires Way(r, key) == pf.dir && Way(Child(r, pf.dir), key) == pf.dir
    ensures var dir := Way(q, key); var last := pf.dir;
      var path' := init + [FrameOf(r, last)] + [FrameOf(Child(r, last), last)] + [FrameOf(Paint(q, Red), dir)];
      DeleteInv(path', Child(Paint(q, Red), dir), key)
      && LeafKeys(Plug(path', Child(Paint(q, Red), dir))) == LeafKeys(Plug(init, Attach(pf, q)))
  {
    var dir := Way(q, key);
    var last := pf.dir;
    var p0 := Attach(pf, q);
    Regraft(init, p0, p0, r);
    var init2 := init + [FrameOf(r, last)];
    AttachFrameOf(r, last);
    PlugSnoc(init, FrameOf(r, last), Child(r, last));
    RoutesSnoc(init, FrameOf(r, last), key, External);
    assert Full(Paint(q, Red));
    WalkPair(init2, Child(r, last), last, dir, key);
  }

  /** The double borrow, then the walk's steps down. */
  lemma BorrowDoubleStep(init: Path, pf: Frame<int, RbInfo>, q: RbTree, key: int)
    requires BorrowSite(init, pf, q, key) && IsRed(Child(pf.other, pf.dir))
    ensures var dir := Way(q, key); var last := pf.dir; var r := BorrowDouble(pf, q);
      var path' := init + [FrameOf(r, last)] + [FrameOf(Child(r, last), last)] + [FrameOf(Paint(q, Red), dir)];
      DeleteInv(path', Child(Paint(q, Red), dir), key)
      && LeafKeys(Plug(path', Child(Paint(q, Red), dir))) == LeafKeys(Plug(init, Attach(pf, q)))
  {
    BorrowDoubleRb(init, pf, q, key);
    BorrowDoubleOrder(pf, q, key);
    BorrowDescend(init, pf, q, key, BorrowDouble(pf, q));
  }

  /** The single borrow, then the walk's steps down. */
  lemma BorrowSingleStep(init: Path, pf: Frame<int, RbInfo>, q: RbTree, key: int)
    requires BorrowSite(init, pf, q, key) && !IsRed(Child(pf.other, pf.dir)) && IsRed(Child(pf.other, Flip(pf.dir)))
    ensures var dir := Way(q, key); var last := pf.dir; var r := BorrowSingle(pf, q);
      var path' := init + [FrameOf(r, last)] + [FrameOf(Child(r, last), last)] + [FrameOf(Paint(q, Red), dir)];
      DeleteInv(path', Child(Paint(q, Red), dir), key)
      && LeafKeys(Plug(path', Child(Paint(q, Red), dir))) == LeafKeys(Plug(init, Attach(pf, q)))
  {
    BorrowSingleRb(init, pf, q, key);
    BorrowSingleOrder(pf, q, key);
    BorrowDescend(init, pf, q, key, BorrowSingle(pf, q));
  }

  // ---------------------------------------------------------------------
  // Delete: the bottom step
  // ---------------------------------------------------------------------

  /**
   * Lines 301-315 as intended: when the reached leaf holds the key, it
   * and its parent leave the tree and the sibling takes the parent's
   * place (an only leaf leaves an empty tree).  Reports whether a leaf
   * went.
   */
  function DeleteFinal(path: Path, q: RbTree, key: int): (r: (RbTree, bool))
    requires DeleteInv(path, q, key) && IsLeaf(q)
    ensures Full(r.0) && Ordered(r.0, External) && RbOk(r.0) && LeavesBlack(r.0)
    ensures LeafKeys(r.0) == LeafKeys(Plug(path, q)) - {key}
    ensures r.1 <==> key in LeafKeys(Plug(path, q))
  {
    LeafOnRoute(path, q, key);
    var n := |path|;
    if q.key != key then
      (Plug(path, q), false)
    else if n == 0 then
      (Nil, true)
    else
      assert Full(Plug(path[..n - 1], path[n - 1].other)) && Ordered(Plug(path[..n - 1], path[n - 1].other), External)
        && RbOk(Plug(path[..n - 1], path[n - 1].other)) && LeavesBlack(Plug(path[..n - 1], path[n - 1].other))
        && LeafKeys(Plug(path[..n - 1], path[n - 1].other)) == LeafKeys(Plug(path, q)) - {key} by {
        RemoveLeaf(path, q, key);
      }
      (Plug(path[..n - 1], path[n - 1].other), true)
  }

  /** The leaf and its parent go, the sibling moves up: the order, the leaves and the red-black rules survive. */
  lemma RemoveLeaf(path: Path, q: RbTree, key: int)
    requires DeleteInv(path, q, key) && IsLeaf(q) && q.key == key && |path| >= 1
    ensures var n := |path|; var t := Plug(path[..n - 1], path[n - 1].other);
      Full(t) && Ordered(t, External) && RbOk(t) && LeavesBlack(t)
      && LeafKeys(t) == LeafKeys(Plug(path, q)) - {key}
  {
    var n := |path|;
    var init, pf := path[..n - 1], path[n - 1];
    var s := pf.other;
    assert init + [pf] == path;
    PlugSnoc(init, pf, q);
    HoistSibling(init, pf, q, key);
    RbFocus(init, Attach(pf, q));
    AttachRb(pf, q);
    FullPlug(init, Attach(pf, q));
    assert s.Node?;
    if init != [] {
      assert pf.info.color == Red;
      assert !IsLeaf(s) ==> BH(s) >= 2 by {
        if !IsLeaf(s) {
          BHPositive(s.left);
        }
      }
      RbReplace(init, Attach(pf, q), s);
    }
  }

  /**
   * Lines 301-315 as written.  The dummy head has key 0, and it stands in
   * for `g` when `p` is the root; when the root itself is the leaf, `g`
   * is taken to be that leaf.  `None` stands for the cycle
   * `q->link[0] = q` this creates for a key at most 0.
   */
  function DeleteFinalAsWritten(path: Path, q: RbTree, key: int): (r: Option<(RbTree, bool)>)
    requires IsLeaf(q)
    ensures r.Some? ==> (r.value.1 <==> q.key == key)
    ensures r.None? <==> q.key == key && path == [] && key <= 0
  {
    var n := |path|;
    if q.key != key then Some((Plug(path, q), false))
    else if n == 0 then (if 0 < key then Some((q, true)) else None)
    else if n == 1 then (if 0 < key then Some((path[0].other, true)) else Some((Plug(path, q), true)))
    else Some((Plug(path[..n - 1], path[n - 1].other), true))
  }

  /** Below the root's children, and for positive keys, the bottom step as written does what was intended. */
  lemma DeleteFinalAgrees(path: Path, q: RbTree, key: int)
    requires DeleteInv(path, q, key) && IsLeaf(q)
    requires q.key != key || |path| >= 2 || (|path| == 1 && 0 < key)
    ensures DeleteFinalAsWritten(path, q, key) == Some(DeleteFinal(path, q, key))
  {
    var n := |path|;
    if q.key != key {
      assert DeleteFinal(path, q, key) == (Plug(path, q), false);
    } else if n == 1 {
      assert path[..0] == [];
      assert DeleteFinal(path, q, key) == (path[0].other, true);
    } else {
      assert DeleteFinal(path, q, key) == (Plug(path[..n - 1], path[n - 1].other), true);
    }
  }

  /** Deleting the only key: the bottom step as written reports success and keeps the leaf. */
  lemma OnlyLeafKept()
    ensures var leaf := Node(Nil, 5, RbInfo(Black, 0), Nil);
      DeleteFinalAsWritten([], leaf, 5) == Some((leaf, true)) && 5 in LeafKeys(leaf)
  {
  }

  /**
   * Deleting key 0 from a root with two leaves: the walk reaches leaf 0
   * below the root, and the bottom step as written reports success but
   * keeps the tree, because the head's key 0 sends the sibling to
   * `head.link[0]`.
   */
  lemma NonPositiveKeyKept()
    ensures var l0 := Node(Nil, 0, RbInfo(Black, 0), Nil);
      var l5 := Node(Nil, 5, RbInfo(Black, 0), Nil);
      var root := Node(l0, 0, RbInfo(Black, 0), l5);
      var path := [FrameOf(root, Way(root, 0))];
      Valid(root) && Child(root, Way(root, 0)) == l0
      && DeleteFinalAsWritten(path, l0, 0) == Some((root, true)) && 0 in LeafKeys(root)
  {
    var l0 := Node(Nil, 0, RbInfo(Black, 0), Nil);
    var l5 := Node(Nil, 5, RbInfo(Black, 0), Nil);
    var root := Node(l0, 0, RbInfo(Black, 0), l5);
    assert Plug([FrameOf(root, Left)], l0) == Plug([], Attach(FrameOf(root, Left), l0));
    assert LeafKeys(root) == {0, 5};
  }

  /**
   * `_rbt_delete_helper`: one walk down that makes each visited node red
   * (or the next one, or leaves a black root) by recolouring or rotating
   * before it is left, then the bottom step; the root ends black.
   * Returns whether a leaf was removed.
   */
  method Delete(root: RbTree, key: int) returns (t: RbTree, deleted: bool)
    requires Valid(root)
    ensures Valid(t)
    ensures LeafKeys(t) == LeafKeys(root) - {key}
    ensures deleted <==> key in LeafKeys(root)
  {
    if root.Nil? {
      return root, false;
    }
    var path: Path := [];
    var q := root;
    while !IsLeaf(q)
      invariant DeleteInv(path, q, key) && LeafKeys(Plug(path, q)) == LeafKeys(root)
      decreases Height(q)
    {
      path, q := DeleteStep(path, q, key);
    }
    var (t', d') := DeleteFinal(path, q, key);
    t, deleted := t', d';
    if IsRed(t) {
      PaintKeeps(t, Black);
      t := Paint(t, Black);
    }
  }

  /**
   * One round of the delete walk: the node the walk stands on is made red
   * when it and the next node are black (by a rotation, a recolouring or a
   * borrow from the sibling), then the walk moves one level down.
   */
  method DeleteStep(path: Path, q: RbTree, key: int) returns (path': Path, q': RbTree)
    requires DeleteInv(path, q, key) && !IsLeaf(q)
    ensures DeleteInv(path', q', key) && LeafKeys(Plug(path', q')) == LeafKeys(Plug(path, q))
    ensures Height(q') < Height(q)
  {
    var dir := Way(q, key);
    var n := |path|;
    if !IsRed(q) && !IsRed(Child(q, dir)) && IsRed(Child(q, Flip(dir))) {
      LiftStep(path, q, key);
      var r := LiftRed(q, dir);
      var x := Child(r, dir);
      path', q' := path + [FrameOf(r, dir)] + [FrameOf(x, dir)], Child(x, dir);
    } else if !IsRed(q) && !IsRed(Child(q, dir)) && n >= 1 {
      // the sibling `s` exists exactly when `p` is not the dummy head
      BorrowPlace(path, q, key);
      var pf := path[n - 1];
      var s, last := pf.other, pf.dir;
      var above: Path;
      if !IsRed(Child(s, Flip(last))) && !IsRed(Child(s, last)) {
        RecolourStep(path[..n - 1], pf, q, key);
        above := path[..n - 1] + [Frame(last, pf.key, RbInfo(Black, pf.info.value), Paint(s, Red))];
      } else if IsRed(Child(s, last)) {
        BorrowDoubleStep(path[..n - 1], pf, q, key);
        var r := BorrowDouble(pf, q);
        above := path[..n - 1] + [FrameOf(r, last)] + [FrameOf(Child(r, last), last)];
      } else {
        BorrowSingleStep(path[..n - 1], pf, q, key);
        var r := BorrowSingle(pf, q);
        above := path[..n - 1] + [FrameOf(r, last)] + [FrameOf(Child(r, last), last)];
      }
      var x := Paint(q, Red);
      path', q' := above + [FrameOf(x, dir)], Child(x, dir);
    } else {
      PassStep(path, q, key);
      path', q' := path + [FrameOf(q, dir)], Child(q, dir);
    }
  }

  // ---------------------------------------------------------------------
  // The recursive warmup insert
  // ---------------------------------------------------------------------

  /**
   * Lines 441-467: the repair after the walk came back from `root`'s
   * child `c` on side `dir`.  Nothing is done unless `c` is red with a red
   * child; then a red sibling means a colour flip (case 1), a red child of
   * `c` on the outer side a single rotation (case 2), one on the inner side
   * a double rotation (case 3), `root` turning red each time.
   */
  function WarmupFix(t1: RbTree, dir: Dir): (r: RbTree)
    requires t1.Node? && Child(t1, dir).Node?
    ensures r.Node?
  {
    var c := Child(t1, dir);
    if !IsRed(c) || (!IsRed(c.left) && !IsRed(c.right)) then t1
    else if IsRed(Child(t1, Flip(dir))) then ColorFlip(t1)
    else if IsRed(Child(c, dir)) then SingleFix(FrameOf(t1, dir), FrameOf(c, dir), Child(c, dir))
    else DoubleFix(FrameOf(t1, dir), FrameOf(c, Flip(dir)), Child(c, Flip(dir)))
  }

  /**
   * `_rbt_warmup_insert_rec`: an empty place takes the new node, a leaf
   * holding the key reports it found, another leaf is split as in the
   * top-down insert, and an inner node recurses on the key's side and
   * repairs on the way back.  Returns the new subtree and whether the key
   * was found.
   */
  function WarmupRec(t: RbTree, key: int, value: int): (r: (RbTree, bool))
    ensures r.0.Node?
    ensures r.1 ==> r.0 == t
    decreases t
  {
    if t.Nil? then (NewNode(key, value), false)
    else if IsLeaf(t) && t.key == key then (t, true)
    else if IsLeaf(t) then (Split(t, key, value), false)
    else
      var dir := Way(t, key);
      var (c, found) := WarmupRec(Child(t, dir), key, value);
      if found then (t, true)
      else (WarmupFix(WithChild(t, dir, c), dir), false)
  }

  /** The repair keeps the shape, the order and the leaves (a red node here is never a leaf). */
  lemma WarmupFixOrder(t1: RbTree, dir: Dir)
    requires t1.Node? && Child(t1, dir).Node? && Full(t1) && Ordered(t1, External) && LeavesBlack(t1)
    ensures var r := WarmupFix(t1, dir);
      Full(r) && Ordered(r, External) && LeafKeys(r) == LeafKeys(t1) && LeavesBlack(r)
  {
    var c := Child(t1, dir);
    if !IsRed(c) || (!IsRed(c.left) && !IsRed(c.right)) {
    } else if IsRed(Child(t1, Flip(dir))) {
      ColorFlipKeeps(t1);
      PaintKeeps(t1.left, Black);
      PaintKeeps(t1.right, Black);
    } else if IsRed(Child(c, dir)) {
      AttachFrameOf(c, dir);
      AttachFrameOf(t1, dir);
      assert LeavesBlack(c) && LeavesBlack(Child(c, dir));
      assert !IsLeaf(Child(c, dir));
      SingleFixOrder(FrameOf(t1, dir), FrameOf(c, dir), Child(c, dir));
      WarmupFixLeaves(t1, dir);
    } else {
      AttachFrameOf(c, Flip(dir));
      AttachFrameOf(t1, dir);
      assert LeavesBlack(c) && LeavesBlack(Child(c, Flip(dir)));
      assert !IsLeaf(Child(c, Flip(dir)));
      DoubleFixOrder(FrameOf(t1, dir), FrameOf(c, Flip(dir)), Child(c, Flip(dir)));
      WarmupFixLeaves(t1, dir);
    }
  }

  /** The rotations of the repair leave every leaf black. */
  lemma WarmupFixLeaves(t1: RbTree, dir: Dir)
    requires t1.Node? && Child(t1, dir).Node? && Full(t1) && LeavesBlack(t1)
    requires IsRed(Child(t1, dir)) && !IsRed(Child(t1, Flip(dir)))
    requires IsRed(Child(Child(t1, dir), dir)) || IsRed(Child(Child(t1, dir), Flip(dir)))
    ensures LeavesBlack(WarmupFix(t1, dir))
  {
    var c := Child(t1, dir);
    var gf := FrameOf(t1, dir);
    AttachFrameOf(t1, dir);
    AttachRb(gf, c);
    AttachRb(PaintFrame(gf, Red), gf.other);
    if IsRed(Child(c, dir)) {
      var pf := FrameOf(c, dir);
      AttachFrameOf(c, dir);
      AttachRb(pf, Child(c, dir));
      AttachRb(PaintFrame(gf, Red), pf.other);
      AttachRb(PaintFrame(pf, Black), Child(c, dir));
      var r := SingleFix(gf, pf, Child(c, dir));
      AttachFrameOf(r, dir);
      AttachRb(FrameOf(r, dir), Child(r, dir));
    } else {
      var pf := FrameOf(c, Flip(dir));
      var q1 := Child(c, Flip(dir));
      AttachFrameOf(c, Flip(dir));
      AttachRb(pf, q1);
      AttachFrameOf(q1, dir);
      AttachRb(FrameOf(q1, dir), Child(q1, dir));
      AttachRb(pf, Child(q1, dir));
      AttachRb(PaintFrame(gf, Red), Child(q1, Flip(dir)));
      var r := DoubleFix(gf, pf, q1);
      AttachFrameOf(r, dir);
      AttachRb(FrameOf(r, dir), Child(r, dir));
    }
  }

  /**
   * The warmup recursion inserts into an ordered external tree: the key
   * joins the leaves, and it is reported found exactly when it was there.
   */
  lemma {:induction false} WarmupRecKeys(t: RbTree, key: int, value: int)
    requires Full(t) && Ordered(t, External) && LeavesBlack(t)
    ensures var r := WarmupRec(t, key, value);
      Full(r.0) && Ordered(r.0, External) && LeafKeys(r.0) == LeafKeys(t) + {key}
      && (r.1 <==> key in LeafKeys(t)) && (t.Node? ==> LeavesBlack(r.0))
    decreases t
  {
    if t.Nil? {
    } else if IsLeaf(t) && t.key == key {
    } else if IsLeaf(t) {
      SplitValid(t, key, value);
    } else {
      var dir := Way(t, key);
      var c0 := Child(t, dir);
      WarmupRecKeys(c0, key, value);
      var (c, found) := WarmupRec(c0, key, value);
      ChildKeys(t);
      if !found {
        var t1 := WithChild(t, dir, c);
        assert Full(t1) && LeavesBlack(t1);
        assert Ordered(t1, External) by {
          if dir == Left {
            assert forall w :: w in LeafKeys(c) ==> w <= t.key;
          } else {
            assert forall w :: w in LeafKeys(c) ==> t.key < w;
          }
        }
        assert LeafKeys(t1) == LeafKeys(t) + {key};
        WarmupFixOrder(t1, dir);
      }
    }
  }

  /**
   * What the warmup recursion returns in place of a red-black subtree:
   * balanced with the same black height, both children keeping the
   * red-red rule, at most one red child under a red root, and no red-red
   * at all under a black one.
   */
  predicate WarmupShape(t: RbTree, r: RbTree)
  {
    r.Node? && BlackBalanced(r) && BH(r) == BH(t) && NoRedRed(r.left) && NoRedRed(r.right)
    && (IsRed(r) ==> !IsRed(r.left) || !IsRed(r.right))
    && (!IsRed(t) ==> NoRedRed(r))
  }

  /** Case 1: a black node with two red children, one of them with a red child, becomes red over two black ones. */
  lemma WarmupFlipRb(t1: RbTree, dir: Dir)
    requires t1.Node? && t1.left.Node? && t1.right.Node? && !IsRed(t1) && IsRed(t1.left) && IsRed(t1.right)
    requires BlackBalanced(t1) && NoRedRed(t1.left.left) && NoRedRed(t1.left.right)
    requires NoRedRed(t1.right.left) && NoRedRed(t1.right.right)
    ensures var r := ColorFlip(t1); BlackBalanced(r) && BH(r) == BH(t1) && NoRedRed(r)
  {
    ColorFlipKeeps(t1);
  }

  /** Cases 2 and 3: a black node whose red child on side `dir` has a red child, beside a black sibling. */
  predicate RedPairBelow(t1: RbTree, dir: Dir)
  {
    t1.Node? && Child(t1, dir).Node? && !IsRed(t1) && IsRed(Child(t1, dir)) && !IsRed(Child(t1, Flip(dir)))
    && BlackBalanced(t1) && NoRedRed(Child(t1, Flip(dir)))
    && NoRedRed(Child(t1, dir).left) && NoRedRed(Child(t1, dir).right)
    && !(IsRed(Child(t1, dir).left) && IsRed(Child(t1, dir).right))
  }

  /** Case 2 keeps the black height and leaves no red-red. */
  lemma WarmupSingleRb(t1: RbTree, dir: Dir)
    requires RedPairBelow(t1, dir) && IsRed(Child(Child(t1, dir), dir))
    ensures var r := WarmupFix(t1, dir); BlackBalanced(r) && BH(r) == BH(t1) && NoRedRed(r)
  {
    var c := Child(t1, dir);
    var gf := FrameOf(t1, dir);
    var pf := FrameOf(c, dir);
    var q1 := Child(c, dir);
    AttachFrameOf(t1, dir);
    AttachFrameOf(c, dir);
    AttachRb(gf, c);
    AttachRb(pf, q1);
    var r := SingleFix(gf, pf, q1);
    assert BlackBalanced(c) && BlackBalanced(gf.other);
    assert RbOk(q1) && RbOk(pf.other) && RbOk(gf.other);
    AttachRb(PaintFrame(gf, Red), pf.other);
    var gn := Attach(PaintFrame(gf, Red), pf.other);
    assert RbOk(gn);
    AttachFrameOf(r, dir);
    assert FrameOf(r, dir).other == gn;
    AttachRb(FrameOf(r, dir), q1);
    assert WarmupFix(t1, dir) == r;
    assert RbOk(r);
  }

  /** Case 3 keeps the black height and leaves no red-red. */
  lemma WarmupDoubleRb(t1: RbTree, dir: Dir)
    requires RedPairBelow(t1, dir) && !IsRed(Child(Child(t1, dir), dir)) && IsRed(Child(Child(t1, dir), Flip(dir)))
    ensures var r := WarmupFix(t1, dir); BlackBalanced(r) && BH(r) == BH(t1) && NoRedRed(r)
  {
    var c := Child(t1, dir);
    var gf := FrameOf(t1, dir);
    var pf := FrameOf(c, Flip(dir));
    var q1 := Child(c, Flip(dir));
    AttachFrameOf(t1, dir);
    AttachFrameOf(c, Flip(dir));
    AttachRb(gf, c);
    AttachRb(pf, q1);
    AttachFrameOf(q1, dir);
    AttachRb(FrameOf(q1, dir), Child(q1, dir));
    var pn := Attach(pf, Child(q1, dir));
    var gn := Attach(PaintFrame(gf, Red), Child(q1, Flip(dir)));
    AttachRb(pf, Child(q1, dir));
    AttachRb(PaintFrame(gf, Red), Child(q1, Flip(dir)));
    var r := DoubleFix(gf, pf, q1);
    assert BlackBalanced(c) && BlackBalanced(gf.other) && BlackBalanced(q1);
    assert RbOk(pf.other) && RbOk(gf.other) && RbOk(Child(q1, dir)) && RbOk(Child(q1, Flip(dir)));
    assert RbOk(pn) && RbOk(gn);
    AttachFrameOf(r, dir);
    assert FrameOf(r, dir).other == gn;
    AttachRb(FrameOf(r, dir), pn);
    assert WarmupFix(t1, dir) == r;
    assert RbOk(r);
  }

  /** The repair after a recursive call, from the shape the call returned to the shape this level returns. */
  lemma WarmupFixRb(t: RbTree, dir: Dir, c: RbTree)
    requires t.Node? && Child(t, dir).Node? && RbOk(t) && WarmupShape(Child(t, dir), c)
    ensures WarmupShape(t, WarmupFix(WithChild(t, dir, c), dir))
  {
    var t1 := WithChild(t, dir, c);
    var c0 := Child(t, dir);
    assert Child(t1, dir) == c && Child(t1, Flip(dir)) == Child(t, Flip(dir));
    assert BlackBalanced(t1) && BH(t1) == BH(t);
    if !IsRed(c) || (!IsRed(c.left) && !IsRed(c.right)) {
      assert NoRedRed(c);
    } else {
      assert IsRed(c0) && !IsRed(t);
      if IsRed(Child(t1, Flip(dir))) {
        var s := Child(t, Flip(dir));
        assert NoRedRed(t.left) && NoRedRed(t.right);
        assert s.Node? && NoRedRed(s);
        assert NoRedRed(s.left) && NoRedRed(s.right);
        assert NoRedRed(c.left) && NoRedRed(c.right);
        WarmupFlipRb(t1, dir);
      } else if IsRed(Child(c, dir)) {
        WarmupSingleRb(t1, dir);
      } else {
        WarmupDoubleRb(t1, dir);
      }
    }
  }

  /**
   * The warmup recursion keeps a red-black tree red-black below the root:
   * the black height is kept, and a red-red pair is left only at the top
   * of a subtree that was red, for the level above to repair.
   */
  lemma {:induction false} WarmupRecRb(t: RbTree, key: int, value: int)
    requires t.Node? && Full(t) && RbOk(t) && LeavesBlack(t)
    ensures WarmupShape(t, WarmupRec(t, key, value).0)
    decreases t
  {
    if IsLeaf(t) && t.key == key {
    } else if IsLeaf(t) {
      SplitValid(t, key, value);
    } else {
      var dir := Way(t, key);
      var c0 := Child(t, dir);
      WarmupRecRb(c0, key, value);
      var (c, found) := WarmupRec(c0, key, value);
      if !found {
        WarmupFixRb(t, dir, c);
      }
    }
  }

  /**
   * `_rbt_warmup_insert_helper`: the recursion from the root, then the
   * root painted black.  Returns 1 iff the key was not found.
   */
  function WarmupInsert(t: RbTree, key: int, value: int): (r: (RbTree, bool))
    requires Valid(t)
    ensures Valid(r.0)
    ensures LeafKeys(r.0) == LeafKeys(t) + {key}
    ensures r.1 <==> key !in LeafKeys(t)
  {
    var (u, found) := WarmupRec(t, key, value);
    assert Valid(Paint(u, Black)) && LeafKeys(Paint(u, Black)) == LeafKeys(t) + {key} && (found <==> key in LeafKeys(t)) by {
      WarmupRecKeys(t, key, value);
      if t.Node? {
        WarmupRecRb(t, key, value);
      }
      PaintKeeps(u, Black);
    }
    (Paint(u, Black), !found)
  }

  /**
   * `_rbt_warmup_helper`: keys `rand() % max_key` go in until `nr_nodes`
   * inserts have succeeded, or the random numbers run out.
   */
  method WarmupHelper(root: RbTree, nrNodes: int, maxKey: int, rands: seq<nat>)
    returns (t: RbTree, inserted: int, used: nat)
    requires Valid(root) && maxKey > 0
    ensures Warmed(root, t, rands, used, inserted, maxKey)
    ensures inserted >= nrNodes || used == |rands|
    ensures nrNodes >= 0 ==> inserted <= nrNodes
  {
    t, inserted, used := root, 0, 0;
    while inserted < nrNodes && used < |rands|
      invariant Warmed(root, t, rands, used, inserted, maxKey)
      invariant nrNodes >= 0 ==> inserted <= nrNodes
      decreases |rands| - used
    {
      t, inserted := WarmupRound(root, t, rands, used, inserted, maxKey);
      used := used + 1;
    }
  }

  /**
   * What the warmup has done after `used` random numbers: `t` is valid and
   * holds the keys of `root` and every key drawn, `inserted` more than `root`.
   */
  predicate Warmed(root: RbTree, t: RbTree, rands: seq<nat>, used: nat, inserted: int, maxKey: int)
    requires maxKey > 0
  {
    Valid(t) && WarmupKeys.Progress(LeafKeys(root), LeafKeys(t), rands, used, inserted, maxKey)
  }

  /** One round of the warmup loop: draw a key, insert it, count a success. */
  method WarmupRound(ghost root: RbTree, t: RbTree, rands: seq<nat>, used: nat, inserted: int, maxKey: int)
    returns (t': RbTree, inserted': int)
    requires maxKey > 0 && used < |rands| && Warmed(root, t, rands, used, inserted, maxKey)
    ensures Warmed(root, t', rands, used + 1, inserted', maxKey)
    ensures inserted' == inserted || inserted' == inserted + 1
  {
    var key := rands[used] % maxKey;
    var r := WarmupInsert(t, key, 0);
    var ret := r.1;
    t' := r.0;
    WarmupKeys.ProgressStep(LeafKeys(root), LeafKeys(t), LeafKeys(t'), rands, used, inserted, maxKey, ret);
    inserted' := if ret then inserted + 1 else inserted;
  }
}
