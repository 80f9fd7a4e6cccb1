/**
 * What the bottom-up external red-black tree of
 * rbt/rbt_links_bu_ext_iterative_string.c keeps, and the fix-up steps of
 * `RbBottomUp` restated for an external tree: on top of the red-black
 * rules, every step keeps the leaves, the search order, the full shape
 * and the black colour of every leaf.
 *
 * Keys are held as numbers (the ranks of their strings, see
 * `CStrings.Rank`); the search goes left iff `key <= node.key`.
 */
module RbBuExt {
  import opened Trees
  import opened SearchOrder
  import opened RbCore
  import opened RbBottomUp
  import RbTdExt

  /**
   * What every operation keeps: an external search tree, the red-black
   * rules and black leaves.  The root may be red, but then only over two
   * leaves: a delete whose leaf hangs right under the root makes the
   * sibling the root without painting it (lines 424-431).
   */
  predicate Valid(t: RbTree)
  {
    Sound(t) && (IsRed(t) ==> IsLeaf(t.left) && IsLeaf(t.right))
  }

  /** A full ordered external tree keeping the red-black rules with every leaf black, whatever the root's colour. */
  predicate Sound(t: RbTree)
  {
    Full(t) && Ordered(t, External) && RbOk(t) && LeavesBlack(t)
  }

  /** Every subtree hanging off the path has black leaves. */
  predicate PathLeavesBlack(path: Path)
  {
    forall i :: 0 <= i < |path| ==> LeavesBlack(path[i].other)
  }

  /** Around a non-empty focus every frame's node has a child, so the leaves are those of the focus and of the other subtrees. */
  lemma {:induction false} LeavesBlackPlug(path: Path, u: RbTree)
    requires u.Node?
    ensures LeavesBlack(Plug(path, u)) <==> PathLeavesBlack(path) && LeavesBlack(u)
    decreases |path|
  {
    if path != [] {
      var init, f := path[..|path| - 1], path[|path| - 1];
      LeavesBlackPlug(init, Attach(f, u));
      assert forall i :: 0 <= i < |init| ==> init[i] == path[i];
    }
  }

  lemma PathLeavesBlackPrefix(path: Path, n: nat)
    requires PathLeavesBlack(path) && n <= |path|
    ensures PathLeavesBlack(path[..n])
  {
    assert forall i :: 0 <= i < n ==> path[..n][i] == path[i];
  }

  /** Painting the root black keeps the rules and the black leaves. */
  lemma BlackenOk(t: RbTree)
    requires RbOk(t) && LeavesBlack(t)
    ensures RbOk(Blacken(t)) && LeavesBlack(Blacken(t))
  {
    if t.Node? {
      PaintKeeps(t, Black);
    }
  }

  /** A red node of black height one, with black leaves, hangs over two leaves. */
  lemma RedOverLeaves(t: RbTree)
    requires t.Node? && Full(t) && RbOk(t) && LeavesBlack(t) && IsRed(t) && BH(t) == 1
    ensures IsLeaf(t.left) && IsLeaf(t.right)
  {
    var l, r := t.left, t.right;
    assert l.Node? && r.Node? && !IsRed(l) && !IsRed(r);
    if l.left.Node? {
      RbTdExt.BHPositive(l.left);
    }
    if r.left.Node? {
      RbTdExt.BHPositive(r.left);
    }
  }

  /** On a path the key routes along, `key <= node->key` tells the side taken. */
  lemma RoutedSide(path: Path, key: int, i: int)
    requires Routes(path, key, External) && 0 <= i < |path|
    ensures (key <= path[i].key) == (path[i].dir == Left)
  {
  }

  /** Two levels or more below the root, the root is black. */
  lemma RootBlack(path: Path, u: RbTree)
    requires Valid(Plug(path, u)) && |path| >= 2 && u.Node?
    ensures path[0].info.color == Black
  {
    var rest := path[1..];
    assert path == [path[0]] + rest;
    PlugCons(path[0], rest, u);
    assert rest == [rest[0]] + rest[1..];
    PlugCons(rest[0], rest[1..], u);
    if rest[1..] != [] {
      PlugTop(rest[1..], u);
    }
    var c := Plug(rest, u);
    assert c == Attach(rest[0], Plug(rest[1..], u)) && !IsLeaf(c);
    assert Child(Plug(path, u), path[0].dir) == c;
  }

  // ---------------------------------------------------------------------
  // The insert fix-up
  // ---------------------------------------------------------------------

  /**
   * The insert fix-up's invariant at the red node `x` (the split leaf, or
   * a grandparent a colour flip turned red): `Climbing`, the key the
   * fix-up steers by routes along the stack, and the whole tree is a full
   * ordered external tree with the leaves `keys`, all of them black.
   */
  predicate Climb(path: Path, x: RbTree, key: int, keys: set<int>)
  {
    Climbing(path, x) && x.Node? && !IsLeaf(x) && Routes(path, key, External)
    && Full(Plug(path, x)) && Ordered(Plug(path, x), External) && LeafKeys(Plug(path, x)) == keys
    && PathLeavesBlack(path) && LeavesBlack(x)
  }

  /**
   * Lines 236-259: the leaf reached is split, and the fix-up starts at the
   * split node with the key of its left leaf, the smaller of the two.
   */
  lemma StartClimb(path: Path, leaf: RbTree, key: int, value: int)
    requires Valid(Plug(path, leaf)) && IsLeaf(leaf) && leaf.key != key && Routes(path, key, External)
    ensures var x := RbTdExt.Split(leaf, key, value);
      Climb(path, x, x.left.key, LeafKeys(Plug(path, leaf)) + {key})
  {
    var x := RbTdExt.Split(leaf, key, value);
    RbTdExt.SplitValid(leaf, key, value);
    PlugOk(path, leaf);
    LeavesBlackPlug(path, leaf);
    FullPlug(path, leaf);
    FullPlug(path, x);
    OrderedFocus(path, leaf, External);
    assert leaf.key in Content(leaf, External);
    assert AllRoute(path, Content(x, External), External) by {
      assert Content(x, External) == {key, leaf.key};
    }
    OrderedReplace(path, leaf, x, External);
    LeafKeysPlug(path, leaf);
    LeafKeysPlug(path, x);
    LeavesBlackPlug(path, x);
  }

  /** Under a black parent, or at the top two levels, the fix-up ends with the root painted black. */
  lemma ClimbStop(path: Path, x: RbTree, key: int, keys: set<int>)
    requires Climb(path, x, key, keys) && (|path| <= 1 || path[|path| - 1].info.color == Black)
    ensures Valid(Blacken(Plug(path, x))) && LeafKeys(Blacken(Plug(path, x))) == keys
  {
    var t := Plug(path, x);
    LeavesBlackPlug(path, x);
    if |path| <= 1 {
      ClimbToRoot(path, x);
      assert Blacken(t) == Paint(t, Black);
      PaintKeeps(t, Black);
      assert LeavesBlack(Paint(t, Black));
    } else {
      ClimbDone(path, x);
      BlackenOk(t);
    }
    Recoloured(Blacken(t), t);
  }

  /** The colour flip keeps every leaf black: the only node turned red has children. */
  lemma FlipUpLeaves(g: Frame<int, RbInfo>, p: Frame<int, RbInfo>, x: RbTree)
    requires g.other.Node? && x.Node? && LeavesBlack(g.other) && LeavesBlack(p.other) && LeavesBlack(x)
    ensures LeavesBlack(FlipUp(g, p, x)) && !IsLeaf(FlipUp(g, p, x))
  {
    PaintKeeps(g.other, Black);
    var pn := Attach(PaintFrame(p, Black), x);
    assert LeavesBlack(pn);
    assert LeavesBlack(Paint(g.other, Black));
  }

  /** Case 1: a red uncle; the colour flip moves the invariant two frames up. */
  lemma ClimbFlip(path: Path, x: RbTree, key: int, keys: set<int>)
    requires Climb(path, x, key, keys) && |path| >= 2
    requires path[|path| - 1].info.color == Red && IsRed(path[|path| - 2].other)
    ensures var n := |path|; Climb(path[..n - 2], FlipUp(path[n - 2], path[n - 1], x), key, keys)
  {
    var n := |path|;
    var g, p := path[n - 2], path[n - 1];
    FlipUpStep(path, x);
    Recoloured(Plug(path[..n - 2], FlipUp(g, p, x)), Plug(path, x));
    RoutesPrefix(path, n - 2, key, External);
    PathLeavesBlackPrefix(path, n - 2);
    FlipUpLeaves(g, p, x);
  }

  /** The single rotation keeps every leaf black: the grandparent, turned red, keeps two children. */
  lemma TurnOuterLeaves(g: Frame<int, RbInfo>, p: Frame<int, RbInfo>, x: RbTree)
    requires p.dir == g.dir && x.Node? && p.other.Node?
    requires LeavesBlack(g.other) && LeavesBlack(p.other) && LeavesBlack(x)
    ensures LeavesBlack(TurnOuter(g, p, x))
  {
    var gn := Attach(Frame(g.dir, g.key, RbInfo(Red, g.info.value), g.other), p.other);
    assert LeavesBlack(gn);
  }

  /** Case 2: a black uncle and an outer `x`; one rotation at the grandparent ends the fix-up. */
  lemma ClimbOuter(path: Path, x: RbTree, key: int, keys: set<int>)
    requires Climb(path, x, key, keys) && |path| >= 2
    requires path[|path| - 1].info.color == Red && !IsRed(path[|path| - 2].other)
    requires path[|path| - 1].dir == path[|path| - 2].dir
    ensures var n := |path|; var t := Blacken(Plug(path[..n - 2], TurnOuter(path[n - 2], path[n - 1], x)));
      Valid(t) && LeafKeys(t) == keys
  {
    var n := |path|;
    var g, p := path[n - 2], path[n - 1];
    var r := TurnOuter(g, p, x);
    var u := Plug(path[..n - 2], r);
    TurnOuterStep(path, x);
    TurnOuterOrder(path, x, External);
    FullPlug(path, x);
    PathLeavesBlackPrefix(path, n - 2);
    TurnOuterLeaves(g, p, x);
    LeavesBlackPlug(path[..n - 2], r);
    BlackenOk(u);
    Recoloured(Blacken(u), u);
  }

  /** The double rotation keeps every leaf black: `x` turns black, and the two nodes below it keep two children each. */
  lemma TurnInnerLeaves(g: Frame<int, RbInfo>, p: Frame<int, RbInfo>, x: RbTree)
    requires p.dir != g.dir && x.Node? && x.left.Node? && x.right.Node?
    requires LeavesBlack(g.other) && LeavesBlack(p.other) && LeavesBlack(x)
    ensures LeavesBlack(TurnInner(g, p, x))
  {
    var t := Attach(PaintFrame(g, Red), Attach(p, Paint(x, Black)));
    var d := Flip(g.dir);
    RotateDoubleShape(t, d);
    var r := RotateDouble(t, d);
    assert TurnInner(g, p, x) == r;
    var c := Child(t, Flip(d));
    var gc := Child(c, d);
    assert gc == Paint(x, Black);
    assert LeavesBlack(WithChild(t, Flip(d), Child(gc, d)));
    assert LeavesBlack(WithChild(c, d, Child(gc, Flip(d))));
  }

  /** Case 3: a black uncle and an inner `x`; two rotations end the fix-up. */
  lemma ClimbInner(path: Path, x: RbTree, key: int, keys: set<int>)
    requires Climb(path, x, key, keys) && |path| >= 2
    requires path[|path| - 1].info.color == Red && !IsRed(path[|path| - 2].other)
    requires path[|path| - 1].dir != path[|path| - 2].dir
    ensures var n := |path|; var t := Blacken(Plug(path[..n - 2], TurnInner(path[n - 2], path[n - 1], x)));
      Valid(t) && LeafKeys(t) == keys
  {
    var n := |path|;
    var g, p := path[n - 2], path[n - 1];
    var r := TurnInner(g, p, x);
    var u := Plug(path[..n - 2], r);
    TurnInnerStep(path, x);
    TurnInnerOrder(path, x, External);
    FullPlug(path, x);
    PathLeavesBlackPrefix(path, n - 2);
    TurnInnerLeaves(g, p, x);
    LeavesBlackPlug(path[..n - 2], r);
    BlackenOk(u);
    Recoloured(Blacken(u), u);
  }

  // ---------------------------------------------------------------------
  // The delete fix-up
  // ---------------------------------------------------------------------

  /**
   * The delete fix-up's invariant at `x`, the subtree one black node
   * short (never NULL here: it starts as the unlinked leaf's sibling):
   * `Short`, the deleted key routes along the stack, and the tree is a
   * full ordered external tree with the leaves `keys`, all black.
   */
  predicate Mending(path: Path, x: RbTree, key: int, keys: set<int>)
  {
    Short(path, x) && x.Node? && Routes(path, key, External)
    && Full(Plug(path, x)) && Ordered(Plug(path, x), External) && LeafKeys(Plug(path, x)) == keys
    && PathLeavesBlack(path) && LeavesBlack(x)
  }

  /** `Mending` in this tree, whose root is black (`x` itself once the stack is empty). */
  predicate Mend(path: Path, x: RbTree, key: int, keys: set<int>)
  {
    Mending(path, x, key, keys)
    && (path != [] ==> path[0].info.color == Black)
    && (path == [] ==> !IsRed(x))
  }

  /**
   * Unlinking the leaf and its parent, the parent's other child taking the
   * parent's place: under a black parent it is one black node short; under
   * a red one the tree keeps the rules.
   */
  lemma HoistOk(init: Path, parent: Frame<int, RbInfo>, leaf: RbTree)
    requires RbOk(Plug(init, Attach(parent, leaf))) && IsLeaf(leaf) && leaf.info.color == Black
    ensures parent.other.Node? && RbOk(parent.other)
    ensures parent.info.color == Black ==> Short(init, parent.other)
    ensures parent.info.color == Red ==> RbOk(Plug(init, parent.other))
  {
    var s := parent.other;
    PlugOk(init, Attach(parent, leaf));
    AttachOk(parent, leaf);
    assert BH(leaf) == 1 && BH(s) == 1;
    if parent.info.color == Black {
      PaintKeeps(s, Black);
    } else {
      assert !IsRed(s);
      PlugOk(init, s);
    }
  }

  /**
   * Lines 432-450: with a grandparent, the sibling takes the parent's
   * place; under a black parent the fix-up starts at the sibling, under a
   * red one the tree is already valid.
   */
  lemma StartMend(path: Path, leaf: RbTree, key: int)
    requires Valid(Plug(path, leaf)) && |path| >= 2 && IsLeaf(leaf) && leaf.key == key && Routes(path, key, External)
    ensures var n := |path|; var init, s := path[..n - 1], path[n - 1].other;
      var keys := LeafKeys(Plug(path, leaf)) - {key};
      (path[n - 1].info.color == Black ==> Mend(init, s, key, keys))
      && (path[n - 1].info.color == Red ==> Valid(Plug(init, s)) && LeafKeys(Plug(init, s)) == keys)
  {
    var n := |path|;
    var init, parent := path[..n - 1], path[n - 1];
    var s := parent.other;
    assert path == init + [parent];
    PlugSnoc(init, parent, leaf);
    HoistSibling(init, parent, leaf, key);
    LeavesBlackPlug(path, leaf);
    HoistOk(init, parent, leaf);
    RoutesPrefix(path, n - 1, key, External);
    PathLeavesBlackPrefix(path, n - 1);
    RootBlack(path, leaf);
    LeavesBlackPlug(init, s);
    PlugTop(init, s);
  }

  /**
   * Lines 424-431: the parent is the root; its other child becomes the
   * root unpainted, and is red only over two leaves.
   */
  lemma SiblingRoot(parent: Frame<int, RbInfo>, leaf: RbTree, key: int)
    requires Valid(Attach(parent, leaf)) && IsLeaf(leaf) && leaf.key == key && Routes([parent], key, External)
    ensures Valid(parent.other) && LeafKeys(parent.other) == LeafKeys(Attach(parent, leaf)) - {key}
  {
    var s := parent.other;
    PlugOne(parent, leaf);
    assert [] + [parent] == [parent];
    HoistSibling([], parent, leaf, key);
    assert Plug([], s) == s;
    AttachOk(parent, leaf);
    assert LeavesBlack(leaf) && leaf.info.color == Black;
    assert BH(s) == BH(leaf) == 1;
    if IsRed(s) {
      RedOverLeaves(s);
    }
  }

  /** A red `x` painted black ends the fix-up. */
  lemma MendRed(path: Path, x: RbTree, key: int, keys: set<int>)
    requires Mending(path, x, key, keys) && IsRed(x) && path != []
    ensures var t := Plug(path, Paint(x, Black));
      Sound(t) && LeafKeys(t) == keys && (Mend(path, x, key, keys) ==> Valid(t))
  {
    ShortRed(path, x);
    RecolourIn(path, x, Paint(x, Black));
    PaintKeeps(x, Black);
    LeavesBlackPlug(path, Paint(x, Black));
    PlugTop(path, Paint(x, Black));
  }

  /** At the root the fix-up ends, the root not painted: the whole tree is one black node shorter. */
  lemma MendRoot(x: RbTree, key: int, keys: set<int>)
    requires Mend([], x, key, keys)
    ensures Valid(x) && LeafKeys(x) == keys
  {
    ShortAtRoot(x);
  }

  /** After case 1 the deleted key still routes: the risen sibling lies on the far side of the parent. */
  lemma RoutesLift(path: Path, x: RbTree, key: int)
    requires Routes(path, key, External) && path != [] && path[|path| - 1].other.Node?
    requires Full(Plug(path, x)) && Ordered(Plug(path, x), External) && x.Node?
    ensures Routes(LiftSibling(path), key, External)
  {
    var n, p := |path|, path[|path| - 1];
    var s := p.other;
    var init := path[..n - 1];
    assert path == init + [p];
    PlugSnoc(init, p, x);
    OrderedFocus(init, Attach(p, x), External);
    FullPlug(path, x);
    FullPlug(init, Attach(p, x));
    assert Full(s) && Ordered(s, External);
    if p.dir == Left {
      var w := MinLeaf(s);
      assert w in Content(p.other, External);
    } else {
      var w := MaxLeaf(s);
      assert w in Content(p.other, External);
    }
    var q := LiftSibling(path);
    RoutesPrefix(path, n - 1, key, External);
    assert q == init + [q[n - 1], q[n]];
  }

  /** Case 1, a red sibling: after the rotation the parent is red over a black sibling, on the same side. */
  lemma MendLift(path: Path, x: RbTree, key: int, keys: set<int>)
    requires Mending(path, x, key, keys) && path != [] && IsRed(path[|path| - 1].other)
    ensures var q := LiftSibling(path); var f := q[|q| - 1];
      Mending(q, x, key, keys) && |q| == |path| + 1 && f.dir == path[|path| - 1].dir
      && f.info.color == Red && f.other.Node? && !IsRed(f.other)
      && (Mend(path, x, key, keys) ==> Mend(q, x, key, keys))
  {
    var n, p := |path|, path[|path| - 1];
    var s := p.other;
    assert LeavesBlack(s) && s.left.Node?;
    LiftSiblingStep(path, x);
    LiftSiblingOrder(path, x, External);
    RoutesLift(path, x, key);
    var q := LiftSibling(path);
    assert PathLeavesBlack(q) by {
      assert forall i :: 0 <= i < n - 1 ==> q[i] == path[i];
      assert LeavesBlack(s.left) && LeavesBlack(s.right);
    }
  }

  /** Case 2, a black sibling with no red child: it turns red, and the parent is the subtree one black node short. */
  lemma MendPush(path: Path, x: RbTree, key: int, keys: set<int>)
    requires Mending(path, x, key, keys) && path != [] && RbOk(x)
    requires var s := path[|path| - 1].other; s.Node? && !IsRed(s) && !IsRed(s.left) && !IsRed(s.right)
    ensures var n := |path|; var u := PushUp(path[n - 1], x);
      Mending(path[..n - 1], u, key, keys) && (Mend(path, x, key, keys) ==> Mend(path[..n - 1], u, key, keys))
  {
    var n, p := |path|, path[|path| - 1];
    var s := p.other;
    var init := path[..n - 1];
    assert path == init + [p];
    FitsSnoc(init, p, BH(x) + 1);
    FullPlug(path, x);
    RbTdExt.BHPositive(x);
    assert BH(s) >= 2 && !IsLeaf(s);
    PaintKeeps(s, Red);
    PushUpStep(path, x);
    Recoloured(Plug(init, PushUp(p, x)), Plug(path, x));
    RoutesPrefix(path, n - 1, key, External);
    PathLeavesBlackPrefix(path, n - 1);
    assert LeavesBlack(Paint(s, Red));
  }

  /** The node a case-3 rotation settles keeps every leaf black: its children are painted black and it has two. */
  lemma SettleLeaves(t: RbTree, c: Color)
    requires t.Node? && t.left.Node? && t.right.Node? && LeavesBlack(t.left) && LeavesBlack(t.right)
    ensures LeavesBlack(Settle(t, c))
  {
    PaintKeeps(t.left, Black);
    PaintKeeps(t.right, Black);
  }

  /** Case 3 keeps every leaf black. */
  lemma TurnFarLeaves(p: Frame<int, RbInfo>, x: RbTree)
    requires p.other.Node? && Child(p.other, Flip(p.dir)).Node? && x.Node?
    requires LeavesBlack(p.other) && LeavesBlack(x)
    ensures LeavesBlack(TurnFar(p, x))
  {
    var u := Attach(p, x);
    var r := Rotate(u, p.dir);
    assert LeavesBlack(Child(r, p.dir)) && LeavesBlack(Child(r, Flip(p.dir)));
    SettleLeaves(r, p.info.color);
  }

  /** Case 4 keeps every leaf black: the sibling, turned red, keeps two children. */
  lemma TurnNearLeaves(path: Path)
    requires path != [] && var p := path[|path| - 1]; var s := p.other;
      s.Node? && Full(s) && !IsLeaf(s) && LeavesBlack(s) && Child(s, p.dir).Node? && !IsLeaf(Child(s, p.dir))
    ensures var q := TurnNear(path); LeavesBlack(q[|q| - 1].other)
  {
    var n, p := |path|, path[|path| - 1];
    var s, d := p.other, p.dir;
    var c := Child(s, d);
    PaintKeeps(c, Black);
    PaintKeeps(s, Red);
    var t := WithChild(Paint(s, Red), d, Paint(c, Black));
    assert LeavesBlack(Paint(c, Black));
    assert LeavesBlack(WithChild(t, d, Child(c, Flip(d))));
  }

  /**
   * Cases 3 and 4, a black sibling with a red child: one rotation when
   * the far child is red, else two, end the fix-up with a valid tree.
   */
  lemma MendFar(path: Path, x: RbTree, key: int, keys: set<int>)
    requires Mending(path, x, key, keys) && path != [] && RbOk(x)
    requires var s := path[|path| - 1].other; s.Node? && !IsRed(s) && (IsRed(s.left) || IsRed(s.right))
    ensures var n, p := |path|, path[|path| - 1]; var s := p.other;
      Child(s, Flip(p.dir)).Node? && Child(s, p.dir).Node?
      && var r := if IsRed(Child(s, Flip(p.dir))) then TurnFar(p, x) else TurnNearFar(p, x);
      var t := Plug(path[..n - 1], r);
      Sound(t) && LeafKeys(t) == keys && (Mend(path, x, key, keys) ==> Valid(t))
  {
    var n, p := |path|, path[|path| - 1];
    var s := p.other;
    var init := path[..n - 1];
    FullPlug(path, x);
    assert Full(s) && LeavesBlack(s) && !IsLeaf(s);
    var r;
    if IsRed(Child(s, Flip(p.dir))) {
      TurnFarStep(path, x);
      TurnFarOrder(path, x, External);
      TurnFarLeaves(p, x);
      r := TurnFar(p, x);
    } else {
      assert IsRed(Child(s, p.dir)) && LeavesBlack(Child(s, p.dir));
      var q := TurnNear(path);
      TurnNearFarIsTwoTurns(path, x);
      TurnNearStep(path, x);
      TurnNearOrder(path, x, External);
      assert q[..n - 1] == init;
      TurnFarStep(q, x);
      TurnFarOrder(q, x, External);
      TurnNearLeaves(path);
      TurnFarLeaves(q[n - 1], x);
      r := TurnNearFar(p, x);
    }
    PathLeavesBlackPrefix(path, n - 1);
    LeavesBlackPlug(init, r);
    if init != [] {
      PlugTop(init, r);
    }
  }
}
