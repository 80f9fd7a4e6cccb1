/**
 * What the bottom-up red-black trees of rbt/ share: the invariant a node
 * stack keeps while a fix-up climbs it, and the recolourings and rotations
 * of the insert and delete fix-ups, each proved to carry that invariant or
 * to restore the red-black rules.
 *
 * A stack is a zipper path whose `path[0]` is the root's frame.
 * `Fits(path, h)` says that a subtree of black height `h` hung at the
 * bottom of `path` balances every node above it; `Clean(path, red)` says
 * that no red node on or beside the path has a red child, when the hung
 * subtree's root is red iff `red`.  The tree around a subtree keeps the
 * rules iff the subtree does, fits and is clean (`PlugOk`).
 */
module RbBottomUp {
  import opened Trees
  import opened SearchOrder
  import opened RbCore

  type Path = seq<Frame<int, RbInfo>>

  /** The black nodes a colour adds to a path: one for black, none for red. */
  function Weight(c: Color): nat
  {
    if c == Black then 1 else 0
  }

  /** A subtree of black height `h` at the bottom of `path` balances every node above it. */
  predicate Fits(path: Path, h: nat)
    decreases |path|
  {
    path == [] ||
    var f := path[|path| - 1];
    BlackBalanced(f.other) && BH(f.other) == h && Fits(path[..|path| - 1], h + Weight(f.info.color))
  }

  /** No red node on or beside `path` has a red child, the subtree at the bottom being red iff `red`. */
  predicate Clean(path: Path, red: bool)
    decreases |path|
  {
    path == [] ||
    var f := path[|path| - 1];
    NoRedRed(f.other) && (f.info.color == Red ==> !red && !IsRed(f.other)) && Clean(path[..|path| - 1], f.info.color == Red)
  }

  /** A node made of a frame and a subtree keeps the rules iff both halves do, with equal black heights and no red-red edge at the top. */
  lemma AttachOk(f: Frame<int, RbInfo>, t: RbTree)
    ensures var n := Attach(f, t);
      (RbOk(n) <==> RbOk(t) && RbOk(f.other) && BH(t) == BH(f.other) && (f.info.color == Red ==> !IsRed(t) && !IsRed(f.other)))
      && (BH(t) == BH(f.other) ==> BH(n) == BH(t) + Weight(f.info.color))
      && IsRed(n) == (f.info.color == Red)
  {
  }

  /** The whole tree keeps the red-black rules iff the subtree at the bottom of the path does, fits and is clean. */
  lemma {:induction false} PlugOk(path: Path, u: RbTree)
    ensures RbOk(Plug(path, u)) <==> RbOk(u) && Fits(path, BH(u)) && Clean(path, IsRed(u))
    decreases |path|
  {
    if path != [] {
      var init, f := path[..|path| - 1], path[|path| - 1];
      assert init + [f] == path;
      PlugSnoc(init, f, u);
      PlugOk(init, Attach(f, u));
      AttachOk(f, u);
    }
  }

  /** `Fits` one frame up. */
  lemma FitsSnoc(init: Path, f: Frame<int, RbInfo>, h: nat)
    ensures Fits(init + [f], h) <==> BlackBalanced(f.other) && BH(f.other) == h && Fits(init, h + Weight(f.info.color))
  {
    assert (init + [f])[..|init|] == init;
  }

  /** `Clean` one frame up. */
  lemma CleanSnoc(init: Path, f: Frame<int, RbInfo>, red: bool)
    ensures Clean(init + [f], red) <==>
      NoRedRed(f.other) && (f.info.color == Red ==> !red && !IsRed(f.other)) && Clean(init, f.info.color == Red)
  {
    assert (init + [f])[..|init|] == init;
  }

  /** A clean path under a red subtree is clean under a black one. */
  lemma CleanUnderBlack(path: Path)
    requires Clean(path, true)
    ensures Clean(path, false)
  {
  }

  /** Recolouring the subtree at the bottom of a path changes nothing that colours do not decide. */
  lemma {:induction false} StripPlug(path: Path, u: RbTree, v: RbTree)
    requires Strip(u) == Strip(v)
    ensures Strip(Plug(path, u)) == Strip(Plug(path, v))
    decreases |path|
  {
    if path != [] {
      var init, f := path[..|path| - 1], path[|path| - 1];
      assert init + [f] == path;
      PlugSnoc(init, f, u);
      PlugSnoc(init, f, v);
      assert Strip(Attach(f, u)) == Strip(Attach(f, v));
      StripPlug(init, Attach(f, u), Attach(f, v));
    }
  }

  /** Recolouring inside a tree keeps its keys, its shape and its order. */
  lemma RecolourIn(path: Path, u: RbTree, v: RbTree)
    requires Strip(u) == Strip(v)
    ensures var a, b := Plug(path, u), Plug(path, v);
      Keys(a) == Keys(b) && LeafKeys(a) == LeafKeys(b) && Full(a) == Full(b)
      && Ordered(a, External) == Ordered(b, External) && Ordered(a, Internal) == Ordered(b, Internal)
  {
    StripPlug(path, u, v);
    Recoloured(Plug(path, u), Plug(path, v));
  }

  /**
   * A rotation inside a tree keeps its keys and its order; in an external
   * tree the rotated child must be an inner node, and the leaves and the
   * shape stay too.
   */
  lemma RotateIn(path: Path, u: RbTree, d: Dir, pol: Policy)
    requires u.Node? && Child(u, Flip(d)).Node? && Ordered(Plug(path, u), pol)
    requires pol == External ==> Full(Plug(path, u)) && !IsLeaf(Child(u, Flip(d)))
    ensures var a, b := Plug(path, u), Plug(path, Rotate(u, d));
      Ordered(b, pol) && Content(b, pol) == Content(a, pol) && Keys(b) == Keys(a)
      && (pol == External ==> Full(b))
  {
    if pol == External {
      FullPlug(path, u);
    }
    OrderedFocus(path, u, pol);
    RotateOrdered(u, d, pol);
    RotateKeys(u, d);
    KeysPlug(path, u);
    KeysPlug(path, Rotate(u, d));
    if pol == External {
      RotateLeaves(u, d);
      ExtReplaceSame(path, u, Rotate(u, d));
    } else {
      IntReplaceSame(path, u, Rotate(u, d));
    }
  }

  // ---------------------------------------------------------------------
  // The insert fix-up
  // ---------------------------------------------------------------------

  /**
   * The insert fix-up's invariant at a red node `x`: `x` keeps the rules
   * below it, and hung at the bottom of the stack it balances everything
   * above and makes no red-red edge except perhaps with a red parent.
   */
  predicate Climbing(path: Path, x: RbTree)
  {
    IsRed(x) && RbOk(x) && Fits(path, BH(x)) && Clean(path, false)
  }

  /** A new red node with no children satisfies the invariant wherever a balanced tree had NULL. */
  lemma NewLeafClimbing(path: Path, key: int, value: int)
    requires RbOk(Plug(path, Nil))
    ensures Climbing(path, NewNode(key, value))
  {
    PlugOk(path, Nil);
  }

  /** Under a black parent (or at the root) the fix-up is over: the tree keeps the rules. */
  lemma ClimbDone(path: Path, x: RbTree)
    requires Climbing(path, x) && (path == [] || path[|path| - 1].info.color == Black)
    ensures RbOk(Plug(path, x))
  {
    PlugOk(path, x);
  }

  /** With the parent at the root, painting the root black ends the fix-up; so does painting `x` black at the root. */
  lemma ClimbToRoot(path: Path, x: RbTree)
    requires Climbing(path, x) && |path| <= 1
    ensures var t := Plug(path, x); t.Node? && RbOk(Paint(t, Black)) && BH(Paint(t, Black)) == BH(x) + 1
  {
    if path == [] {
      PaintKeeps(x, Black);
    } else {
      var f := path[0];
      assert Plug(path, x) == Attach(f, x);
      assert Paint(Attach(f, x), Black) == Attach(PaintFrame(f, Black), x);
      AttachOk(PaintFrame(f, Black), x);
    }
  }

  /**
   * The colour flip: a red uncle turns black with the parent, and the
   * grandparent turns red and becomes the node the fix-up looks at next.
   */
  function FlipUp(g: Frame<int, RbInfo>, p: Frame<int, RbInfo>, x: RbTree): (r: RbTree)
    requires g.other.Node?
    ensures r.Node? && r.key == g.key && r.info == RbInfo(Red, g.info.value)
    ensures Strip(r) == Strip(Attach(g, Attach(p, x)))
  {
    Attach(Frame(g.dir, g.key, RbInfo(Red, g.info.value), Paint(g.other, Black)), Attach(PaintFrame(p, Black), x))
  }

  /** After a colour flip the grandparent, two frames up, satisfies the invariant. */
  lemma FlipUpStep(path: Path, x: RbTree)
    requires Climbing(path, x) && |path| >= 2
    requires path[|path| - 1].info.color == Red && IsRed(path[|path| - 2].other)
    ensures var n := |path|;
      Climbing(path[..n - 2], FlipUp(path[n - 2], path[n - 1], x))
      && Strip(Plug(path[..n - 2], FlipUp(path[n - 2], path[n - 1], x))) == Strip(Plug(path, x))
  {
    var n := |path|;
    var init, g, p := path[..n - 2], path[n - 2], path[n - 1];
    assert path[..n - 1] == init + [g] && path == init + [g] + [p];
    var h := BH(x);
    FitsSnoc(init + [g], p, h);
    FitsSnoc(init, g, h);
    CleanSnoc(init + [g], p, false);
    CleanSnoc(init, g, true);
    var u := g.other;
    PaintKeeps(u, Black);
    var pn := Attach(PaintFrame(p, Black), x);
    AttachOk(PaintFrame(p, Black), x);
    assert RbOk(pn) && BH(pn) == h + 1;
    assert RbOk(Paint(u, Black)) && BH(Paint(u, Black)) == h + 1;
    var gf := Frame(g.dir, g.key, RbInfo(Red, g.info.value), Paint(u, Black));
    AttachOk(gf, pn);
    PlugSnoc(path[..n - 1], p, x);
    PlugSnoc(init, g, Attach(p, x));
    StripPlug(init, FlipUp(g, p, x), Attach(g, Attach(p, x)));
  }

  /**
   * The single rotation of an outer grandchild `x` (`x` on the same side of
   * the parent as the parent of the grandparent): the parent rises and turns
   * black, the grandparent goes down and turns red.
   */
  function TurnOuter(g: Frame<int, RbInfo>, p: Frame<int, RbInfo>, x: RbTree): (r: RbTree)
    requires p.dir == g.dir
    ensures r == Attach(Frame(g.dir, p.key, RbInfo(Black, p.info.value), Attach(Frame(g.dir, g.key, RbInfo(Red, g.info.value), g.other), p.other)), x)
  {
    Rotate(Attach(PaintFrame(g, Red), Attach(PaintFrame(p, Black), x)), Flip(g.dir))
  }

  /** The outer rotation ends the fix-up: the tree keeps the rules, with the grandparent's black height. */
  lemma TurnOuterStep(path: Path, x: RbTree)
    requires Climbing(path, x) && |path| >= 2
    requires path[|path| - 1].info.color == Red && !IsRed(path[|path| - 2].other)
    requires path[|path| - 1].dir == path[|path| - 2].dir
    ensures var n := |path|;
      RbOk(Plug(path[..n - 2], TurnOuter(path[n - 2], path[n - 1], x))) && !IsRed(TurnOuter(path[n - 2], path[n - 1], x))
  {
    var n := |path|;
    var init, g, p := path[..n - 2], path[n - 2], path[n - 1];
    assert path[..n - 1] == init + [g] && path == init + [g] + [p];
    var h := BH(x);
    FitsSnoc(init + [g], p, h);
    FitsSnoc(init, g, h);
    CleanSnoc(init + [g], p, false);
    CleanSnoc(init, g, true);
    var gn := Attach(Frame(g.dir, g.key, RbInfo(Red, g.info.value), g.other), p.other);
    AttachOk(Frame(g.dir, g.key, RbInfo(Red, g.info.value), g.other), p.other);
    assert RbOk(gn) && BH(gn) == h && !IsRed(p.other);
    var r := TurnOuter(g, p, x);
    AttachOk(Frame(g.dir, p.key, RbInfo(Black, p.info.value), gn), x);
    assert RbOk(r) && BH(r) == h + 1;
    PlugOk(init, r);
  }

  /** The outer rotation keeps the keys and the order of the whole tree. */
  lemma TurnOuterOrder(path: Path, x: RbTree, pol: Policy)
    requires |path| >= 2 && path[|path| - 1].dir == path[|path| - 2].dir && Ordered(Plug(path, x), pol) && Present(x, pol)
    requires pol == External ==> Full(Plug(path, x)) && x.Node?
    ensures var n := |path|; var a, b := Plug(path, x), Plug(path[..n - 2], TurnOuter(path[n - 2], path[n - 1], x));
      Ordered(b, pol) && Content(b, pol) == Content(a, pol) && Keys(b) == Keys(a) && (pol == External ==> Full(b))
  {
    var n := |path|;
    var init, g, p := path[..n - 2], path[n - 2], path[n - 1];
    assert path[..n - 1] == init + [g];
    PlugSnoc(path[..n - 1], p, x);
    PlugSnoc(init, g, Attach(p, x));
    var u := Attach(g, Attach(p, x));
    var v := Attach(PaintFrame(g, Red), Attach(PaintFrame(p, Black), x));
    assert Strip(v) == Strip(u);
    RecolourIn(init, v, u);
    if pol == External {
      FullPlug(init, v);
    }
    RotateIn(init, v, Flip(g.dir), pol);
  }

  /**
   * The first half of the rotations for an inner grandchild `x`: the parent
   * rotates down away from `x`, and the old parent, still red, becomes the
   * node looked at, now an outer grandchild under `x`.
   */
  function InnerToOuter(path: Path, x: RbTree): (r: (Path, RbTree))
    requires path != [] && x.Node?
    ensures var p := path[|path| - 1];
      r.0 == path[..|path| - 1] + [Frame(Flip(p.dir), x.key, x.info, Child(x, p.dir))]
      && r.1 == Attach(Frame(p.dir, p.key, p.info, p.other), Child(x, Flip(p.dir)))
  {
    var p := path[|path| - 1];
    (path[..|path| - 1] + [Frame(Flip(p.dir), x.key, x.info, Child(x, p.dir))],
     Attach(Frame(p.dir, p.key, p.info, p.other), Child(x, Flip(p.dir))))
  }

  /** The first half of the inner rotations is the rotation at the parent, and the invariant holds at the old parent, now an outer grandchild. */
  lemma InnerToOuterStep(path: Path, x: RbTree)
    requires Climbing(path, x) && |path| >= 2
    requires path[|path| - 1].info.color == Red && path[|path| - 1].dir != path[|path| - 2].dir
    ensures var n := |path|; var (q, z) := InnerToOuter(path, x);
      Climbing(q, z) && |q| == n && q[..n - 1] == path[..n - 1]
      && q[n - 1].info.color == Red && q[n - 1].dir == path[n - 2].dir
      && Plug(q, z) == Plug(path[..n - 1], Rotate(Attach(path[n - 1], x), path[n - 2].dir))
  {
    var n := |path|;
    var init, p := path[..n - 1], path[n - 1];
    var (q, z) := InnerToOuter(path, x);
    assert path == init + [p];
    var h := BH(x);
    FitsSnoc(init, p, h);
    CleanSnoc(init, p, false);
    var xf := Frame(Flip(p.dir), x.key, x.info, Child(x, p.dir));
    AttachOk(FrameOf(x, p.dir), Child(x, p.dir));
    AttachFrameOf(x, p.dir);
    AttachOk(Frame(p.dir, p.key, p.info, p.other), Child(x, Flip(p.dir)));
    assert RbOk(z) && BH(z) == h && IsRed(z);
    FitsSnoc(init, xf, h);
    CleanSnoc(init, xf, false);
    PlugSnoc(init, xf, z);
    PlugSnoc(init, p, x);
    assert q[..n - 1] == init;
  }

  /**
   * The double rotation of an inner grandchild `x`: `x` rises over both
   * its parent and the grandparent and turns black, the grandparent turns
   * red.
   */
  function TurnInner(g: Frame<int, RbInfo>, p: Frame<int, RbInfo>, x: RbTree): (r: RbTree)
    requires p.dir != g.dir && x.Node?
    ensures r.Node? && r.key == x.key && r.info == RbInfo(Black, x.info.value)
  {
    var t := Attach(PaintFrame(g, Red), Attach(p, Paint(x, Black)));
    RotateDoubleShape(t, Flip(g.dir));
    RotateDouble(t, Flip(g.dir))
  }

  /** The double rotation is the rotation at the parent followed by the single rotation at the grandparent. */
  lemma TurnInnerIsTwoTurns(path: Path, x: RbTree)
    requires |path| >= 2 && x.Node? && path[|path| - 1].dir != path[|path| - 2].dir
    ensures var n := |path|; var (q, z) := InnerToOuter(path, x);
      q[n - 1].dir == q[n - 2].dir
      && TurnInner(path[n - 2], path[n - 1], x) == TurnOuter(q[n - 2], q[n - 1], z)
  {
    var n := |path|;
    var g, p := path[n - 2], path[n - 1];
    var (q, z) := InnerToOuter(path, x);
    assert q[n - 2] == g;
    var t := Attach(PaintFrame(g, Red), Attach(p, Paint(x, Black)));
    RotateDoubleShape(t, Flip(g.dir));
    if g.dir == Left {
      assert TurnInner(g, p, x) == TurnOuter(q[n - 2], q[n - 1], z);
    } else {
      assert TurnInner(g, p, x) == TurnOuter(q[n - 2], q[n - 1], z);
    }
  }

  /** The double rotation ends the fix-up: the tree keeps the rules, and the subtree's new top is black. */
  lemma TurnInnerStep(path: Path, x: RbTree)
    requires Climbing(path, x) && |path| >= 2
    requires path[|path| - 1].info.color == Red && !IsRed(path[|path| - 2].other)
    requires path[|path| - 1].dir != path[|path| - 2].dir
    ensures var n := |path|;
      RbOk(Plug(path[..n - 2], TurnInner(path[n - 2], path[n - 1], x)))
  {
    var n := |path|;
    var (q, z) := InnerToOuter(path, x);
    InnerToOuterStep(path, x);
    TurnInnerIsTwoTurns(path, x);
    assert q[..n - 2] == path[..n - 2] by {
      assert q[..n - 1] == path[..n - 1];
      assert q[..n - 2] == q[..n - 1][..n - 2];
    }
    TurnOuterStep(q, z);
  }

  /** The double rotation keeps the keys and the order of the whole tree; in an external tree `x` must be an inner node. */
  lemma TurnInnerOrder(path: Path, x: RbTree, pol: Policy)
    requires |path| >= 2 && path[|path| - 1].dir != path[|path| - 2].dir && Ordered(Plug(path, x), pol) && x.Node?
    requires pol == External ==> Full(Plug(path, x)) && !IsLeaf(x)
    ensures var n := |path|; var a, b := Plug(path, x), Plug(path[..n - 2], TurnInner(path[n - 2], path[n - 1], x));
      Ordered(b, pol) && Content(b, pol) == Content(a, pol) && Keys(b) == Keys(a) && (pol == External ==> Full(b))
  {
    var n := |path|;
    var init, p := path[..n - 1], path[n - 1];
    var (q, z) := InnerToOuter(path, x);
    assert path == init + [p];
    PlugSnoc(init, p, x);
    var xf := Frame(Flip(p.dir), x.key, x.info, Child(x, p.dir));
    PlugSnoc(init, xf, z);
    AttachFrameOf(x, p.dir);
    assert Plug(q, z) == Plug(init, Rotate(Attach(p, x), Flip(p.dir)));
    RotateIn(init, Attach(p, x), Flip(p.dir), pol);
    TurnInnerIsTwoTurns(path, x);
    assert q[..n - 2] == path[..n - 2] by {
      assert q[..n - 1] == init;
      assert q[..n - 2] == q[..n - 1][..n - 2];
    }
    if pol == External {
      AttachFrameOf(x, p.dir);
      assert !IsLeaf(x) && Full(x) by {
        FullPlug(path, x);
      }
    }
    TurnOuterOrder(q, z, pol);
  }

  // ---------------------------------------------------------------------
  // The delete fix-up
  // ---------------------------------------------------------------------

  /** The subtree with its root painted black; NULL stays NULL. */
  function Blacken(x: RbTree): (r: RbTree)
    ensures !IsRed(r) && Strip(r) == Strip(x)
    ensures !IsRed(x) ==> r == x
  {
    if x.Nil? then x else Paint(x, Black)
  }

  /**
   * The delete fix-up's invariant at `x`, a subtree one black node short:
   * painted black, `x` keeps the rules; one black node more would make it
   * fit at the bottom of the stack; and nothing on or beside the path has a
   * red-red edge.
   */
  predicate Short(path: Path, x: RbTree)
  {
    RbOk(Blacken(x)) && Fits(path, BH(x) + 1) && Clean(path, false)
  }

  /**
   * Unlinking a node `y` with at most one child `c` from a tree that keeps
   * the rules: a red `y` leaves a tree that keeps them, a black one leaves
   * `c` one black node short.
   */
  lemma {:induction false} SpliceOk(path: Path, y: RbTree, c: RbTree)
    requires RbOk(Plug(path, y)) && y.Node? && (y.left.Nil? || y.right.Nil?)
    requires c == (if y.left.Nil? then y.right else y.left)
    ensures y.info.color == Red ==> c.Nil? && RbOk(Plug(path, c))
    ensures y.info.color == Black ==> Short(path, c)
  {
    assert RbOk(y) && Fits(path, BH(y)) && Clean(path, IsRed(y)) by {
      PlugOk(path, y);
    }
    OnlyChild(y, c);
    if y.info.color == Red {
      assert c.Nil? && BH(y) == 0;
      CleanUnderBlack(path);
      assert RbOk(Plug(path, c)) by {
        PlugOk(path, c);
      }
    } else if c.Node? {
      PaintKeeps(c, Black);
    }
  }

  /** The only child of a node that keeps the rules keeps them, one black node below it; under a red node it is NULL. */
  lemma OnlyChild(y: RbTree, c: RbTree)
    requires RbOk(y) && y.Node? && (y.left.Nil? || y.right.Nil?)
    requires c == (if y.left.Nil? then y.right else y.left)
    ensures RbOk(c) && BH(y) == BH(c) + Weight(y.info.color)
    ensures y.info.color == Red ==> c.Nil?
  {
    if y.info.color == Red {
      assert !IsRed(c) && BH(c) == 0;
    }
  }

  /** A red `x` painted black ends the fix-up. */
  lemma ShortRed(path: Path, x: RbTree)
    requires Short(path, x) && IsRed(x)
    ensures RbOk(Plug(path, Paint(x, Black)))
  {
    PaintKeeps(x, Black);
    PlugOk(path, Paint(x, Black));
  }

  /** A black `x` at the root ends the fix-up: the whole tree is one black node shorter. */
  lemma ShortAtRoot(x: RbTree)
    requires Short([], x) && !IsRed(x)
    ensures RbOk(x)
  {
  }

  /** Above a short subtree the sibling is never NULL: it has a black node more than `x`. */
  lemma SiblingExists(path: Path, x: RbTree)
    requires Short(path, x) && path != []
    ensures path[|path| - 1].other.Node?
  {
    var init, p := path[..|path| - 1], path[|path| - 1];
    assert path == init + [p];
    FitsSnoc(init, p, BH(x) + 1);
  }

  /**
   * Case 1, a red sibling: the sibling turns black and rises over the
   * parent, which turns red; the short subtree gets the sibling's near
   * child, a black node, as its new sibling.
   */
  function LiftSibling(path: Path): (q: Path)
    requires path != [] && path[|path| - 1].other.Node?
    ensures var n, p := |path|, path[|path| - 1]; var s := p.other;
      |q| == n + 1 && q[..n - 1] == path[..n - 1]
      && q[n - 1] == Frame(p.dir, s.key, RbInfo(Black, s.info.value), Child(s, Flip(p.dir)))
      && q[n] == Frame(p.dir, p.key, RbInfo(Red, p.info.value), Child(s, p.dir))
  {
    var n, p := |path|, path[|path| - 1];
    var s := p.other;
    path[..n - 1] + [Frame(p.dir, s.key, RbInfo(Black, s.info.value), Child(s, Flip(p.dir))),
                     Frame(p.dir, p.key, RbInfo(Red, p.info.value), Child(s, p.dir))]
  }

  /** Case 1 is a rotation at the recoloured parent, toward `x`. */
  lemma LiftSiblingPlug(path: Path, x: RbTree)
    requires path != [] && path[|path| - 1].other.Node?
    ensures var n, p := |path|, path[|path| - 1];
      var u := Attach(Frame(p.dir, p.key, RbInfo(Red, p.info.value), Paint(p.other, Black)), x);
      Plug(path, x) == Plug(path[..n - 1], Attach(p, x))
      && Plug(LiftSibling(path), x) == Plug(path[..n - 1], Rotate(u, p.dir))
  {
    var n, p := |path|, path[|path| - 1];
    var q := LiftSibling(path);
    var init := path[..n - 1];
    assert path == init + [p];
    PlugSnoc(init, p, x);
    assert q == init + [q[n - 1]] + [q[n]];
    PlugSnoc(init + [q[n - 1]], q[n], x);
    PlugSnoc(init, q[n - 1], Attach(q[n], x));
  }

  /** Case 1 keeps the invariant and leaves a red parent over a black sibling. */
  lemma LiftSiblingStep(path: Path, x: RbTree)
    requires Short(path, x) && path != [] && IsRed(path[|path| - 1].other)
    ensures var q := LiftSibling(path); var n := |q|;
      Short(q, x) && q[n - 1].info.color == Red && q[n - 1].other.Node? && !IsRed(q[n - 1].other)
  {
    var n, p := |path|, path[|path| - 1];
    var s := p.other;
    var init := path[..n - 1];
    var q := LiftSibling(path);
    var h := BH(x);
    assert path == init + [p];
    FitsSnoc(init, p, h + 1);
    CleanSnoc(init, p, false);
    assert q == init + [q[n - 1]] + [q[n]];
    FitsSnoc(init + [q[n - 1]], q[n], h + 1);
    FitsSnoc(init, q[n - 1], h + 1);
    CleanSnoc(init + [q[n - 1]], q[n], false);
    CleanSnoc(init, q[n - 1], true);
  }

  /** Case 1 keeps the keys and the order; in an external tree the red sibling is an inner node. */
  lemma LiftSiblingOrder(path: Path, x: RbTree, pol: Policy)
    requires path != [] && path[|path| - 1].other.Node? && Ordered(Plug(path, x), pol)
    requires pol == External ==> Full(Plug(path, x)) && !IsLeaf(path[|path| - 1].other)
    ensures var a, b := Plug(path, x), Plug(LiftSibling(path), x);
      Ordered(b, pol) && Content(b, pol) == Content(a, pol) && Keys(b) == Keys(a) && (pol == External ==> Full(b))
  {
    var n, p := |path|, path[|path| - 1];
    var u := Attach(Frame(p.dir, p.key, RbInfo(Red, p.info.value), Paint(p.other, Black)), x);
    LiftSiblingPlug(path, x);
    RecolourIn(path[..n - 1], Attach(p, x), u);
    if pol == External {
      PaintKeeps(p.other, Black);
    }
    RotateIn(path[..n - 1], u, p.dir, pol);
  }

  /** Case 2: a black sibling with no red child turns red, and the parent becomes the short subtree. */
  function PushUp(p: Frame<int, RbInfo>, x: RbTree): (r: RbTree)
    requires p.other.Node?
    ensures r.Node? && r.key == p.key && r.info == p.info && Strip(r) == Strip(Attach(p, x))
  {
    Attach(Frame(p.dir, p.key, p.info, Paint(p.other, Red)), x)
  }

  /** Case 2 moves the invariant one frame up and changes no key and no link; `x` may be red over black children. */
  lemma PushUpStep(path: Path, x: RbTree)
    requires Short(path, x) && path != [] && RbOk(x)
    requires var s := path[|path| - 1].other; s.Node? && !IsRed(s) && !IsRed(s.left) && !IsRed(s.right)
    ensures var n, p := |path|, path[|path| - 1];
      Short(path[..n - 1], PushUp(p, x)) && Strip(Plug(path[..n - 1], PushUp(p, x))) == Strip(Plug(path, x))
  {
    var n, p := |path|, path[|path| - 1];
    var s := p.other;
    var init := path[..n - 1];
    var h := BH(x);
    assert path == init + [p];
    FitsSnoc(init, p, h + 1);
    CleanSnoc(init, p, false);
    PaintKeeps(s, Red);
    var r := PushUp(p, x);
    var pf := Frame(p.dir, p.key, p.info, Paint(s, Red));
    AttachOk(PaintFrame(pf, Black), x);
    assert Blacken(r) == Attach(PaintFrame(pf, Black), x);
    AttachOk(pf, x);
    PlugSnoc(init, p, x);
    StripPlug(init, r, Attach(p, x));
  }

  /**
   * Case 4, a black sibling whose near child is red and far child black:
   * the near child turns black and rises over the sibling, which turns
   * red, and becomes the new sibling, now with a red far child.
   */
  function TurnNear(path: Path): (q: Path)
    requires path != [] && path[|path| - 1].other.Node?
    requires Child(path[|path| - 1].other, path[|path| - 1].dir).Node?
    ensures var n, p := |path|, path[|path| - 1];
      |q| == n && q[..n - 1] == path[..n - 1] && q[n - 1].dir == p.dir && q[n - 1].key == p.key && q[n - 1].info == p.info
  {
    var n, p := |path|, path[|path| - 1];
    var s, d := p.other, p.dir;
    var t := WithChild(Paint(s, Red), d, Paint(Child(s, d), Black));
    path[..n - 1] + [Frame(d, p.key, p.info, Rotate(t, Flip(d)))]
  }

  /** Case 4 keeps the invariant and leaves a black sibling with a red far child. */
  lemma TurnNearStep(path: Path, x: RbTree)
    requires Short(path, x) && path != []
    requires var p := path[|path| - 1]; var s := p.other;
      s.Node? && !IsRed(s) && IsRed(Child(s, p.dir)) && !IsRed(Child(s, Flip(p.dir)))
    ensures var q := TurnNear(path); var f := q[|q| - 1];
      Short(q, x) && f.other.Node? && !IsRed(f.other) && IsRed(Child(f.other, Flip(f.dir)))
  {
    var n, p := |path|, path[|path| - 1];
    var s, d := p.other, p.dir;
    var init := path[..n - 1];
    var h := BH(x);
    assert path == init + [p];
    FitsSnoc(init, p, h + 1);
    CleanSnoc(init, p, false);
    assert RbOk(s) && BH(s) == h + 1;
    TurnNearSibling(s, d);
    var s2 := Rotate(WithChild(Paint(s, Red), d, Paint(Child(s, d), Black)), Flip(d));
    var q := TurnNear(path);
    assert q == init + [Frame(d, p.key, p.info, s2)];
    FitsSnoc(init, q[n - 1], h + 1);
    CleanSnoc(init, q[n - 1], false);
  }

  /** Case 4 at the sibling: the rotated sibling keeps the rules and its black height, and its far child is red. */
  lemma TurnNearSibling(s: RbTree, d: Dir)
    requires s.Node? && RbOk(s) && !IsRed(s) && IsRed(Child(s, d)) && !IsRed(Child(s, Flip(d)))
    ensures var s2 := Rotate(WithChild(Paint(s, Red), d, Paint(Child(s, d), Black)), Flip(d));
      s2.Node? && RbOk(s2) && BH(s2) == BH(s) && !IsRed(s2) && IsRed(Child(s2, Flip(d)))
  {
    var near := Child(s, d);
    AttachFrameOf(s, d);
    AttachOk(FrameOf(s, d), near);
    AttachFrameOf(near, d);
    AttachOk(FrameOf(near, d), Child(near, d));
    PaintKeeps(near, Black);
    var t := WithChild(Paint(s, Red), d, Paint(near, Black));
    var s2 := Rotate(t, Flip(d));
    var lf := Frame(d, s.key, RbInfo(Red, s.info.value), Child(s, Flip(d)));
    var lo := Attach(lf, Child(near, Flip(d)));
    AttachOk(lf, Child(near, Flip(d)));
    var nf := Frame(Flip(d), near.key, RbInfo(Black, near.info.value), Child(near, d));
    AttachOk(nf, lo);
    assert s2 == Attach(nf, lo);
  }

  /** Case 4 keeps the keys and the order; in an external tree the red near child is an inner node. */
  lemma TurnNearOrder(path: Path, x: RbTree, pol: Policy)
    requires path != [] && Ordered(Plug(path, x), pol)
    requires var p := path[|path| - 1]; p.other.Node? && Child(p.other, p.dir).Node?
    requires pol == External ==> Full(Plug(path, x)) && !IsLeaf(Child(path[|path| - 1].other, path[|path| - 1].dir))
    ensures var a, b := Plug(path, x), Plug(TurnNear(path), x);
      Ordered(b, pol) && Content(b, pol) == Content(a, pol) && Keys(b) == Keys(a) && (pol == External ==> Full(b))
  {
    var n, p := |path|, path[|path| - 1];
    var s, d := p.other, p.dir;
    var init := path[..n - 1];
    var t := WithChild(Paint(s, Red), d, Paint(Child(s, d), Black));
    var pf := Frame(Flip(d), p.key, p.info, x);
    assert path == init + [p];
    PlugSnoc(init, p, x);
    PlugSnoc(init, pf, s);
    PlugSnoc(init, pf, t);
    PlugSnoc(init, pf, Rotate(t, Flip(d)));
    assert Attach(pf, s) == Attach(p, x);
    var q := TurnNear(path);
    assert q == init + [Frame(d, p.key, p.info, Rotate(t, Flip(d)))];
    PlugSnoc(init, q[n - 1], x);
    assert Attach(pf, Rotate(t, Flip(d))) == Attach(q[n - 1], x);
    RecolourIn(init + [pf], s, t);
    if pol == External {
      PaintKeeps(Child(s, d), Black);
    }
    RotateIn(init + [pf], t, Flip(d), pol);
  }

  /** The node rotated to the top of a subtree gets colour `c`, its two children turn black. */
  function Settle(t: RbTree, c: Color): (r: RbTree)
    requires t.Node? && t.left.Node? && t.right.Node?
    ensures r.Node? && r.key == t.key && r.info.color == c && !IsRed(r.left) && !IsRed(r.right) && Strip(r) == Strip(t)
  {
    Node(Paint(t.left, Black), t.key, RbInfo(c, t.info.value), Paint(t.right, Black))
  }

  /**
   * Case 3, a black sibling with a red far child: the sibling rises over
   * the parent and takes its colour; the parent and the far child turn
   * black.
   */
  function TurnFar(p: Frame<int, RbInfo>, x: RbTree): (r: RbTree)
    requires p.other.Node? && Child(p.other, Flip(p.dir)).Node?
    ensures r.Node? && r.key == p.other.key && r.info.color == p.info.color
  {
    var u := Attach(p, x);
    var r := Rotate(u, p.dir);
    assert Child(r, Flip(p.dir)) == Child(p.other, Flip(p.dir));
    Settle(r, p.info.color)
  }

  /** Case 3 ends the fix-up: the subtree regains its black node and the tree keeps the rules; `x` may be red over black children. */
  lemma TurnFarStep(path: Path, x: RbTree)
    requires Short(path, x) && path != [] && RbOk(x)
    requires var p := path[|path| - 1]; var s := p.other;
      s.Node? && !IsRed(s) && IsRed(Child(s, Flip(p.dir)))
    ensures var n, p := |path|, path[|path| - 1]; RbOk(Plug(path[..n - 1], TurnFar(p, x)))
  {
    var n, p := |path|, path[|path| - 1];
    var s, d := p.other, p.dir;
    var init := path[..n - 1];
    var h := BH(x);
    assert path == init + [p];
    FitsSnoc(init, p, h + 1);
    CleanSnoc(init, p, false);
    var pb := Attach(Frame(d, p.key, RbInfo(Black, p.info.value), Child(s, d)), x);
    AttachOk(Frame(d, p.key, RbInfo(Black, p.info.value), Child(s, d)), x);
    assert RbOk(pb) && BH(pb) == h + 1;
    var far := Child(s, Flip(d));
    PaintKeeps(far, Black);
    var top := Attach(Frame(d, s.key, RbInfo(p.info.color, s.info.value), Paint(far, Black)), pb);
    AttachOk(Frame(d, s.key, RbInfo(p.info.color, s.info.value), Paint(far, Black)), pb);
    assert TurnFar(p, x) == top;
    PlugOk(init, top);
  }

  /** Case 3 keeps the keys and the order. */
  lemma TurnFarOrder(path: Path, x: RbTree, pol: Policy)
    requires path != [] && Ordered(Plug(path, x), pol)
    requires var p := path[|path| - 1]; p.other.Node? && Child(p.other, Flip(p.dir)).Node?
    requires pol == External ==> Full(Plug(path, x))
    ensures var n, p := |path|, path[|path| - 1]; var a, b := Plug(path, x), Plug(path[..n - 1], TurnFar(p, x));
      Ordered(b, pol) && Content(b, pol) == Content(a, pol) && Keys(b) == Keys(a) && (pol == External ==> Full(b))
  {
    var n, p := |path|, path[|path| - 1];
    var init := path[..n - 1];
    assert path == init + [p];
    PlugSnoc(init, p, x);
    var u := Attach(p, x);
    RotateIn(init, u, p.dir, pol);
    RecolourIn(init, Rotate(u, p.dir), TurnFar(p, x));
  }

  /**
   * Cases 4 and 3 in one double rotation: the near child rises over both
   * the sibling and the parent and takes the parent's colour; the sibling
   * and the parent turn black.
   */
  function TurnNearFar(p: Frame<int, RbInfo>, x: RbTree): (r: RbTree)
    requires p.other.Node? && Child(p.other, p.dir).Node?
    ensures r.Node? && r.key == Child(p.other, p.dir).key && r.info.color == p.info.color
  {
    var u := Attach(p, x);
    RotateDoubleShape(u, p.dir);
    Settle(RotateDouble(u, p.dir), p.info.color)
  }

  /** The double rotation is case 4 followed by case 3. */
  lemma TurnNearFarIsTwoTurns(path: Path, x: RbTree)
    requires path != [] && var p := path[|path| - 1]; p.other.Node? && !IsRed(p.other) && Child(p.other, p.dir).Node?
    ensures var p, q := path[|path| - 1], TurnNear(path); var f := q[|q| - 1];
      f.other.Node? && Child(f.other, Flip(f.dir)).Node? && TurnNearFar(p, x) == TurnFar(f, x)
  {
    var n, p := |path|, path[|path| - 1];
    var s, d := p.other, p.dir;
    var t := WithChild(Paint(s, Red), d, Paint(Child(s, d), Black));
    var q := TurnNear(path);
    assert q[n - 1] == Frame(d, p.key, p.info, Rotate(t, Flip(d)));
    RotateDoubleShape(Attach(p, x), d);
    if d == Left {
      assert TurnNearFar(p, x) == TurnFar(q[n - 1], x);
    } else {
      assert TurnNearFar(p, x) == TurnFar(q[n - 1], x);
    }
  }
}
