/**
 * The sequential operations of rbt/rbt_mappouras_fg_tsx.c: Julienne
 * Walker's top-down internal red-black tree (`jsw_*2`), one pass down for
 * insert and one for remove, each recolouring and rotating on the way so
 * that nothing needs repair going up.  A node holds only its key (`data`),
 * so every value here is 0.
 *
 * A walk is modelled on a zipper: `path` holds the frames from the root
 * down to the parent `p` of the current node `q` (the frame before it is
 * the grandparent `g`), and `Plug(path, q)` is the whole tree.  The
 * source's `head` dummy above the root is the empty path.
 */
module RbJsw {
  import opened Trees
  import opened SearchOrder
  import opened RbCore
  import opened RbBottomUp
  import opened RbInternal
  import RbTdExt
  import WarmupKeys

  // ---------------------------------------------------------------------
  // is_red, make_node, jsw_single, jsw_double
  // ---------------------------------------------------------------------

  /** `make_node(data)`: a red node with both links NULL. */
  function MakeNode(key: int): (n: RbTree)
    ensures IsLeaf(n) && IsRed(n) && n.key == key && Keys(n) == {key} && RbOk(n) && BH(n) == 0
  {
    var n := NewNode(key, 0);
    assert NoRedRed(n) && BlackBalanced(n);
    n
  }

  /**
   * `jsw_single(root, dir)`: `save = root->link[!dir]` moves up with
   * `root` as its `link[dir]`, taking over `save->link[dir]`; `root` turns
   * red and `save` black.
   */
  function JswSingle(t: RbTree, d: Dir): (r: RbTree)
    requires t.Node? && Child(t, Flip(d)).Node?
    ensures var s := Child(t, Flip(d));
      && r.Node? && Child(r, d).Node?
      && r.key == s.key && !IsRed(r) && Child(r, d).key == t.key && IsRed(Child(r, d))
      && Child(r, Flip(d)) == Child(s, Flip(d))
      && Child(Child(r, d), d) == Child(t, d) && Child(Child(r, d), Flip(d)) == Child(s, d)
    ensures Strip(r) == Strip(Rotate(t, d))
  {
    var s := Child(t, Flip(d));
    WithChild(Paint(s, Black), d, WithChild(Paint(t, Red), Flip(d), Child(s, d)))
  }

  /**
   * `jsw_double(root, dir)`: `jsw_single` of `root->link[!dir]` toward
   * `!dir`, then of `root` toward `dir`.  The grandchild `g` ends on top,
   * black, with `root` and the child below it, both red, sharing `g`'s
   * children.
   */
  function JswDouble(t: RbTree, d: Dir): (r: RbTree)
    requires t.Node? && Child(t, Flip(d)).Node? && Child(Child(t, Flip(d)), d).Node?
    ensures var s := Child(t, Flip(d)); var g := Child(s, d);
      && r.Node? && Child(r, d).Node? && Child(r, Flip(d)).Node?
      && r.key == g.key && !IsRed(r)
      && Child(r, d).key == t.key && IsRed(Child(r, d))
      && Child(Child(r, d), d) == Child(t, d) && Child(Child(r, d), Flip(d)) == Child(g, d)
      && Child(r, Flip(d)).key == s.key && IsRed(Child(r, Flip(d)))
      && Child(Child(r, Flip(d)), Flip(d)) == Child(s, Flip(d)) && Child(Child(r, Flip(d)), d) == Child(g, Flip(d))
    ensures Strip(r) == Strip(RotateDouble(t, d))
  {
    var s := Child(t, Flip(d));
    assert Flip(Flip(d)) == d;
    var inner := JswSingle(s, Flip(d));
    var t' := WithChild(t, Flip(d), inner);
    var r := JswSingle(t', d);
    assert Strip(t') == Strip(WithChild(t, Flip(d), Rotate(s, Flip(d))));
    r
  }

  /** Both rotations keep the keys and the search order. */
  lemma JswRotationsKeep(t: RbTree, d: Dir)
    requires t.Node? && Child(t, Flip(d)).Node? && Ordered(t, Internal)
    ensures Keys(JswSingle(t, d)) == Keys(t) && Ordered(JswSingle(t, d), Internal)
    ensures Child(Child(t, Flip(d)), d).Node? ==>
      Keys(JswDouble(t, d)) == Keys(t) && Ordered(JswDouble(t, d), Internal)
  {
    RotateKeys(t, d);
    RotateOrdered(t, d, Internal);
    Recoloured(JswSingle(t, d), Rotate(t, d));
    if Child(Child(t, Flip(d)), d).Node? {
      RotateDoubleKeeps(t, d, Internal);
      Recoloured(JswDouble(t, d), RotateDouble(t, d));
    }
  }

  // ---------------------------------------------------------------------
  // jsw_lookup2
  // ---------------------------------------------------------------------

  /**
   * `jsw_lookup2`: left while `data < p->data`, right while `data >
   * p->data`, 0 at a NULL link and 1 at the key.  The root is dereferenced
   * before any test, so the tree must not be empty.
   */
  method Lookup2(root: RbTree, key: int) returns (found: int)
    requires root.Node?
    ensures found == (if IntDescend(root, key).1.Node? then 1 else 0)
    ensures Ordered(root, Internal) ==> (found == 1 <==> key in Keys(root))
  {
    if Ordered(root, Internal) {
      IntDescendFinds(root, key);
    }
    var p := root;
    ghost var path: Path := [];
    assert [] + IntDescend(p, key).0 == IntDescend(p, key).0;
    while true
      invariant p.Node?
      invariant IntDescend(root, key) == (path + IntDescend(p, key).0, IntDescend(p, key).1)
      decreases p
    {
      if key < p.key {
        IntDescendStep(root, key, path, p);
        if p.left.Nil? {
          assert IntDescend(p.left, key).0 == [];
          return 0;
        }
        path := path + [FrameOf(p, Left)];
        p := p.left;
      } else if key > p.key {
        IntDescendStep(root, key, path, p);
        if p.right.Nil? {
          assert IntDescend(p.right, key).0 == [];
          return 0;
        }
        path := path + [FrameOf(p, Right)];
        p := p.right;
      } else {
        return 1;
      }
    }
  }

  // ---------------------------------------------------------------------
  // jsw_rb_assert
  // ---------------------------------------------------------------------

  /**
   * `jsw_rb_assert`: 1 for NULL; 0 for a red node with a red child, for a
   * left child not below its parent or a right child not above it, for
   * children whose counts differ, or under a child that gave 0; otherwise
   * the count of black links down to NULL, NULL counting as one.
   */
  function RbAssert(t: RbTree): (r: nat)
    ensures r != 0 <==> RbOk(t) && LocallyOrdered(t, true)
    ensures r != 0 ==> r == BH(t) + 1
  {
    match t
    case Nil => 1
    case Node(ln, k, i, rn) =>
      if i.color == Red && (IsRed(ln) || IsRed(rn)) then 0
      else
        var lh := RbAssert(ln);
        var rh := RbAssert(rn);
        if (ln.Node? && ln.key >= k) || (rn.Node? && rn.key <= k) then 0
        else if lh != 0 && rh != 0 && lh != rh then 0
        else if lh != 0 && rh != 0 then (if i.color == Red then lh else lh + 1)
        else 0
  }

  /** `rbt_validate` returns `jsw_rb_assert` of the root: every tree the operations keep passes, with its black height plus one. */
  lemma ValidPasses(t: RbTree)
    requires Valid(t)
    ensures RbAssert(t) == BH(t) + 1
  {
    InternalLocallyOrdered(t, true);
  }

  // ---------------------------------------------------------------------
  // jsw_insert2: the walk and its invariant
  // ---------------------------------------------------------------------

  /** A node the insert walk passes without recolouring it: present, black, not both children red. */
  predicate Quiet(q: RbTree)
  {
    q.Node? && !IsRed(q) && !(IsRed(q.left) && IsRed(q.right))
  }

  /**
   * The insert walk at the top of its loop, about to visit `q` (NULL where
   * the key is to go): the tree is ordered and keeps the red-black rules,
   * its root possibly red; the path is the key's search path; at the root
   * `q` is black; `q` is quiet when `p` is a red root or `p` and its
   * sibling are both red; and a red `q` with a red sibling (as a double
   * rotation leaves it) has a quiet child on the key's side.
   */
  predicate InsertInv(path: Path, q: RbTree, key: int)
  {
    var n := |path|;
    Ordered(Plug(path, q), Internal) && Routes(path, key, Internal) && RbOk(Plug(path, q))
    && (n == 0 ==> !IsRed(q))
    && (n == 1 && path[0].info.color == Red ==> Quiet(q))
    && (n >= 2 && path[n - 1].info.color == Red && IsRed(path[n - 2].other) ==> Quiet(q))
    && (n >= 1 && IsRed(q) && IsRed(path[n - 1].other) ==> Quiet(Child(q, RbTdExt.Way(q, key))))
  }

  /** What is left of the walk: twice the height below `q`, or below its child on the key's side, plus one, after a double rotation. */
  function Budget(path: Path, q: RbTree, key: int): nat
  {
    if |path| >= 1 && IsRed(q) && IsRed(path[|path| - 1].other) then 2 * Height(Child(q, RbTdExt.Way(q, key))) + 1
    else 2 * Height(q)
  }

  /** A visit of `q` before any repair: a new red node at NULL, a colour flip of a node with two red children, or nothing. */
  function Visit(q: RbTree, key: int): (q1: RbTree)
    ensures q1.Node? && q1.key == (if q.Nil? then key else q.key)
  {
    if q.Nil? then MakeNode(key)
    else if IsRed(q.left) && IsRed(q.right) then ColorFlip(q)
    else q
  }

  /** Under a red parent: `q` and its sibling are black and the grandparent is black. */
  lemma UnderRed(path: Path, q: RbTree)
    requires RbOk(Plug(path, q)) && |path| >= 1 && path[|path| - 1].info.color == Red
    ensures !IsRed(q) && !IsRed(path[|path| - 1].other)
    ensures |path| >= 2 ==> path[|path| - 2].info.color == Black
  {
    var n := |path|;
    PlugOk(path, q);
    var init := path[..n - 1];
    assert init + [path[n - 1]] == path;
    CleanSnoc(init, path[n - 1], IsRed(q));
    if n >= 2 {
      assert init[..n - 2] + [path[n - 2]] == init;
      CleanSnoc(init[..n - 2], path[n - 2], true);
    }
  }

  /** Under a black parent (or at the root) the colour of the subtree at the bottom does not matter to `Clean`. */
  lemma CleanUnderBlackParent(path: Path, a: bool, b: bool)
    requires Clean(path, a) && (path != [] ==> path[|path| - 1].info.color == Black)
    ensures Clean(path, b)
  {
    if path != [] {
      var n := |path|;
      assert path[..n - 1] + [path[n - 1]] == path;
      CleanSnoc(path[..n - 1], path[n - 1], a);
      CleanSnoc(path[..n - 1], path[n - 1], b);
    }
  }

  /** A subtree swapped for one of the same black height that keeps the rules and is black or under a black parent. */
  lemma SwapOk(path: Path, q: RbTree, u: RbTree)
    requires RbOk(Plug(path, q)) && RbOk(u) && BH(u) == BH(q)
    requires IsRed(u) ==> IsRed(q) || path == [] || path[|path| - 1].info.color == Black
    ensures RbOk(Plug(path, u))
  {
    PlugOk(path, q);
    if IsRed(u) != IsRed(q) {
      if IsRed(u) {
        CleanUnderBlackParent(path, IsRed(q), true);
      } else {
        CleanUnderBlack(path);
      }
    }
    PlugOk(path, u);
  }

  /** What a visit does: the key goes in where it was absent, a flip keeps the keys, the order, the black height and the shape. */
  lemma VisitFacts(path: Path, q: RbTree, key: int)
    requires InsertInv(path, q, key)
    ensures var q1 := Visit(q, key);
      Ordered(Plug(path, q1), Internal) && Keys(Plug(path, q1)) == Keys(Plug(path, q)) + (if q.Nil? then {key} else {})
      && (q.Nil? ==> key !in Keys(Plug(path, q)))
      && RbOk(q1) && BH(q1) == BH(q) && RbOk(q)
      && (q.Node? ==> Strip(q1) == Strip(q) && Height(q1) == Height(q))
      && (q1 != q ==> IsRed(q1) && !IsRed(q1.left) && !IsRed(q1.right))
      && (q1 != q && q.Node? ==> !IsRed(q) && Quiet(q1.left) && Quiet(q1.right))
      && (q1 == q ==> !(IsRed(q1.left) && IsRed(q1.right)))
  {
    PlugOk(path, q);
    if q.Nil? {
      NewLeafVisit(path, q, key);
    } else {
      NodeVisit(path, q, key);
    }
  }

  /** The visit of NULL: the new red node holds a key the tree did not have. */
  lemma NewLeafVisit(path: Path, q: RbTree, key: int)
    requires InsertInv(path, q, key) && q.Nil?
    ensures var q1 := Visit(q, key);
      Ordered(Plug(path, q1), Internal) && Keys(Plug(path, q1)) == Keys(Plug(path, q)) + {key}
      && key !in Keys(Plug(path, q))
  {
    var q1 := Visit(q, key);
    assert Content(q1, Internal) == {key};
    OrderedReplace(path, q, q1, Internal);
    KeysPlug(path, q);
    KeysPlug(path, q1);
    RouteAvoids(path, q, key, Internal);
  }

  /** The visit of a node: a colour flip or nothing, which changes no key and no shape. */
  lemma NodeVisit(path: Path, q: RbTree, key: int)
    requires InsertInv(path, q, key) && q.Node?
    ensures var q1 := Visit(q, key);
      Ordered(Plug(path, q1), Internal) && Keys(Plug(path, q1)) == Keys(Plug(path, q))
      && Strip(q1) == Strip(q) && Height(q1) == Height(q) && RbOk(q) && RbOk(q1) && BH(q1) == BH(q)
      && (q1 != q ==> Quiet(q1.left) && Quiet(q1.right) && !IsRed(q1.left) && !IsRed(q1.right) && NoRedRed(q1))
  {
    var q1 := Visit(q, key);
    PlugOk(path, q);
    if q1 != q {
      FlipQuiets(q);
      ColorFlipKeeps(q);
    }
    Recoloured(q1, q);
    RecolourIn(path, q, q1);
  }

  /** The colour flip of a black node with two red children leaves both children black with black children. */
  lemma FlipQuiets(q: RbTree)
    requires RbOk(q) && q.Node? && IsRed(q.left) && IsRed(q.right)
    ensures var q1 := ColorFlip(q);
      Strip(q1) == Strip(q) && NoRedRed(q1) && Quiet(q1.left) && Quiet(q1.right) && !IsRed(q1.left) && !IsRed(q1.right)
  {
    var q1 := ColorFlip(q);
    ColorFlipKeeps(q);
    assert Strip(Paint(q.left, Black)) == Strip(q.left) && Strip(Paint(q.right, Black)) == Strip(q.right);
    assert NoRedRed(q.left) && NoRedRed(q.right) && q.info.color == Black;
    assert !IsRed(q.left.left) && !IsRed(q.left.right) && !IsRed(q.right.left) && !IsRed(q.right.right);
    assert NoRedRed(Paint(q.left, Black)) && NoRedRed(Paint(q.right, Black));
  }

  /** A red `q` under a red `p` is a new or flipped node two levels below a black `g` whose other child is black. */
  lemma FixFacts(path: Path, q: RbTree, key: int)
    requires InsertInv(path, q, key)
    requires IsRed(Visit(q, key)) && |path| >= 1 && path[|path| - 1].info.color == Red
    ensures |path| >= 2 && path[|path| - 2].info.color == Black && !IsRed(path[|path| - 2].other)
    ensures Visit(q, key) != q && !IsRed(q)
  {
    UnderRed(path, q);
    VisitFacts(path, q, key);
  }

  /**
   * One step down from `x` toward the key keeps the invariant when `x` is
   * in place: its child on the key's side is quiet if `x` is red and its
   * parent's other child (or no parent) is too, and a red child with a red
   * sibling has a quiet child on the key's side.
   */
  lemma Descend(path: Path, x: RbTree, key: int)
    requires Ordered(Plug(path, x), Internal) && RbOk(Plug(path, x)) && Routes(path, key, Internal)
    requires x.Node? && x.key != key
    requires var d := RbTdExt.Way(x, key);
      IsRed(x) && (path == [] || IsRed(path[|path| - 1].other)) ==> Quiet(Child(x, d))
    requires var d := RbTdExt.Way(x, key); var c := Child(x, d);
      IsRed(c) && IsRed(Child(x, Flip(d))) ==> Quiet(Child(c, RbTdExt.Way(c, key)))
    ensures var d := RbTdExt.Way(x, key);
      InsertInv(path + [FrameOf(x, d)], Child(x, d), key)
      && Plug(path + [FrameOf(x, d)], Child(x, d)) == Plug(path, x)
  {
    var n := |path|;
    var d := RbTdExt.Way(x, key);
    var f := FrameOf(x, d);
    var path' := path + [f];
    PlugSnoc(path, f, Child(x, d));
    AttachFrameOf(x, d);
    RoutesSnoc(path, f, key, Internal);
    assert path'[n] == f;
    assert n >= 1 ==> path'[n - 1] == path[n - 1];
  }

  /**
   * After visiting `q` (and repairing): the visited node, or the subtree
   * that took its place, is `x` at the end of `path'`; the tree is ordered,
   * within the rules, and holds the keys it held plus the key if `q` was
   * NULL; and unless `x` holds the key, the step below `x` keeps the walk's
   * invariant with less budget.
   */
  predicate Landed(path': Path, x: RbTree, path: Path, q: RbTree, key: int)
  {
    x.Node?
    && Ordered(Plug(path', x), Internal) && RbOk(Plug(path', x)) && Routes(path', key, Internal)
    && Keys(Plug(path', x)) == Keys(Plug(path, q)) + (if q.Nil? then {key} else {})
    && (x.key != key ==>
      var d := RbTdExt.Way(x, key);
      InsertInv(path' + [FrameOf(x, d)], Child(x, d), key)
      && Plug(path' + [FrameOf(x, d)], Child(x, d)) == Plug(path', x)
      && Budget(path' + [FrameOf(x, d)], Child(x, d), key) < Budget(path, q, key))
  }

  /**
   * The walk goes on from a visit that needs no repair: the tree with the
   * visited node keeps the rules, and a step toward the key keeps the
   * invariant and uses up budget.
   */
  lemma NoFixStep(path: Path, q: RbTree, key: int)
    requires InsertInv(path, q, key)
    requires var q1 := Visit(q, key); !(IsRed(q1) && |path| >= 1 && path[|path| - 1].info.color == Red)
    ensures Landed(path, Visit(q, key), path, q, key)
  {
    var q1 := Visit(q, key);
    VisitFacts(path, q, key);
    SwapOk(path, q, q1);
    if q1.key != key {
      NoFixDescend(path, q, key);
    }
  }

  lemma NoFixDescend(path: Path, q: RbTree, key: int)
    requires InsertInv(path, q, key) && q.Node? && q.key != key
    requires var q1 := Visit(q, key); !(IsRed(q1) && |path| >= 1 && path[|path| - 1].info.color == Red)
    requires var q1 := Visit(q, key); Ordered(Plug(path, q1), Internal) && RbOk(Plug(path, q1))
    ensures var q1 := Visit(q, key); var d := RbTdExt.Way(q1, key);
      InsertInv(path + [FrameOf(q1, d)], Child(q1, d), key)
      && Plug(path + [FrameOf(q1, d)], Child(q1, d)) == Plug(path, q1)
      && Budget(path + [FrameOf(q1, d)], Child(q1, d), key) < Budget(path, q, key)
  {
    var q1 := Visit(q, key);
    VisitFacts(path, q, key);
    var d := RbTdExt.Way(q1, key);
    var q' := Child(q1, d);
    assert !(IsRed(q') && IsRed(Child(q1, Flip(d)))) by {
      if q1 != q {
        assert !IsRed(q1.left) && !IsRed(q1.right);
      }
    }
    assert IsRed(q1) && (path == [] || IsRed(path[|path| - 1].other)) ==> Quiet(q') by {
      if q1 != q {
        assert Quiet(q1.left) && Quiet(q1.right);
      }
    }
    Descend(path, q1, key);
    assert Height(q') < Height(q1);
    assert Budget(path + [FrameOf(q1, d)], q', key) == 2 * Height(q');
  }

  // ---------------------------------------------------------------------
  // jsw_insert2: the two repairs
  // ---------------------------------------------------------------------

  /**
   * A single rotation at a black `g` whose red child `p` has the red `q` on
   * the same side: `p` ends on top, black, over `q` and over `g`, now red;
   * the red-black rules hold below it and the black height is that of `g`.
   */
  lemma SingleRb(gf: Frame<int, RbInfo>, pf: Frame<int, RbInfo>, q: RbTree, q1: RbTree)
    requires pf.dir == gf.dir && pf.info.color == Red && gf.info.color == Black && !IsRed(gf.other)
    requires RbOk(Attach(gf, Attach(pf, q))) && RbOk(q1) && BH(q1) == BH(q) && IsRed(q1)
    ensures var r := JswSingle(Attach(gf, Attach(pf, q1)), Flip(gf.dir));
      RbOk(r) && BH(r) == BH(Attach(gf, Attach(pf, q))) && !IsRed(r) && r.key == pf.key
      && Child(r, gf.dir) == q1 && IsRed(Child(r, Flip(gf.dir)))
  {
    var d := Flip(gf.dir);
    assert Flip(d) == gf.dir;
    var p0 := Attach(pf, q);
    var p1 := Attach(pf, q1);
    var g1 := Attach(gf, p1);
    AttachOk(gf, p0);
    AttachOk(pf, q);
    var r := JswSingle(g1, d);
    var down := Child(r, d);
    assert Child(down, d) == gf.other && Child(down, Flip(d)) == pf.other;
    AttachFrameOf(down, d);
    AttachOk(FrameOf(down, d), Child(down, d));
    AttachFrameOf(r, d);
    AttachOk(FrameOf(r, d), down);
  }

  /**
   * A double rotation at a black `g` whose red child `p` has the red `q` on
   * the other side: `q` ends on top, black, over `p` and `g`, both red, each
   * holding one of `q`'s former children on the inside.
   */
  lemma DoubleRb(gf: Frame<int, RbInfo>, pf: Frame<int, RbInfo>, q: RbTree, q1: RbTree)
    requires pf.dir != gf.dir && pf.info.color == Red && gf.info.color == Black && !IsRed(gf.other)
    requires RbOk(Attach(gf, Attach(pf, q))) && RbOk(q1) && BH(q1) == BH(q) && IsRed(q1) && q1.Node?
    ensures var d := Flip(gf.dir); var r := JswDouble(Attach(gf, Attach(pf, q1)), d);
      RbOk(r) && BH(r) == BH(Attach(gf, Attach(pf, q))) && !IsRed(r) && r.key == q1.key
      && Child(r, d).key == gf.key && IsRed(Child(r, d)) && Child(Child(r, d), Flip(d)) == Child(q1, d)
      && Child(r, gf.dir).key == pf.key && IsRed(Child(r, gf.dir)) && Child(Child(r, gf.dir), d) == Child(q1, gf.dir)
  {
    var d := Flip(gf.dir);
    assert Flip(d) == gf.dir && d == pf.dir;
    var p0 := Attach(pf, q);
    var p1 := Attach(pf, q1);
    var g1 := Attach(gf, p1);
    AttachOk(gf, p0);
    AttachOk(pf, q);
    AttachFrameOf(q1, d);
    AttachOk(FrameOf(q1, d), Child(q1, d));
    var r := JswDouble(g1, d);
    var gn := Child(r, d);
    var pn := Child(r, Flip(d));
    assert Child(gn, d) == gf.other && Child(gn, Flip(d)) == Child(q1, d);
    assert Child(pn, Flip(d)) == pf.other && Child(pn, d) == Child(q1, Flip(d));
    AttachFrameOf(gn, d);
    AttachOk(FrameOf(gn, d), Child(gn, d));
    AttachFrameOf(pn, Flip(d));
    AttachOk(FrameOf(pn, Flip(d)), Child(pn, Flip(d)));
    AttachFrameOf(r, d);
    AttachOk(FrameOf(r, d), gn);
  }

  /** Where `q` sits two levels below `g` and needs a repair. */
  predicate NeedsFix(path: Path, q: RbTree, key: int)
  {
    InsertInv(path, q, key) && IsRed(Visit(q, key)) && |path| >= 2 && path[|path| - 1].info.color == Red
  }

  /**
   * The rotated subtree `r` put back where `g` was keeps the whole tree
   * ordered, within the rules and with the keys of the visited tree.
   */
  lemma FixLands(path: Path, q: RbTree, key: int, r: RbTree)
    requires NeedsFix(path, q, key)
    requires var n := |path|; var g1 := Attach(path[n - 2], Attach(path[n - 1], Visit(q, key)));
      Ordered(r, Internal) && Keys(r) == Keys(g1) && RbOk(r) && !IsRed(r)
      && BH(r) == BH(Attach(path[n - 2], Attach(path[n - 1], q)))
    ensures var init := path[..|path| - 2];
      Ordered(Plug(init, r), Internal) && RbOk(Plug(init, r)) && Routes(init, key, Internal)
      && Keys(Plug(init, r)) == Keys(Plug(path, q)) + (if q.Nil? then {key} else {})
  {
    var n := |path|;
    var init := path[..n - 2];
    var q1 := Visit(q, key);
    var g0 := Attach(path[n - 2], Attach(path[n - 1], q));
    var g1 := Attach(path[n - 2], Attach(path[n - 1], q1));
    VisitFacts(path, q, key);
    FixFacts(path, q, key);
    RbTdExt.PlugTwo(path, q);
    RbTdExt.PlugTwo(path, q1);
    PlugOk(init, g0);
    PlugOk(init, r);
    IntReplaceSame(init, g1, r);
    RoutesPrefix(path, n - 2, key, Internal);
  }

  /**
   * `q == p->link[last]`: a single rotation at `g` away from `p`; the walk
   * goes on below `q`, which now hangs from `p` on top.
   */
  lemma SingleFixStep(path: Path, q: RbTree, key: int)
    requires NeedsFix(path, q, key) && path[|path| - 1].dir == path[|path| - 2].dir
    ensures var n := |path|; var q1 := Visit(q, key); var gf, pf := path[n - 2], path[n - 1];
      var r := JswSingle(Attach(gf, Attach(pf, q1)), Flip(gf.dir));
      Landed(path[..n - 2] + [FrameOf(r, gf.dir)], q1, path, q, key)
  {
    var n := |path|;
    var q1 := Visit(q, key);
    var gf, pf := path[n - 2], path[n - 1];
    var r := JswSingle(Attach(gf, Attach(pf, q1)), Flip(gf.dir));
    var path' := path[..n - 2] + [FrameOf(r, gf.dir)];
    SingleFixTop(path, q, key);
    VisitFacts(path, q, key);
    FixFacts(path, q, key);
    if q1.key != key {
      var d := RbTdExt.Way(q1, key);
      assert Quiet(q1.left) && Quiet(q1.right);
      Descend(path', q1, key);
      assert Height(Child(q1, d)) < Height(q1);
    }
  }

  /** The single rotation of a fix lands the walk on the rotated-down `q`, now under a black top. */
  lemma SingleFixTop(path: Path, q: RbTree, key: int)
    requires NeedsFix(path, q, key) && path[|path| - 1].dir == path[|path| - 2].dir
    ensures var n := |path|; var q1 := Visit(q, key); var gf, pf := path[n - 2], path[n - 1];
      var r := JswSingle(Attach(gf, Attach(pf, q1)), Flip(gf.dir));
      var path' := path[..n - 2] + [FrameOf(r, gf.dir)];
      Ordered(Plug(path', q1), Internal) && RbOk(Plug(path', q1)) && Routes(path', key, Internal)
      && Keys(Plug(path', q1)) == Keys(Plug(path, q)) + (if q.Nil? then {key} else {})
  {
    var n := |path|;
    var init := path[..n - 2];
    var q1 := Visit(q, key);
    var gf, pf := path[n - 2], path[n - 1];
    var g1 := Attach(gf, Attach(pf, q1));
    var r := JswSingle(g1, Flip(gf.dir));
    var path' := init + [FrameOf(r, gf.dir)];
    VisitFacts(path, q, key);
    FixFacts(path, q, key);
    RbTdExt.PlugTwo(path, q);
    RbTdExt.PlugTwo(path, q1);
    PlugOk(init, Attach(gf, Attach(pf, q)));
    SingleRb(gf, pf, q, q1);
    OrderedFocus(init, g1, Internal);
    JswRotationsKeep(g1, Flip(gf.dir));
    FixLands(path, q, key, r);
    PlugSnoc(init, FrameOf(r, gf.dir), q1);
    AttachFrameOf(r, gf.dir);
    assert Routes(path', key, Internal) by {
      assert path[n - 1] == pf;
      RoutesSnoc(init, FrameOf(r, gf.dir), key, Internal);
    }
  }

  /**
   * `q` on the inside of `p`: a double rotation at `g` brings `q` on top;
   * the walk goes on from there, below `p` or `g`, whichever the key's side
   * is.
   */
  lemma DoubleFixStep(path: Path, q: RbTree, key: int)
    requires NeedsFix(path, q, key) && path[|path| - 1].dir != path[|path| - 2].dir
    ensures var n := |path|; var q1 := Visit(q, key); var gf, pf := path[n - 2], path[n - 1];
      var r := JswDouble(Attach(gf, Attach(pf, q1)), Flip(gf.dir));
      Landed(path[..n - 2], r, path, q, key) && r.key == q1.key
  {
    var n := |path|;
    var init := path[..n - 2];
    var q1 := Visit(q, key);
    var gf, pf := path[n - 2], path[n - 1];
    var g1 := Attach(gf, Attach(pf, q1));
    var dr := Flip(gf.dir);
    var r := JswDouble(g1, dr);
    VisitFacts(path, q, key);
    FixFacts(path, q, key);
    RbTdExt.PlugTwo(path, q);
    RbTdExt.PlugTwo(path, q1);
    PlugOk(init, Attach(gf, Attach(pf, q)));
    DoubleRb(gf, pf, q, q1);
    OrderedFocus(init, g1, Internal);
    JswRotationsKeep(g1, dr);
    FixLands(path, q, key, r);
    if q1.key != key {
      DoubleDescend(path, q, key);
    }
  }

  lemma DoubleDescend(path: Path, q: RbTree, key: int)
    requires NeedsFix(path, q, key) && path[|path| - 1].dir != path[|path| - 2].dir && q.Node? && q.key != key
    requires var n := |path|; var q1 := Visit(q, key); var gf, pf := path[n - 2], path[n - 1];
      var r := JswDouble(Attach(gf, Attach(pf, q1)), Flip(gf.dir));
      var init := path[..n - 2];
      Ordered(Plug(init, r), Internal) && RbOk(Plug(init, r)) && Routes(init, key, Internal)
    ensures var n := |path|; var q1 := Visit(q, key); var gf, pf := path[n - 2], path[n - 1];
      var r := JswDouble(Attach(gf, Attach(pf, q1)), Flip(gf.dir));
      var init := path[..n - 2];
      var d := RbTdExt.Way(r, key);
      InsertInv(init + [FrameOf(r, d)], Child(r, d), key)
      && Plug(init + [FrameOf(r, d)], Child(r, d)) == Plug(init, r)
      && Budget(init + [FrameOf(r, d)], Child(r, d), key) < Budget(path, q, key)
  {
    var n := |path|;
    var init := path[..n - 2];
    var q1 := Visit(q, key);
    var gf, pf := path[n - 2], path[n - 1];
    var g1 := Attach(gf, Attach(pf, q1));
    var dr := Flip(gf.dir);
    assert Flip(dr) == gf.dir;
    var r := JswDouble(g1, dr);
    VisitFacts(path, q, key);
    FixFacts(path, q, key);
    RbTdExt.PlugTwo(path, q);
    PlugOk(init, Attach(gf, Attach(pf, q)));
    DoubleRb(gf, pf, q, q1);
    assert Quiet(q1.left) && Quiet(q1.right);
    var d := RbTdExt.Way(r, key);
    var c := Child(r, d);
    assert path[n - 2] == gf && path[n - 1] == pf;
    if d == dr {
      assert c.key == gf.key;
      assert RbTdExt.Way(c, key) == gf.dir;
      assert Child(c, RbTdExt.Way(c, key)) == Child(q1, dr);
    } else {
      assert c.key == pf.key;
      assert RbTdExt.Way(c, key) == pf.dir;
      assert Child(c, RbTdExt.Way(c, key)) == Child(q1, gf.dir);
    }
    Descend(init, r, key);
    assert Height(Child(q1, dr)) < Height(q1) && Height(Child(q1, gf.dir)) < Height(q1);
  }

  // ---------------------------------------------------------------------
  // jsw_insert2
  // ---------------------------------------------------------------------

  /** `tree->root->red = 0`: a root painted black makes an ordered tree within the rules valid. */
  lemma RootBlack(t: RbTree)
    requires t.Node? && Ordered(t, Internal) && RbOk(t)
    ensures Valid(Paint(t, Black)) && Keys(Paint(t, Black)) == Keys(t)
  {
    PaintKeeps(t, Black);
    assert NoRedRed(Paint(t, Black));
  }

  /**
   * One turn of `jsw_insert2`'s loop before its step down: link a new red
   * node at NULL (`linked`), or flip a node with two red children; then a
   * red node under a red parent is repaired by a single or a double
   * rotation at the grandparent.  `x` is the visited node where the walk
   * goes on, `path'` the path above it.
   */
  method InsertVisit(path: Path, q: RbTree, key: int) returns (path': Path, x: RbTree, linked: bool)
    requires InsertInv(path, q, key)
    ensures Landed(path', x, path, q, key) && x.key == Visit(q, key).key && (linked <==> q.Nil?)
  {
    var q1 := q;
    linked := false;
    if q.Nil? {
      q1 := MakeNode(key);
      linked := true;
    } else if IsRed(q.left) && IsRed(q.right) {
      q1 := ColorFlip(q);
    }
    assert q1 == Visit(q, key);
    var n := |path|;
    path', x := path, q1;
    if IsRed(q1) && n >= 1 && path[n - 1].info.color == Red {
      FixFacts(path, q, key);
      var gf, pf := path[n - 2], path[n - 1];
      if pf.dir == gf.dir {
        SingleFixStep(path, q, key);
        var r := JswSingle(Attach(gf, Attach(pf, q1)), Flip(gf.dir));
        path' := path[..n - 2] + [FrameOf(r, gf.dir)];
      } else {
        DoubleFixStep(path, q, key);
        x := JswDouble(Attach(gf, Attach(pf, q1)), Flip(gf.dir));
        path' := path[..n - 2];
      }
    } else {
      NoFixStep(path, q, key);
    }
  }

  /**
   * `jsw_insert2`: an empty tree gets a new node as its root; otherwise one
   * walk down from the root links a new red node at the NULL where the key
   * belongs, flips every node with two red children on the way, repairs a
   * red node under a red parent by a single or double rotation at the
   * grandparent, and stops at the node holding the key.  The root ends
   * black.  `inserted` is the C's return value 1.
   */
  method Insert2(root: RbTree, key: int) returns (t: RbTree, inserted: bool)
    requires Valid(root)
    ensures Valid(t) && Keys(t) == Keys(root) + {key}
    ensures inserted <==> key !in Keys(root)
  {
    if root.Nil? {
      RootBlack(MakeNode(key));
      t := Paint(MakeNode(key), Black);
      return t, true;
    }
    var path: Path := [];
    var q := root;
    inserted := false;
    while true
      invariant InsertInv(path, q, key) && Keys(Plug(path, q)) == Keys(root) && !inserted
      decreases Budget(path, q, key)
    {
      var path', x, linked := InsertVisit(path, q, key);
      VisitFacts(path, q, key);
      KeysPlug(path, q);
      if x.key == key {
        t, inserted := Plug(path', x), linked;
        break;
      }
      var d := RbTdExt.Way(x, key);
      path, q := path' + [FrameOf(x, d)], Child(x, d);
    }
    RootBlack(t);
    t := Paint(t, Black);
  }

  // ---------------------------------------------------------------------
  // jsw_remove2: pushing a red node down
  // ---------------------------------------------------------------------

  /**
   * The remove walk on arriving at `q` from `p`: the tree is ordered and
   * keeps the rules, the path takes the turns of a search for `data`
   * (right iff the node's key is below it), and `q` is red, or `p` is red,
   * or `p` is the root with a black other child, or `q` is the root.
   */
  predicate Arrived(path: Path, q: RbTree, data: int)
  {
    q.Node? && Ordered(Plug(path, q), Internal) && Routes(path, data, External) && RbOk(Plug(path, q))
    && (IsRed(q) || path == [] || path[|path| - 1].info.color == Red || (|path| == 1 && !IsRed(path[0].other)))
  }

  /**
   * The remove walk after pushing the red down to `q`: `q` is red, or its
   * child on the way to `data` is, or `q` is the root and neither of its
   * children is red.
   */
  predicate Pushed(path: Path, q: RbTree, data: int)
  {
    q.Node? && Ordered(Plug(path, q), Internal) && Routes(path, data, External) && RbOk(Plug(path, q))
    && var d := RbTdExt.Way(q, data);
    (IsRed(q) || IsRed(Child(q, d)) || (path == [] && !IsRed(Child(q, Flip(d)))))
  }

  /** The rotated subtree's top after `jsw_remove2`'s recolouring: red, its other child black. */
  function TopFrame(top: RbTree, last: Dir): (f: Frame<int, RbInfo>)
    requires top.Node? && Child(top, Flip(last)).Node?
    ensures f.dir == last && f.key == top.key && f.info.color == Red && f.other == Paint(Child(top, Flip(last)), Black)
  {
    Frame(last, top.key, RbInfo(Red, top.info.value), Paint(Child(top, Flip(last)), Black))
  }

  /** The old parent below the top after the recolouring: black. */
  function ParentFrame(pn: RbTree, last: Dir): (f: Frame<int, RbInfo>)
    requires pn.Node?
    ensures f.dir == last && f.key == pn.key && f.info.color == Black && f.other == Child(pn, Flip(last))
  {
    Frame(last, pn.key, RbInfo(Black, pn.info.value), Child(pn, Flip(last)))
  }

  /** What a node made of a frame and `q` keeping the rules says of its parts. */
  lemma FrameParts(pf: Frame<int, RbInfo>, q: RbTree)
    requires RbOk(Attach(pf, q))
    ensures RbOk(q) && RbOk(pf.other) && BH(pf.other) == BH(q)
    ensures pf.info.color == Red ==> !IsRed(q) && !IsRed(pf.other)
  {
    AttachOk(pf, q);
  }

  /** A black node stands at least one black node high, so a subtree of the same black height is no NULL. */
  lemma BlackNodeHigh(q: RbTree, s: RbTree)
    requires q.Node? && !IsRed(q) && BH(s) == BH(q)
    ensures s.Node? && BH(q) >= 1
  {
  }

  /** The children of a node that keeps the rules keep them, with one black height, black under a red node. */
  lemma ChildrenOk(t: RbTree, d: Dir)
    requires RbOk(t) && t.Node?
    ensures RbOk(Child(t, d)) && RbOk(Child(t, Flip(d))) && BH(Child(t, d)) == BH(Child(t, Flip(d)))
    ensures BH(t) == BH(Child(t, d)) + Weight(t.info.color)
    ensures IsRed(t) ==> !IsRed(Child(t, d)) && !IsRed(Child(t, Flip(d)))
  {
    AttachFrameOf(t, d);
    AttachOk(FrameOf(t, d), Child(t, d));
  }

  /** A node whose children keep the rules with one black height, and are black if it is red, keeps them. */
  lemma NodeOk(t: RbTree, d: Dir)
    requires t.Node? && RbOk(Child(t, d)) && RbOk(Child(t, Flip(d))) && BH(Child(t, d)) == BH(Child(t, Flip(d)))
    requires IsRed(t) ==> !IsRed(Child(t, d)) && !IsRed(Child(t, Flip(d)))
    ensures RbOk(t) && BH(t) == BH(Child(t, d)) + Weight(t.info.color)
  {
    AttachFrameOf(t, d);
    AttachOk(FrameOf(t, d), Child(t, d));
  }

  /** Below a black node with black children, painting it red leaves the rules and one black node less. */
  lemma RedUnderBlack(q: RbTree)
    requires RbOk(q) && q.Node? && !IsRed(q) && !IsRed(q.left) && !IsRed(q.right)
    ensures RbOk(Paint(q, Red)) && BH(Paint(q, Red)) + 1 == BH(q) && IsRed(Paint(q, Red))
  {
    assert NoRedRed(Paint(q, Red));
  }

  /** A node painted black over two subtrees within the rules of equal black height keeps the rules. */
  lemma BlackOver(t: RbTree, d: Dir)
    requires t.Node? && RbOk(Child(t, d)) && RbOk(Child(t, Flip(d))) && BH(Child(t, d)) == BH(Child(t, Flip(d)))
    ensures RbOk(Paint(t, Black)) && BH(Paint(t, Black)) == BH(Child(t, d)) + 1
  {
    AttachFrameOf(Paint(t, Black), d);
    AttachOk(FrameOf(Paint(t, Black), d), Child(t, d));
  }

  /** A red node over a black one over `u`, each side of the same black height: the rules hold. */
  lemma TwoLevelsOk(f1: Frame<int, RbInfo>, f2: Frame<int, RbInfo>, u: RbTree, h: nat)
    requires f1.info.color == Red && f2.info.color == Black
    requires RbOk(f1.other) && !IsRed(f1.other) && BH(f1.other) == h
    requires RbOk(f2.other) && BH(f2.other) + 1 == h && RbOk(u) && BH(u) + 1 == h
    ensures var t2 := Attach(f1, Attach(f2, u)); RbOk(t2) && BH(t2) == h && IsRed(t2)
  {
    AttachOk(f2, u);
    AttachOk(f1, Attach(f2, u));
  }

  /**
   * The colour flip of `jsw_remove2`: `p` black, its children `q` and `s`
   * red.  Where `p` was red the black height is kept; at a black root it
   * drops by one.
   */
  lemma RemoveFlipRb(pf: Frame<int, RbInfo>, q: RbTree)
    requires RbOk(q) && q.Node? && !IsRed(q) && !IsRed(q.left) && !IsRed(q.right)
    requires var s := pf.other; RbOk(s) && BH(s) == BH(q) && s.Node? && !IsRed(s) && !IsRed(s.left) && !IsRed(s.right)
    ensures var f := Frame(pf.dir, pf.key, RbInfo(Black, pf.info.value), Paint(pf.other, Red));
      RbOk(Attach(f, Paint(q, Red))) && BH(Attach(f, Paint(q, Red))) == BH(q) && !IsRed(Attach(f, Paint(q, Red)))
  {
    RedUnderBlack(q);
    RedUnderBlack(pf.other);
    var f := Frame(pf.dir, pf.key, RbInfo(Black, pf.info.value), Paint(pf.other, Red));
    AttachOk(f, Paint(q, Red));
  }

  /**
   * The single rotation of `jsw_remove2` at `p` (the sibling `s` black, its
   * far child red) with the recolouring: the top red, `p` and the top's
   * other child black, `q` red.  The subtree keeps the rules with the black
   * height of `q`.
   */
  lemma RotateRbSingle(pf: Frame<int, RbInfo>, q: RbTree)
    requires RbOk(q) && q.Node? && !IsRed(q) && !IsRed(q.left) && !IsRed(q.right)
    requires var s := pf.other; RbOk(s) && BH(s) == BH(q)
    requires var s := pf.other; s.Node? && !IsRed(s) && !IsRed(Child(s, pf.dir)) && IsRed(Child(s, Flip(pf.dir)))
    ensures var last := pf.dir; var top := JswSingle(Attach(pf, q), last);
      Child(top, Flip(last)).Node? && Child(Child(top, last), last) == q
      && var t2 := Attach(TopFrame(top, last), Attach(ParentFrame(Child(top, last), last), Paint(q, Red)));
      RbOk(t2) && BH(t2) == BH(q) && IsRed(t2)
  {
    var last := pf.dir;
    var s := pf.other;
    var p := Attach(pf, q);
    var top := JswSingle(p, last);
    var pn := Child(top, last);
    var far := Child(s, Flip(last));
    var near := Child(s, last);
    assert Child(p, Flip(last)) == s && Child(p, last) == q;
    assert Child(pn, Flip(last)) == near && Child(top, Flip(last)) == far && Child(pn, last) == q;
    ChildrenOk(s, last);
    ChildrenOk(far, last);
    BlackOver(far, last);
    RedUnderBlack(q);
    TwoLevelsOk(TopFrame(top, last), ParentFrame(pn, last), Paint(q, Red), BH(q));
  }

  /**
   * The double rotation of `jsw_remove2` at `p` (the sibling `s` black, its
   * near child red) with the recolouring: the near child on top, red, with
   * `p` and `s` black below it, `q` red.
   */
  lemma RotateRbDouble(pf: Frame<int, RbInfo>, q: RbTree)
    requires RbOk(q) && q.Node? && !IsRed(q) && !IsRed(q.left) && !IsRed(q.right)
    requires var s := pf.other; RbOk(s) && BH(s) == BH(q)
    requires var s := pf.other; s.Node? && !IsRed(s) && IsRed(Child(s, pf.dir))
    ensures var last := pf.dir; var top := JswDouble(Attach(pf, q), last);
      Child(top, Flip(last)).Node? && Child(Child(top, last), last) == q
      && var t2 := Attach(TopFrame(top, last), Attach(ParentFrame(Child(top, last), last), Paint(q, Red)));
      RbOk(t2) && BH(t2) == BH(q) && IsRed(t2)
  {
    var last := pf.dir;
    var s := pf.other;
    var p := Attach(pf, q);
    var g := Child(s, last);
    var top := JswDouble(p, last);
    var pn := Child(top, last);
    var sn := Child(top, Flip(last));
    assert Child(p, Flip(last)) == s && Child(p, last) == q;
    assert Flip(Flip(last)) == last;
    assert Child(pn, Flip(last)) == Child(g, last) && Child(pn, last) == q;
    assert Child(sn, Flip(last)) == Child(s, Flip(last)) && Child(sn, last) == Child(g, Flip(last));
    ChildrenOk(s, last);
    ChildrenOk(g, last);
    BlackOver(sn, last);
    RedUnderBlack(q);
    TwoLevelsOk(TopFrame(top, last), ParentFrame(pn, last), Paint(q, Red), BH(q));
  }

  // ---------------------------------------------------------------------
  // jsw_remove2: the three ways to push the red down
  // ---------------------------------------------------------------------

  /**
   * `q` and its child toward `data` black, its other child red: a single
   * rotation at `q` toward `data` makes `q` red, under its former child.
   */
  lemma PushAtQ(path: Path, q: RbTree, data: int)
    requires Arrived(path, q, data)
    requires var d := RbTdExt.Way(q, data); !IsRed(q) && !IsRed(Child(q, d)) && IsRed(Child(q, Flip(d)))
    ensures var d := RbTdExt.Way(q, data); var r := JswSingle(q, d);
      Pushed(path + [FrameOf(r, d)], Child(r, d), data)
      && Keys(Plug(path + [FrameOf(r, d)], Child(r, d))) == Keys(Plug(path, q))
      && Child(r, d).key == q.key && Child(Child(r, d), d) == Child(q, d)
  {
    var d := RbTdExt.Way(q, data);
    var c := Child(q, Flip(d));
    var r := JswSingle(q, d);
    var down := Child(r, d);
    assert Flip(Flip(d)) == d;
    PlugOk(path, q);
    ChildrenOk(q, d);
    ChildrenOk(c, d);
    assert Child(down, d) == Child(q, d) && Child(down, Flip(d)) == Child(c, d) && Child(r, Flip(d)) == Child(c, Flip(d));
    NodeOk(down, d);
    NodeOk(r, d);
    SwapOk(path, q, r);
    OrderedFocus(path, q, Internal);
    JswRotationsKeep(q, d);
    IntReplaceSame(path, q, r);
    PlugSnoc(path, FrameOf(r, d), down);
    AttachFrameOf(r, d);
    assert c.key in Keys(c);
    assert Content(c, Internal) == Keys(c);
    RoutesSnoc(path, FrameOf(r, d), data, External);
  }

  /**
   * `q` and both its children black, the sibling `s` black with black
   * children: the colour flip makes `p` black and `q` and `s` red.
   */
  lemma PushFlip(path: Path, q: RbTree, data: int)
    requires Arrived(path, q, data) && !IsRed(q) && !IsRed(q.left) && !IsRed(q.right) && path != []
    requires var pf := path[|path| - 1]; var s := pf.other;
      s.Node? && !IsRed(Child(s, Flip(pf.dir))) && !IsRed(Child(s, pf.dir))
    ensures var n := |path|; var pf := path[n - 1];
      var path' := path[..n - 1] + [Frame(pf.dir, pf.key, RbInfo(Black, pf.info.value), Paint(pf.other, Red))];
      Pushed(path', Paint(q, Red), data) && Keys(Plug(path', Paint(q, Red))) == Keys(Plug(path, q))
  {
    var n := |path|;
    var init, pf := path[..n - 1], path[n - 1];
    var s := pf.other;
    var f := Frame(pf.dir, pf.key, RbInfo(Black, pf.info.value), Paint(s, Red));
    var q' := Paint(q, Red);
    var p0, p1 := Attach(pf, q), Attach(f, q');
    assert init + [pf] == path;
    PlugSnoc(init, pf, q);
    PlugSnoc(init, f, q');
    PlugOk(init, p0);
    FrameParts(pf, q);
    assert !IsRed(s.left) && !IsRed(s.right);
    RemoveFlipRb(pf, q);
    if pf.info.color == Red {
      AttachOk(pf, q);
      SwapOk(init, p0, p1);
    }
    assert Strip(p1) == Strip(p0) by {
      assert Strip(q') == Strip(q) && Strip(Paint(s, Red)) == Strip(s);
    }
    RecolourIn(init, p0, p1);
    RoutesPrefix(path, n - 1, data, External);
    RoutesSnoc(init, f, data, External);
  }

  /** The rotation `jsw_remove2` does at `p`: double if the sibling's near child is red, else single. */
  function RemoveTop(pf: Frame<int, RbInfo>, q: RbTree): (top: RbTree)
    requires pf.other.Node? && (IsRed(Child(pf.other, Flip(pf.dir))) || IsRed(Child(pf.other, pf.dir)))
    ensures top.Node? && Child(top, Flip(pf.dir)).Node? && Child(top, pf.dir).Node?
    ensures Child(Child(top, pf.dir), pf.dir) == q && Child(top, pf.dir).key == pf.key
    ensures top.key == (if IsRed(Child(pf.other, pf.dir)) then Child(pf.other, pf.dir).key else pf.other.key)
  {
    var p := Attach(pf, q);
    assert Child(p, Flip(pf.dir)) == pf.other && Child(p, pf.dir) == q;
    if IsRed(Child(pf.other, pf.dir)) then JswDouble(p, pf.dir) else JswSingle(p, pf.dir)
  }

  /** The subtree at `p` after the rotation and the recolouring, `q` red at its bottom. */
  function Rotated(pf: Frame<int, RbInfo>, q: RbTree): (t2: RbTree)
    requires q.Node? && pf.other.Node? && (IsRed(Child(pf.other, Flip(pf.dir))) || IsRed(Child(pf.other, pf.dir)))
  {
    var top := RemoveTop(pf, q);
    Attach(TopFrame(top, pf.dir), Attach(ParentFrame(Child(top, pf.dir), pf.dir), Paint(q, Red)))
  }

  /** The rotation and recolouring keep the rules below `p`, with the black height of `q`, the top red. */
  lemma RotatedRb(pf: Frame<int, RbInfo>, q: RbTree)
    requires RbOk(q) && q.Node? && !IsRed(q) && !IsRed(q.left) && !IsRed(q.right)
    requires var s := pf.other; RbOk(s) && BH(s) == BH(q) && s.Node? && !IsRed(s)
    requires IsRed(Child(pf.other, Flip(pf.dir))) || IsRed(Child(pf.other, pf.dir))
    ensures RbOk(Rotated(pf, q)) && BH(Rotated(pf, q)) == BH(q) && IsRed(Rotated(pf, q))
  {
    if IsRed(Child(pf.other, pf.dir)) {
      RotateRbDouble(pf, q);
    } else {
      RotateRbSingle(pf, q);
    }
  }

  /** The rotation and recolouring keep the order and the keys of the tree around them. */
  lemma RotatedOrder(init: Path, pf: Frame<int, RbInfo>, q: RbTree)
    requires Ordered(Plug(init, Attach(pf, q)), Internal) && q.Node?
    requires pf.other.Node? && (IsRed(Child(pf.other, Flip(pf.dir))) || IsRed(Child(pf.other, pf.dir)))
    ensures Ordered(Plug(init, Rotated(pf, q)), Internal) && Keys(Plug(init, Rotated(pf, q))) == Keys(Plug(init, Attach(pf, q)))
    ensures pf.dir == Left ==> pf.key < RemoveTop(pf, q).key
    ensures pf.dir == Right ==> RemoveTop(pf, q).key < pf.key
  {
    var last, s := pf.dir, pf.other;
    var p := Attach(pf, q);
    var top := RemoveTop(pf, q);
    var pn := Child(top, last);
    var q' := Paint(q, Red);
    var t2 := Rotated(pf, q);
    OrderedFocus(init, p, Internal);
    JswRotationsKeep(p, last);
    assert Child(p, Flip(last)) == s && Child(p, last) == q;
    IntReplaceSame(init, p, top);
    assert Strip(t2) == Strip(top) by {
      AttachFrameOf(pn, last);
      AttachFrameOf(top, last);
      assert Strip(q') == Strip(q);
      assert Strip(Attach(ParentFrame(pn, last), q')) == Strip(pn);
      assert Strip(Paint(Child(top, Flip(last)), Black)) == Strip(Child(top, Flip(last)));
    }
    RecolourIn(init, top, t2);
    assert top.key in Keys(s) && Content(s, Internal) == Keys(s);
  }

  /**
   * `q` and both its children black, the sibling `s` black with a red
   * child: a double rotation at `p` if `s`'s near child is red, else a
   * single one; then `q` and the new top red, the top's children black.
   */
  lemma PushRotate(path: Path, q: RbTree, data: int)
    requires Arrived(path, q, data) && !IsRed(q) && !IsRed(q.left) && !IsRed(q.right) && path != []
    requires var pf := path[|path| - 1]; var s := pf.other;
      s.Node? && (IsRed(Child(s, Flip(pf.dir))) || IsRed(Child(s, pf.dir)))
    ensures var n := |path|; var pf := path[n - 1]; var top := RemoveTop(pf, q);
      var path' := path[..n - 1] + [TopFrame(top, pf.dir), ParentFrame(Child(top, pf.dir), pf.dir)];
      Pushed(path', Paint(q, Red), data) && Keys(Plug(path', Paint(q, Red))) == Keys(Plug(path, q))
  {
    var n := |path|;
    var init, pf := path[..n - 1], path[n - 1];
    var last := pf.dir;
    var p := Attach(pf, q);
    var top := RemoveTop(pf, q);
    var q' := Paint(q, Red);
    var f1, f2 := TopFrame(top, last), ParentFrame(Child(top, last), last);
    var t2 := Rotated(pf, q);
    var path' := init + [f1, f2];
    assert init + [pf] == path;
    PlugSnoc(init, pf, q);
    PlugOk(init, p);
    FrameParts(pf, q);
    RbTdExt.PlugTwo(path', q');
    assert path'[..|path'| - 2] == init;
    assert RbOk(Plug(path', q')) by {
      RotatedRb(pf, q);
      if pf.info.color == Red {
        AttachOk(pf, q);
        SwapOk(init, p, t2);
      }
    }
    RotatedOrder(init, pf, q);
    RoutesPrefix(path, n - 1, data, External);
    RoutesSnoc(init, f1, data, External);
    RoutesSnoc(init + [f1], f2, data, External);
  }

  // ---------------------------------------------------------------------
  // jsw_remove2: one step of the walk
  // ---------------------------------------------------------------------

  /** A black node below the root has a sibling: the black heights beside it agree. */
  lemma BlackHasSibling(path: Path, q: RbTree, data: int)
    requires Arrived(path, q, data) && !IsRed(q) && path != []
    ensures path[|path| - 1].other.Node?
  {
    PlugOk(path, q);
    BlackNodeHigh(q, path[|path| - 1].other);
  }

  /**
   * The "push the red node down" block of `jsw_remove2`: a black `q` with a
   * black child on the way is made red, by a rotation at `q` when its other
   * child is red, by a colour flip with the sibling, or by a single or
   * double rotation at the parent.  The keys, `q`'s key and the child on the
   * way do not change.
   */
  method PushRed(path: Path, q: RbTree, data: int) returns (path': Path, q': RbTree)
    requires Arrived(path, q, data)
    ensures Pushed(path', q', data) && Keys(Plug(path', q')) == Keys(Plug(path, q))
    ensures q'.key == q.key && Child(q', RbTdExt.Way(q, data)) == Child(q, RbTdExt.Way(q, data))
  {
    var d := RbTdExt.Way(q, data);
    path', q' := path, q;
    if !IsRed(q) && !IsRed(Child(q, d)) {
      if IsRed(Child(q, Flip(d))) {
        PushAtQ(path, q, data);
        var r := JswSingle(q, d);
        path', q' := path + [FrameOf(r, d)], Child(r, d);
      } else if path != [] {
        BlackHasSibling(path, q, data);
        var n := |path|;
        var pf := path[n - 1];
        var s, last := pf.other, pf.dir;
        if !IsRed(Child(s, Flip(last))) && !IsRed(Child(s, last)) {
          PushFlip(path, q, data);
          path' := path[..n - 1] + [Frame(last, pf.key, RbInfo(Black, pf.info.value), Paint(s, Red))];
          q' := Paint(q, Red);
        } else {
          PushRotate(path, q, data);
          var top := RemoveTop(pf, q);
          path' := path[..n - 1] + [TopFrame(top, last), ParentFrame(Child(top, last), last)];
          q' := Paint(q, Red);
        }
      }
    }
  }

  /** The walk's step down from a pushed node to its child on the way. */
  lemma RemoveDescend(path: Path, q: RbTree, data: int)
    requires Pushed(path, q, data) && Child(q, RbTdExt.Way(q, data)).Node?
    ensures var d := RbTdExt.Way(q, data);
      Arrived(path + [FrameOf(q, d)], Child(q, d), data) && Plug(path + [FrameOf(q, d)], Child(q, d)) == Plug(path, q)
      && Ordered(Child(q, d), Internal)
  {
    var d := RbTdExt.Way(q, data);
    PlugSnoc(path, FrameOf(q, d), Child(q, d));
    AttachFrameOf(q, d);
    RoutesSnoc(path, FrameOf(q, d), data, External);
    OrderedFocus(path + [FrameOf(q, d)], Child(q, d), Internal);
  }

  /** One turn of the remove walk: the step down, and where `data` can still be. */
  lemma RemoveStep(path: Path, q: RbTree, data: int)
    requires Pushed(path, q, data) && Child(q, RbTdExt.Way(q, data)).Node?
    ensures var d := RbTdExt.Way(q, data); var c := Child(q, d);
      Arrived(path + [FrameOf(q, d)], c, data) && Plug(path + [FrameOf(q, d)], c) == Plug(path, q)
      && (data in Keys(c) <==> c.key == data || data in Keys(Child(c, RbTdExt.Way(c, data))))
      && (c.key == data ==> data !in Keys(Child(c, RbTdExt.Way(c, data))) && data in Keys(Plug(path, q)))
      && Height(Child(c, RbTdExt.Way(c, data))) < Height(c)
  {
    var d := RbTdExt.Way(q, data);
    var c := Child(q, d);
    RemoveDescend(path, q, data);
    OnWay(c, data);
    KeysPlug(path + [FrameOf(q, d)], c);
  }

  /** In an ordered node, `data` is the key or lies on the way to it, never both. */
  lemma OnWay(q: RbTree, data: int)
    requires Ordered(q, Internal) && q.Node?
    ensures data in Keys(q) <==> q.key == data || data in Keys(Child(q, RbTdExt.Way(q, data)))
    ensures q.key == data ==> data !in Keys(Child(q, RbTdExt.Way(q, data)))
  {
    assert Content(q.left, Internal) == Keys(q.left) && Content(q.right, Internal) == Keys(q.right);
  }

  /** `f->data = q->data`: the frame holding `data` takes key `k`. */
  function Rekey(path: Path, data: int, k: int): (r: Path)
    ensures |r| == |path|
    ensures forall i :: 0 <= i < |path| ==> r[i].dir == path[i].dir && r[i].info == path[i].info && r[i].other == path[i].other
    ensures forall i :: 0 <= i < |path| ==> r[i].key == (if path[i].key == data then k else path[i].key)
  {
    seq(|path|, i requires 0 <= i < |path| => if path[i].key == data then path[i].(key := k) else path[i])
  }

  /** `p->link[...] = q->link[q->link[0] == NULL]`: the node with at most one child is replaced by that child. */
  function Splice(q: RbTree): (r: RbTree)
    requires q.Node? && (q.left.Nil? || q.right.Nil?)
    ensures q.left.Nil? ==> r == q.right
    ensures q.right.Nil? ==> r == q.left
  {
    if q.left.Nil? then q.right else q.left
  }

  // ---------------------------------------------------------------------
  // jsw_remove2: the splice at the bottom
  // ---------------------------------------------------------------------

  /** A search that takes every turn of a path takes every turn of its tail. */
  lemma RoutesTail(path: Path, data: int)
    requires Routes(path, data, External) && path != []
    ensures Routes(path[1..], data, External)
  {
    assert forall i :: 0 <= i < |path| - 1 ==> path[1..][i] == path[i + 1];
  }

  /**
   * Below the node holding `data` on the left, the walk only turns right: the
   * node `q` it ends at holds the largest key there, the predecessor of `data`.
   */
  lemma {:induction false} RightSpine(path: Path, q: RbTree, data: int)
    requires Ordered(Plug(path, q), Internal) && Routes(path, data, External) && q.Node? && q.right.Nil?
    requires forall x :: x in Keys(Plug(path, q)) ==> x < data
    ensures forall x :: x in Keys(Plug(path, q)) ==> x <= q.key
    ensures forall i :: 0 <= i < |path| ==> path[i].key != data
    decreases |path|
  {
    if path == [] {
      assert Content(q.left, Internal) == Keys(q.left);
    } else {
      var f, rest := path[0], path[1..];
      assert path == [f] + rest;
      PlugCons(f, rest, q);
      RoutesTail(path, data);
      KeysPlug(rest, q);
      var u := Plug(rest, q);
      assert Content(u, Internal) == Keys(u) && Content(f.other, Internal) == Keys(f.other);
      assert Keys(u) <= Keys(Plug(path, q));
      RightSpine(rest, q, data);
      assert forall i :: 1 <= i < |path| ==> path[i] == rest[i - 1];
    }
  }

  /**
   * The last step of `jsw_remove2` when `data` sits at the top of the path:
   * the walk ended at its predecessor `q`, whose key replaces it while `q` is
   * spliced out.
   */
  lemma PredecessorSplice(rest: Path, q: RbTree, data: int, info: RbInfo, right: RbTree)
    requires Ordered(Node(Plug(rest, q), data, info, right), Internal) && Routes(rest, data, External) && q.Node?
    requires Child(q, RbTdExt.Way(q, data)).Nil?
    ensures Ordered(Node(Plug(rest, Splice(q)), q.key, info, right), Internal)
    ensures Keys(Node(Plug(rest, Splice(q)), q.key, info, right)) == Keys(Node(Plug(rest, q), data, info, right)) - {data}
    ensures Rekey(rest, data, q.key) == rest
  {
    var u := Plug(rest, q);
    assert Content(u, Internal) == Keys(u) && Content(right, Internal) == Keys(right);
    SpineSplice(rest, q, data);
    var u' := Plug(rest, Splice(q));
    assert Content(u', Internal) == Keys(u');
    assert forall x :: x in Keys(u') ==> x < q.key;
    assert forall x :: x in Keys(right) ==> q.key < x;
    PredecessorKeys(Keys(u), Keys(u'), Keys(right), q.key, data);
  }

  /** Under `data`'s node, splicing out its predecessor `q` leaves an ordered subtree without `q`'s key. */
  lemma SpineSplice(rest: Path, q: RbTree, data: int)
    requires Ordered(Plug(rest, q), Internal) && Routes(rest, data, External) && q.Node?
    requires Child(q, RbTdExt.Way(q, data)).Nil? && forall x :: x in Keys(Plug(rest, q)) ==> x < data
    ensures Ordered(Plug(rest, Splice(q)), Internal) && Keys(Plug(rest, Splice(q))) == Keys(Plug(rest, q)) - {q.key}
    ensures q.key in Keys(Plug(rest, q)) && forall x :: x in Keys(Plug(rest, q)) ==> x <= q.key
    ensures Rekey(rest, data, q.key) == rest
  {
    KeysPlug(rest, q);
    RightSpine(rest, q, data);
    assert Rekey(rest, data, q.key) == rest;
    OrderedFocus(rest, q, Internal);
    ChildSpliceOrder(rest, q, q.key, Splice(q));
  }

  /** The key arithmetic of replacing `data` by its predecessor `k`, which leaves the left keys. */
  lemma PredecessorKeys(left: set<int>, left': set<int>, right: set<int>, k: int, data: int)
    requires k in left && left' == left - {k} && data !in left && data !in right
    ensures left' + {k} + right == (left + {data} + right) - {data}
  {
  }

  /**
   * The last step of `jsw_remove2`: the frame holding `data` takes the key of
   * the node `q` the walk ended at, and `q`, with at most one child, is
   * spliced out.  The tree stays ordered and loses exactly `data`.
   */
  lemma {:induction false} RemoveFoundOrder(path: Path, q: RbTree, data: int)
    requires Ordered(Plug(path, q), Internal) && Routes(path, data, External) && q.Node?
    requires Child(q, RbTdExt.Way(q, data)).Nil? && data in Keys(Plug(path, q))
    ensures Ordered(Plug(Rekey(path, data, q.key), Splice(q)), Internal)
    ensures Keys(Plug(Rekey(path, data, q.key), Splice(q))) == Keys(Plug(path, q)) - {data}
    decreases |path|, 2
  {
    if path == [] {
      assert Rekey(path, data, q.key) == [];
      FoundAtRoot(q, data);
    } else {
      FoundOnPath(path, q, data);
    }
  }

  /** `RemoveFoundOrder` below a first frame, which keeps its key unless it holds `data`. */
  lemma {:induction false} FoundOnPath(path: Path, q: RbTree, data: int)
    requires Ordered(Plug(path, q), Internal) && Routes(path, data, External) && q.Node? && path != []
    requires Child(q, RbTdExt.Way(q, data)).Nil? && data in Keys(Plug(path, q))
    ensures Ordered(Plug(Rekey(path, data, q.key), Splice(q)), Internal)
    ensures Keys(Plug(Rekey(path, data, q.key), Splice(q))) == Keys(Plug(path, q)) - {data}
    decreases |path|, 1
  {
    var f, rest := path[0], path[1..];
    assert path == [f] + rest;
    RoutesTail(path, data);
    PlugCons(f, rest, q);
    var g0 := if f.key == data then f.(key := q.key) else f;
    RekeyCons(f, rest, data, q.key);
    PlugCons(g0, Rekey(rest, data, q.key), Splice(q));
    if f.key == data {
      FoundAtFrame(f, rest, q, data);
    } else {
      FoundBelow(f, rest, q, data);
    }
  }

  /** `Rekey` frame by frame. */
  lemma RekeyCons(f: Frame<int, RbInfo>, rest: Path, data: int, k: int)
    ensures Rekey([f] + rest, data, k) == [if f.key == data then f.(key := k) else f] + Rekey(rest, data, k)
  {
    var a, b := Rekey([f] + rest, data, k), [if f.key == data then f.(key := k) else f] + Rekey(rest, data, k);
    assert |a| == |b|;
    forall i | 0 <= i < |a|
      ensures a[i] == b[i]
    {
      if i > 0 {
        assert ([f] + rest)[i] == rest[i - 1];
      }
    }
  }

  /** The frame holding `data`: its key becomes the predecessor's, which is spliced out below it. */
  lemma FoundAtFrame(f: Frame<int, RbInfo>, rest: Path, q: RbTree, data: int)
    requires Ordered(Attach(f, Plug(rest, q)), Internal) && Routes([f] + rest, data, External) && Routes(rest, data, External)
    requires q.Node? && Child(q, RbTdExt.Way(q, data)).Nil? && f.key == data
    ensures Rekey(rest, data, q.key) == rest
    ensures Ordered(Attach(f.(key := q.key), Plug(rest, Splice(q))), Internal)
    ensures Keys(Attach(f.(key := q.key), Plug(rest, Splice(q)))) == Keys(Attach(f, Plug(rest, q))) - {data}
  {
    assert ([f] + rest)[0] == f;
    assert Attach(f, Plug(rest, q)) == Node(Plug(rest, q), data, f.info, f.other) && f.dir == Left;
    PredecessorSplice(rest, q, data, f.info, f.other);
    assert Attach(f.(key := q.key), Plug(rest, Splice(q))) == Node(Plug(rest, Splice(q)), q.key, f.info, f.other);
  }

  /** `data` at the root: the walk ended there, and its only child replaces it. */
  lemma FoundAtRoot(q: RbTree, data: int)
    requires Ordered(q, Internal) && q.Node? && Child(q, RbTdExt.Way(q, data)).Nil? && data in Keys(q)
    ensures Ordered(Splice(q), Internal) && Keys(Splice(q)) == Keys(q) - {data}
  {
    assert Content(q.left, Internal) == Keys(q.left) && Content(q.right, Internal) == Keys(q.right);
    assert q.key == data;
    NodeKeyFresh(q, Splice(q));
  }

  /** A frame above the node holding `data` is kept as it is. */
  lemma {:induction false} FoundBelow(f: Frame<int, RbInfo>, rest: Path, q: RbTree, data: int)
    requires Ordered(Attach(f, Plug(rest, q)), Internal) && Routes([f] + rest, data, External) && Routes(rest, data, External)
    requires q.Node? && Child(q, RbTdExt.Way(q, data)).Nil? && data in Keys(Attach(f, Plug(rest, q))) && f.key != data
    ensures Ordered(Attach(f, Plug(Rekey(rest, data, q.key), Splice(q))), Internal)
    ensures Keys(Attach(f, Plug(Rekey(rest, data, q.key), Splice(q)))) == Keys(Attach(f, Plug(rest, q))) - {data}
    decreases |rest|, 3
  {
    var u := Plug(rest, q);
    assert ([f] + rest)[0] == f;
    assert Content(u, Internal) == Keys(u) && Content(f.other, Internal) == Keys(f.other);
    assert data in Keys(u);
    RemoveFoundOrder(rest, q, data);
    var u' := Plug(Rekey(rest, data, q.key), Splice(q));
    assert Content(u', Internal) == Keys(u');
  }

  /** Changing a key on the path changes no colour and no subtree beside it. */
  lemma {:induction false} RekeyFits(path: Path, data: int, k: int, h: nat, red: bool)
    ensures Fits(Rekey(path, data, k), h) == Fits(path, h) && Clean(Rekey(path, data, k), red) == Clean(path, red)
    decreases |path|
  {
    if path != [] {
      var n := |path|;
      assert Rekey(path, data, k)[..n - 1] == Rekey(path[..n - 1], data, k);
      RekeyFits(path[..n - 1], data, k, h + Weight(path[n - 1].info.color), path[n - 1].info.color == Red);
    }
  }

  /** Splicing out the pushed node at the end of the walk keeps the colour rules: it is a red leaf or the root. */
  lemma SpliceRb(path: Path, q: RbTree, data: int)
    requires Pushed(path, q, data) && Child(q, RbTdExt.Way(q, data)).Nil?
    ensures RbOk(Plug(path, Splice(q)))
  {
    var d := RbTdExt.Way(q, data);
    assert Splice(q) == Child(q, Flip(d));
    PlugOk(path, q);
    ChildrenOk(q, d);
    if IsRed(q) {
      assert Child(q, Flip(d)).Nil?;
      SwapOk(path, q, Nil);
    }
  }

  /** The removal of a key found on the walk, as a whole. */
  lemma RemoveFound(path: Path, q: RbTree, data: int)
    requires Pushed(path, q, data) && Child(q, RbTdExt.Way(q, data)).Nil? && data in Keys(Plug(path, q))
    ensures var t := Plug(Rekey(path, data, q.key), Splice(q));
      Ordered(t, Internal) && RbOk(t) && Keys(t) == Keys(Plug(path, q)) - {data}
  {
    RemoveFoundOrder(path, q, data);
    SpliceRb(path, q, data);
    PlugOk(path, Splice(q));
    PlugOk(Rekey(path, data, q.key), Splice(q));
    RekeyFits(path, data, q.key, BH(Splice(q)), IsRed(Splice(q)));
  }

  // ---------------------------------------------------------------------
  // jsw_remove2
  // ---------------------------------------------------------------------

  /**
   * `jsw_remove2`: top-down removal.  The walk pushes a red node down ahead
   * of itself, remembers the node holding `data`, and at the bottom copies
   * the last node's key into it and splices the last node out; the root is
   * painted black.  The C returns 1 whether or not `data` was present.
   */
  method Remove2(root: RbTree, data: int) returns (t: RbTree, r: int)
    requires Valid(root)
    ensures Valid(t) && Keys(t) == Keys(root) - {data}
    ensures r == 1
  {
    t := root;
    if root.Node? {
      var found := root.key == data;
      OnWay(root, data);
      var path, q := PushRed([], root, data);
      while Child(q, RbTdExt.Way(q, data)).Node?
        invariant Pushed(path, q, data) && Keys(Plug(path, q)) == Keys(root)
        invariant found <==> data in Keys(root) && data !in Keys(Child(q, RbTdExt.Way(q, data)))
        decreases Height(Child(q, RbTdExt.Way(q, data)))
      {
        var d := RbTdExt.Way(q, data);
        var c := Child(q, d);
        RemoveStep(path, q, data);
        if c.key == data {
          found := true;
        }
        path, q := PushRed(path + [FrameOf(q, d)], c, data);
      }
      if found {
        RemoveFound(path, q, data);
        t := Plug(Rekey(path, data, q.key), Splice(q));
      } else {
        t := Plug(path, q);
      }
      if t.Node? {
        RootBlack(t);
        t := Paint(t, Black);
      }
    }
    r := 1;
  }

  // ---------------------------------------------------------------------
  // _rbt_warmup_helper
  // ---------------------------------------------------------------------

  /**
   * `_rbt_warmup_helper`: insert `rand() % max_key` with `jsw_insert2`
   * until `nr_nodes` inserts succeeded.  The random numbers are the input
   * `rands`, and the loop also stops when they run out.
   */
  method WarmupHelper(root: RbTree, nrNodes: int, maxKey: int, rands: seq<nat>)
    returns (t: RbTree, inserted: int, used: nat)
    requires Valid(root) && maxKey > 0
    ensures Warmed(root, t, rands, used, inserted, maxKey)
    ensures inserted >= nrNodes || used == |rands|
    ensures nrNodes >= 0 ==> inserted <= nrNodes
  {
    t, inserted, used := root, 0, 0;
    while inserted < nrNodes && used < |rands|
      invariant Warmed(root, t, rands, used, inserted, maxKey)
      invariant nrNodes >= 0 ==> inserted <= nrNodes
      decreases |rands| - used
    {
      t, inserted := WarmupRound(root, t, rands, used, inserted, maxKey);
      used := used + 1;
    }
  }

  /**
   * What the warmup has done after `used` random numbers: `t` is valid and
   * holds the keys of `root` and every key drawn, `inserted` more than `root`.
   */
  predicate Warmed(root: RbTree, t: RbTree, rands: seq<nat>, used: nat, inserted: int, maxKey: int)
    requires maxKey > 0
  {
    Valid(t) && WarmupKeys.Progress(Keys(root), Keys(t), rands, used, inserted, maxKey)
  }

  /** One round of the warmup loop: draw a key, insert it, count a success. */
  method WarmupRound(ghost root: RbTree, t: RbTree, rands: seq<nat>, used: nat, inserted: int, maxKey: int)
    returns (t': RbTree, inserted': int)
    requires maxKey > 0 && used < |rands| && Warmed(root, t, rands, used, inserted, maxKey)
    ensures Warmed(root, t', rands, used + 1, inserted', maxKey)
    ensures inserted' == inserted || inserted' == inserted + 1
  {
    var key := rands[used] % maxKey;
    var ret;
    t', ret := Insert2(t, key);
    WarmupKeys.ProgressStep(Keys(root), Keys(t), Keys(t'), rands, used, inserted, maxKey, ret);
    inserted' := if ret then inserted + 1 else inserted;
  }
}
