/**
 * AVL nodes and the helpers of avl/avl_types.h and avl/avl_utils.h, with the
 * height bookkeeping every AVL variant shares.
 *
 * A node stores `height`: 0 for a node without children, and a NULL link
 * counts as -1 (`node_height`).  A tree is AVL when every stored height is
 * one more than the larger child height and the two child heights of every
 * node differ by at most one.
 */
module AvlCore {
  import opened Trees
  import opened SearchOrder

  /** The `void *value` of a node; 0 plays NULL. */
  type Data = int

  datatype AvlInfo = AvlInfo(height: int, value: Data)

  type AvlTree = Tree<int, AvlInfo>

  function Max(a: int, b: int): (m: int)
    ensures m >= a && m >= b && (m == a || m == b)
  {
    if a >= b then a else b
  }

  /** `avl_node_new`: height 0, both links NULL. */
  function NewNode(key: int, value: Data): AvlTree
  {
    Node(Nil, key, AvlInfo(0, value), Nil)
  }

  /** `_avl_new_helper`: a tree whose root is NULL. */
  function NewTree(): (t: AvlTree)
    ensures Keys(t) == {} && AvlOk(t) && H(t) == -1
  {
    Nil
  }

  /** `node_height`: -1 for NULL, the stored height otherwise. */
  function H(t: AvlTree): int
  {
    if t.Nil? then -1 else t.info.height
  }

  /** Every stored height is one more than the larger child height. */
  predicate HeightsOk(t: AvlTree)
  {
    match t
    case Nil => true
    case Node(l, _, i, r) => i.height == 1 + Max(H(l), H(r)) && HeightsOk(l) && HeightsOk(r)
  }

  /** Child heights differ by at most one at every node. */
  predicate Balanced(t: AvlTree)
  {
    match t
    case Nil => true
    case Node(l, _, _, r) => -1 <= H(l) - H(r) <= 1 && Balanced(l) && Balanced(r)
  }

  predicate AvlOk(t: AvlTree)
  {
    HeightsOk(t) && Balanced(t)
  }

  /** `node_balance` of avl/avl_utils.h: 0 for NULL or a node without children, left minus right height otherwise. */
  function Balance(t: AvlTree): (b: int)
    ensures IsLeaf(t) ==> b == 0
  {
    if t.Nil? then 0 else H(t.left) - H(t.right)
  }

  /** How much heavier the `d` side of a node is. */
  function Lean(t: AvlTree, d: Dir): (b: int)
    requires t.Node?
    ensures b == H(Child(t, d)) - H(Child(t, Flip(d)))
  {
    if d == Left then Balance(t) else -Balance(t)
  }

  /** The stored height recomputed from the children. */
  function Fix(t: AvlTree): (r: AvlTree)
    requires t.Node?
    ensures r.Node? && r.left == t.left && r.right == t.right && r.key == t.key
    ensures r.info.value == t.info.value
    ensures H(r) == 1 + Max(H(t.left), H(t.right))
  {
    Node(t.left, t.key, AvlInfo(1 + Max(H(t.left), H(t.right)), t.info.value), t.right)
  }

  lemma NewNodeValid(key: int, value: Data)
    ensures AvlOk(NewNode(key, value)) && H(NewNode(key, value)) == 0 && IsLeaf(NewNode(key, value))
    ensures Keys(NewNode(key, value)) == LeafKeys(NewNode(key, value)) == {key}
  {
  }

  /** The stored height is the number of nodes on the longest downward path, less one. */
  lemma {:induction false} StoredIsHeight(t: AvlTree)
    requires HeightsOk(t)
    ensures H(t) == Height(t) - 1
  {
    if t.Node? {
      StoredIsHeight(t.left);
      StoredIsHeight(t.right);
    }
  }

  // ---------------------------------------------------------------------
  // Rotations (avl_rotate_single, avl_rotate_double)
  // ---------------------------------------------------------------------

  /**
   * `avl_rotate_single(root, dir)`: `save = root->link[!dir]` becomes the
   * top, `root` its `link[dir]`, and both recompute their heights, `root`
   * first.
   */
  function RotateFix(t: AvlTree, d: Dir): (r: AvlTree)
    requires t.Node? && Child(t, Flip(d)).Node?
    ensures r.Node? && Child(r, d).Node?
    ensures r.key == Child(t, Flip(d)).key && Child(r, d).key == t.key
    ensures Child(r, Flip(d)) == Child(Child(t, Flip(d)), Flip(d))
    ensures Child(Child(r, d), d) == Child(t, d) && Child(Child(r, d), Flip(d)) == Child(Child(t, Flip(d)), d)
    ensures H(Child(r, d)) == 1 + Max(H(Child(t, d)), H(Child(Child(t, Flip(d)), d)))
    ensures H(r) == 1 + Max(H(Child(r, d)), H(Child(r, Flip(d))))
  {
    var r := Rotate(t, d);
    Fix(WithChild(r, d, Fix(Child(r, d))))
  }

  /** `avl_rotate_double(root, dir)`: rotate the `link[!dir]` child toward `!dir`, then `root` toward `dir`. */
  function DoubleFix(t: AvlTree, d: Dir): (r: AvlTree)
    requires t.Node? && Child(t, Flip(d)).Node? && Child(Child(t, Flip(d)), d).Node?
    ensures var s := Child(t, Flip(d)); var g := Child(s, d);
      && r.Node? && Child(r, d).Node? && Child(r, Flip(d)).Node?
      && r.key == g.key && Child(r, d).key == t.key && Child(r, Flip(d)).key == s.key
      && Child(Child(r, d), d) == Child(t, d) && Child(Child(r, d), Flip(d)) == Child(g, d)
      && Child(Child(r, Flip(d)), Flip(d)) == Child(s, Flip(d)) && Child(Child(r, Flip(d)), d) == Child(g, Flip(d))
    ensures var s := Child(t, Flip(d)); var g := Child(s, d);
      && H(Child(r, d)) == 1 + Max(H(Child(t, d)), H(Child(g, d)))
      && H(Child(r, Flip(d))) == 1 + Max(H(Child(s, Flip(d))), H(Child(g, Flip(d))))
      && H(r) == 1 + Max(H(Child(r, d)), H(Child(r, Flip(d))))
  {
    assert Flip(Flip(d)) == d;
    RotateFix(WithChild(t, Flip(d), RotateFix(Child(t, Flip(d)), Flip(d))), d)
  }

  /** A rotation keeps the keys and the order, and in an external tree the leaves and the shape. */
  lemma RotateFixKeeps(t: AvlTree, d: Dir, pol: Policy)
    requires t.Node? && Child(t, Flip(d)).Node?
    ensures Keys(RotateFix(t, d)) == Keys(t)
    ensures Ordered(t, pol) && (pol == External ==> Full(t) && !IsLeaf(Child(t, Flip(d))))
      ==> Ordered(RotateFix(t, d), pol)
    ensures Full(t) && !IsLeaf(Child(t, Flip(d))) ==>
      Full(RotateFix(t, d)) && LeafKeys(RotateFix(t, d)) == LeafKeys(t)
  {
    var r := Rotate(t, d);
    RotateKeys(t, d);
    if Ordered(t, pol) && (pol == External ==> Full(t) && !IsLeaf(Child(t, Flip(d)))) {
      RotateOrdered(t, d, pol);
    }
    if Full(t) && !IsLeaf(Child(t, Flip(d))) {
      RotateLeaves(t, d);
    }
    RefreshKeeps(r, d, pol);
  }

  /** Recomputing the heights of a node and of one child changes neither keys, leaves, shape nor order. */
  lemma RefreshKeeps(r: AvlTree, d: Dir, pol: Policy)
    requires r.Node? && Child(r, d).Node?
    ensures var u := Fix(WithChild(r, d, Fix(Child(r, d))));
      Keys(u) == Keys(r) && LeafKeys(u) == LeafKeys(r) && (Full(u) <==> Full(r))
      && (Ordered(u, pol) <==> Ordered(r, pol))
  {
    var c := Child(r, d);
    assert Content(Fix(c), pol) == Content(c, pol);
    assert Ordered(Fix(c), pol) <==> Ordered(c, pol);
  }

  /** The same for the double rotation. */
  lemma DoubleFixKeeps(t: AvlTree, d: Dir, pol: Policy)
    requires t.Node? && Child(t, Flip(d)).Node? && Child(Child(t, Flip(d)), d).Node?
    ensures Keys(DoubleFix(t, d)) == Keys(t)
    ensures Ordered(t, pol) && (pol == External ==> Full(t) && !IsLeaf(Child(Child(t, Flip(d)), d)))
      ==> Ordered(DoubleFix(t, d), pol)
    ensures Full(t) && !IsLeaf(Child(Child(t, Flip(d)), d)) ==>
      Full(DoubleFix(t, d)) && LeafKeys(DoubleFix(t, d)) == LeafKeys(t)
  {
    var s := Child(t, Flip(d));
    var s2 := RotateFix(s, Flip(d));
    var t2 := WithChild(t, Flip(d), s2);
    var f := FrameOf(t, Flip(d));
    AttachFrameOf(t, Flip(d));
    PlugOne(f, s);
    PlugOne(f, s2);
    assert Attach(f, s2) == t2;
    RotateFixKeeps(s, Flip(d), pol);
    KeysPlug([f], s);
    KeysPlug([f], s2);
    assert Child(t2, Flip(d)) == s2;
    if Ordered(t, pol) && (pol == External ==> Full(t) && !IsLeaf(Child(s, d))) {
      if pol == External {
        assert Full(s);
      }
      OrderedFocus([f], s, pol);
      OrderedReplace([f], s, s2, pol);
      if pol == External {
        assert !IsLeaf(Child(t2, Flip(d)));
        FullPlug([f], s);
        FullPlug([f], s2);
      }
      RotateFixKeeps(t2, d, pol);
    }
    if Full(t) && !IsLeaf(Child(s, d)) {
      assert Full(s);
      FullPlug([f], s);
      FullPlug([f], s2);
      LeafKeysPlug([f], s);
      LeafKeysPlug([f], s2);
      RotateFixKeeps(t2, d, pol);
    }
  }

  // ---------------------------------------------------------------------
  // replace_external_node
  // ---------------------------------------------------------------------

  /**
   * `replace_external_node(root, nodes)` with `nodes[0]` and `nodes[1]`
   * both fresh `(key, value)` nodes: the leaf becomes an inner node of
   * height 1 over two height-0 leaves, the smaller key on the left and on
   * the inner node.  The inner node keeps the old leaf's value; when the
   * old key is the larger one it moves onto `nodes[1]`, whose value is the
   * new one.
   */
  function ReplaceExternal(leaf: AvlTree, key: int, value: Data): (r: AvlTree)
    requires IsLeaf(leaf) && leaf.key != key
    ensures r.Node? && IsLeaf(r.left) && IsLeaf(r.right)
    ensures r.left.key == r.key < r.right.key && {r.left.key, r.right.key} == {key, leaf.key}
    ensures r.info == AvlInfo(1, leaf.info.value)
    ensures r.left.info == AvlInfo(0, value) && r.right.info == AvlInfo(0, value)
  {
    if leaf.key > key then Node(NewNode(key, value), key, AvlInfo(1, leaf.info.value), NewNode(leaf.key, value))
    else Node(NewNode(leaf.key, value), leaf.key, AvlInfo(1, leaf.info.value), NewNode(key, value))
  }

  lemma ReplaceExternalValid(leaf: AvlTree, key: int, value: Data)
    requires IsLeaf(leaf) && leaf.key != key
    ensures var r := ReplaceExternal(leaf, key, value);
      AvlOk(r) && H(r) == 1 && Full(r) && Ordered(r, External) && LeafKeys(r) == {key, leaf.key}
  {
    var r := ReplaceExternal(leaf, key, value);
    assert LeafKeys(r) == {r.left.key, r.right.key};
    assert Content(r.left, External) == {r.left.key};
    assert Content(r.right, External) == {r.right.key};
  }

  // ---------------------------------------------------------------------
  // Heights along a path
  // ---------------------------------------------------------------------

  lemma HeightsNonNegative(t: AvlTree)
    requires HeightsOk(t) && t.Node?
    ensures H(t) >= 0
  {
  }

  /** A subtree of height 1 or more is an inner node. */
  lemma TallNotLeaf(t: AvlTree)
    requires HeightsOk(t) && H(t) >= 1
    ensures t.Node? && !IsLeaf(t)
  {
  }

  /** The subtree at the end of a path of an AVL tree is AVL. */
  lemma {:induction false} AvlFocus(path: seq<Frame<int, AvlInfo>>, t: AvlTree)
    requires AvlOk(Plug(path, t))
    ensures AvlOk(t)
    decreases |path|
  {
    if path != [] {
      AvlFocus(path[..|path| - 1], Attach(path[|path| - 1], t));
    }
  }

  /** An AVL subtree of the same height may replace the focus of an AVL tree. */
  lemma {:induction false} AvlReplace(path: seq<Frame<int, AvlInfo>>, t: AvlTree, u: AvlTree)
    requires AvlOk(Plug(path, t)) && AvlOk(u) && H(u) == H(t)
    ensures AvlOk(Plug(path, u))
    decreases |path|
  {
    if path != [] {
      var init, last := path[..|path| - 1], path[|path| - 1];
      AvlFocus(init, Attach(last, t));
      AvlReplace(init, Attach(last, t), Attach(last, u));
    }
  }

  // ---------------------------------------------------------------------
  // Rebalancing after an insert: a subtree grew by one
  // ---------------------------------------------------------------------

  /**
   * The node above a subtree `c` that grew out of `co` stays within the
   * balance bound: recomputing its height either leaves the height as it was
   * or raises it by one, and then it leans to the grown side.
   */
  lemma GrowAbsorbed(f: Frame<int, AvlInfo>, c: AvlTree, co: AvlTree)
    requires AvlOk(Attach(f, co)) && AvlOk(c) && H(c) == H(co) + 1
    requires -1 <= Balance(Attach(f, c)) <= 1
    ensures var n := Fix(Attach(f, c));
      AvlOk(n) && (H(n) == H(Attach(f, co)) || (H(n) == H(Attach(f, co)) + 1 && Lean(n, f.dir) == 1))
  {
  }

  /**
   * A node that a grown child has tipped to balance +-2: the child leans the
   * same way (single rotation) or the other way (double rotation), never
   * neither, and either rotation brings back an AVL subtree of the height
   * the node had before the insert.
   */
  lemma GrowRotate(f: Frame<int, AvlInfo>, c: AvlTree, co: AvlTree)
    requires AvlOk(Attach(f, co)) && AvlOk(c) && H(c) == H(co) + 1
    requires c.Node? && (Balance(c) != 0 || H(c) <= H(f.other) + 1)
    requires Balance(Attach(f, c)) == 2 || Balance(Attach(f, c)) == -2
    ensures Lean(Attach(f, c), f.dir) == 2 && (Lean(c, f.dir) == 1 || Lean(c, f.dir) == -1)
    ensures Lean(c, f.dir) == 1 ==>
      AvlOk(RotateFix(Attach(f, c), Flip(f.dir))) && H(RotateFix(Attach(f, c), Flip(f.dir))) == H(Attach(f, co))
    ensures Lean(c, f.dir) == -1 ==> (Child(c, Flip(f.dir)).Node? &&
      AvlOk(DoubleFix(Attach(f, c), Flip(f.dir))) && H(DoubleFix(Attach(f, c), Flip(f.dir))) == H(Attach(f, co)))
  {
    var n := Attach(f, c);
    var h := f.dir;
    assert Lean(n, h) == 2;
    if Lean(c, h) == 1 {
      SingleRotateAvl(n, h);
    } else {
      DoubleRotateAvl(n, h);
    }
  }

  // ---------------------------------------------------------------------
  // Rebalancing after a delete: a subtree shrank by at most one
  // ---------------------------------------------------------------------

  lemma ShrinkAbsorbed(f: Frame<int, AvlInfo>, c: AvlTree, co: AvlTree)
    requires AvlOk(Attach(f, co)) && AvlOk(c) && (H(c) == H(co) || H(c) == H(co) - 1)
    requires -1 <= Balance(Attach(f, c)) <= 1
    ensures var n := Fix(Attach(f, c));
      AvlOk(n) && (H(n) == H(Attach(f, co)) || H(n) == H(Attach(f, co)) - 1)
  {
  }

  /**
   * A node tipped to balance +-2 by a shrunk child leans to the other
   * child, which is AVL: a single rotation when that child leans the same
   * way or not at all, a double rotation otherwise, and the subtree comes
   * back AVL, at most one lower than before the delete.
   */
  lemma ShrinkRotate(f: Frame<int, AvlInfo>, c: AvlTree, co: AvlTree)
    requires AvlOk(Attach(f, co)) && AvlOk(c) && (H(c) == H(co) || H(c) == H(co) - 1)
    requires Balance(Attach(f, c)) == 2 || Balance(Attach(f, c)) == -2
    ensures var s := f.other; var h := Flip(f.dir);
      s.Node? && Lean(Attach(f, c), h) == 2 && -1 <= Lean(s, h) <= 1
    ensures var h := Flip(f.dir); var r := RotateFix(Attach(f, c), f.dir);
      Lean(f.other, h) >= 0 ==> AvlOk(r) && (H(r) == H(Attach(f, co)) || H(r) == H(Attach(f, co)) - 1)
    ensures var h := Flip(f.dir);
      Lean(f.other, h) == -1 ==> (Child(f.other, f.dir).Node? &&
        var r := DoubleFix(Attach(f, c), f.dir);
        AvlOk(r) && (H(r) == H(Attach(f, co)) || H(r) == H(Attach(f, co)) - 1))
  {
    var n := Attach(f, c);
    var h := Flip(f.dir);
    if c.Node? {
      HeightsNonNegative(c);
    }
    assert f.other.Node?;
    assert Child(n, h) == f.other;
    assert Lean(n, h) == 2;
    if Lean(f.other, h) >= 0 {
      SingleRotateAvl(n, h);
    } else {
      DoubleRotateAvl(n, h);
    }
    assert Flip(h) == f.dir;
  }

  // ---------------------------------------------------------------------
  // The two rotations on a node two higher on its `h` side
  // ---------------------------------------------------------------------

  /**
   * Single rotation away from the heavy side `h`: AVL again, as high as the
   * heavy child when that child leans to `h`, one higher when it does not lean.
   */
  lemma SingleRotateAvl(n: AvlTree, h: Dir)
    requires n.Node? && Child(n, h).Node? && AvlOk(Child(n, h)) && AvlOk(Child(n, Flip(h)))
    requires Lean(n, h) == 2 && 0 <= Lean(Child(n, h), h) <= 1
    ensures AvlOk(RotateFix(n, Flip(h)))
    ensures H(RotateFix(n, Flip(h))) == H(Child(n, h)) + 1 - Lean(Child(n, h), h)
  {
    var s := Child(n, h);
    var r := RotateFix(n, Flip(h));
    assert Flip(Flip(h)) == h;
    var down := Child(r, Flip(h));
    assert Child(down, Flip(h)) == Child(n, Flip(h));
    assert Child(down, h) == Child(s, Flip(h));
    assert Child(r, h) == Child(s, h);
    assert AvlOk(down) by {
      if h == Left {
        assert down == Node(s.right, n.key, AvlInfo(H(down), n.info.value), n.right);
      } else {
        assert down == Node(n.left, n.key, AvlInfo(H(down), n.info.value), s.left);
      }
    }
    if h == Left {
      assert r == Node(s.left, s.key, AvlInfo(H(r), s.info.value), down);
    } else {
      assert r == Node(down, s.key, AvlInfo(H(r), s.info.value), s.right);
    }
  }

  /**
   * Double rotation when the heavy child `s` leans away from `h`: its inner
   * child `g` rises to the top, and the result is AVL and as high as `s`.
   */
  lemma DoubleRotateAvl(n: AvlTree, h: Dir)
    requires n.Node? && Child(n, h).Node? && AvlOk(Child(n, h)) && AvlOk(Child(n, Flip(h)))
    requires Lean(n, h) == 2 && Lean(Child(n, h), h) == -1
    ensures Child(Child(n, h), Flip(h)).Node?
    ensures AvlOk(DoubleFix(n, Flip(h)))
    ensures H(DoubleFix(n, Flip(h))) == H(Child(n, h))
  {
    var s := Child(n, h);
    var g := Child(s, Flip(h));
    assert Flip(Flip(h)) == h;
    if Child(s, h).Node? {
      HeightsNonNegative(Child(s, h));
    }
    assert g.Node?;
    assert AvlOk(g) && AvlOk(Child(s, h));
    assert AvlOk(Child(g, h)) && AvlOk(Child(g, Flip(h)));
    assert H(g) == H(Child(s, h)) + 1 == H(Child(n, Flip(h))) + 1;
    var s2 := RotateFix(s, h);
    var n2 := WithChild(n, h, s2);
    var r := RotateFix(n2, Flip(h));
    assert r == DoubleFix(n, Flip(h));
    // After the inner rotation: g on top, s below on the h side.
    var sd := Child(s2, h);
    assert Child(sd, h) == Child(s, h) && Child(sd, Flip(h)) == Child(g, h);
    assert Child(s2, Flip(h)) == Child(g, Flip(h));
    assert AvlOk(sd) by {
      if h == Left {
        assert sd == Node(s.left, s.key, AvlInfo(H(sd), s.info.value), g.left);
      } else {
        assert sd == Node(g.right, s.key, AvlInfo(H(sd), s.info.value), s.right);
      }
    }
    // After the outer rotation: g on top, s on the h side, n on the other.
    var nd := Child(r, Flip(h));
    assert Child(r, h) == sd;
    assert Child(nd, Flip(h)) == Child(n, Flip(h)) && Child(nd, h) == Child(g, Flip(h));
    assert AvlOk(nd) by {
      if h == Left {
        assert nd == Node(g.right, n.key, AvlInfo(H(nd), n.info.value), n.right);
      } else {
        assert nd == Node(n.left, n.key, AvlInfo(H(nd), n.info.value), g.left);
      }
    }
    if h == Left {
      assert r == Node(sd, g.key, AvlInfo(H(r), g.info.value), nd);
    } else {
      assert r == Node(nd, g.key, AvlInfo(H(r), g.info.value), sd);
    }
  }
}
