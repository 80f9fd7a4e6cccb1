/**
 * The sequential external (leaf-oriented) AVL tree of
 * avl/avl_links_bu_ext_iterative.c: keys live in the leaves, an inner node
 * routes a key `x` left iff `x <= key`, and after an insert or a delete the
 * heights are repaired bottom-up along the stack of visited nodes.
 *
 * The stack is the path of frames; the dummy `head` node at its bottom,
 * whose `link[1]` is the root, is the empty prefix: writing through it is
 * `Plug` with an empty path, which is the new root.
 */
module AvlExternal {
  import opened Trees
  import opened SearchOrder
  import opened AvlCore

  /** An external AVL tree: full, ordered by its leaves, heights right and balanced. */
  predicate Valid(t: AvlTree)
  {
    Full(t) && Ordered(t, External) && AvlOk(t)
  }

  /** `_avl_lookup_helper`: the number of inner nodes passed, and whether the reached leaf holds `key`. */
  method Lookup(root: AvlTree, key: int) returns (level: nat, found: bool)
    requires Full(root)
    ensures level == |ExtDescend(root, key).0|
    ensures found <==> ExtDescend(root, key).1.Node? && ExtDescend(root, key).1.key == key
    ensures Ordered(root, External) ==> (found <==> key in LeafKeys(root))
  {
    if Ordered(root, External) {
      ExtDescendFinds(root, key);
    }
    level := 0;
    found := false;
    if root.Nil? {
      return;
    }
    var cur := root;
    ghost var path: seq<Frame<int, AvlInfo>> := [];
    assert [] + ExtDescend(cur, key).0 == ExtDescend(cur, key).0;
    while !IsLeaf(cur)
      invariant cur.Node? && Full(cur) && level == |path|
      invariant ExtDescend(root, key) == (path + ExtDescend(cur, key).0, ExtDescend(cur, key).1)
      decreases cur
    {
      var d := if cur.key < key then Right else Left;
      ExtDescendStep(root, key, path, cur);
      path := path + [FrameOf(cur, d)];
      cur := Child(cur, d);
      level := level + 1;
    }
    assert path + [] == path;
    found := cur.key == key;
  }

  // ---------------------------------------------------------------------
  // Insert
  // ---------------------------------------------------------------------

  /**
   * `_avl_insert_fixup`, starting at the parent of the new inner node `c0`
   * that replaced the leaf `co0`.  Each step looks at the node above the
   * subtree that grew: balance +-2 is cured by one single or double
   * rotation and ends the walk; otherwise the node's height is recomputed
   * and the walk ends as soon as it did not change.
   */
  method InsertFixup(path0: seq<Frame<int, AvlInfo>>, c0: AvlTree, ghost co0: AvlTree) returns (t: AvlTree)
    requires AvlOk(Plug(path0, co0)) && AvlOk(c0) && c0.Node? && H(c0) == 1 && H(co0) == 0
    requires Full(Plug(path0, c0)) && Ordered(Plug(path0, c0), External)
    ensures Valid(t) && LeafKeys(t) == LeafKeys(Plug(path0, c0))
  {
    var path, c := path0, c0;
    ghost var co := co0;
    while path != []
      invariant AvlOk(Plug(path, co)) && AvlOk(c) && c.Node? && H(c) == H(co) + 1
      invariant Balance(c) != 0 || H(c) == 1
      invariant Full(Plug(path, c)) && Ordered(Plug(path, c), External)
      invariant LeafKeys(Plug(path, c)) == LeafKeys(Plug(path0, c0))
      decreases |path|
    {
      var init, f := path[..|path| - 1], path[|path| - 1];
      var n := Attach(f, c);
      AvlFocus(init, Attach(f, co));
      FullPlug(init, n);
      OrderedFocus(init, n, External);
      var b := Balance(n);
      if b == 2 || b == -2 {
        HeightsNonNegative(f.other);
        var r := RebalanceGrown(f, c, co);
        AvlReplace(init, Attach(f, co), r);
        ExtReplaceSame(init, n, r);
        return Plug(init, r);
      }
      var n2 := Fix(n);
      GrowAbsorbed(f, c, co);
      ExtReplaceSame(init, n, n2);
      if H(n2) == f.info.height {
        AvlReplace(init, Attach(f, co), n2);
        return Plug(init, n2);
      }
      path, c, co := init, n2, Attach(f, co);
    }
    t := c;
  }

  /**
   * The balance +-2 branch of `_avl_insert_fixup`: the node leans two to the
   * side that grew; a child leaning the same way (balance2 of the same
   * sign) takes a single rotation, one leaning the other way a double
   * rotation, and balance2 is never 0.
   */
  method RebalanceGrown(f: Frame<int, AvlInfo>, c: AvlTree, ghost co: AvlTree) returns (r: AvlTree)
    requires AvlOk(Attach(f, co)) && AvlOk(c) && c.Node? && H(c) == H(co) + 1
    requires Balance(c) != 0 || H(c) <= H(f.other) + 1
    requires Balance(Attach(f, c)) == 2 || Balance(Attach(f, c)) == -2
    requires Full(Attach(f, c)) && Ordered(Attach(f, c), External)
    ensures AvlOk(r) && H(r) == H(Attach(f, co))
    ensures r.Node? && Full(r) && Ordered(r, External) && LeafKeys(r) == LeafKeys(Attach(f, c))
  {
    var n := Attach(f, c);
    assert Child(Attach(f, co), Flip(f.dir)) == f.other && f.other.Node?;
    HeightsNonNegative(f.other);
    GrowRotate(f, c, co);
    var b := Balance(n);
    var h := if b == 2 then Left else Right;
    assert h == f.dir;
    var b2 := Balance(Child(n, h));
    assert b2 != 0;
    TallNotLeaf(c);
    if b2 == (if h == Left then 1 else -1) {
      r := RotateFix(n, Flip(h));
      RotateFixKeeps(n, Flip(h), External);
    } else {
      assert Flip(Flip(h)) == h;
      TallNotLeaf(Child(c, Flip(h)));
      r := DoubleFix(n, Flip(h));
      DoubleFixKeeps(n, Flip(h), External);
    }
  }

  /**
   * `_avl_insert_helper` (and `_avl_insert_warmup`, the same code): an empty
   * tree becomes the new leaf; a present key changes nothing; otherwise the
   * reached leaf is split by `replace_external_node` and the heights fixed.
   */
  method Insert(root: AvlTree, key: int, value: Data) returns (t: AvlTree, changed: bool)
    requires Valid(root)
    ensures Valid(t)
    ensures LeafKeys(t) == LeafKeys(root) + {key}
    ensures changed <==> key !in LeafKeys(root)
    ensures !changed ==> t == root
  {
    if root.Nil? {
      NewNodeValid(key, value);
      return NewNode(key, value), true;
    }
    var path: seq<Frame<int, AvlInfo>> := [];
    var leaf := root;
    assert [] + ExtDescend(leaf, key).0 == ExtDescend(leaf, key).0;
    while !IsLeaf(leaf)
      invariant leaf.Node? && Full(leaf)
      invariant ExtDescend(root, key) == (path + ExtDescend(leaf, key).0, ExtDescend(leaf, key).1)
      decreases leaf
    {
      var d := if leaf.key < key then Right else Left;
      ExtDescendStep(root, key, path, leaf);
      path := path + [FrameOf(leaf, d)];
      leaf := Child(leaf, d);
    }
    assert path + [] == path;
    ExtDescendFinds(root, key);
    if leaf.key == key {
      return root, false;
    }
    var inner := ReplaceExternal(leaf, key, value);
    ReplaceExternalValid(leaf, key, value);
    AvlFocus(path, leaf);
    OrderedFocus(path, leaf, External);
    OrderedReplace(path, leaf, inner, External);
    FullPlug(path, leaf);
    FullPlug(path, inner);
    LeafKeysPlug(path, leaf);
    LeafKeysPlug(path, inner);
    t := InsertFixup(path, inner, leaf);
    changed := true;
  }

  // ---------------------------------------------------------------------
  // Delete
  // ---------------------------------------------------------------------

  /**
   * `_avl_delete_fixup`, starting at the node whose child `c0` replaced the
   * subtree `co0`, one lower or as high.  A rotation does not end the walk;
   * an unchanged recomputed height does.
   */
  method DeleteFixup(path0: seq<Frame<int, AvlInfo>>, c0: AvlTree, ghost co0: AvlTree) returns (t: AvlTree)
    requires AvlOk(Plug(path0, co0)) && AvlOk(c0) && c0.Node? && (H(c0) == H(co0) || H(c0) == H(co0) - 1)
    requires Full(Plug(path0, c0)) && Ordered(Plug(path0, c0), External)
    ensures Valid(t) && LeafKeys(t) == LeafKeys(Plug(path0, c0))
  {
    var path, c := path0, c0;
    ghost var co := co0;
    while path != []
      invariant AvlOk(Plug(path, co)) && AvlOk(c) && c.Node? && (H(c) == H(co) || H(c) == H(co) - 1)
      invariant Full(Plug(path, c)) && Ordered(Plug(path, c), External)
      invariant LeafKeys(Plug(path, c)) == LeafKeys(Plug(path0, c0))
      decreases |path|
    {
      var init, f := path[..|path| - 1], path[|path| - 1];
      var n := Attach(f, c);
      AvlFocus(init, Attach(f, co));
      FullPlug(init, n);
      OrderedFocus(init, n, External);
      var b := Balance(n);
      if b == 2 || b == -2 {
        var r := RebalanceShrunk(f, c, co);
        ExtReplaceSame(init, n, r);
        path, c, co := init, r, Attach(f, co);
        continue;
      }
      var n2 := Fix(n);
      ShrinkAbsorbed(f, c, co);
      ExtReplaceSame(init, n, n2);
      if H(n2) == f.info.height {
        AvlReplace(init, Attach(f, co), n2);
        return Plug(init, n2);
      }
      path, c, co := init, n2, Attach(f, co);
    }
    t := c;
  }

  /**
   * The balance +-2 branch of `_avl_delete_fixup`: the node leans two away
   * from the side that shrank; a heavy child leaning the same way or not at
   * all takes a single rotation, one leaning the other way a double
   * rotation.
   */
  method RebalanceShrunk(f: Frame<int, AvlInfo>, c: AvlTree, ghost co: AvlTree) returns (r: AvlTree)
    requires AvlOk(Attach(f, co)) && AvlOk(c) && c.Node? && (H(c) == H(co) || H(c) == H(co) - 1)
    requires Balance(Attach(f, c)) == 2 || Balance(Attach(f, c)) == -2
    requires Full(Attach(f, c)) && Ordered(Attach(f, c), External)
    ensures AvlOk(r) && (H(r) == H(Attach(f, co)) || H(r) == H(Attach(f, co)) - 1)
    ensures r.Node? && Full(r) && Ordered(r, External) && LeafKeys(r) == LeafKeys(Attach(f, c))
  {
    var n := Attach(f, c);
    HeightsNonNegative(c);
    ShrinkRotate(f, c, co);
    var b := Balance(n);
    var h := if b == 2 then Left else Right;
    assert h == Flip(f.dir) && Flip(h) == f.dir;
    var b2 := Balance(Child(n, h));
    TallNotLeaf(f.other);
    if b2 == 0 || b2 == (if h == Left then 1 else -1) {
      r := RotateFix(n, Flip(h));
      RotateFixKeeps(n, Flip(h), External);
    } else {
      TallNotLeaf(Child(f.other, f.dir));
      r := DoubleFix(n, Flip(h));
      DoubleFixKeeps(n, Flip(h), External);
    }
  }

  /**
   * Unhooking the leaf at the end of `path` together with its parent: the
   * parent's other child takes the parent's place, one lower or as high.
   */
  lemma Unhang(path: seq<Frame<int, AvlInfo>>, leaf: AvlTree, key: int)
    requires Valid(Plug(path, leaf)) && IsLeaf(leaf) && leaf.key == key && Routes(path, key, External) && path != []
    ensures var init, p := path[..|path| - 1], path[|path| - 1];
      AvlOk(Plug(init, Attach(p, leaf))) && AvlOk(p.other) && p.other.Node?
      && H(p.other) == H(Attach(p, leaf)) - 1
      && Full(Plug(init, p.other)) && Ordered(Plug(init, p.other), External)
      && LeafKeys(Plug(init, p.other)) == LeafKeys(Plug(path, leaf)) - {key}
  {
    var init, p := path[..|path| - 1], path[|path| - 1];
    var sib := p.other;
    var n := Attach(p, leaf);
    AvlFocus(init, n);
    FullPlug(init, n);
    assert Full(n) && Child(n, p.dir) == leaf && AvlOk(leaf) && H(leaf) == 0;
    HeightsNonNegative(sib);
    OrderedFocus(init, n, External);
    ContentAttach(p, leaf, External);
    assert Ordered(sib, External);
    OrderedReplace(init, n, sib, External);
    FullPlug(init, sib);
    RouteAvoids(path, leaf, key, External);
    LeafKeysPlug(init, n);
    LeafKeysPlug(init, sib);
    LeafKeysPlug(path, leaf);
  }

  /**
   * `_avl_delete_helper`: an absent key changes nothing; a sole leaf leaves
   * an empty tree; a child of the root leaves the root's other child; any
   * deeper leaf is unhooked with its parent and the heights fixed from the
   * grandparent up.
   */
  method Delete(root: AvlTree, key: int) returns (t: AvlTree, changed: bool)
    requires Valid(root)
    ensures Valid(t)
    ensures LeafKeys(t) == LeafKeys(root) - {key}
    ensures changed <==> key in LeafKeys(root)
  {
    if root.Nil? {
      return root, false;
    }
    var path: seq<Frame<int, AvlInfo>> := [];
    var leaf := root;
    assert [] + ExtDescend(leaf, key).0 == ExtDescend(leaf, key).0;
    while !IsLeaf(leaf)
      invariant leaf.Node? && Full(leaf)
      invariant ExtDescend(root, key) == (path + ExtDescend(leaf, key).0, ExtDescend(leaf, key).1)
      decreases leaf
    {
      var d := if leaf.key < key then Right else Left;
      ExtDescendStep(root, key, path, leaf);
      path := path + [FrameOf(leaf, d)];
      leaf := Child(leaf, d);
    }
    assert path + [] == path;
    ExtDescendFinds(root, key);
    if leaf.key != key {
      return root, false;
    }
    changed := true;
    if path == [] {
      t := Nil;
    } else if |path| == 1 {
      Unhang(path, leaf, key);
      t := path[0].other;
    } else {
      Unhang(path, leaf, key);
      var p := path[|path| - 1];
      t := DeleteFixup(path[..|path| - 1], p.other, Attach(p, leaf));
    }
  }
}
