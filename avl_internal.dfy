/**
 * The sequential internal AVL tree of avl/avl-sequential-internal.c: every
 * node holds a key, the left subtree smaller keys and the right subtree
 * larger ones, and heights are repaired bottom-up along the stack that
 * `_traverse_with_stack` fills.
 *
 * The file's own `node_balance` counts a missing child as height 0 where
 * `node_height` counts it as -1.  `NodeBalanceAsWritten` keeps that; the
 * operations here use the balance of `node_height`, `AvlCore.Balance`;
 * `InsertAsWritten` and `DeleteAsWritten` use the written one, and
 * `AsWrittenBuildsChain`, `ChainGoesUnnoticed` and
 * `DeleteAsWrittenLeavesImbalance` show what it lets through.
 *
 * `rotate_right` and `rotate_left` are `RotateFix(_, Right)` and
 * `RotateFix(_, Left)`: the same moves and the same height updates as
 * `avl_rotate_single`.
 */
module AvlInternal {
  import opened Trees
  import opened SearchOrder
  import opened AvlCore
  import opened Wrappers
  import WarmupKeys

  /** An internal AVL tree: strictly ordered keys, heights right and balanced. */
  predicate Valid(t: AvlTree)
  {
    Ordered(t, Internal) && AvlOk(t)
  }

  /**
   * `node_balance` as written in this file: a missing child counts as
   * height 0, so a node with one child is seen one step nearer to that
   * child's side than it is.
   */
  function NodeBalanceAsWritten(t: AvlTree): (b: int)
    ensures t.Node? ==> b == Balance(t) + (if t.left.Nil? then 1 else 0) - (if t.right.Nil? then 1 else 0)
  {
    if t.Nil? then 0
    else (if t.left.Node? then t.left.info.height else 0) - (if t.right.Node? then t.right.info.height else 0)
  }

  // ---------------------------------------------------------------------
  // Traversals
  // ---------------------------------------------------------------------

  /** `_traverse` and `_avl_lookup_helper`: walk down until the key or NULL; found iff not NULL. */
  method Lookup(root: AvlTree, key: int) returns (found: bool)
    ensures found <==> IntDescend(root, key).1.Node?
    ensures Ordered(root, Internal) ==> (found <==> key in Keys(root))
  {
    if Ordered(root, Internal) {
      IntDescendFinds(root, key);
    }
    var leaf := root;
    ghost var path: seq<Frame<int, AvlInfo>> := [];
    assert [] + IntDescend(leaf, key).0 == IntDescend(leaf, key).0;
    while leaf.Node? && leaf.key != key
      invariant IntDescend(root, key) == (path + IntDescend(leaf, key).0, IntDescend(leaf, key).1)
      decreases leaf
    {
      var d := if key < leaf.key then Left else Right;
      IntDescendStep(root, key, path, leaf);
      path := path + [FrameOf(leaf, d)];
      leaf := Child(leaf, d);
    }
    found := leaf.Node?;
  }

  /**
   * `_traverse_with_stack`: the stack holds the frames of the nodes passed
   * and then the node holding the key, or ends at the last real node when
   * the key is absent (`stop` is NULL then); it is empty for an empty tree.
   */
  method TraverseWithStack(root: AvlTree, key: int) returns (path: seq<Frame<int, AvlInfo>>, stop: AvlTree)
    ensures (path, stop) == IntDescend(root, key)
  {
    path := [];
    stop := root;
    assert [] + IntDescend(stop, key).0 == IntDescend(stop, key).0;
    while stop.Node?
      invariant IntDescend(root, key) == (path + IntDescend(stop, key).0, IntDescend(stop, key).1)
      decreases stop
    {
      if stop.key == key {
        break;
      }
      var d := if key < stop.key then Left else Right;
      IntDescendStep(root, key, path, stop);
      path := path + [FrameOf(stop, d)];
      stop := Child(stop, d);
    }
    assert IntDescend(stop, key) == ([], stop);
    assert path + [] == path;
  }

  // ---------------------------------------------------------------------
  // Insert
  // ---------------------------------------------------------------------

  /**
   * The balance +-2 branch of `_avl_insert_fixup`: LEFT-LEFT or RIGHT-RIGHT
   * takes one rotation, LEFT-RIGHT or RIGHT-LEFT two, and the heavy child
   * never has balance 0.
   */
  method RebalanceGrown(f: Frame<int, AvlInfo>, c: AvlTree, ghost co: AvlTree) returns (r: AvlTree)
    requires AvlOk(Attach(f, co)) && AvlOk(c) && c.Node? && H(c) == H(co) + 1
    requires Balance(c) != 0 || H(c) <= H(f.other) + 1
    requires Balance(Attach(f, c)) == 2 || Balance(Attach(f, c)) == -2
    requires Ordered(Attach(f, c), Internal)
    ensures AvlOk(r) && H(r) == H(Attach(f, co))
    ensures Ordered(r, Internal) && Keys(r) == Keys(Attach(f, c))
  {
    var n := Attach(f, c);
    GrowRotate(f, c, co);
    var b := Balance(n);
    var h := if b == 2 then Left else Right;
    assert h == f.dir;
    var b2 := Balance(Child(n, h));
    assert b2 != 0;
    if b2 == (if h == Left then 1 else -1) {
      r := RotateFix(n, Flip(h));
      RotateFixKeeps(n, Flip(h), Internal);
    } else {
      assert Flip(Flip(h)) == h;
      r := DoubleFix(n, Flip(h));
      DoubleFixKeeps(n, Flip(h), Internal);
    }
  }

  /**
   * `_avl_insert_fixup`, from the parent of the new leaf `c0` that took the
   * place of NULL: stop after a rotation or at the first node whose
   * recomputed height did not change.
   */
  method InsertFixup(path0: seq<Frame<int, AvlInfo>>, c0: AvlTree) returns (t: AvlTree)
    requires AvlOk(Plug(path0, Nil)) && IsLeaf(c0) && H(c0) == 0
    requires Ordered(Plug(path0, c0), Internal)
    ensures Valid(t) && Keys(t) == Keys(Plug(path0, c0))
  {
    var path, c := path0, c0;
    ghost var co: AvlTree := Nil;
    while path != []
      invariant AvlOk(Plug(path, co)) && AvlOk(c) && c.Node? && H(c) == H(co) + 1
      invariant Balance(c) != 0 || H(c) == 0
      invariant Ordered(Plug(path, c), Internal) && Keys(Plug(path, c)) == Keys(Plug(path0, c0))
      decreases |path|
    {
      var init, f := path[..|path| - 1], path[|path| - 1];
      var n := Attach(f, c);
      AvlFocus(init, Attach(f, co));
      OrderedFocus(init, n, Internal);
      var b := Balance(n);
      if b == 2 || b == -2 {
        assert H(f.other) >= -1 by {
          if f.other.Node? {
            assert HeightsOk(f.other);
            HeightsNonNegative(f.other);
          }
        }
        var r := RebalanceGrown(f, c, co);
        AvlReplace(init, Attach(f, co), r);
        IntReplaceSame(init, n, r);
        return Plug(init, r);
      }
      var n2 := Fix(n);
      GrowAbsorbed(f, c, co);
      IntReplaceSame(init, n, n2);
      if H(n2) == f.info.height {
        AvlReplace(init, Attach(f, co), n2);
        return Plug(init, n2);
      }
      path, c, co := init, n2, Attach(f, co);
    }
    t := c;
  }

  /**
   * `_avl_insert_helper`: an empty tree gets the new node as root, a present
   * key changes nothing, otherwise a height-0 leaf hangs on the side of the
   * last node given by `key < key'` and the heights are fixed.
   */
  method Insert(root: AvlTree, key: int, value: Data) returns (t: AvlTree, changed: bool)
    requires Valid(root)
    ensures Valid(t)
    ensures Keys(t) == Keys(root) + {key}
    ensures changed <==> key !in Keys(root)
  {
    var path, stop := TraverseWithStack(root, key);
    IntDescendFinds(root, key);
    if path == [] && stop.Nil? {
      NewNodeValid(key, value);
      return NewNode(key, value), true;
    }
    if stop.Node? {
      return root, false;
    }
    var leaf := NewNode(key, value);
    NewNodeValid(key, value);
    OrderedFocus(path, stop, Internal);
    OrderedReplace(path, stop, leaf, Internal);
    KeysPlug(path, stop);
    KeysPlug(path, leaf);
    t := InsertFixup(path, leaf);
    changed := true;
  }

  /**
   * `_avl_insert_fixup` as written, with this file's `node_balance`, from
   * the node above the new leaf `c` up to the root.  `None` where the
   * source stops at an assertion: a heavy child whose written balance is
   * not +-1 (`assert(0)`), or a rotation of a missing child.
   */
  function InsertFixupAsWritten(path: seq<Frame<int, AvlInfo>>, c: AvlTree): (r: Option<AvlTree>)
    requires c.Node?
    ensures r.Some? ==> Keys(r.value) == Keys(Plug(path, c))
    ensures r.Some? && Ordered(Plug(path, c), Internal) ==> Ordered(r.value, Internal)
    decreases |path|
  {
    if path == [] then Some(c)
    else
      var init, f := path[..|path| - 1], path[|path| - 1];
      var n := Attach(f, c);
      assert Plug(path, c) == Plug(init, n);
      var b := NodeBalanceAsWritten(n);
      if b == 2 || b == -2 then
        var h := if b == 2 then Left else Right;
        var heavy := Child(n, h);
        var b2 := NodeBalanceAsWritten(heavy);
        if heavy.Nil? then None
        else if b2 == (if h == Left then 1 else -1) then
          var u := RotateFix(n, Flip(h));
          assert Flip(Flip(h)) == h;
          assert Keys(Plug(init, u)) == Keys(Plug(path, c))
            && (Ordered(Plug(path, c), Internal) ==> Ordered(Plug(init, u), Internal)) by {
            RotateFixKeeps(n, Flip(h), Internal);
            KeepsInPlace(init, n, u);
          }
          Some(Plug(init, u))
        else if b2 == (if h == Left then -1 else 1) && Child(heavy, Flip(h)).Node? then
          assert Flip(Flip(h)) == h;
          var u := DoubleFix(n, Flip(h));
          assert Keys(Plug(init, u)) == Keys(Plug(path, c))
            && (Ordered(Plug(path, c), Internal) ==> Ordered(Plug(init, u), Internal)) by {
            DoubleFixKeeps(n, Flip(h), Internal);
            KeepsInPlace(init, n, u);
          }
          Some(Plug(init, u))
        else None
      else
        var n2 := Fix(n);
        assert Keys(Plug(init, n2)) == Keys(Plug(path, c))
          && (Ordered(Plug(path, c), Internal) ==> Ordered(Plug(init, n2), Internal)) by {
          assert Content(n2, Internal) == Content(n, Internal);
          KeepsInPlace(init, n, n2);
        }
        if H(n2) == f.info.height then Some(Plug(init, n2))
        else InsertFixupAsWritten(init, n2)
  }

  /** A subtree replaced by one with the same keys and, when it was ordered, ordered: the whole tree keeps its keys and its order. */
  lemma KeepsInPlace(path: seq<Frame<int, AvlInfo>>, n: AvlTree, u: AvlTree)
    requires n.Node? && u.Node? && Keys(u) == Keys(n) && (Ordered(n, Internal) ==> Ordered(u, Internal))
    ensures Keys(Plug(path, u)) == Keys(Plug(path, n))
    ensures Ordered(Plug(path, n), Internal) ==> Ordered(Plug(path, u), Internal)
  {
    KeysPlug(path, n);
    KeysPlug(path, u);
    if Ordered(Plug(path, n), Internal) {
      OrderedFocus(path, n, Internal);
      assert Content(u, Internal) == Keys(u) && Content(n, Internal) == Keys(n);
      OrderedReplace(path, n, u, Internal);
    }
  }

  /**
   * `_avl_insert_helper` as written: the same walk and leaf as `Insert`,
   * then `InsertFixupAsWritten`; the flag says whether the key was new.
   */
  function InsertAsWritten(root: AvlTree, key: int, value: Data): (r: Option<(AvlTree, bool)>)
    requires Ordered(root, Internal)
    ensures r.Some? ==> Keys(r.value.0) == Keys(root) + {key} && Ordered(r.value.0, Internal)
    ensures r.Some? ==> (r.value.1 <==> key !in Keys(root))
  {
    var (path, stop) := IntDescend(root, key);
    IntDescendFinds(root, key);
    if path == [] && stop.Nil? then Some((NewNode(key, value), true))
    else if stop.Node? then Some((root, false))
    else
      var leaf := NewNode(key, value);
      assert Ordered(Plug(path, leaf), Internal) && Keys(Plug(path, leaf)) == Keys(root) + {key} by {
        NewNodeValid(key, value);
        OrderedFocus(path, stop, Internal);
        OrderedReplace(path, stop, leaf, Internal);
        KeysPlug(path, stop);
        KeysPlug(path, leaf);
      }
      match InsertFixupAsWritten(path, leaf)
      case None => None
      case Some(t) => Some((t, true))
  }

  /**
   * Inserting 1, 2 and 3 into an empty tree as written builds the chain
   * 1 - 2 - 3 with stored heights 2, 1 and 0: the written balance of node 1
   * is -1, so no rotation happens, and the chain is no AVL tree.  `Insert`
   * rotates there instead.
   */
  lemma AsWrittenBuildsChain()
    ensures var t1 := InsertAsWritten(Nil, 1, 0);
      t1 == Some((NewNode(1, 0), true))
      && var t2 := InsertAsWritten(t1.value.0, 2, 0);
      t2 == Some((Node(Nil, 1, AvlInfo(1, 0), NewNode(2, 0)), true))
      && var t3 := InsertAsWritten(t2.value.0, 3, 0);
      t3 == Some((Node(Nil, 1, AvlInfo(2, 0), Node(Nil, 2, AvlInfo(1, 0), NewNode(3, 0))), true))
      && !AvlOk(t3.value.0)
  {
    ChainSecond();
    ChainThird();
    var c := Node(Nil, 1, AvlInfo(2, 0), Node(Nil, 2, AvlInfo(1, 0), NewNode(3, 0)));
    assert !AvlOk(c);
  }

  /** The second insert as written: 2 goes right of 1, whose stored height becomes 1. */
  lemma ChainSecond()
    ensures InsertAsWritten(NewNode(1, 0), 2, 0) == Some((Node(Nil, 1, AvlInfo(1, 0), NewNode(2, 0)), true))
  {
    var a := NewNode(1, 0);
    assert Keys(a) == {1};
    var f0 := Frame(Right, 1, AvlInfo(0, 0), Nil);
    assert IntDescend(a.right, 2) == ([], Nil);
    assert FrameOf(a, Right) == f0;
    assert Child(a, Right) == a.right;
    assert [f0] + [] == [f0];
    assert IntDescend(a, 2) == ([f0], Nil);
    assert [f0][..0] == [];
    assert InsertFixupAsWritten([f0], NewNode(2, 0)) == Some(Node(Nil, 1, AvlInfo(1, 0), NewNode(2, 0)));
  }

  /** The third insert as written: 3 goes below 2, and node 1's written balance of -1 asks for no rotation. */
  lemma ChainThird()
    ensures InsertAsWritten(Node(Nil, 1, AvlInfo(1, 0), NewNode(2, 0)), 3, 0)
      == Some((Node(Nil, 1, AvlInfo(2, 0), Node(Nil, 2, AvlInfo(1, 0), NewNode(3, 0))), true))
  {
    var b := Node(Nil, 1, AvlInfo(1, 0), NewNode(2, 0));
    var f1, f2 := Frame(Right, 1, AvlInfo(1, 0), Nil), Frame(Right, 2, AvlInfo(0, 0), Nil);
    assert Keys(b) == {1, 2};
    assert IntDescend(b.right.right, 3) == ([], Nil);
    assert FrameOf(b.right, Right) == f2;
    assert Child(b.right, Right) == b.right.right && Child(b, Right) == b.right;
    assert [f2] + [] == [f2] && [f1] + [f2] == [f1, f2];
    assert IntDescend(b.right, 3) == ([f2], Nil);
    assert FrameOf(b, Right) == f1;
    assert IntDescend(b, 3) == ([f1, f2], Nil);
    assert [f1, f2][..1] == [f1];
    assert InsertFixupAsWritten([f1], Node(Nil, 2, AvlInfo(1, 0), NewNode(3, 0)))
      == Some(Node(Nil, 1, AvlInfo(2, 0), Node(Nil, 2, AvlInfo(1, 0), NewNode(3, 0))));
  }

  // ---------------------------------------------------------------------
  // Delete
  // ---------------------------------------------------------------------

  /**
   * The balance +-2 branch of `_avl_delete_fixup`: a heavy child of balance
   * 0 or of the same sign takes one rotation, one of the other sign two.
   */
  method RebalanceShrunk(f: Frame<int, AvlInfo>, c: AvlTree, ghost co: AvlTree) returns (r: AvlTree)
    requires AvlOk(Attach(f, co)) && AvlOk(c) && (H(c) == H(co) || H(c) == H(co) - 1)
    requires Balance(Attach(f, c)) == 2 || Balance(Attach(f, c)) == -2
    requires Ordered(Attach(f, c), Internal)
    ensures AvlOk(r) && (H(r) == H(Attach(f, co)) || H(r) == H(Attach(f, co)) - 1)
    ensures Ordered(r, Internal) && Keys(r) == Keys(Attach(f, c))
  {
    var n := Attach(f, c);
    ShrinkRotate(f, c, co);
    var b := Balance(n);
    var h := if b == 2 then Left else Right;
    assert h == Flip(f.dir) && Flip(h) == f.dir;
    var b2 := Balance(Child(n, h));
    if b2 == 0 || b2 == (if h == Left then 1 else -1) {
      r := RotateFix(n, Flip(h));
      RotateFixKeeps(n, Flip(h), Internal);
    } else {
      r := DoubleFix(n, Flip(h));
      DoubleFixKeeps(n, Flip(h), Internal);
    }
  }

  /**
   * `_avl_delete_fixup`, from the node above the subtree `c0` that replaced
   * `co0`, as high or one lower: rotations do not end the walk, an
   * unchanged recomputed height does.
   */
  method DeleteFixup(path0: seq<Frame<int, AvlInfo>>, c0: AvlTree, ghost co0: AvlTree) returns (t: AvlTree)
    requires AvlOk(Plug(path0, co0)) && AvlOk(c0) && (H(c0) == H(co0) || H(c0) == H(co0) - 1)
    requires Ordered(Plug(path0, c0), Internal)
    ensures Valid(t) && Keys(t) == Keys(Plug(path0, c0))
  {
    var path, c := path0, c0;
    ghost var co := co0;
    while path != []
      invariant AvlOk(Plug(path, co)) && AvlOk(c) && (H(c) == H(co) || H(c) == H(co) - 1)
      invariant Ordered(Plug(path, c), Internal) && Keys(Plug(path, c)) == Keys(Plug(path0, c0))
      decreases |path|
    {
      var init, f := path[..|path| - 1], path[|path| - 1];
      var n := Attach(f, c);
      AvlFocus(init, Attach(f, co));
      OrderedFocus(init, n, Internal);
      var b := Balance(n);
      if b == 2 || b == -2 {
        var r := RebalanceShrunk(f, c, co);
        IntReplaceSame(init, n, r);
        path, c, co := init, r, Attach(f, co);
        continue;
      }
      var n2 := Fix(n);
      ShrinkAbsorbed(f, c, co);
      IntReplaceSame(init, n, n2);
      if H(n2) == f.info.height {
        AvlReplace(init, Attach(f, co), n2);
        return Plug(init, n2);
      }
      path, c, co := init, n2, Attach(f, co);
    }
    t := c;
  }

  /** `_find_successor_with_stack`: push `node->right`, then left children until one has none. */
  method FindSuccessor(node: AvlTree) returns (q: seq<Frame<int, AvlInfo>>, succ: AvlTree)
    requires node.Node? && node.right.Node?
    ensures (q, succ) == Leftmost(node.right)
  {
    q := [];
    succ := node.right;
    assert [] + Leftmost(succ).0 == Leftmost(succ).0;
    while succ.left.Node?
      invariant succ.Node?
      invariant Leftmost(node.right) == (q + Leftmost(succ).0, Leftmost(succ).1)
      decreases succ
    {
      LeftmostStep(node.right, q, succ);
      q := q + [FrameOf(succ, Left)];
      succ := succ.left;
    }
    assert q + [] == q;
  }

  /**
   * The tree after a two-child delete, before any height changes: the node
   * keeps its data and takes the successor's key, and the successor is
   * replaced by its right child.  It is ordered, holds one key less, and the
   * stack it is fixed along still describes an AVL tree.
   */
  lemma SuccessorSplice(path: seq<Frame<int, AvlInfo>>, place: AvlTree, key: int)
    requires Valid(Plug(path, place)) && place.Node? && place.key == key && Routes(path, key, Internal)
    requires place.left.Node? && place.right.Node?
    ensures var (q, succ) := Leftmost(place.right);
      var f := Frame(Right, succ.key, place.info, place.left);
      AvlOk(Plug(path + [f] + q, succ)) && AvlOk(succ.right) && H(succ.right) == H(succ) - 1
      && Ordered(Plug(path + [f] + q, succ.right), Internal)
      && Keys(Plug(path + [f] + q, succ.right)) == Keys(Plug(path, place)) - {key}
  {
    var (q, succ) := Leftmost(place.right);
    var f := Frame(Right, succ.key, place.info, place.left);
    SplicePlug(path, f, q, succ);
    SplicePlug(path, f, q, succ.right);
    SuccessorHeights(path, place);
    SuccessorOrder(path, place, key);
  }

  lemma SuccessorHeights(path: seq<Frame<int, AvlInfo>>, place: AvlTree)
    requires AvlOk(Plug(path, place)) && place.Node? && place.right.Node?
    ensures var (q, succ) := Leftmost(place.right);
      var f := Frame(Right, succ.key, place.info, place.left);
      AvlOk(Plug(path, Attach(f, Plug(q, succ)))) && AvlOk(succ.right) && H(succ.right) == H(succ) - 1
  {
    var (q, succ) := Leftmost(place.right);
    var f := Frame(Right, succ.key, place.info, place.left);
    assert Attach(f, Plug(q, succ)) == Node(place.left, succ.key, place.info, place.right);
    AvlFocus(path, place);
    AvlReplace(path, place, Attach(f, Plug(q, succ)));
    AvlFocus(q, succ);
    if succ.right.Node? {
      HeightsNonNegative(succ.right);
    }
  }

  /**
   * Splicing out a node with at most one child: the child (or NULL) takes
   * its place, one lower.
   */
  lemma ChildSplice(path: seq<Frame<int, AvlInfo>>, place: AvlTree, key: int, child: AvlTree)
    requires Valid(Plug(path, place)) && place.Node? && place.key == key && Routes(path, key, Internal)
    requires (place.left.Nil? && child == place.right) || (place.right.Nil? && child == place.left)
    ensures AvlOk(child) && H(child) == H(place) - 1
    ensures Ordered(Plug(path, child), Internal) && Keys(Plug(path, child)) == Keys(Plug(path, place)) - {key}
  {
    AvlFocus(path, place);
    if child.Node? {
      HeightsNonNegative(child);
    }
    ChildSpliceOrder(path, place, key, child);
  }

  /**
   * `_avl_delete_helper`: an empty tree or an absent key changes nothing; a
   * node with at most one child is replaced by that child; a node with two
   * children takes its successor's key (not its data) and the successor is
   * spliced out.  The heights are then fixed from the spliced node's parent.
   */
  method Delete(root: AvlTree, key: int) returns (t: AvlTree, changed: bool)
    requires Valid(root)
    ensures Valid(t)
    ensures Keys(t) == Keys(root) - {key}
    ensures changed <==> key in Keys(root)
  {
    var path, place := TraverseWithStack(root, key);
    IntDescendFinds(root, key);
    if root.Nil? {
      return root, false;
    }
    if place.Nil? {
      return root, false;
    }
    changed := true;
    if place.left.Nil? {
      ChildSplice(path, place, key, place.right);
      t := DeleteFixup(path, place.right, place);
    } else if place.right.Nil? {
      ChildSplice(path, place, key, place.left);
      t := DeleteFixup(path, place.left, place);
    } else {
      var q, succ := FindSuccessor(place);
      SuccessorSplice(path, place, key);
      var f := Frame(Right, succ.key, place.info, place.left);
      t := DeleteFixup(path + [f] + q, succ.right, succ);
    }
  }

  /**
   * `_avl_delete_fixup` as written, with this file's `node_balance`, from
   * the node above the subtree `c` that replaced the deleted node up to the
   * root: a rotation continues the walk, an unchanged recomputed height
   * ends it.  `None` where the source stops at `assert(0)`, or would rotate
   * a missing child.
   */
  function DeleteFixupAsWritten(path: seq<Frame<int, AvlInfo>>, c: AvlTree): (r: Option<AvlTree>)
    ensures r.Some? ==> Keys(r.value) == Keys(Plug(path, c))
    ensures r.Some? && Ordered(Plug(path, c), Internal) ==> Ordered(r.value, Internal)
    decreases |path|
  {
    if path == [] then Some(c)
    else
      var init, f := path[..|path| - 1], path[|path| - 1];
      var n := Attach(f, c);
      assert Plug(path, c) == Plug(init, n);
      var b := NodeBalanceAsWritten(n);
      if b == 2 || b == -2 then
        var h := if b == 2 then Left else Right;
        var heavy := Child(n, h);
        var b2 := NodeBalanceAsWritten(heavy);
        if heavy.Nil? then None
        else if b2 == 0 || b2 == (if h == Left then 1 else -1) then
          var u := RotateFix(n, Flip(h));
          assert Flip(Flip(h)) == h;
          assert Keys(Plug(init, u)) == Keys(Plug(path, c))
            && (Ordered(Plug(path, c), Internal) ==> Ordered(Plug(init, u), Internal)) by {
            RotateFixKeeps(n, Flip(h), Internal);
            KeepsInPlace(init, n, u);
          }
          DeleteFixupAsWritten(init, u)
        else if b2 == (if h == Left then -1 else 1) && Child(heavy, Flip(h)).Node? then
          assert Flip(Flip(h)) == h;
          var u := DoubleFix(n, Flip(h));
          assert Keys(Plug(init, u)) == Keys(Plug(path, c))
            && (Ordered(Plug(path, c), Internal) ==> Ordered(Plug(init, u), Internal)) by {
            DoubleFixKeeps(n, Flip(h), Internal);
            KeepsInPlace(init, n, u);
          }
          DeleteFixupAsWritten(init, u)
        else None
      else
        var n2 := Fix(n);
        assert Keys(Plug(init, n2)) == Keys(Plug(path, c))
          && (Ordered(Plug(path, c), Internal) ==> Ordered(Plug(init, n2), Internal)) by {
          assert Content(n2, Internal) == Content(n, Internal);
          KeepsInPlace(init, n, n2);
        }
        if H(n2) == f.info.height then Some(Plug(init, n2))
        else DeleteFixupAsWritten(init, n2)
  }

  /**
   * `_avl_delete_helper` as written: the same walk and splices as `Delete`,
   * then `DeleteFixupAsWritten`; the flag says whether the key was there.
   */
  function DeleteAsWritten(root: AvlTree, key: int): (r: Option<(AvlTree, bool)>)
    requires Ordered(root, Internal)
    ensures r.Some? ==> Keys(r.value.0) == Keys(root) - {key} && Ordered(r.value.0, Internal)
    ensures r.Some? ==> (r.value.1 <==> key in Keys(root))
  {
    var (path, place) := IntDescend(root, key);
    IntDescendFinds(root, key);
    if place.Nil? then Some((root, false))
    else if place.left.Nil? || place.right.Nil? then
      var child := if place.left.Nil? then place.right else place.left;
      ChildSpliceOrder(path, place, key, child);
      match DeleteFixupAsWritten(path, child)
      case None => None
      case Some(t) => Some((t, true))
    else
      var (q, succ) := Leftmost(place.right);
      var f := Frame(Right, succ.key, place.info, place.left);
      SuccessorOrder(path, place, key);
      SplicePlug(path, f, q, succ.right);
      match DeleteFixupAsWritten(path + [f] + q, succ.right)
      case None => None
      case Some(t) => Some((t, true))
  }

  /**
   * Deleting 5 from the AVL tree 4(2(1, 3), 5) as written: node 4 keeps
   * only its left child, of height 1, whose written balance is 1, so the
   * fixup neither rotates nor changes the stored height 2 and stops.  The
   * result's root is two higher on the left; the written validator accepts
   * it and the corrected one does not.  `Delete` rotates there instead.
   */
  lemma DeleteAsWrittenLeavesImbalance()
    ensures var t := Node(Node(NewNode(1, 0), 2, AvlInfo(1, 0), NewNode(3, 0)), 4, AvlInfo(2, 0), NewNode(5, 0));
      var r := Node(t.left, 4, AvlInfo(2, 0), Nil);
      Valid(t) && DeleteAsWritten(t, 5) == Some((r, true))
      && Balance(r) == 2 && !AvlOk(r) && ValidateAsWritten(r) && !Validate(r)
  {
    DeleteFiveAsWritten();
    LeftHeavyGoesUnnoticed();
  }

  /** 4(2(1, 3), NULL) with stored heights right: balance 2, which only the corrected validator sees. */
  lemma LeftHeavyGoesUnnoticed()
    ensures var r := Node(Node(NewNode(1, 0), 2, AvlInfo(1, 0), NewNode(3, 0)), 4, AvlInfo(2, 0), Nil);
      Balance(r) == 2 && !AvlOk(r) && ValidateAsWritten(r) && !Validate(r)
  {
  }

  /** The walk and the fixup of that delete: 5 is a leaf right of 4, and the fixup stops at 4 with its height unchanged. */
  lemma DeleteFiveAsWritten()
    ensures var t := Node(Node(NewNode(1, 0), 2, AvlInfo(1, 0), NewNode(3, 0)), 4, AvlInfo(2, 0), NewNode(5, 0));
      Valid(t) && DeleteAsWritten(t, 5) == Some((Node(t.left, 4, AvlInfo(2, 0), Nil), true))
  {
    var l := Node(NewNode(1, 0), 2, AvlInfo(1, 0), NewNode(3, 0));
    var t := Node(l, 4, AvlInfo(2, 0), NewNode(5, 0));
    assert Keys(l) == {1, 2, 3} && Keys(t) == {1, 2, 3, 4, 5};
    assert Valid(t);
    var f := Frame(Right, 4, AvlInfo(2, 0), l);
    assert IntDescend(t.right, 5) == ([], t.right);
    assert FrameOf(t, Right) == f && Child(t, Right) == t.right;
    assert [f] + [] == [f];
    assert IntDescend(t, 5) == ([f], NewNode(5, 0));
    assert [f][..0] == [];
    assert DeleteFixupAsWritten([f], Nil) == Some(Node(l, 4, AvlInfo(2, 0), Nil));
  }

  // ---------------------------------------------------------------------
  // Warmup
  // ---------------------------------------------------------------------

  /**
   * `_avl_warmup_helper` of this file: insert `(rand() % max_key, NULL)`
   * until `nr_nodes` inserts succeeded, the random numbers given as input.
   */
  method WarmupHelper(root: AvlTree, nrNodes: int, maxKey: int, rands: seq<nat>)
    returns (t: AvlTree, inserted: int, used: nat)
    requires Valid(root) && maxKey > 0
    ensures Warmed(root, t, rands, used, inserted, maxKey)
    ensures inserted >= nrNodes || used == |rands|
    ensures nrNodes >= 0 ==> inserted <= nrNodes
  {
    t, inserted, used := root, 0, 0;
    while inserted < nrNodes && used < |rands|
      invariant Warmed(root, t, rands, used, inserted, maxKey)
      invariant nrNodes >= 0 ==> inserted <= nrNodes
      decreases |rands| - used
    {
      t, inserted := WarmupRound(root, t, rands, used, inserted, maxKey);
      used := used + 1;
    }
  }

  /**
   * What the warmup has done after `used` random numbers: `t` is valid and
   * holds the keys of `root` and every key drawn, `inserted` more than `root`.
   */
  predicate Warmed(root: AvlTree, t: AvlTree, rands: seq<nat>, used: nat, inserted: int, maxKey: int)
    requires maxKey > 0
  {
    Valid(t) && WarmupKeys.Progress(Keys(root), Keys(t), rands, used, inserted, maxKey)
  }

  /** One round of the warmup loop: draw a key, insert it, count a success. */
  method WarmupRound(ghost root: AvlTree, t: AvlTree, rands: seq<nat>, used: nat, inserted: int, maxKey: int)
    returns (t': AvlTree, inserted': int)
    requires maxKey > 0 && used < |rands| && Warmed(root, t, rands, used, inserted, maxKey)
    ensures Warmed(root, t', rands, used + 1, inserted', maxKey)
    ensures inserted' == inserted || inserted' == inserted + 1
  {
    var key := rands[used] % maxKey;
    var ret;
    t', ret := Insert(t, key, 0);
    WarmupKeys.ProgressStep(Keys(root), Keys(t), Keys(t'), rands, used, inserted, maxKey, ret);
    inserted' := if ret then inserted + 1 else inserted;
  }

  // ---------------------------------------------------------------------
  // Validation
  // ---------------------------------------------------------------------

  datatype Tally = Tally(totalNodes: nat, totalPaths: nat, bstViolations: nat, avlViolations: nat)

  /** The validator's order test: a left child's key below the node's, a right child's above. */
  predicate LocallyOrdered(t: AvlTree)
  {
    match t
    case Nil => true
    case Node(l, k, _, r) =>
      (l.Node? ==> l.key < k) && (r.Node? ==> k < r.key) && LocallyOrdered(l) && LocallyOrdered(r)
  }

  /** Every node's balance, by the given balance function, lies in [-1, 1]. */
  predicate BalancedBy(t: AvlTree, bal: AvlTree -> int)
  {
    match t
    case Nil => true
    case Node(l, _, _, r) => -1 <= bal(t) <= 1 && BalancedBy(l, bal) && BalancedBy(r, bal)
  }

  function OpenCount(t: AvlTree): nat
  {
    match t
    case Nil => 0
    case Node(l, _, _, r) => (if l.Nil? || r.Nil? then 1 else 0) + OpenCount(l) + OpenCount(r)
  }

  /**
   * `_avl_validate_rec` with the balance function as a parameter: counts
   * nodes, nodes with a NULL link ("paths"), local order violations and
   * nodes whose balance is outside [-1, 1].
   */
  function ValidateRec(t: AvlTree, bal: AvlTree -> int, c: Tally): (r: Tally)
    ensures r.totalNodes == c.totalNodes + Size(t)
    ensures r.totalPaths == c.totalPaths + OpenCount(t)
    ensures r.bstViolations >= c.bstViolations && (r.bstViolations == c.bstViolations <==> LocallyOrdered(t))
    ensures r.avlViolations >= c.avlViolations && (r.avlViolations == c.avlViolations <==> BalancedBy(t, bal))
  {
    match t
    case Nil => c
    case Node(l, k, _, rt) =>
      var c1 := Tally(c.totalNodes + 1, c.totalPaths + (if l.Nil? || rt.Nil? then 1 else 0),
                      c.bstViolations + (if l.Node? && l.key >= k then 1 else 0)
                                      + (if rt.Node? && rt.key <= k then 1 else 0),
                      c.avlViolations + (if bal(t) < -1 || bal(t) > 1 then 1 else 0));
      var c2 := if l.Node? then ValidateRec(l, bal, c1) else c1;
      if rt.Node? then ValidateRec(rt, bal, c2) else c2
  }

  /** `_avl_validate_helper` as written, with this file's `node_balance`. */
  function ValidateAsWritten(t: AvlTree): (ok: bool)
    ensures ok <==> LocallyOrdered(t) && BalancedBy(t, NodeBalanceAsWritten)
  {
    var c := ValidateRec(t, NodeBalanceAsWritten, Tally(0, 0, 0, 0));
    c.bstViolations == 0 && c.avlViolations == 0
  }

  /** `_avl_validate_helper` with the balance of `node_height`. */
  function Validate(t: AvlTree): (ok: bool)
    ensures ok <==> LocallyOrdered(t) && BalancedBy(t, Balance)
  {
    var c := ValidateRec(t, Balance, Tally(0, 0, 0, 0));
    c.bstViolations == 0 && c.avlViolations == 0
  }

  /** Balance within [-1, 1] everywhere is the AVL balance condition. */
  lemma {:induction false} BalancedByBalance(t: AvlTree)
    ensures BalancedBy(t, Balance) <==> Balanced(t)
  {
    if t.Node? {
      BalancedByBalance(t.left);
      BalancedByBalance(t.right);
    }
  }

  /** A strictly ordered tree is locally ordered. */
  lemma {:induction false} OrderedIsLocal(t: AvlTree)
    requires Ordered(t, Internal)
    ensures LocallyOrdered(t)
  {
    if t.Node? {
      OrderedIsLocal(t.left);
      OrderedIsLocal(t.right);
      assert Content(t.left, Internal) == Keys(t.left) && Content(t.right, Internal) == Keys(t.right);
      assert t.left.Node? ==> t.left.key in Keys(t.left);
      assert t.right.Node? ==> t.right.key in Keys(t.right);
    }
  }

  /** Every tree the operations keep passes the corrected validator. */
  lemma ValidPasses(t: AvlTree)
    requires Valid(t)
    ensures Validate(t)
  {
    BalancedByBalance(t);
    OrderedIsLocal(t);
  }

  /**
   * Inserting 1, 2 and 3 into an empty tree with the written
   * `node_balance`: the fixup sees balance 0 at node 2 and -1 at node 1, so
   * it rotates nowhere and leaves the chain 1 - 2 - 3, whose root is two
   * higher on the right.  The written validator accepts the chain; the
   * corrected one does not.
   */
  lemma ChainGoesUnnoticed()
    ensures var chain := Node(Nil, 1, AvlInfo(2, 0), Node(Nil, 2, AvlInfo(1, 0), NewNode(3, 0)));
      HeightsOk(chain) && Ordered(chain, Internal)
      && NodeBalanceAsWritten(chain.right) == 0 && NodeBalanceAsWritten(chain) == -1
      && Balance(chain) == -2 && !Balanced(chain)
      && ValidateAsWritten(chain) && !Validate(chain)
  {
    var chain := Node(Nil, 1, AvlInfo(2, 0), Node(Nil, 2, AvlInfo(1, 0), NewNode(3, 0)));
    assert Keys(chain.right) == {2, 3};
  }
}
