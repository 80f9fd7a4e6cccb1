/**
 * The sequential bottom-up internal red-black tree of
 * rbt/rbt_links_bu_int_iterative_no_sentinels.c.  Every node holds a key;
 * NULL links stand for the leaves.  Insert and delete walk down once,
 * pushing the nodes they pass on a stack, and repair the red-black rules
 * going back up that stack.
 *
 * The stack is a zipper path (`path[0]` the root's frame) around the
 * subtree the fix-up stands on.  The C code decides at every node which
 * way the repair went by comparing the key it was given with the node's
 * key; the model makes the same comparisons and proves that they pick the
 * frame's side (`Routes` for the inserted key, `Steers` for the key a
 * delete hands its fix-up).
 */
module RbBuInt {
  import opened Trees
  import opened SearchOrder
  import opened RbCore
  import opened RbBottomUp
  import opened RbInternal
  import WarmupKeys

  /**
   * `_rbt_validate_helper` (lines 527-566), whose order test lets a left
   * child equal its parent, accepts every tree the operations keep.
   */
  lemma ValidPasses(t: RbTree)
    requires Valid(t)
    ensures Validate(t, false)
  {
    InternalLocallyOrdered(t, false);
  }

  // ---------------------------------------------------------------------
  // Traversals
  // ---------------------------------------------------------------------

  /** `_traverse` and `_rbt_lookup_helper`: walk down until the key or NULL; found iff not NULL. */
  method Lookup(root: RbTree, key: int) returns (found: bool)
    ensures found <==> IntDescend(root, key).1.Node?
    ensures Ordered(root, Internal) ==> (found <==> key in Keys(root))
  {
    if Ordered(root, Internal) {
      IntDescendFinds(root, key);
    }
    var leaf := root;
    ghost var path: seq<Frame<int, RbInfo>> := [];
    assert [] + IntDescend(leaf, key).0 == IntDescend(leaf, key).0;
    while leaf.Node? && leaf.key != key
      invariant IntDescend(root, key) == (path + IntDescend(leaf, key).0, IntDescend(leaf, key).1)
      decreases leaf
    {
      var d := if key < leaf.key then Left else Right;
      IntDescendStep(root, key, path, leaf);
      path := path + [FrameOf(leaf, d)];
      leaf := Child(leaf, d);
    }
    found := leaf.Node?;
  }

  /**
   * `_traverse_with_stack`: the stack holds the frames of the nodes passed
   * and then the node holding the key, or ends at the last real node when
   * the key is absent (`stop` is NULL then); it is empty for an empty tree.
   */
  method TraverseWithStack(root: RbTree, key: int) returns (path: Path, stop: RbTree)
    ensures (path, stop) == IntDescend(root, key)
  {
    path := [];
    stop := root;
    assert [] + IntDescend(stop, key).0 == IntDescend(stop, key).0;
    while stop.Node?
      invariant IntDescend(root, key) == (path + IntDescend(stop, key).0, IntDescend(stop, key).1)
      decreases stop
    {
      if stop.key == key {
        break;
      }
      var d := if key < stop.key then Left else Right;
      IntDescendStep(root, key, path, stop);
      path := path + [FrameOf(stop, d)];
      stop := Child(stop, d);
    }
    assert IntDescend(stop, key) == ([], stop);
    assert path + [] == path;
  }

  // ---------------------------------------------------------------------
  // Insert
  // ---------------------------------------------------------------------

  /** On a path the inserted key routes along, `key < node->key` tells the side taken. */
  lemma RoutedSide(path: Path, key: int, i: int)
    requires Routes(path, key, Internal) && 0 <= i < |path|
    ensures (key < path[i].key) == (path[i].dir == Left)
  {
  }

  /**
   * `_insert_rebalance`: from the new red node `x0` at the bottom of the
   * stack, flip colours while the uncle is red, then rotate once (outer
   * grandchild) or twice (inner grandchild); at the root, paint it black.
   */
  method InsertRebalance(path0: Path, x0: RbTree, key: int) returns (t: RbTree)
    requires Climbing(path0, x0) && Routes(path0, key, Internal)
    requires Ordered(Plug(path0, x0), Internal) && (path0 != [] ==> path0[0].info.color == Black)
    ensures Valid(t) && Keys(t) == Keys(Plug(path0, x0))
  {
    var path, x := path0, x0;
    while true
      invariant Climbing(path, x) && Routes(path, key, Internal)
      invariant Ordered(Plug(path, x), Internal) && Keys(Plug(path, x)) == Keys(Plug(path0, x0))
      invariant path != [] ==> path[0].info.color == Black
      decreases |path|
    {
      if |path| <= 1 {
        ClimbToRoot(path, x);
        PaintKeeps(Plug(path, x), Black);
        t := Paint(Plug(path, x), Black);
        return;
      }
      var n := |path|;
      var p := path[n - 1];
      if p.info.color == Black {
        ClimbDone(path, x);
        PlugTop(path, x);
        t := Plug(path, x);
        return;
      }
      var g := path[n - 2];
      RoutedSide(path, key, n - 2);
      RoutedSide(path, key, n - 1);
      var gd := if key < g.key then Left else Right;
      assert gd == g.dir;
      var uncle := g.other;
      if IsRed(uncle) {
        FlipUpStep(path, x);
        Recoloured(Plug(path[..n - 2], FlipUp(g, p, x)), Plug(path, x));
        RoutesPrefix(path, n - 2, key, Internal);
        x := FlipUp(g, p, x);
        path := path[..n - 2];
        continue;
      }
      var pd := if key < p.key then Left else Right;
      var r;
      if pd == gd {
        TurnOuterStep(path, x);
        TurnOuterOrder(path, x, Internal);
        r := TurnOuter(g, p, x);
      } else {
        TurnInnerStep(path, x);
        TurnInnerOrder(path, x, Internal);
        r := TurnInner(g, p, x);
      }
      t := Plug(path[..n - 2], r);
      if n > 2 {
        PlugTop(path[..n - 2], r);
      }
      return;
    }
  }

  /**
   * `_rbt_insert_helper`: a present key changes nothing; otherwise a red
   * node takes the place of the NULL the search ended at (or becomes the
   * root) and the rules are repaired from it.
   */
  method Insert(root: RbTree, key: int, value: int) returns (t: RbTree, inserted: bool)
    requires Valid(root)
    ensures Valid(t)
    ensures Keys(t) == Keys(root) + {key}
    ensures inserted <==> key !in Keys(root)
  {
    var path, stop := TraverseWithStack(root, key);
    IntDescendFinds(root, key);
    if stop.Node? {
      return root, false;
    }
    var x := NewNode(key, value);
    assert Plug(path, Nil) == root;
    NewLeafClimbing(path, key, value);
    assert AllRoute(path, Content(x, Internal), Internal) by {
      assert Routes(path, key, Internal);
      assert x == Node(Nil, key, RbInfo(Red, value), Nil);
      assert Keys(x) == {key};
    }
    OrderedReplace(path, stop, x, Internal);
    KeysPlug(path, stop);
    KeysPlug(path, x);
    if path != [] {
      PlugTop(path, stop);
    }
    t := InsertRebalance(path, x, key);
    inserted := true;
  }

  // ---------------------------------------------------------------------
  // Delete
  // ---------------------------------------------------------------------

  /**
   * The delete fix-up's key picks, at every frame, the side the path takes:
   * left iff the key is below the node's.  After a two-child delete the
   * key is the successor's, which now also sits in the node it replaced;
   * there it picks the right side.
   */
  predicate Steers(path: Path, key: int)
  {
    forall i :: 0 <= i < |path| ==> ((key < path[i].key) <==> path[i].dir == Left)
  }

  lemma RoutesSteer(path: Path, key: int)
    requires Routes(path, key, Internal)
    ensures Steers(path, key)
  {
  }

  lemma SteersAppend(a: Path, b: Path, key: int)
    requires Steers(a, key) && Steers(b, key)
    ensures Steers(a + b, key)
  {
  }

  lemma SteersPrefix(path: Path, n: nat, key: int)
    requires Steers(path, key) && n <= |path|
    ensures Steers(path[..n], key)
  {
  }

  /** After case 1 the key still steers: the risen sibling lies on the far side of the parent. */
  lemma SteersLift(path: Path, x: RbTree, key: int)
    requires Steers(path, key) && path != [] && path[|path| - 1].other.Node? && Ordered(Plug(path, x), Internal)
    ensures Steers(LiftSibling(path), key)
  {
    var n, p := |path|, path[|path| - 1];
    var s := p.other;
    var init := path[..n - 1];
    assert path == init + [p];
    PlugSnoc(init, p, x);
    OrderedFocus(init, Attach(p, x), Internal);
    assert s.key in Content(p.other, Internal);
    assert (key < p.key) <==> p.dir == Left;
    assert (key < s.key) <==> p.dir == Left;
    var q := LiftSibling(path);
    SteersPrefix(path, n - 1, key);
    assert q == init + [q[n - 1], q[n]];
    SteersAppend(init, [q[n - 1], q[n]], key);
  }

  /** The delete fix-up's invariant here: `Repair`, and the key steers along the stack. */
  predicate Repairing(path: Path, x: RbTree, key: int, keys: set<int>)
  {
    Repair(path, x, keys) && Steers(path, key)
  }

  /** Case 1 keeps the invariant and leaves a red parent over a black sibling. */
  lemma LiftKeeps(path: Path, x: RbTree, key: int, keys: set<int>)
    requires Repairing(path, x, key, keys) && path != [] && IsRed(path[|path| - 1].other)
    ensures var q := LiftSibling(path); var f := q[|q| - 1];
      Repairing(q, x, key, keys) && |q| == |path| + 1 && f.dir == path[|path| - 1].dir
      && f.info.color == Red && f.other.Node? && !IsRed(f.other)
  {
    RepairLift(path, x, keys);
    SteersLift(path, x, key);
  }

  /** Case 2 moves the invariant one frame up. */
  lemma PushKeeps(path: Path, x: RbTree, key: int, keys: set<int>)
    requires Repairing(path, x, key, keys) && path != [] && !IsRed(x)
    requires var s := path[|path| - 1].other; s.Node? && !IsRed(s) && !IsRed(s.left) && !IsRed(s.right)
    ensures var n := |path|; Repairing(path[..n - 1], PushUp(path[n - 1], x), key, keys)
  {
    RepairPush(path, x, keys);
    SteersPrefix(path, |path| - 1, key);
  }

  /**
   * `_delete_rebalance`, from the subtree `x0` (perhaps NULL) that is one
   * black node short: a red one is painted black; at the root nothing is
   * left to do; otherwise case 1 (red sibling) rotates it up first, case 2
   * (black sibling, no red child) moves the shortage one level up, and
   * cases 4 and 3 (a red child of the sibling) rotate once or twice and
   * end the repair.
   */
  method DeleteRebalance(path0: Path, x0: RbTree, key: int, ghost keys: set<int>) returns (t: RbTree)
    requires Repairing(path0, x0, key, keys)
    ensures Valid(t) && Keys(t) == keys
  {
    var path, x := path0, x0;
    while true
      invariant Repairing(path, x, key, keys)
      decreases |path| + (if IsRed(x) then 0 else 1)
    {
      if IsRed(x) {
        t := PaintBlack(path, x, key, keys);
        return;
      }
      if path == [] {
        RepairRoot(x, keys);
        t := x;
        return;
      }
      var p := path[|path| - 1];
      var d := if key < p.key then Left else Right;
      assert d == p.dir;
      SiblingExists(path, x);
      if IsRed(p.other) {
        // CASE 1
        LiftKeeps(path, x, key, keys);
        path := LiftSibling(path);
        p := path[|path| - 1];
      }
      var n := |path|;
      var s := p.other;
      if !IsRed(s.left) && !IsRed(s.right) {
        // CASE 2
        PushKeeps(path, x, key, keys);
        x := PushUp(p, x);
        path := path[..n - 1];
        continue;
      }
      t := RotateFar(path, x, d, key, keys);
      return;
    }
  }

  /** The end of the repair when `x` is red: paint it black. */
  method PaintBlack(path: Path, x: RbTree, key: int, ghost keys: set<int>) returns (t: RbTree)
    requires Repairing(path, x, key, keys) && IsRed(x)
    ensures Valid(t) && Keys(t) == keys
  {
    RepairRed(path, x, keys);
    t := Plug(path, Paint(x, Black));
  }

  /** Cases 4 and 3: the sibling is black with a red child; rotate once or twice and stop. */
  method RotateFar(path0: Path, x: RbTree, d: Dir, key: int, ghost keys: set<int>) returns (t: RbTree)
    requires Repairing(path0, x, key, keys) && path0 != [] && !IsRed(x) && d == path0[|path0| - 1].dir
    requires var s := path0[|path0| - 1].other; s.Node? && !IsRed(s) && (IsRed(s.left) || IsRed(s.right))
    ensures Valid(t) && Keys(t) == keys
  {
    RepairFar(path0, x, keys);
    var path, n := path0, |path0|;
    var p := path[n - 1];
    if !IsRed(Child(p.other, Flip(d))) {
      // CASE 4
      path := TurnNear(path);
      p := path[n - 1];
    }
    // CASE 3
    t := Plug(path[..n - 1], TurnFar(p, x));
  }

  /**
   * The search for the successor in `_delete` (lines 299-307): push
   * `node->right`, then left children until one has none.
   */
  method FindSuccessor(node: RbTree) returns (q: Path, succ: RbTree)
    requires node.Node? && node.right.Node?
    ensures (q, succ) == Leftmost(node.right)
  {
    q := [];
    succ := node.right;
    assert [] + Leftmost(succ).0 == Leftmost(succ).0;
    while succ.left.Node?
      invariant succ.Node?
      invariant Leftmost(node.right) == (q + Leftmost(succ).0, Leftmost(succ).1)
      decreases succ
    {
      LeftmostStep(node.right, q, succ);
      q := q + [FrameOf(succ, Left)];
      succ := succ.left;
    }
    assert q + [] == q;
  }

  /** A node's key may change without touching the red-black rules around it. */
  lemma RekeyOk(path: Path, place: RbTree, k: int)
    requires RbOk(Plug(path, place)) && place.Node?
    ensures RbOk(Plug(path, Node(place.left, k, place.info, place.right)))
  {
    PlugOk(path, place);
    PlugOk(path, Node(place.left, k, place.info, place.right));
  }

  /**
   * A two-child delete: the node takes the successor's key (not its data),
   * and the successor, which has no left child, is the node unlinked.  The
   * stack then runs through the node to the successor's parent, the key
   * still steers along it, and the tree before the unlinking keeps the
   * rules.
   */
  lemma SuccessorStack(path: Path, place: RbTree, key: int)
    requires Valid(Plug(path, place)) && place.Node? && place.key == key && Routes(path, key, Internal)
    requires place.left.Node? && place.right.Node?
    ensures var (q, succ) := Leftmost(place.right);
      var f := Frame(Right, succ.key, place.info, place.left);
      RbOk(Plug(path + [f] + q, succ)) && Steers(path + [f] + q, succ.key)
      && Ordered(Plug(path + [f] + q, succ.right), Internal)
      && Keys(Plug(path + [f] + q, succ.right)) == Keys(Plug(path, place)) - {key}
      && (path + [f] + q)[0].info.color == Black
  {
    var (q, succ) := Leftmost(place.right);
    var f := Frame(Right, succ.key, place.info, place.left);
    SplicePlug(path, f, q, succ);
    SplicePlug(path, f, q, succ.right);
    SuccessorOrder(path, place, key);
    assert Attach(f, Plug(q, succ)) == Node(place.left, succ.key, place.info, place.right);
    RekeyOk(path, place, succ.key);
    OrderedFocus(path, place, Internal);
    assert succ.key in Content(place, Internal);
    RoutesSteer(path, succ.key);
    OrderedFocus(q, succ, Internal);
    assert succ.key in Content(succ, Internal);
    RoutesSteer(q, succ.key);
    SteersAppend(path, [f], succ.key);
    SteersAppend(path + [f], q, succ.key);
    if path != [] {
      PlugTop(path, place);
      assert (path + [f] + q)[0] == path[0];
    }
  }

  /**
   * `_rbt_delete_helper` with `_delete`: an empty tree or an absent key
   * changes nothing; a node with two children takes its successor's key
   * and the successor is unlinked instead; the unlinked node's only child
   * (or NULL) takes its place, and the rules are repaired from there when
   * the unlinked node was black.
   */
  method Delete(root: RbTree, key: int) returns (t: RbTree, deleted: bool)
    requires Valid(root)
    ensures Valid(t)
    ensures Keys(t) == Keys(root) - {key}
    ensures deleted <==> key in Keys(root)
  {
    var path, place := TraverseWithStack(root, key);
    IntDescendFinds(root, key);
    if path == [] && place.Nil? {
      return root, false;
    }
    if place.Nil? {
      return root, false;
    }
    var stack, y, succKey := path, place, key;
    if place.left.Node? && place.right.Node? {
      var q, succ := FindSuccessor(place);
      SuccessorStack(path, place, key);
      stack, y, succKey := path + [Frame(Right, succ.key, place.info, place.left)] + q, succ, succ.key;
    } else {
      RoutesSteer(path, key);
      ChildSpliceOrder(path, place, key, if place.left.Nil? then place.right else place.left);
      if path != [] {
        PlugTop(path, place);
      }
    }
    var c := if y.left.Nil? then y.right else y.left;
    SpliceOk(stack, y, c);
    deleted := true;
    if y.info.color == Black {
      assert Repairing(stack, c, succKey, Keys(Plug(stack, c)));
      t := DeleteRebalance(stack, c, succKey, Keys(Plug(stack, c)));
    } else {
      t := Plug(stack, c);
      PlugTop(stack, c);
    }
  }

  // ---------------------------------------------------------------------
  // Warmup
  // ---------------------------------------------------------------------

  /**
   * `_rbt_warmup_helper`: insert `(rand() % max_key, NULL)` until
   * `nr_nodes` inserts succeeded, the random numbers given as input.
   */
  method WarmupHelper(root: RbTree, nrNodes: int, maxKey: int, rands: seq<nat>)
    returns (t: RbTree, inserted: int, used: nat)
    requires Valid(root) && maxKey > 0
    ensures Warmed(root, t, rands, used, inserted, maxKey)
    ensures inserted >= nrNodes || used == |rands|
    ensures nrNodes >= 0 ==> inserted <= nrNodes
  {
    t, inserted, used := root, 0, 0;
    while inserted < nrNodes && used < |rands|
      invariant Warmed(root, t, rands, used, inserted, maxKey)
      invariant nrNodes >= 0 ==> inserted <= nrNodes
      decreases |rands| - used
    {
      t, inserted := WarmupRound(root, t, rands, used, inserted, maxKey);
      used := used + 1;
    }
  }

  /**
   * What the warmup has done after `used` random numbers: `t` is valid and
   * holds the keys of `root` and every key drawn, `inserted` more than `root`.
   */
  predicate Warmed(root: RbTree, t: RbTree, rands: seq<nat>, used: nat, inserted: int, maxKey: int)
    requires maxKey > 0
  {
    Valid(t) && WarmupKeys.Progress(Keys(root), Keys(t), rands, used, inserted, maxKey)
  }

  /** One round of the warmup loop: draw a key, insert it, count a success. */
  method WarmupRound(ghost root: RbTree, t: RbTree, rands: seq<nat>, used: nat, inserted: int, maxKey: int)
    returns (t': RbTree, inserted': int)
    requires maxKey > 0 && used < |rands| && Warmed(root, t, rands, used, inserted, maxKey)
    ensures Warmed(root, t', rands, used + 1, inserted', maxKey)
    ensures inserted' == inserted || inserted' == inserted + 1
  {
    var key := rands[used] % maxKey;
    var ret;
    t', ret := Insert(t, key, 0);
    WarmupKeys.ProgressStep(Keys(root), Keys(t), Keys(t'), rands, used, inserted, maxKey, ret);
    inserted' := if ret then inserted + 1 else inserted;
  }
}
