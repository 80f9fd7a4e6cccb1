/**
 * The sequential bottom-up internal red-black tree of
 * rbt/rbt_links_bu_int_iterative.c, after CLRS: every real node has two
 * sentinel children of its own (black nodes keyed SENTINEL_KEY), the tree
 * hangs below a head sentinel, and the fix-ups climb parent pointers.
 *
 * The model keeps the tree as a value: a sentinel leaf is `Nil`, and the
 * chain of parent pointers above the node a loop stands on is a zipper
 * path (`path[0]` the root's frame, the empty path the head sentinel).
 * The C code decides which side a node hangs on by comparing pointers
 * (`z == z->parent->left`); the model reads the side off the frame.
 *
 * `IS_SENTINEL_NODE` as written tests the key, so a real node keyed
 * SENTINEL_KEY passes for a sentinel.  The operations below test for a
 * sentinel by what it is (`Nil`); the test as written is modelled apart
 * (`SentinelAsWritten` and the members after it) with the inputs it fails
 * on.
 */
module RbBuSentinel {
  import opened Trees
  import opened SearchOrder
  import opened RbCore
  import opened RbBottomUp
  import opened RbInternal
  import WarmupKeys

  /** `SENTINEL_KEY`: the key every sentinel node carries. */
  const SentinelKey: int := -999999

  /** `_rbt_new_helper`: the root is the head sentinel, so the tree holds nothing. */
  function NewTree(): (t: RbTree)
    ensures Valid(t) && Keys(t) == {}
  {
    Nil
  }

  /**
   * `_rbt_validate_helper` (lines 451-488), whose order test also refuses
   * a left child equal to its parent, accepts every tree the operations
   * keep.
   */
  lemma ValidPasses(t: RbTree)
    requires Valid(t)
    ensures Validate(t, true)
  {
    InternalLocallyOrdered(t, true);
  }

  // ---------------------------------------------------------------------
  // Searches
  // ---------------------------------------------------------------------

  /**
   * `find_node`: walk down from the root, left when the key is below the
   * node's and right when above, until the node holding it or a sentinel.
   * `path` is the chain of parents above the node reached.
   */
  method FindNode(root: RbTree, key: int) returns (path: Path, z: RbTree)
    ensures Plug(path, z) == root && Routes(path, key, Internal)
    ensures z.Node? ==> z.key == key
    ensures Ordered(root, Internal) ==> (z.Node? <==> key in Keys(root))
  {
    if Ordered(root, Internal) {
      IntDescendFinds(root, key);
    }
    path := [];
    z := root;
    assert [] + IntDescend(z, key).0 == IntDescend(z, key).0;
    while z.Node?
      invariant IntDescend(root, key) == (path + IntDescend(z, key).0, IntDescend(z, key).1)
      decreases z
    {
      if key < z.key {
        IntDescendStep(root, key, path, z);
        path := path + [FrameOf(z, Left)];
        z := z.left;
      } else if key > z.key {
        IntDescendStep(root, key, path, z);
        path := path + [FrameOf(z, Right)];
        z := z.right;
      } else {
        break;
      }
    }
    assert IntDescend(z, key) == ([], z);
    assert path + [] == path;
  }

  /** `_rbt_lookup_helper`: 1 iff the walk of `find_node` ends at a real node. */
  method Lookup(root: RbTree, key: int) returns (found: bool)
    requires Ordered(root, Internal)
    ensures found <==> key in Keys(root)
  {
    var _, z := FindNode(root, key);
    found := z.Node?;
  }

  // ---------------------------------------------------------------------
  // Insert
  // ---------------------------------------------------------------------

  /**
   * `_do_binary_insert`: a present key links nothing; otherwise the new
   * red node takes the sentinel the walk ended at, under the last real
   * node passed (left iff its key is below that node's), or becomes the
   * root.  The new node comes back with its parent chain.
   */
  method BinaryInsert(root: RbTree, key: int, value: int) returns (path: Path, linked: bool)
    requires Ordered(root, Internal)
    ensures linked <==> key !in Keys(root)
    ensures linked ==>
      Plug(path, Nil) == root && Routes(path, key, Internal)
      && Ordered(Plug(path, NewNode(key, value)), Internal)
      && Keys(Plug(path, NewNode(key, value))) == Keys(root) + {key}
  {
    var z;
    path, z := FindNode(root, key);
    if z.Node? {
      return path, false;
    }
    if path != [] {
      var y := path[|path| - 1];
      assert (key < y.key) <==> y.dir == Left;
    }
    var x := NewNode(key, value);
    assert AllRoute(path, Content(x, Internal), Internal) by {
      assert x == Node(Nil, key, RbInfo(Red, value), Nil);
      assert Keys(x) == {key};
    }
    OrderedReplace(path, z, x, Internal);
    KeysPlug(path, z);
    KeysPlug(path, x);
    linked := true;
  }

  /** The insert fix-up's invariant: `Climbing`, the order, the keys and the black root. */
  predicate Fixing(path: Path, x: RbTree, keys: set<int>)
  {
    Climbing(path, x) && Ordered(Plug(path, x), Internal) && Keys(Plug(path, x)) == keys
    && (path != [] ==> path[0].info.color == Black)
  }

  /** A new red node in place of a sentinel starts the fix-up. */
  lemma FixingStarts(root: RbTree, path: Path, key: int, value: int)
    requires Valid(root) && Plug(path, Nil) == root && Ordered(Plug(path, NewNode(key, value)), Internal)
    ensures Fixing(path, NewNode(key, value), Keys(Plug(path, NewNode(key, value))))
  {
    NewLeafClimbing(path, key, value);
    if path != [] {
      PlugTop(path, Nil);
    }
  }

  /** Case 1: the colour flip moves the invariant to the grandparent. */
  lemma FlipKeeps(path: Path, x: RbTree, keys: set<int>)
    requires Fixing(path, x, keys) && |path| >= 2
    requires path[|path| - 1].info.color == Red && IsRed(path[|path| - 2].other)
    ensures var n := |path|; Fixing(path[..n - 2], FlipUp(path[n - 2], path[n - 1], x), keys)
  {
    var n := |path|;
    FlipUpStep(path, x);
    Recoloured(Plug(path[..n - 2], FlipUp(path[n - 2], path[n - 1], x)), Plug(path, x));
  }

  /**
   * Case 2: an inner `x` makes the parent rotate down away from it; the old
   * parent, still red, is the node looked at next, an outer grandchild now.
   */
  lemma InnerKeeps(path: Path, x: RbTree, keys: set<int>)
    requires Fixing(path, x, keys) && |path| >= 2
    requires path[|path| - 1].info.color == Red && path[|path| - 1].dir != path[|path| - 2].dir
    ensures var n := |path|; var (q, z) := InnerToOuter(path, x);
      Fixing(q, z, keys) && |q| == n && q[n - 2] == path[n - 2]
      && q[n - 1].info.color == Red && q[n - 1].dir == q[n - 2].dir
  {
    var n := |path|;
    var init, p := path[..n - 1], path[n - 1];
    var (q, z) := InnerToOuter(path, x);
    InnerToOuterStep(path, x);
    assert path == init + [p];
    PlugSnoc(init, p, x);
    RotateIn(init, Attach(p, x), path[n - 2].dir, Internal);
    assert q[n - 2] == q[..n - 1][n - 2];
  }

  /**
   * Case 3 as the C code leaves it: the parent, painted black, has risen
   * over the grandparent, painted red, and `x` still hangs below it.
   */
  function Settled(path: Path): (q: Path)
    requires |path| >= 2 && path[|path| - 1].dir == path[|path| - 2].dir
    ensures |q| == |path| - 1 && q[..|path| - 2] == path[..|path| - 2] && q[|q| - 1].info.color == Black
  {
    var n := |path|;
    var g, p := path[n - 2], path[n - 1];
    path[..n - 2] + [Frame(g.dir, p.key, RbInfo(Black, p.info.value),
                           Attach(Frame(g.dir, g.key, RbInfo(Red, g.info.value), g.other), p.other))]
  }

  /** Case 3 keeps the invariant with a black parent above `x`, which ends the loop. */
  lemma OuterKeeps(path: Path, x: RbTree, keys: set<int>)
    requires Fixing(path, x, keys) && |path| >= 2
    requires path[|path| - 1].info.color == Red && !IsRed(path[|path| - 2].other)
    requires path[|path| - 1].dir == path[|path| - 2].dir
    ensures Fixing(Settled(path), x, keys)
  {
    var n := |path|;
    var init, g, p := path[..n - 2], path[n - 2], path[n - 1];
    var q := Settled(path);
    assert q == init + [q[n - 2]];
    PlugSnoc(init, q[n - 2], x);
    assert Plug(q, x) == Plug(init, TurnOuter(g, p, x));
    TurnOuterStep(path, x);
    TurnOuterOrder(path, x, Internal);
    PlugOk(q, x);
    CleanUnderBlack(q);
  }

  /** Under a black parent, or at the root, the fix-up is done once a red root is painted black. */
  lemma FixingEnds(path: Path, x: RbTree, keys: set<int>)
    requires Fixing(path, x, keys) && (path == [] || path[|path| - 1].info.color == Black)
    ensures var t := Plug(path, x); var t' := if IsRed(t) then Paint(t, Black) else t;
      Valid(t') && Keys(t') == keys
  {
    var t := Plug(path, x);
    if path == [] {
      ClimbToRoot(path, x);
      Recoloured(Paint(t, Black), t);
    } else {
      ClimbDone(path, x);
      PlugTop(path, x);
    }
  }

  /**
   * `rbt_insert_fixup`: while the parent of `z` is red: a red uncle flips
   * the colours and moves `z` to the grandparent (case 1); otherwise an
   * inner `z` first rotates at its parent and moves to it (case 2), and
   * then the parent turns black, the grandparent red, and the grandparent
   * rotates away (case 3), which leaves `z` under a black parent.  A red
   * root is painted black at the end.
   */
  method InsertFixup(path0: Path, x0: RbTree, ghost keys: set<int>) returns (t: RbTree)
    requires Fixing(path0, x0, keys)
    ensures Valid(t) && Keys(t) == keys
  {
    var path, x := path0, x0;
    while path != [] && path[|path| - 1].info.color == Red
      invariant Fixing(path, x, keys)
      decreases |path|
    {
      var n := |path|;
      var p := path[n - 1];
      var g := path[n - 2];
      if IsRed(g.other) {
        // Case 1
        FlipKeeps(path, x, keys);
        x := FlipUp(g, p, x);
        path := path[..n - 2];
      } else {
        if p.dir != g.dir {
          // Case 2
          InnerKeeps(path, x, keys);
          var r := InnerToOuter(path, x);
          path, x := r.0, r.1;
        }
        // Case 3
        OuterKeeps(path, x, keys);
        path := Settled(path);
      }
    }
    FixingEnds(path, x, keys);
    t := Plug(path, x);
    if IsRed(t) {
      t := Paint(t, Black);
    }
  }

  /**
   * `_rbt_insert_helper`: 1 exactly when `_do_binary_insert` linked a new
   * node, and only then the fix-up runs.
   */
  method Insert(root: RbTree, key: int, value: int) returns (t: RbTree, inserted: bool)
    requires Valid(root)
    ensures Valid(t)
    ensures Keys(t) == Keys(root) + {key}
    ensures inserted <==> key !in Keys(root)
  {
    var path;
    path, inserted := BinaryInsert(root, key, value);
    if !inserted {
      return root, false;
    }
    var x := NewNode(key, value);
    FixingStarts(root, path, key, value);
    t := InsertFixup(path, x, Keys(Plug(path, x)));
  }

  // ---------------------------------------------------------------------
  // Delete
  // ---------------------------------------------------------------------

  /**
   * `rbt_delete_fixup` from `x`, one black node short: while `x` is black
   * and not the root, a red sibling first rotates up (case 1); a black
   * sibling with two black children turns red and the parent becomes `x`
   * (case 2); otherwise a black far child makes the near one rotate up
   * (case 4) and then the sibling rotates over the parent (case 3), after
   * which `x` is the root.  A red `x` is painted black at the end.
   */
  method DeleteFixup(path0: Path, x0: RbTree, ghost keys: set<int>) returns (t: RbTree)
    requires Repair(path0, x0, keys)
    ensures Valid(t) && Keys(t) == keys
  {
    var path, x := path0, x0;
    while path != [] && !IsRed(x)
      invariant Repair(path, x, keys)
      decreases |path| + (if IsRed(x) then 0 else 1)
    {
      SiblingExists(path, x);
      if IsRed(path[|path| - 1].other) {
        // Case 1
        RepairLift(path, x, keys);
        path := LiftSibling(path);
      }
      var n := |path|;
      var p := path[n - 1];
      var w := p.other;
      if !IsRed(w.left) && !IsRed(w.right) {
        // Case 2
        RepairPush(path, x, keys);
        x := PushUp(p, x);
        path := path[..n - 1];
      } else {
        path, x := TurnToRoot(path, x, keys);
        RepairDone(x, keys);
      }
    }
    if IsRed(x) {
      RepairRed(path, x, keys);
      t := Plug(path, Paint(x, Black));
    } else {
      RepairRoot(x, keys);
      t := x;
    }
  }

  /** Cases 4 and 3: rotate once or twice; the repaired tree is `x` now, and it is the root. */
  method TurnToRoot(path0: Path, x0: RbTree, ghost keys: set<int>) returns (path: Path, x: RbTree)
    requires Repair(path0, x0, keys) && path0 != [] && !IsRed(x0)
    requires var s := path0[|path0| - 1].other; s.Node? && !IsRed(s) && (IsRed(s.left) || IsRed(s.right))
    ensures path == [] && Valid(x) && Keys(x) == keys
  {
    RepairFar(path0, x0, keys);
    var n := |path0|;
    path := path0;
    var p := path[n - 1];
    if !IsRed(Child(p.other, Flip(p.dir))) {
      // Case 4
      path := TurnNear(path);
      p := path[n - 1];
    }
    // Case 3
    x := Plug(path[..n - 1], TurnFar(p, x0));
    path := [];
  }

  /** `rbt_minimum_node`: a sentinel is its own minimum; otherwise follow left links to the last real node. */
  method MinimumNode(root: RbTree) returns (q: Path, m: RbTree)
    ensures root.Nil? ==> q == [] && m == root
    ensures root.Node? ==> (q, m) == Leftmost(root)
  {
    q, m := [], root;
    if m.Nil? {
      return;
    }
    assert [] + Leftmost(m).0 == Leftmost(m).0;
    while m.left.Node?
      invariant m.Node?
      invariant Leftmost(root) == (q + Leftmost(m).0, Leftmost(m).1)
      decreases m
    {
      LeftmostStep(root, q, m);
      q := q + [FrameOf(m, Left)];
      m := m.left;
    }
    assert q + [] == q;
  }

  /** Changing a node's key and data leaves its colour, and so the red-black rules around it. */
  lemma RekeyOk(path: Path, z: RbTree, k: int, v: int)
    requires RbOk(Plug(path, z)) && z.Node?
    ensures RbOk(Plug(path, Node(z.left, k, RbInfo(z.info.color, v), z.right)))
  {
    PlugOk(path, z);
    PlugOk(path, Node(z.left, k, RbInfo(z.info.color, v), z.right));
  }

  /**
   * A two-child delete: `z` takes the key and the data of the minimum of
   * its right subtree, which has a sentinel left child and is the node
   * unlinked.  The parent chain of that node runs through `z`; the tree
   * before the unlinking keeps the rules, and once its right child takes
   * its place the tree is ordered and holds every key but `z`'s.
   */
  lemma SuccessorStack(path: Path, z: RbTree)
    requires Valid(Plug(path, z)) && z.Node? && Routes(path, z.key, Internal)
    requires z.left.Node? && z.right.Node?
    ensures var (q, m) := Leftmost(z.right);
      var stack := path + [Frame(Right, m.key, RbInfo(z.info.color, m.info.value), z.left)] + q;
      RbOk(Plug(stack, m)) && Ordered(Plug(stack, m.right), Internal)
      && Keys(Plug(stack, m.right)) == Keys(Plug(path, z)) - {z.key}
      && stack[0].info.color == Black
  {
    var (q, m) := Leftmost(z.right);
    var f := Frame(Right, m.key, RbInfo(z.info.color, m.info.value), z.left);
    var fz := Frame(Right, m.key, z.info, z.left);
    var stack := path + [f] + q;
    SplicePlug(path, f, q, m);
    SplicePlug(path, f, q, m.right);
    SuccessorOrder(path, z, z.key);
    assert Attach(f, Plug(q, m)) == Node(z.left, m.key, RbInfo(z.info.color, m.info.value), z.right);
    RekeyOk(path, z, m.key, m.info.value);
    assert Strip(Attach(f, Plug(q, m.right))) == Strip(Attach(fz, Plug(q, m.right)));
    RecolourIn(path, Attach(f, Plug(q, m.right)), Attach(fz, Plug(q, m.right)));
    if path != [] {
      PlugTop(path, z);
      assert stack[0] == path[0];
    }
  }

  /**
   * `_do_rbt_delete`: `z` itself goes when a child of it is a sentinel,
   * otherwise the minimum of its right subtree goes, its key and data
   * copied into `z`.  The child of the node unlinked that is not a
   * sentinel (the right one if both are) takes its place, and the fix-up
   * runs from there iff the node unlinked was black.
   */
  method DoDelete(path: Path, z: RbTree) returns (t: RbTree)
    requires Valid(Plug(path, z)) && z.Node? && Routes(path, z.key, Internal)
    ensures Valid(t) && Keys(t) == Keys(Plug(path, z)) - {z.key}
  {
    var stack, y := path, z;
    if z.left.Node? && z.right.Node? {
      var q, m := MinimumNode(z.right);
      SuccessorStack(path, z);
      stack, y := path + [Frame(Right, m.key, RbInfo(z.info.color, m.info.value), z.left)] + q, m;
    } else {
      ChildSpliceOrder(path, z, z.key, if z.left.Nil? then z.right else z.left);
      if path != [] {
        PlugTop(path, z);
      }
    }
    var x := y.left;
    if x.Nil? {
      x := y.right;
    }
    SpliceOk(stack, y, x);
    if y.info.color == Black {
      t := DeleteFixup(stack, x, Keys(Plug(stack, x)));
    } else {
      t := Plug(stack, x);
      PlugTop(stack, x);
    }
  }

  /** `_rbt_delete_helper`: 0 for an absent key; otherwise `_do_rbt_delete` on the node found, and 1. */
  method Delete(root: RbTree, key: int) returns (t: RbTree, deleted: bool)
    requires Valid(root)
    ensures Valid(t)
    ensures Keys(t) == Keys(root) - {key}
    ensures deleted <==> key in Keys(root)
  {
    var path, z := FindNode(root, key);
    if z.Nil? {
      return root, false;
    }
    t := DoDelete(path, z);
    deleted := true;
  }

  // ---------------------------------------------------------------------
  // Warmup
  // ---------------------------------------------------------------------

  /**
   * `_rbt_warmup_helper`: insert `rand() % max_key` (data NULL) until
   * `nr_nodes` inserts succeeded, the random numbers given as input.
   */
  method WarmupHelper(root: RbTree, nrNodes: int, maxKey: int, rands: seq<nat>)
    returns (t: RbTree, inserted: int, used: nat)
    requires Valid(root) && maxKey > 0
    ensures Warmed(root, t, rands, used, inserted, maxKey)
    ensures inserted >= nrNodes || used == |rands|
    ensures nrNodes >= 0 ==> inserted <= nrNodes
  {
    t, inserted, used := root, 0, 0;
    while inserted < nrNodes && used < |rands|
      invariant Warmed(root, t, rands, used, inserted, maxKey)
      invariant nrNodes >= 0 ==> inserted <= nrNodes
      decreases |rands| - used
    {
      t, inserted := WarmupRound(root, t, rands, used, inserted, maxKey);
      used := used + 1;
    }
  }

  /**
   * What the warmup has done after `used` random numbers: `t` is valid and
   * holds the keys of `root` and every key drawn, `inserted` more than `root`.
   */
  predicate Warmed(root: RbTree, t: RbTree, rands: seq<nat>, used: nat, inserted: int, maxKey: int)
    requires maxKey > 0
  {
    Valid(t) && WarmupKeys.Progress(Keys(root), Keys(t), rands, used, inserted, maxKey)
  }

  /** One round of the warmup loop: draw a key, insert it, count a success. */
  method WarmupRound(ghost root: RbTree, t: RbTree, rands: seq<nat>, used: nat, inserted: int, maxKey: int)
    returns (t': RbTree, inserted': int)
    requires maxKey > 0 && used < |rands| && Warmed(root, t, rands, used, inserted, maxKey)
    ensures Warmed(root, t', rands, used + 1, inserted', maxKey)
    ensures inserted' == inserted || inserted' == inserted + 1
  {
    var key := rands[used] % maxKey;
    var ret;
    t', ret := Insert(t, key, 0);
    WarmupKeys.ProgressStep(Keys(root), Keys(t), Keys(t'), rands, used, inserted, maxKey, ret);
    inserted' := if ret then inserted + 1 else inserted;
  }

  /** The warmup draws keys in `[0, max_key)`, never SENTINEL_KEY. */
  lemma WarmupAvoidsSentinelKey(r: nat, maxKey: int)
    requires maxKey > 0
    ensures r % maxKey != SentinelKey
  {
  }

  // ---------------------------------------------------------------------
  // The sentinel test as written
  // ---------------------------------------------------------------------

  /** `IS_SENTINEL_NODE` as written: a node keyed SENTINEL_KEY counts as a sentinel. */
  predicate SentinelAsWritten(t: RbTree)
  {
    t.Nil? || t.key == SentinelKey
  }

  /**
   * The walk of `_rbt_lookup_helper`, `_do_binary_insert` and `find_node`
   * with the sentinel test as written: it also stops at a real node keyed
   * SENTINEL_KEY.  On a tree without that key it is the walk the model uses.
   */
  function DescendAsWritten(t: RbTree, key: int): (r: (Path, RbTree))
    ensures Plug(r.0, r.1) == t && Routes(r.0, key, Internal)
    ensures SentinelAsWritten(r.1) || r.1.key == key
    ensures SentinelKey !in Keys(t) ==> r == IntDescend(t, key)
    decreases t
  {
    if SentinelAsWritten(t) || t.key == key then ([], t)
    else
      var d := if key < t.key then Left else Right;
      var (p, stop) := DescendAsWritten(Child(t, d), key);
      PlugCons(FrameOf(t, d), p, stop);
      ([FrameOf(t, d)] + p, stop)
  }

  /** `_rbt_lookup_helper` as written: found iff the walk ends at a node that does not pass for a sentinel. */
  function LookupAsWritten(t: RbTree, key: int): (found: bool)
    ensures found ==> key in Keys(t) && key != SentinelKey
    ensures Ordered(t, Internal) && SentinelKey !in Keys(t) ==> (found <==> key in Keys(t))
  {
    var (path, stop) := DescendAsWritten(t, key);
    KeysPlug(path, stop);
    FindsWithoutSentinelKey(t, key);
    !SentinelAsWritten(stop)
  }

  /**
   * `_do_binary_insert` as written: the walk as written, and the new node
   * replaces whatever it stopped at that passes for a sentinel, with all
   * below it.
   */
  function BinaryInsertAsWritten(t: RbTree, key: int, value: int): (r: (RbTree, bool))
    ensures !r.1 ==> r.0 == t
    ensures Ordered(t, Internal) && SentinelKey !in Keys(t) ==>
      (r.1 <==> key !in Keys(t)) && (r.1 ==> Keys(r.0) == Keys(t) + {key})
  {
    var (path, stop) := DescendAsWritten(t, key);
    KeysPlug(path, stop);
    if !SentinelAsWritten(stop) then (t, false)
    else
      var x := NewNode(key, value);
      KeysPlug(path, x);
      FindsWithoutSentinelKey(t, key);
      (Plug(path, x), true)
  }

  /** Without SENTINEL_KEY in an ordered tree, the walk ends at a real node iff the key is present. */
  lemma FindsWithoutSentinelKey(t: RbTree, key: int)
    ensures Ordered(t, Internal) && SentinelKey !in Keys(t) ==> (key in Keys(t) <==> IntDescend(t, key).1.Node?)
  {
    if Ordered(t, Internal) {
      IntDescendFinds(t, key);
    }
  }

  /** Inserting SENTINEL_KEY into an empty tree links a node and returns 1, yet lookup returns 0 for it. */
  lemma SentinelKeyNotFound()
    ensures var (t, linked) := BinaryInsertAsWritten(NewTree(), SentinelKey, 0);
      linked && SentinelKey in Keys(t) && !LookupAsWritten(t, SentinelKey)
  {
    var (t, linked) := BinaryInsertAsWritten(NewTree(), SentinelKey, 0);
    assert t == NewNode(SentinelKey, 0);
  }

  /** Inserting 5 next replaces the root keyed SENTINEL_KEY: that key leaves the tree with no delete. */
  lemma SentinelKeyDropped()
    ensures var (t1, _) := BinaryInsertAsWritten(NewTree(), SentinelKey, 0);
      var (t2, linked) := BinaryInsertAsWritten(t1, 5, 0);
      SentinelKey in Keys(t1) && linked && Keys(t2) == {5}
  {
    var (t1, _) := BinaryInsertAsWritten(NewTree(), SentinelKey, 0);
    assert t1 == NewNode(SentinelKey, 0);
    var (t2, linked) := BinaryInsertAsWritten(t1, 5, 0);
    assert t2 == NewNode(5, 0);
  }
}
