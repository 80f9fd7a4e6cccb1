/**
 * rbt/rbt_links_bu_ext_iterative_string.c: the bottom-up external
 * red-black tree whose keys are C strings compared with
 * `strncmp(a, b, 256)`.  The descent keeps the nodes it passes on a stack
 * of at most 100 entries; insert splits the leaf reached and repairs
 * upwards, delete unlinks the leaf and its parent and repairs upwards.
 *
 * The tree holds the rank of each key string (`CStrings.Rank`): `strncmp`
 * compares two strings exactly as their ranks compare, so every
 * comparison the C code makes is the comparison of two ranks.  The stack
 * is the zipper path of `Trees`.
 */
module RbBuString {
  import opened Trees
  import opened SearchOrder
  import opened RbCore
  import opened RbBottomUp
  import opened RbBuExt
  import opened CStrings
  import RbTdExt
  import WarmupKeys

  /** `dir_next`: left iff `strncmp(node->key, key, 256) >= 0`, that is iff the key is no larger than the node's. */
  function DirNext(nodeKey: CStr, key: CStr): (d: Dir)
    ensures d == Left <==> Rank(key) <= Rank(nodeKey)
  {
    StrncmpRank(nodeKey, key);
    if Strncmp(nodeKey, key) >= 0 then Left else Right
  }

  /** The walk of every operation: from the root down to a leaf, the nodes passed kept as the path. */
  method Traverse(root: RbTree, key: int) returns (path: Path, leaf: RbTree)
    requires root.Node? && Full(root)
    ensures (path, leaf) == ExtDescend(root, key)
  {
    var curr := root;
    path := [];
    assert [] + ExtDescend(curr, key).0 == ExtDescend(curr, key).0;
    while !IsLeaf(curr)
      invariant curr.Node? && Full(curr)
      invariant ExtDescend(root, key) == (path + ExtDescend(curr, key).0, ExtDescend(curr, key).1)
      decreases curr
    {
      var d := if key <= curr.key then Left else Right;
      ExtDescendStep(root, key, path, curr);
      path := path + [FrameOf(curr, d)];
      curr := Child(curr, d);
    }
    assert ExtDescend(curr, key) == ([], curr);
    assert path + [] == path;
    leaf := curr;
  }

  /**
   * `_rbt_lookup_helper`: the level of the leaf the walk reaches (0 for an
   * empty tree) and whether that leaf holds the key.
   */
  method Lookup(root: RbTree, key: CStr) returns (level: nat, found: bool)
    requires Full(root)
    ensures level == |ExtDescend(root, Rank(key)).0|
    ensures found <==> ExtDescend(root, Rank(key)).1.Node? && ExtDescend(root, Rank(key)).1.key == Rank(key)
    ensures Ordered(root, External) ==> (found <==> Rank(key) in LeafKeys(root))
  {
    var k := Rank(key);
    if Ordered(root, External) {
      ExtDescendFinds(root, k);
    }
    if root.Nil? {
      return 0, false;
    }
    var curr := root;
    ghost var path: Path := [];
    level := 0;
    assert [] + ExtDescend(curr, k).0 == ExtDescend(curr, k).0;
    while !IsLeaf(curr)
      invariant curr.Node? && Full(curr) && level == |path|
      invariant ExtDescend(root, k) == (path + ExtDescend(curr, k).0, ExtDescend(curr, k).1)
      decreases curr
    {
      var d := if k <= curr.key then Left else Right;
      ExtDescendStep(root, k, path, curr);
      path := path + [FrameOf(curr, d)];
      curr := Child(curr, d);
      level := level + 1;
    }
    assert ExtDescend(curr, k) == ([], curr);
    assert path + [] == path;
    found := curr.key == k;
  }

  // ---------------------------------------------------------------------
  // Insert
  // ---------------------------------------------------------------------

  /**
   * `_rbt_insert_fixup`: from the split node up, while its parent is red:
   * a red uncle is a colour flip two levels up, a black one a single or a
   * double rotation that ends the repair; the root is painted black last.
   */
  method InsertFixup(path0: Path, x0: RbTree, key: int, ghost keys: set<int>) returns (t: RbTree)
    requires Climb(path0, x0, key, keys)
    ensures Valid(t) && !IsRed(t) && LeafKeys(t) == keys
  {
    var path, x := path0, x0;
    while |path| >= 2
      invariant Climb(path, x, key, keys)
      decreases |path|
    {
      var n := |path|;
      var p := path[n - 1];
      if p.info.color == Black {
        break;
      }
      var g := path[n - 2];
      RoutedSide(path, key, n - 2);
      var dir := if key <= g.key then Left else Right;
      assert dir == g.dir;
      if IsRed(g.other) {
        ClimbFlip(path, x, key, keys);
        x := FlipUp(g, p, x);
        path := path[..n - 2];
      } else {
        t := Restructure(path, x, key, keys);
        return;
      }
    }
    ClimbStop(path, x, key, keys);
    t := Blacken(Plug(path, x));
  }

  /** Cases 2 and 3 of the insert repair: the rotation that ends it, then the root painted black. */
  method Restructure(path: Path, x: RbTree, key: int, ghost keys: set<int>) returns (t: RbTree)
    requires Climb(path, x, key, keys) && |path| >= 2
    requires path[|path| - 1].info.color == Red && !IsRed(path[|path| - 2].other)
    ensures Valid(t) && !IsRed(t) && LeafKeys(t) == keys
  {
    var n := |path|;
    var g, p := path[n - 2], path[n - 1];
    RoutedSide(path, key, n - 2);
    RoutedSide(path, key, n - 1);
    var dir := if key <= g.key then Left else Right;
    var dirFromParent := if key <= p.key then Left else Right;
    if dir == dirFromParent {
      ClimbOuter(path, x, key, keys);
      t := Blacken(Plug(path[..n - 2], TurnOuter(g, p, x)));
    } else {
      ClimbInner(path, x, key, keys);
      t := Blacken(Plug(path[..n - 2], TurnInner(g, p, x)));
    }
  }

  /**
   * `_rbt_insert_helper` with `replace_external_node`: an empty tree gets
   * the new leaf, painted black; a key already at the leaf reached is
   * refused; otherwise that leaf becomes a red node over the old and the
   * new key, and the tree is repaired.  Returns 1 iff the key was absent.
   */
  method Insert(root: RbTree, key: CStr, value: int) returns (t: RbTree, inserted: bool)
    requires Valid(root)
    ensures Valid(t) && LeafKeys(t) == LeafKeys(root) + {Rank(key)}
    ensures inserted <==> Rank(key) !in LeafKeys(root)
    ensures !inserted ==> t == root
    ensures inserted ==> !IsRed(t)
  {
    var k := Rank(key);
    if root.Nil? {
      return Node(Nil, k, RbInfo(Black, value), Nil), true;
    }
    var path, leaf := Traverse(root, k);
    ExtDescendFinds(root, k);
    if leaf.key == k {
      return root, false;
    }
    var x := RbTdExt.Split(leaf, k, value);
    StartClimb(path, leaf, k, value);
    t := InsertFixup(path, x, x.left.key, LeafKeys(root) + {k});
    inserted := true;
  }

  // ---------------------------------------------------------------------
  // Delete
  // ---------------------------------------------------------------------

  /**
   * `_rbt_delete_fixup`: from the subtree one black node short up: a red
   * one is painted black; a red sibling is rotated over the parent first;
   * a sibling with two black children turns red and the parent is the new
   * short subtree; otherwise one or two rotations end the repair.  At the
   * root the repair stops.
   */
  method DeleteFixup(path0: Path, x0: RbTree, key: int, ghost keys: set<int>) returns (t: RbTree)
    requires Mend(path0, x0, key, keys)
    ensures Valid(t) && LeafKeys(t) == keys
  {
    var path, x := path0, x0;
    while path != []
      invariant Mend(path, x, key, keys)
      decreases |path| + (if IsRed(x) then 0 else 1)
    {
      if IsRed(x) {
        MendRed(path, x, key, keys);
        t := Plug(path, Paint(x, Black));
        return;
      }
      var p := path[|path| - 1];
      RoutedSide(path, key, |path| - 1);
      var dirFromParent := if key <= p.key then Left else Right;
      assert dirFromParent == p.dir;
      assert p.other.Node? by {
        FullPlug(path, x);
      }
      if IsRed(p.other) {
        MendLift(path, x, key, keys);
        path := LiftSibling(path);
        p := path[|path| - 1];
      }
      var s := p.other;
      if !IsRed(s.left) && !IsRed(s.right) {
        MendPush(path, x, key, keys);
        x := PushUp(p, x);
        path := path[..|path| - 1];
      } else {
        t := RotateAway(path, x, key, keys);
        return;
      }
    }
    MendRoot(x, key, keys);
    t := x;
  }

  /** Cases 3 and 4 of the delete repair: one rotation when the sibling's far child is red, else two. */
  method RotateAway(path: Path, x: RbTree, key: int, ghost keys: set<int>) returns (t: RbTree)
    requires Mend(path, x, key, keys) && path != [] && !IsRed(x)
    requires var s := path[|path| - 1].other; s.Node? && !IsRed(s) && (IsRed(s.left) || IsRed(s.right))
    ensures Valid(t) && LeafKeys(t) == keys
  {
    var n, p := |path|, path[|path| - 1];
    MendFar(path, x, key, keys);
    if IsRed(Child(p.other, Flip(p.dir))) {
      t := Plug(path[..n - 1], TurnFar(p, x));
    } else {
      t := Plug(path[..n - 1], TurnNearFar(p, x));
    }
  }

  /**
   * `_rbt_delete_helper`: a key not at the leaf reached is not deleted; a
   * lone leaf leaves the tree empty; a leaf under the root leaves its
   * sibling as the root; otherwise the sibling takes the parent's place
   * and, if the parent was black, the tree is repaired.  Returns 1 iff the
   * key was present.
   */
  method Delete(root: RbTree, key: CStr) returns (t: RbTree, deleted: bool)
    requires Valid(root)
    ensures Valid(t) && LeafKeys(t) == LeafKeys(root) - {Rank(key)}
    ensures deleted <==> Rank(key) in LeafKeys(root)
    ensures !deleted ==> t == root
  {
    var k := Rank(key);
    if root.Nil? {
      return root, false;
    }
    var path, leaf := Traverse(root, k);
    ExtDescendFinds(root, k);
    if leaf.key != k {
      return root, false;
    }
    deleted := true;
    var n := |path|;
    if n == 0 {
      assert root == leaf;
      return Nil, true;
    }
    var parent := path[n - 1];
    if n == 1 {
      assert root == Attach(parent, leaf) by {
        PlugOne(parent, leaf);
      }
      SiblingRoot(parent, leaf, k);
      t := parent.other;
      return;
    }
    StartMend(path, leaf, k);
    if parent.info.color == Black {
      t := DeleteFixup(path[..n - 1], parent.other, k, LeafKeys(root) - {k});
    } else {
      t := Plug(path[..n - 1], parent.other);
    }
  }

  /** The validator passes every tree the operations build (its strict test on the left is `strncmp(left, root) > 0`, so equal keys pass). */
  lemma ValidPasses(t: RbTree)
    requires Valid(t)
    ensures Validate(t, false)
  {
    ExternalLocallyOrdered(t);
  }

  // ---------------------------------------------------------------------
  // Warmup
  // ---------------------------------------------------------------------

  /** The largest C `int`: `max_key` is one, so every `rand() % max_key` is below it. */
  const IntMax: int := 0x7fff_ffff

  /** A number below `max_key` fits the 30 digits of `"%030d"`. */
  lemma IntFitsKey()
    ensures IntMax < Pow10(30)
  {
    assert Pow10(10) == 10_000_000_000;
    Pow10Grows(10, 30);
  }

  lemma {:induction false} Pow10Grows(m: nat, n: nat)
    requires m <= n
    ensures Pow10(m) <= Pow10(n)
    decreases n
  {
    if m < n {
      Pow10Grows(m, n - 1);
    }
  }

  /** The key string of the warmup: `sprintf(key, "%030d", x)` for a drawn number `x = rand() % max_key`. */
  function KeyString(x: nat): (s: CStr)
    requires x <= IntMax
    ensures |s| == 30
  {
    IntFitsKey();
    WarmupKey(x)
  }

  /** Two drawn numbers give key strings of the same rank iff they are equal, and ranks keep their order. */
  lemma KeyStringRank(x: nat, y: nat)
    requires x <= IntMax && y <= IntMax
    ensures Rank(KeyString(x)) == Rank(KeyString(y)) <==> x == y
    ensures Rank(KeyString(x)) < Rank(KeyString(y)) <==> x < y
  {
    IntFitsKey();
    WarmupKeyOrder(x, y);
  }

  /** The ranks of the key strings drawn from the first `n` random numbers. */
  function DrawnRanks(rands: seq<nat>, n: nat, maxKey: int): set<int>
    requires 0 < maxKey <= IntMax && n <= |rands|
  {
    if n == 0 then {} else DrawnRanks(rands, n - 1, maxKey) + {Rank(KeyString(rands[n - 1] % maxKey))}
  }

  /**
   * The key strings stand for their numbers: a number below `max_key` is
   * drawn iff its string's rank is, and as many strings are drawn as
   * numbers.
   */
  lemma {:induction false} DrawnRanksMatch(rands: seq<nat>, n: nat, maxKey: int)
    requires 0 < maxKey <= IntMax && n <= |rands|
    ensures forall x: nat :: x < maxKey ==> (x in WarmupKeys.Drawn(rands, n, maxKey) <==> Rank(KeyString(x)) in DrawnRanks(rands, n, maxKey))
    ensures |DrawnRanks(rands, n, maxKey)| == |WarmupKeys.Drawn(rands, n, maxKey)|
  {
    if n > 0 {
      DrawnRanksMatch(rands, n - 1, maxKey);
      var y: nat := rands[n - 1] % maxKey;
      var before := WarmupKeys.Drawn(rands, n - 1, maxKey);
      var beforeRanks := DrawnRanks(rands, n - 1, maxKey);
      assert WarmupKeys.Drawn(rands, n, maxKey) == before + {y};
      assert DrawnRanks(rands, n, maxKey) == beforeRanks + {Rank(KeyString(y))};
      DrawOne(before, beforeRanks, y, maxKey);
    }
  }

  /** One more draw keeps the numbers and the ranks of their strings in step. */
  lemma DrawOne(before: set<int>, ranks: set<int>, y: nat, maxKey: int)
    requires 0 < maxKey <= IntMax && y < maxKey && |ranks| == |before|
    requires forall x: nat :: x < maxKey ==> (x in before <==> Rank(KeyString(x)) in ranks)
    ensures forall x: nat :: x < maxKey ==> (x in before + {y} <==> Rank(KeyString(x)) in ranks + {Rank(KeyString(y))})
    ensures |ranks + {Rank(KeyString(y))}| == |before + {y}|
  {
    forall x: nat | x < maxKey
      ensures x in before + {y} <==> Rank(KeyString(x)) in ranks + {Rank(KeyString(y))}
    {
      KeyStringRank(x, y);
    }
    if y in before {
      assert before + {y} == before && ranks + {Rank(KeyString(y))} == ranks;
    } else {
      assert Rank(KeyString(y)) !in ranks;
    }
  }

  /**
   * `_rbt_warmup_insert_helper`: the top-down recursive insert the
   * other external trees warm up with (the same code, comparing with
   * `strncmp`), then a red root painted black.  Returns 1 iff the key was
   * not found.
   */
  function WarmupInsert(t: RbTree, key: CStr, value: int): (r: (RbTree, bool))
    requires Valid(t)
    ensures Valid(r.0) && !IsRed(r.0)
    ensures LeafKeys(r.0) == LeafKeys(t) + {Rank(key)}
    ensures r.1 <==> Rank(key) !in LeafKeys(t)
  {
    var (u, found) := RbTdExt.WarmupRec(t, Rank(key), value);
    assert Valid(Blacken(u)) && LeafKeys(Blacken(u)) == LeafKeys(t) + {Rank(key)} && (found <==> Rank(key) in LeafKeys(t)) by {
      RbTdExt.WarmupRecKeys(t, Rank(key), value);
      if t.Node? {
        RbTdExt.WarmupRecRb(t, Rank(key), value);
      }
      PaintKeeps(u, Black);
      assert LeavesBlack(Paint(u, Black));
    }
    (Blacken(u), !found)
  }

  /**
   * What the warmup has done after `used` random numbers: `t` is valid and
   * holds the ranks of `root` and of every key string drawn, `inserted`
   * more than `root`.
   */
  predicate Warmed(root: RbTree, t: RbTree, rands: seq<nat>, used: nat, inserted: int, maxKey: int)
    requires 0 < maxKey <= IntMax
  {
    Valid(t) && used <= |rands| && 0 <= inserted
    && LeafKeys(t) == LeafKeys(root) + DrawnRanks(rands, used, maxKey)
    && |LeafKeys(t)| == |LeafKeys(root)| + inserted
  }

  /**
   * `_rbt_warmup_helper`: key strings `"%030d"` of `rand() % max_key` go
   * in, with no value, until `nr_nodes` inserts have succeeded or the
   * random numbers run out.
   */
  method WarmupHelper(root: RbTree, nrNodes: int, maxKey: int, rands: seq<nat>)
    returns (t: RbTree, inserted: int, used: nat)
    requires Valid(root) && 0 < maxKey <= IntMax
    ensures Warmed(root, t, rands, used, inserted, maxKey)
    ensures inserted >= nrNodes || used == |rands|
    ensures nrNodes >= 0 ==> inserted <= nrNodes
  {
    t, inserted, used := root, 0, 0;
    while inserted < nrNodes && used < |rands|
      invariant Warmed(root, t, rands, used, inserted, maxKey)
      invariant nrNodes >= 0 ==> inserted <= nrNodes
      decreases |rands| - used
    {
      t, inserted := WarmupRound(root, t, rands, used, inserted, maxKey);
      used := used + 1;
    }
  }

  /** One round of the warmup loop: draw a key string, insert it, count a success. */
  method WarmupRound(ghost root: RbTree, t: RbTree, rands: seq<nat>, used: nat, inserted: int, maxKey: int)
    returns (t': RbTree, inserted': int)
    requires 0 < maxKey <= IntMax && used < |rands| && Warmed(root, t, rands, used, inserted, maxKey)
    ensures Warmed(root, t', rands, used + 1, inserted', maxKey)
    ensures inserted' == inserted || inserted' == inserted + 1
  {
    var key := KeyString(rands[used] % maxKey);
    var r := WarmupInsert(t, key, 0);
    t' := r.0;
    WarmupKeys.AddKey(LeafKeys(root), DrawnRanks(rands, used, maxKey), LeafKeys(t), LeafKeys(t'), Rank(key));
    inserted' := if r.1 then inserted + 1 else inserted;
  }
}
