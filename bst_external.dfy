/**
 * The sequential external (leaf-oriented) binary search tree of
 * bst/bst-sequential-external.c.  Keys live in the leaves; an inner node
 * only routes: a search goes left iff `key <= node->key`.  Every operation
 * reports 1 (here `true`) when it changed the tree.
 */
module BstExternal {
  import opened Trees
  import opened SearchOrder

  /** The `void *data` of a node; 0 plays NULL. */
  type Data = int

  const Null: Data := 0

  type Bst = Tree<int, Data>

  /** What the tree keeps between operations: an external shape in search order. */
  predicate Valid(t: Bst)
  {
    Full(t) && Ordered(t, External)
  }

  /** `bst_node_new`: a node with both links NULL. */
  function NewNode(key: int, data: Data): (n: Bst)
    ensures IsLeaf(n) && n.key == key && n.info == data
  {
    Node(Nil, key, data, Nil)
  }

  // ---------------------------------------------------------------------
  // _traverse and lookup
  // ---------------------------------------------------------------------

  /**
   * `_traverse`: walk from the root, left iff `key <= leaf_key`, until a
   * node with no children.  `parent` and `gparent` are the last two frames
   * of the returned path.  A NULL child inside the tree would be
   * dereferenced, so the tree must have the external shape.
   */
  method Traverse(root: Bst, key: int) returns (path: seq<Frame<int, Data>>, leaf: Bst)
    requires Full(root)
    ensures (path, leaf) == ExtDescend(root, key)
  {
    path := [];
    leaf := root;
    if leaf.Nil? {
      return;
    }
    assert [] + ExtDescend(leaf, key).0 == ExtDescend(leaf, key).0;
    while !IsLeaf(leaf)
      invariant leaf.Node? && Full(leaf)
      invariant ExtDescend(root, key) == (path + ExtDescend(leaf, key).0, ExtDescend(leaf, key).1)
      decreases leaf
    {
      var d := if key <= leaf.key then Left else Right;
      ExtDescendStep(root, key, path, leaf);
      path := path + [FrameOf(leaf, d)];
      leaf := Child(leaf, d);
    }
    assert ExtDescend(leaf, key) == ([], leaf);
    assert path + [] == path;
  }

  /** `_bst_lookup_helper`: the reached leaf holds the key. */
  method Lookup(root: Bst, key: int) returns (found: bool)
    requires Full(root)
    ensures found <==> ExtDescend(root, key).1.Node? && ExtDescend(root, key).1.key == key
    ensures Valid(root) ==> (found <==> key in LeafKeys(root))
  {
    var path, leaf := Traverse(root, key);
    found := leaf.Node? && leaf.key == key;
    if Valid(root) {
      ExtDescendFinds(root, key);
    }
  }

  // ---------------------------------------------------------------------
  // Insert
  // ---------------------------------------------------------------------

  /**
   * The subtree that replaces the reached leaf: an inner node keyed with
   * the smaller key, its left leaf the smaller key and its right leaf the
   * larger one.  The old leaf node is reused with its data; the new leaf
   * carries `value` and the inner node NULL.
   */
  function Split(leaf: Bst, key: int, value: Data): (s: Bst)
    requires IsLeaf(leaf) && leaf.key != key
    ensures s.Node? && s.left.Node? && s.right.Node?
    ensures s.left.key == s.key < s.right.key
    ensures {s.left.key, s.right.key} == {key, leaf.key}
    ensures s.info == Null && leaf in {s.left, s.right}
  {
    if key <= leaf.key then Node(NewNode(key, value), key, Null, leaf)
    else Node(leaf, leaf.key, Null, NewNode(key, value))
  }

  lemma SplitValid(leaf: Bst, key: int, value: Data)
    requires IsLeaf(leaf) && leaf.key != key
    ensures Valid(Split(leaf, key, value))
    ensures LeafKeys(Split(leaf, key, value)) == {leaf.key, key}
  {
    var s := Split(leaf, key, value);
    assert LeafKeys(s) == {s.left.key, s.right.key};
    assert Content(s.left, External) == {s.left.key};
    assert Content(s.right, External) == {s.right.key};
    assert Full(s.left) && Full(s.right);
    assert Ordered(s.left, External) && Ordered(s.right, External);
  }

  /** `_bst_insert_helper` on values: whether the tree changed, and the new tree. */
  function InsertSpec(root: Bst, key: int, value: Data): (Bst, bool)
  {
    var (path, leaf) := ExtDescend(root, key);
    if leaf.Nil? then (NewNode(key, value), true)
    else if leaf.key == key || !IsLeaf(leaf) then (root, false)
    else (Plug(path, Split(leaf, key, value)), true)
  }

  /** Insert adds the key to the leaf set, reports whether it was new, and keeps the tree valid. */
  lemma InsertCorrect(root: Bst, key: int, value: Data)
    requires Valid(root)
    ensures var (t, changed) := InsertSpec(root, key, value);
      Valid(t) && LeafKeys(t) == LeafKeys(root) + {key} && (changed <==> key !in LeafKeys(root))
  {
    var (path, leaf) := ExtDescend(root, key);
    ExtDescendFinds(root, key);
    if leaf.Node? && leaf.key != key {
      var s := Split(leaf, key, value);
      SplitValid(leaf, key, value);
      OrderedFocus(path, leaf, External);
      assert AllRoute(path, Content(s, External), External);
      OrderedReplace(path, leaf, s, External);
      FullPlug(path, leaf);
      FullPlug(path, s);
      LeafKeysPlug(path, leaf);
      LeafKeysPlug(path, s);
    }
  }

  method Insert(root: Bst, key: int, value: Data) returns (t: Bst, changed: bool)
    requires Full(root)
    ensures (t, changed) == InsertSpec(root, key, value)
  {
    var path, leaf := Traverse(root, key);
    // Empty tree case
    if leaf.Nil? {
      return NewNode(key, value), true;
    }
    // Key already in the tree
    if leaf.key == key {
      return root, false;
    }
    var newInternal := Split(leaf, key, value);
    if path == [] {
      t := newInternal;
    } else {
      var parent := path[|path| - 1];
      var d := if key <= parent.key then Left else Right;
      assert d == parent.dir;
      t := Plug(path[..|path| - 1], Attach(parent, newInternal));
      PlugSnoc(path[..|path| - 1], parent, newInternal);
      assert path[..|path| - 1] + [parent] == path;
    }
    changed := true;
  }

  // ---------------------------------------------------------------------
  // Delete
  // ---------------------------------------------------------------------

  /**
   * `_bst_delete_helper` on values: the reached leaf and its parent leave,
   * and the parent's other child takes the parent's place under `gparent`
   * (or becomes the root).
   */
  function DeleteSpec(root: Bst, key: int): (Bst, bool)
  {
    var (path, leaf) := ExtDescend(root, key);
    if leaf.Nil? || leaf.key != key then (root, false)
    else if path == [] then (Nil, true)
    else (Plug(path[..|path| - 1], path[|path| - 1].other), true)
  }

  /** Delete removes the key from the leaf set, reports whether it was there, and keeps the tree valid. */
  lemma DeleteCorrect(root: Bst, key: int)
    requires Valid(root)
    ensures var (t, changed) := DeleteSpec(root, key);
      Valid(t) && LeafKeys(t) == LeafKeys(root) - {key} && (changed <==> key in LeafKeys(root))
  {
    var (path, leaf) := ExtDescend(root, key);
    ExtDescendFinds(root, key);
    if leaf.Nil? || leaf.key != key {
      assert DeleteSpec(root, key) == (root, false);
      assert LeafKeys(root) - {key} == LeafKeys(root);
    } else if path == [] {
      assert DeleteSpec(root, key) == (Nil, true);
      assert root == leaf && LeafKeys(root) == {key};
    } else {
      var init, parent := path[..|path| - 1], path[|path| - 1];
      assert DeleteSpec(root, key) == (Plug(init, parent.other), true);
      SiblingHoisted(path, leaf, key);
    }
  }

  /** A leaf with a parent leaves with it, and the sibling takes the parent's place. */
  lemma SiblingHoisted(path: seq<Frame<int, Data>>, leaf: Bst, key: int)
    requires Valid(Plug(path, leaf)) && path != [] && IsLeaf(leaf) && leaf.key == key && Routes(path, key, External)
    ensures var t := Plug(path[..|path| - 1], path[|path| - 1].other);
      Valid(t) && LeafKeys(t) == LeafKeys(Plug(path, leaf)) - {key}
  {
    var init, parent := path[..|path| - 1], path[|path| - 1];
    assert init + [parent] == path;
    PlugSnoc(init, parent, leaf);
    HoistSibling(init, parent, leaf, key);
  }

  method Delete(root: Bst, key: int) returns (t: Bst, changed: bool)
    requires Full(root)
    ensures (t, changed) == DeleteSpec(root, key)
  {
    var path, leaf := Traverse(root, key);
    // Empty tree or key not in the tree
    if leaf.Nil? || leaf.key != key {
      return root, false;
    }
    // Only one node in the tree
    if path == [] {
      return Nil, true;
    }
    var parent := path[|path| - 1];
    var sibling := if key <= parent.key then Child(Attach(parent, leaf), Right) else Child(Attach(parent, leaf), Left);
    assert sibling == parent.other;
    t := Plug(path[..|path| - 1], sibling);
    changed := true;
  }

  // ---------------------------------------------------------------------
  // Validation
  // ---------------------------------------------------------------------

  /** The static counters `_bst_validate_rec` bumps. */
  datatype Counters = Counters(totalNodes: nat, totalPaths: nat, violations: nat)

  /** The validator's own test at one node: left child key <= key < right child key. */
  predicate LocallyOrdered(t: Bst)
  {
    match t
    case Nil => true
    case Node(l, k, _, r) =>
      (l.Node? ==> l.key <= k) && (r.Node? ==> k < r.key) && LocallyOrdered(l) && LocallyOrdered(r)
  }

  function LeafCount(t: Bst): nat
  {
    match t
    case Nil => 0
    case Node(l, _, _, r) => if l.Nil? && r.Nil? then 1 else LeafCount(l) + LeafCount(r)
  }

  /**
   * `_bst_validate_rec`: counts every node, counts a node with two NULL
   * links as a path, and counts a violation when the left child's key
   * exceeds the node's or the right child's key does not.
   */
  function ValidateRec(t: Bst, c: Counters): (r: Counters)
    ensures r.totalNodes == c.totalNodes + Size(t)
    ensures r.totalPaths == c.totalPaths + LeafCount(t)
    ensures r.violations >= c.violations
    ensures r.violations == c.violations <==> LocallyOrdered(t)
  {
    match t
    case Nil => c
    case Node(l, k, _, r) =>
      var c1 := Counters(c.totalNodes + 1, c.totalPaths + (if IsLeaf(t) then 1 else 0),
                         c.violations + (if l.Node? && l.key > k then 1 else 0)
                                      + (if r.Node? && r.key <= k then 1 else 0));
      var c2 := if l.Node? then ValidateRec(l, c1) else c1;
      if r.Node? then ValidateRec(r, c2) else c2
  }

  /** `_bst_validate_helper`: fresh counters, verdict "no violation". */
  function Validate(t: Bst): (ok: bool)
    ensures ok <==> LocallyOrdered(t)
  {
    ValidateRec(t, Counters(0, 0, 0)).violations == 0
  }

  /** An inner node's key lies between two of its leaves. */
  lemma KeyBetweenLeaves(t: Bst) returns (lo: int, hi: int)
    requires Valid(t) && t.Node?
    ensures lo in LeafKeys(t) && hi in LeafKeys(t) && lo <= t.key <= hi
  {
    if IsLeaf(t) {
      lo, hi := t.key, t.key;
    } else {
      lo := FullHasLeaf(t.left);
      hi := FullHasLeaf(t.right);
      assert lo in Content(t.left, External);
      assert hi in Content(t.right, External);
    }
  }

  /** A valid tree passes the validator. */
  lemma {:induction false} ValidPassesValidator(t: Bst)
    requires Valid(t)
    ensures Validate(t)
  {
    if t.Node? {
      ValidPassesValidator(t.left);
      ValidPassesValidator(t.right);
      if t.left.Node? {
        var lo, hi := KeyBetweenLeaves(t.left);
        assert hi in Content(t.left, External);
      }
      if t.right.Node? {
        var lo, hi := KeyBetweenLeaves(t.right);
        assert lo in Content(t.right, External);
      }
    }
  }

  /** The validator counts one path per key of a valid tree. */
  lemma {:induction false} PathsAreKeys(t: Bst)
    requires Valid(t)
    ensures LeafCount(t) == |LeafKeys(t)|
  {
    if t.Node? && !IsLeaf(t) {
      PathsAreKeys(t.left);
      PathsAreKeys(t.right);
      assert LeafKeys(t.left) !! LeafKeys(t.right) by {
        forall x | x in LeafKeys(t.left)
          ensures x !in LeafKeys(t.right)
        {
          assert x in Content(t.left, External) && x <= t.key;
          assert Content(t.right, External) == LeafKeys(t.right);
        }
      }
    }
  }

  /**
   * The validator compares parents with children only: under a root `k`,
   * a left child `a` whose right leaf is `x > a` passes it whatever `x`
   * is, though the tree is a search tree only when `x <= k`; a search for
   * a larger `x` goes right at the root and never reaches that leaf.
   */
  lemma ValidatorIsLocal(a: int, k: int, x: int, y: int)
    requires a <= k < y && a < x
    ensures var t := Node(Node(NewNode(a, Null), a, Null, NewNode(x, Null)), k, Null, NewNode(y, Null));
      Validate(t) && (Ordered(t, External) <==> x <= k)
  {
    var t := Node(Node(NewNode(a, Null), a, Null, NewNode(x, Null)), k, Null, NewNode(y, Null));
    assert LeafKeys(NewNode(a, Null)) == {a} && LeafKeys(NewNode(x, Null)) == {x} && LeafKeys(NewNode(y, Null)) == {y};
    assert Content(t.left, External) == {a, x};
    assert Content(t.right, External) == {y};
    if !(x <= k) {
      assert x in Content(t.left, External);
    } else {
      assert Ordered(NewNode(a, Null), External) && Ordered(NewNode(x, Null), External) && Ordered(NewNode(y, Null), External);
      assert Ordered(t.left, External);
      assert forall z :: z in Content(t.left, External) ==> LeftOf(z, k, External);
    }
  }
}
