/**
 * The partially external binary search tree of
 * bst/bst-sequential-partially_external.c: an internal tree whose deletes
 * splice out a node with at most one child but only mark a node with two
 * children.  A marked node keeps routing searches; inserting its key again
 * unmarks it.  The set the tree represents is the keys of its unmarked nodes.
 */
module BstPartial {
  import opened Trees
  import opened SearchOrder

  /** The `void *data` of a node; 0 plays NULL. */
  type Data = int

  /** The per-node fields beside key and links. */
  datatype Mark = Mark(marked: bool, data: Data)

  type PBst = Tree<int, Mark>

  /** `bst_node_new`: unmarked, both links NULL. */
  function NewNode(key: int, data: Data): (n: PBst)
    ensures IsLeaf(n) && n.key == key && n.info == Mark(false, data)
  {
    Node(Nil, key, Mark(false, data), Nil)
  }

  /** The keys of unmarked nodes: what the tree holds. */
  function Live(t: PBst): (s: set<int>)
    ensures s <= Keys(t)
  {
    match t
    case Nil => {}
    case Node(l, k, m, r) => Live(l) + (if m.marked then {} else {k}) + Live(r)
  }

  function PathLive(path: seq<Frame<int, Mark>>): (s: set<int>)
    ensures s <= PathKeys(path)
    decreases |path|
  {
    if path == [] then {}
    else
      var last := path[|path| - 1];
      PathLive(path[..|path| - 1]) + (if last.info.marked then {} else {last.key}) + Live(last.other)
  }

  lemma {:induction false} LivePlug(path: seq<Frame<int, Mark>>, t: PBst)
    ensures Live(Plug(path, t)) == PathLive(path) + Live(t)
    decreases |path|
  {
    if path != [] {
      LivePlug(path[..|path| - 1], Attach(path[|path| - 1], t));
    }
  }

  /** Along a search route in an ordered tree, `key` is live iff it is live in the focus. */
  lemma LiveOnRoute(path: seq<Frame<int, Mark>>, t: PBst, key: int)
    requires Ordered(Plug(path, t), Internal) && Routes(path, key, Internal)
    ensures key in Live(Plug(path, t)) <==> key in Live(t)
  {
    RouteAvoids(path, t, key, Internal);
    LivePlug(path, t);
  }

  /** At the node holding `key`, the key is live iff the node is unmarked. */
  lemma LiveAtStop(t: PBst, key: int)
    requires Ordered(t, Internal) && t.Node? && t.key == key
    ensures key in Live(t) <==> !t.info.marked
  {
    assert key !in Content(t.left, Internal) && key !in Content(t.right, Internal);
  }

  /**
   * Replacing the focus of a search route for `key` by an ordered subtree
   * whose keys take the same turns: the rest of the tree is untouched.
   */
  lemma {:induction false} ReplaceOnRoute(path: seq<Frame<int, Mark>>, t: PBst, u: PBst, key: int)
    requires Ordered(Plug(path, t), Internal) && Routes(path, key, Internal)
    requires Ordered(u, Internal) && AllRoute(path, Keys(u), Internal)
    ensures Ordered(Plug(path, u), Internal)
    ensures Live(Plug(path, u)) == PathLive(path) + Live(u) && key !in PathLive(path)
    ensures Keys(Plug(path, u)) == PathKeys(path) + Keys(u) && key !in PathKeys(path)
  {
    assert Content(u, Internal) == Keys(u);
    OrderedReplace(path, t, u, Internal);
    RouteAvoids(path, t, key, Internal);
    LivePlug(path, u);
    KeysPlug(path, u);
  }

  // ---------------------------------------------------------------------
  // _traverse and lookup
  // ---------------------------------------------------------------------

  /**
   * `_traverse`: stop at the node holding `key`, else go left iff
   * `key < leaf_key`, until NULL.  `parent` is the last frame.
   */
  method Traverse(root: PBst, key: int) returns (path: seq<Frame<int, Mark>>, leaf: PBst)
    ensures (path, leaf) == IntDescend(root, key)
  {
    path := [];
    leaf := root;
    assert [] + IntDescend(leaf, key).0 == IntDescend(leaf, key).0;
    while leaf.Node?
      invariant IntDescend(root, key) == (path + IntDescend(leaf, key).0, IntDescend(leaf, key).1)
      decreases leaf
    {
      if leaf.key == key {
        break;
      }
      var d := if key < leaf.key then Left else Right;
      IntDescendStep(root, key, path, leaf);
      path := path + [FrameOf(leaf, d)];
      leaf := Child(leaf, d);
    }
    assert IntDescend(leaf, key) == ([], leaf);
    assert path + [] == path;
  }

  /** `_bst_lookup_helper`: a node holds the key and is unmarked. */
  method Lookup(root: PBst, key: int) returns (found: bool)
    requires Ordered(root, Internal)
    ensures found <==> key in Live(root)
  {
    var path, leaf := Traverse(root, key);
    found := leaf.Node? && !leaf.info.marked;
    LiveOnRoute(path, leaf, key);
    OrderedFocus(path, leaf, Internal);
    if leaf.Node? {
      LiveAtStop(leaf, key);
    }
  }

  // ---------------------------------------------------------------------
  // Insert
  // ---------------------------------------------------------------------

  /**
   * `_bst_insert_helper` on values.  A marked node holding the key is
   * unmarked and keeps its old data; otherwise a new unmarked leaf is hung
   * where the search fell off the tree.
   */
  function InsertSpec(root: PBst, key: int, value: Data): (PBst, bool)
  {
    var (path, leaf) := IntDescend(root, key);
    if leaf.Node? && leaf.info.marked then
      (Plug(path, Node(leaf.left, key, Mark(false, leaf.info.data), leaf.right)), true)
    else if leaf.Node? then (root, false)
    else (Plug(path, NewNode(key, value)), true)
  }

  /** Insert makes the key live, reports whether it was not, and keeps the order. */
  lemma InsertCorrect(root: PBst, key: int, value: Data)
    requires Ordered(root, Internal)
    ensures var (t, changed) := InsertSpec(root, key, value);
      Ordered(t, Internal) && Live(t) == Live(root) + {key} && (changed <==> key !in Live(root))
      && Keys(t) == Keys(root) + {key}
  {
    var (path, leaf) := IntDescend(root, key);
    OrderedFocus(path, leaf, Internal);
    LiveOnRoute(path, leaf, key);
    KeyOnRoute(path, leaf, key);
    if leaf.Node? {
      LiveAtStop(leaf, key);
      if leaf.info.marked {
        InsertUnmarks(path, leaf, key);
      }
    } else {
      InsertHangs(path, key, value);
    }
  }

  lemma InsertHangs(path: seq<Frame<int, Mark>>, key: int, value: Data)
    requires Ordered(Plug(path, Nil), Internal) && Routes(path, key, Internal)
    ensures Ordered(Plug(path, NewNode(key, value)), Internal)
    ensures Live(Plug(path, NewNode(key, value))) == Live(Plug(path, Nil)) + {key}
    ensures Keys(Plug(path, NewNode(key, value))) == Keys(Plug(path, Nil)) + {key}
  {
    var u := NewNode(key, value);
    assert Keys(u) == Keys(u.left) + {key} + Keys(u.right) == {key};
    assert Live(u) == Live(u.left) + {key} + Live(u.right) == {key};
    ReplaceOnRoute(path, Nil, u, key);
    ReplaceOnRoute(path, Nil, Nil, key);
  }

  lemma InsertUnmarks(path: seq<Frame<int, Mark>>, leaf: PBst, key: int)
    requires Ordered(Plug(path, leaf), Internal) && Routes(path, key, Internal)
    requires Ordered(leaf, Internal) && leaf.Node? && leaf.key == key && leaf.info.marked
    ensures var u := Node(leaf.left, key, Mark(false, leaf.info.data), leaf.right);
      Ordered(Plug(path, u), Internal) && Live(Plug(path, u)) == Live(Plug(path, leaf)) + {key}
      && Keys(Plug(path, u)) == Keys(Plug(path, leaf))
  {
    var u := Node(leaf.left, key, Mark(false, leaf.info.data), leaf.right);
    OrderedFocus(path, leaf, Internal);
    assert Keys(u) == Keys(leaf);
    assert Live(u) == Live(leaf) + {key};
    ReplaceOnRoute(path, leaf, u, key);
    ReplaceOnRoute(path, leaf, leaf, key);
  }

  method Insert(root: PBst, key: int, value: Data) returns (t: PBst, changed: bool)
    ensures (t, changed) == InsertSpec(root, key, value)
  {
    var path, leaf := Traverse(root, key);
    // Empty tree case
    if path == [] && leaf.Nil? {
      return NewNode(key, value), true;
    }
    // Key there in a marked node: just unmark it
    if leaf.Node? && leaf.info.marked {
      return Plug(path, Node(leaf.left, leaf.key, Mark(false, leaf.info.data), leaf.right)), true;
    }
    // Key already in the tree
    if leaf.Node? {
      return root, false;
    }
    var parent := path[|path| - 1];
    var d := if key < parent.key then Left else Right;
    assert d == parent.dir;
    t := Plug(path[..|path| - 1], Attach(parent, NewNode(key, value)));
    PlugSnoc(path[..|path| - 1], parent, NewNode(key, value));
    assert path[..|path| - 1] + [parent] == path;
    changed := true;
  }

  // ---------------------------------------------------------------------
  // Delete
  // ---------------------------------------------------------------------

  /**
   * `_bst_delete_helper` on values: an absent or marked key changes
   * nothing; a node missing a child is replaced by its other child; a node
   * with two children is marked.
   */
  function DeleteSpec(root: PBst, key: int): (PBst, bool)
  {
    var (path, leaf) := IntDescend(root, key);
    if leaf.Nil? || leaf.info.marked then (root, false)
    else (Plug(path, Unlinked(leaf)), true)
  }

  /** Delete makes the key not live, reports whether it was, keeps the order and never adds a key. */
  lemma DeleteCorrect(root: PBst, key: int)
    requires Ordered(root, Internal)
    ensures var (t, changed) := DeleteSpec(root, key);
      Ordered(t, Internal) && Live(t) == Live(root) - {key} && (changed <==> key in Live(root))
      && Keys(t) <= Keys(root)
  {
    var (path, leaf) := IntDescend(root, key);
    OrderedFocus(path, leaf, Internal);
    ReplaceOnRoute(path, leaf, leaf, key);
    if leaf.Node? {
      LiveAtStop(leaf, key);
      if !leaf.info.marked {
        DeleteRemoves(path, leaf, key);
      }
    }
  }

  /** The subtree that replaces the node holding an unmarked key. */
  function Unlinked(leaf: PBst): (u: PBst)
    requires leaf.Node?
    ensures Keys(u) <= Keys(leaf)
  {
    if leaf.left.Nil? then leaf.right
    else if leaf.right.Nil? then leaf.left
    else Node(leaf.left, leaf.key, Mark(true, leaf.info.data), leaf.right)
  }

  lemma DeleteRemoves(path: seq<Frame<int, Mark>>, leaf: PBst, key: int)
    requires Ordered(Plug(path, leaf), Internal) && Routes(path, key, Internal)
    requires Ordered(leaf, Internal) && leaf.Node? && leaf.key == key && !leaf.info.marked
    ensures var u := Unlinked(leaf);
      Ordered(Plug(path, u), Internal) && Live(Plug(path, u)) == Live(Plug(path, leaf)) - {key}
      && Keys(Plug(path, u)) <= Keys(Plug(path, leaf))
  {
    var u := Unlinked(leaf);
    OrderedFocus(path, leaf, Internal);
    assert key !in Content(leaf.left, Internal) && key !in Content(leaf.right, Internal);
    assert Live(u) == Live(leaf) - {key};
    assert Content(u, Internal) <= Content(leaf, Internal);
    ReplaceOnRoute(path, leaf, u, key);
    ReplaceOnRoute(path, leaf, leaf, key);
  }

  method Delete(root: PBst, key: int) returns (t: PBst, changed: bool)
    ensures (t, changed) == DeleteSpec(root, key)
  {
    var path, leaf := Traverse(root, key);
    // Key not in the tree, or already deleted
    if leaf.Nil? || leaf.info.marked {
      return root, false;
    }
    if leaf.left.Nil? {
      t := Plug(path, leaf.right);
    } else if leaf.right.Nil? {
      t := Plug(path, leaf.left);
    } else {
      // Two children: mark only
      t := Plug(path, Node(leaf.left, leaf.key, Mark(true, leaf.info.data), leaf.right));
    }
    changed := true;
  }

  // ---------------------------------------------------------------------
  // Validation
  // ---------------------------------------------------------------------

  /** The static counters `_bst_validate_rec` bumps. */
  datatype Counters = Counters(totalNodes: nat, markedNodes: nat, totalPaths: nat, violations: nat)

  /** The validator's test at each node: left child key < key < right child key. */
  predicate LocallyOrdered(t: PBst)
  {
    match t
    case Nil => true
    case Node(l, k, _, r) =>
      (l.Node? ==> l.key < k) && (r.Node? ==> k < r.key) && LocallyOrdered(l) && LocallyOrdered(r)
  }

  function MarkedCount(t: PBst): nat
  {
    match t
    case Nil => 0
    case Node(l, _, m, r) => MarkedCount(l) + (if m.marked then 1 else 0) + MarkedCount(r)
  }

  /** Nodes with at least one NULL link: the ends of the tree's paths. */
  function PathEnds(t: PBst): nat
  {
    match t
    case Nil => 0
    case Node(l, _, _, r) => (if l.Nil? || r.Nil? then 1 else 0) + PathEnds(l) + PathEnds(r)
  }

  /**
   * `_bst_validate_rec`: counts nodes and marked nodes, a path at each
   * node missing a child, and a violation when the left child's key is not
   * below the node's or the right child's key not above it.
   */
  function ValidateRec(t: PBst, c: Counters): (r: Counters)
    ensures r.totalNodes == c.totalNodes + Size(t)
    ensures r.markedNodes == c.markedNodes + MarkedCount(t)
    ensures r.totalPaths == c.totalPaths + PathEnds(t)
    ensures r.violations >= c.violations
    ensures r.violations == c.violations <==> LocallyOrdered(t)
  {
    match t
    case Nil => c
    case Node(l, k, m, r) =>
      var c1 := Counters(c.totalNodes + 1, c.markedNodes + (if m.marked then 1 else 0),
                         c.totalPaths + (if l.Nil? || r.Nil? then 1 else 0),
                         c.violations + (if l.Node? && l.key >= k then 1 else 0)
                                      + (if r.Node? && r.key <= k then 1 else 0));
      var c2 := if l.Node? then ValidateRec(l, c1) else c1;
      if r.Node? then ValidateRec(r, c2) else c2
  }

  /** `_bst_validate_helper`: fresh counters, verdict "no violation". */
  function Validate(t: PBst): (ok: bool)
    ensures ok <==> LocallyOrdered(t)
  {
    ValidateRec(t, Counters(0, 0, 0, 0)).violations == 0
  }

  /** An ordered tree passes the validator, marked nodes included. */
  lemma {:induction false} OrderedPassesValidator(t: PBst)
    requires Ordered(t, Internal)
    ensures Validate(t)
  {
    if t.Node? {
      OrderedPassesValidator(t.left);
      OrderedPassesValidator(t.right);
      if t.left.Node? {
        assert t.left.key in Content(t.left, Internal);
      }
      if t.right.Node? {
        assert t.right.key in Content(t.right, Internal);
      }
    }
  }

  /** In an ordered tree the node count is the number of distinct keys. */
  lemma {:induction false} SizeIsKeys(t: PBst)
    requires Ordered(t, Internal)
    ensures Size(t) == |Keys(t)|
  {
    if t.Node? {
      SizeIsKeys(t.left);
      SizeIsKeys(t.right);
      var left, right := Keys(t.left), Keys(t.right);
      assert Content(t.left, Internal) == left && Content(t.right, Internal) == right;
      SeparatedCard(left, t.key, right);
    }
  }

  /** Keys below, at and above a pivot are counted once each. */
  lemma SeparatedCard(below: set<int>, k: int, above: set<int>)
    requires forall x :: x in below ==> LeftOf(x, k, Internal)
    requires forall x :: x in above ==> k < x
    ensures |below + {k} + above| == |below| + 1 + |above|
  {
    assert forall x :: x in below ==> x < k;
    assert (below + {k}) !! above;
  }
}
