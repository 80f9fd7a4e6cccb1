/**
 * Binary trees shared by every search-tree variant of the benchmark suite.
 *
 * A C node `{ key, ..., link[2] }` (or `left`/`right`) is a `Node` value whose
 * `info` carries what the variant adds (colour, height, mark, data pointer).
 * A NULL link is `Nil`.  Operations that walk down while pushing the nodes
 * they pass onto a `node_stack` are modelled with a path: a sequence of
 * frames, the root's first, each remembering the direction taken and the
 * subtree not taken.  `Plug(path, focus)` rebuilds the whole tree.
 */
module Trees {

  /** `link[0]` is `Left`, `link[1]` is `Right`. */
  datatype Dir = Left | Right

  function Flip(d: Dir): (e: Dir)
    ensures e != d
  {
    if d == Left then Right else Left
  }

  datatype Tree<K, A> = Nil | Node(left: Tree<K, A>, key: K, info: A, right: Tree<K, A>)

  /** `node->link[d]`. */
  function Child<K, A>(t: Tree<K, A>, d: Dir): Tree<K, A>
    requires t.Node?
  {
    if d == Left then t.left else t.right
  }

  /** The node with `link[d]` replaced. */
  function WithChild<K, A>(t: Tree<K, A>, d: Dir, c: Tree<K, A>): (r: Tree<K, A>)
    requires t.Node?
    ensures r.Node? && Child(r, d) == c && Child(r, Flip(d)) == Child(t, Flip(d))
    ensures r.key == t.key && r.info == t.info
  {
    if d == Left then Node(c, t.key, t.info, t.right) else Node(t.left, t.key, t.info, c)
  }

  /** A node with two NULL links (`IS_EXTERNAL_NODE`). */
  predicate IsLeaf<K, A>(t: Tree<K, A>)
  {
    t.Node? && t.left.Nil? && t.right.Nil?
  }

  function Keys<K(==), A>(t: Tree<K, A>): set<K>
  {
    match t
    case Nil => {}
    case Node(l, k, _, r) => Keys(l) + {k} + Keys(r)
  }

  /** The keys held by leaves: the contents of an external (leaf-oriented) tree. */
  function LeafKeys<K(==), A>(t: Tree<K, A>): (s: set<K>)
    ensures s <= Keys(t)
  {
    match t
    case Nil => {}
    case Node(l, k, _, r) => if l.Nil? && r.Nil? then {k} else LeafKeys(l) + LeafKeys(r)
  }

  /** The shape of an external tree: every node is a leaf or has two children. */
  predicate Full<K, A>(t: Tree<K, A>)
  {
    match t
    case Nil => true
    case Node(l, _, _, r) => (l.Nil? <==> r.Nil?) && Full(l) && Full(r)
  }

  /** A non-empty external tree holds some leaf key `w`. */
  lemma {:induction false} FullHasLeaf<K, A>(t: Tree<K, A>) returns (w: K)
    requires Full(t) && t.Node?
    ensures w in LeafKeys(t)
  {
    if IsLeaf(t) {
      w := t.key;
    } else {
      w := FullHasLeaf(t.left);
    }
  }

  function Size<K, A>(t: Tree<K, A>): nat
  {
    match t
    case Nil => 0
    case Node(l, _, _, r) => Size(l) + 1 + Size(r)
  }

  /** Longest root-to-NULL path, counted in nodes. */
  function Height<K, A>(t: Tree<K, A>): nat
  {
    match t
    case Nil => 0
    case Node(l, _, _, r) => 1 + (if Height(l) >= Height(r) then Height(l) else Height(r))
  }

  // ---------------------------------------------------------------------
  // Paths
  // ---------------------------------------------------------------------

  /** A node passed on the way down: the direction taken and the other subtree. */
  datatype Frame<K, A> = Frame(dir: Dir, key: K, info: A, other: Tree<K, A>)

  /** The frame for leaving node `t` towards `link[d]`. */
  function FrameOf<K, A>(t: Tree<K, A>, d: Dir): (f: Frame<K, A>)
    requires t.Node?
    ensures f.dir == d && f.key == t.key && f.info == t.info
  {
    Frame(d, t.key, t.info, Child(t, Flip(d)))
  }

  /** The frame's node with `t` hung on the side it was left by. */
  function Attach<K, A>(f: Frame<K, A>, t: Tree<K, A>): (r: Tree<K, A>)
    ensures r.Node? && r.key == f.key && r.info == f.info
    ensures Child(r, f.dir) == t && Child(r, Flip(f.dir)) == f.other
  {
    if f.dir == Left then Node(t, f.key, f.info, f.other) else Node(f.other, f.key, f.info, t)
  }

  lemma AttachFrameOf<K, A>(t: Tree<K, A>, d: Dir)
    requires t.Node?
    ensures Attach(FrameOf(t, d), Child(t, d)) == t
  {
  }

  /** The whole tree rebuilt around `focus`; `path[0]` is the root's frame. */
  function Plug<K, A>(path: seq<Frame<K, A>>, focus: Tree<K, A>): Tree<K, A>
    decreases |path|
  {
    if path == [] then focus else Plug(path[..|path| - 1], Attach(path[|path| - 1], focus))
  }

  lemma PlugOne<K, A>(f: Frame<K, A>, focus: Tree<K, A>)
    ensures Plug([f], focus) == Attach(f, focus)
  {
    assert [f][..0] == [];
  }

  lemma PlugSnoc<K, A>(path: seq<Frame<K, A>>, f: Frame<K, A>, focus: Tree<K, A>)
    ensures Plug(path + [f], focus) == Plug(path, Attach(f, focus))
  {
    assert (path + [f])[..|path|] == path;
  }

  lemma {:induction false} PlugCons<K, A>(f: Frame<K, A>, path: seq<Frame<K, A>>, focus: Tree<K, A>)
    ensures Plug([f] + path, focus) == Attach(f, Plug(path, focus))
    decreases |path|
  {
    if path != [] {
      var init := path[..|path| - 1];
      PlugCons(f, init, Attach(path[|path| - 1], focus));
      assert ([f] + path)[..|path|] == [f] + init;
    }
  }

  /** Around a focus, the root is the first frame's node. */
  lemma PlugTop<K, A>(path: seq<Frame<K, A>>, focus: Tree<K, A>)
    requires path != []
    ensures Plug(path, focus).Node? && Plug(path, focus).key == path[0].key && Plug(path, focus).info == path[0].info
  {
    assert path == [path[0]] + path[1..];
    PlugCons(path[0], path[1..], focus);
  }

  /** Plugging in two stages. */
  lemma {:induction false} PlugAppend<K, A>(p: seq<Frame<K, A>>, q: seq<Frame<K, A>>, focus: Tree<K, A>)
    ensures Plug(p + q, focus) == Plug(p, Plug(q, focus))
    decreases |q|
  {
    if q == [] {
      assert p + q == p;
    } else {
      var init := q[..|q| - 1];
      PlugAppend(p, init, Attach(q[|q| - 1], focus));
      assert (p + q)[..|p + q| - 1] == p + init;
    }
  }

  /** The keys held by the frames and the subtrees they did not take. */
  function PathKeys<K(==), A>(path: seq<Frame<K, A>>): set<K>
    decreases |path|
  {
    if path == [] then {}
    else PathKeys(path[..|path| - 1]) + {path[|path| - 1].key} + Keys(path[|path| - 1].other)
  }

  lemma {:induction false} KeysPlug<K, A>(path: seq<Frame<K, A>>, focus: Tree<K, A>)
    ensures Keys(Plug(path, focus)) == PathKeys(path) + Keys(focus)
    decreases |path|
  {
    if path != [] {
      KeysPlug(path[..|path| - 1], Attach(path[|path| - 1], focus));
    }
  }

  /** The leaves hanging off a path. */
  function PathLeafKeys<K(==), A>(path: seq<Frame<K, A>>): set<K>
    decreases |path|
  {
    if path == [] then {}
    else PathLeafKeys(path[..|path| - 1]) + LeafKeys(path[|path| - 1].other)
  }

  lemma {:induction false} LeafKeysPlug<K, A>(path: seq<Frame<K, A>>, focus: Tree<K, A>)
    requires focus.Node?
    ensures LeafKeys(Plug(path, focus)) == PathLeafKeys(path) + LeafKeys(focus)
    decreases |path|
  {
    if path != [] {
      LeafKeysPlug(path[..|path| - 1], Attach(path[|path| - 1], focus));
    }
  }

  /** Every frame's other subtree is a non-empty external tree. */
  predicate PathFull<K, A>(path: seq<Frame<K, A>>)
  {
    forall i :: 0 <= i < |path| ==> path[i].other.Node? && Full(path[i].other)
  }

  lemma {:induction false} FullPlug<K, A>(path: seq<Frame<K, A>>, focus: Tree<K, A>)
    requires focus.Node?
    ensures Full(Plug(path, focus)) <==> PathFull(path) && Full(focus)
    decreases |path|
  {
    if path != [] {
      var init := path[..|path| - 1];
      FullPlug(init, Attach(path[|path| - 1], focus));
      assert forall i :: 0 <= i < |init| ==> init[i] == path[i];
    }
  }

  lemma PathFullPrefix<K, A>(path: seq<Frame<K, A>>, n: nat)
    requires PathFull(path) && n <= |path|
    ensures PathFull(path[..n])
  {
    assert forall i :: 0 <= i < n ==> path[..n][i] == path[i];
  }

  lemma PathKeysPrefix<K, A>(path: seq<Frame<K, A>>, n: nat)
    requires n <= |path|
    ensures PathKeys(path[..n]) <= PathKeys(path)
    decreases |path| - n
  {
    if n < |path| {
      PathKeysPrefix(path[..|path| - 1], n);
      assert path[..|path| - 1][..n] == path[..n];
    } else {
      assert path[..n] == path;
    }
  }

  // ---------------------------------------------------------------------
  // Rotations
  // ---------------------------------------------------------------------

  /**
   * `rotate_single(root, dir)`: the child `save = root->link[!dir]` moves up,
   * `root->link[!dir] = save->link[dir]`, `save->link[dir] = root`.  The
   * infos ride along unchanged; a variant recolours or re-heights after.
   */
  function Rotate<K, A>(t: Tree<K, A>, d: Dir): (r: Tree<K, A>)
    requires t.Node? && Child(t, Flip(d)).Node?
    ensures r.Node? && Child(r, d).Node?
  {
    var save := Child(t, Flip(d));
    WithChild(save, d, WithChild(t, Flip(d), Child(save, d)))
  }

  lemma RotateKeys<K, A>(t: Tree<K, A>, d: Dir)
    requires t.Node? && Child(t, Flip(d)).Node?
    ensures Keys(Rotate(t, d)) == Keys(t)
  {
  }

  /** Rotating an internal node over an internal child keeps the leaves and the shape. */
  lemma RotateLeaves<K, A>(t: Tree<K, A>, d: Dir)
    requires t.Node? && Child(t, Flip(d)).Node? && Full(t) && !IsLeaf(Child(t, Flip(d)))
    ensures LeafKeys(Rotate(t, d)) == LeafKeys(t)
    ensures Full(Rotate(t, d))
  {
  }

  /** Rotating back undoes a rotation. */
  lemma RotateBack<K, A>(t: Tree<K, A>, d: Dir)
    requires t.Node? && Child(t, Flip(d)).Node?
    ensures Rotate(Rotate(t, d), Flip(d)) == t
  {
  }
}
