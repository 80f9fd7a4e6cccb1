/**
 * Search-tree ordering over integer keys, shared by all variants.
 *
 * External (leaf-oriented) trees send a key `x` left at a node keyed `k` iff
 * `x <= k`; their contents are the leaf keys, and the keys of the inner nodes
 * only route.  Internal trees stop at an equal key and keep every key of the
 * left subtree below the node's and every key of the right one above it.
 */
module SearchOrder {
  import opened Trees

  datatype Policy = External | Internal

  /** May `x` lie in the left subtree of a node keyed `k`? */
  predicate LeftOf(x: int, k: int, pol: Policy)
  {
    if pol == External then x <= k else x < k
  }

  /** The keys a tree holds as a set: its leaves, or all its nodes. */
  function Content<A>(t: Tree<int, A>, pol: Policy): set<int>
  {
    if pol == External then LeafKeys(t) else Keys(t)
  }

  /** Everything a left subtree holds is `LeftOf` the node, everything a right subtree holds is above it. */
  predicate Ordered<A>(t: Tree<int, A>, pol: Policy)
  {
    match t
    case Nil => true
    case Node(l, k, _, r) =>
      (forall x :: x in Content(l, pol) ==> LeftOf(x, k, pol))
      && (forall x :: x in Content(r, pol) ==> k < x)
      && Ordered(l, pol) && Ordered(r, pol)
  }

  /** A focus an external-tree lemma may stand on: never NULL there. */
  predicate Present<A>(t: Tree<int, A>, pol: Policy)
  {
    pol == External ==> t.Node?
  }

  /** A search for `x` takes every turn recorded in `path`. */
  predicate Routes<A>(path: seq<Frame<int, A>>, x: int, pol: Policy)
  {
    forall i :: 0 <= i < |path| ==>
      if path[i].dir == Left then LeftOf(x, path[i].key, pol) else path[i].key < x
  }

  predicate AllRoute<A>(path: seq<Frame<int, A>>, s: set<int>, pol: Policy)
  {
    forall x :: x in s ==> Routes(path, x, pol)
  }

  lemma RoutesPrefix<A>(path: seq<Frame<int, A>>, n: nat, x: int, pol: Policy)
    requires Routes(path, x, pol) && n <= |path|
    ensures Routes(path[..n], x, pol)
  {
    assert forall i :: 0 <= i < n ==> path[..n][i] == path[i];
  }

  lemma RoutesSnoc<A>(path: seq<Frame<int, A>>, f: Frame<int, A>, x: int, pol: Policy)
    requires Routes(path, x, pol)
    requires if f.dir == Left then LeftOf(x, f.key, pol) else f.key < x
    ensures Routes(path + [f], x, pol)
  {
  }

  /** What a node holds beyond its focus child: the node's key, or the other child's leaves. */
  lemma ContentAttach<A>(f: Frame<int, A>, t: Tree<int, A>, pol: Policy)
    requires Present(t, pol)
    ensures Content(t, pol) <= Content(Attach(f, t), pol)
    ensures Content(Attach(f, t), pol) == Content(t, pol) + Content(f.other, pol) + (if pol == Internal then {f.key} else {})
  {
  }

  /** The subtree at the end of a path is ordered, and all it holds takes the path's turns. */
  lemma {:induction false} OrderedFocus<A>(path: seq<Frame<int, A>>, t: Tree<int, A>, pol: Policy)
    requires Ordered(Plug(path, t), pol) && Present(t, pol)
    ensures Ordered(t, pol) && AllRoute(path, Content(t, pol), pol)
    decreases |path|
  {
    if path != [] {
      var init, last := path[..|path| - 1], path[|path| - 1];
      OrderedFocus(init, Attach(last, t), pol);
      ContentAttach(last, t, pol);
      forall x | x in Content(t, pol)
        ensures Routes(path, x, pol)
      {
        assert Routes(init, x, pol);
        assert forall i :: 0 <= i < |init| ==> path[i] == init[i];
      }
    }
  }

  /**
   * Replacing the subtree at the end of a path by an ordered subtree whose
   * contents all take the path's turns leaves the whole tree ordered.
   */
  lemma {:induction false} OrderedReplace<A>(path: seq<Frame<int, A>>, t: Tree<int, A>, u: Tree<int, A>, pol: Policy)
    requires Ordered(Plug(path, t), pol) && Present(t, pol) && Present(u, pol)
    requires Ordered(u, pol) && AllRoute(path, Content(u, pol), pol)
    ensures Ordered(Plug(path, u), pol)
    decreases |path|
  {
    if path != [] {
      var init, last := path[..|path| - 1], path[|path| - 1];
      OrderedFocus(init, Attach(last, t), pol);
      ContentAttach(last, t, pol);
      ContentAttach(last, u, pol);
      forall x | x in Content(Attach(last, u), pol)
        ensures Routes(init, x, pol)
      {
        if x in Content(u, pol) {
          RoutesPrefix(path, |init|, x, pol);
        } else {
          assert x in Content(Attach(last, t), pol);
        }
      }
      assert Ordered(Attach(last, u), pol) by {
        forall x | x in Content(u, pol)
          ensures if last.dir == Left then LeftOf(x, last.key, pol) else last.key < x
        {
          assert Routes(path, x, pol);
        }
      }
      OrderedReplace(init, Attach(last, t), Attach(last, u), pol);
    }
  }

  /**
   * In an external tree, a focus may be swapped for an ordered full subtree
   * with the same leaves: the whole tree stays full and ordered with the same
   * leaves.
   */
  lemma ExtReplaceSame<A>(path: seq<Frame<int, A>>, t: Tree<int, A>, u: Tree<int, A>)
    requires Full(Plug(path, t)) && Ordered(Plug(path, t), External) && t.Node?
    requires u.Node? && Full(u) && Ordered(u, External) && LeafKeys(u) == LeafKeys(t)
    ensures Full(Plug(path, u)) && Ordered(Plug(path, u), External)
    ensures LeafKeys(Plug(path, u)) == LeafKeys(Plug(path, t))
  {
    OrderedFocus(path, t, External);
    OrderedReplace(path, t, u, External);
    FullPlug(path, t);
    FullPlug(path, u);
    LeafKeysPlug(path, t);
    LeafKeysPlug(path, u);
  }

  /** In an internal tree, a focus may be swapped for an ordered subtree with the same keys. */
  lemma IntReplaceSame<A>(path: seq<Frame<int, A>>, t: Tree<int, A>, u: Tree<int, A>)
    requires Ordered(Plug(path, t), Internal) && Ordered(u, Internal) && Keys(u) == Keys(t)
    ensures Ordered(Plug(path, u), Internal) && Keys(Plug(path, u)) == Keys(Plug(path, t))
  {
    OrderedFocus(path, t, Internal);
    OrderedReplace(path, t, u, Internal);
    KeysPlug(path, t);
    KeysPlug(path, u);
  }

  /**
   * A key that takes a path's turns is held by none of the subtrees the path
   * left aside, and under the internal policy it is none of the path's keys.
   */
  lemma {:induction false} RouteAvoids<A>(path: seq<Frame<int, A>>, t: Tree<int, A>, x: int, pol: Policy)
    requires Ordered(Plug(path, t), pol) && Present(t, pol) && Routes(path, x, pol)
    ensures x !in PathLeafKeys(path)
    ensures pol == Internal ==> x !in PathKeys(path)
    decreases |path|
  {
    if path != [] {
      var init, last := path[..|path| - 1], path[|path| - 1];
      OrderedFocus(init, Attach(last, t), pol);
      RoutesPrefix(path, |init|, x, pol);
      RouteAvoids(init, Attach(last, t), x, pol);
      assert Routes(path, x, pol);
      assert x !in Content(last.other, pol);
    }
  }

  /** Under an ordering, membership along a search route is decided at its end. */
  lemma LeafOnRoute<A>(path: seq<Frame<int, A>>, t: Tree<int, A>, x: int)
    requires Ordered(Plug(path, t), External) && Routes(path, x, External) && t.Node?
    ensures x in LeafKeys(Plug(path, t)) <==> x in LeafKeys(t)
  {
    RouteAvoids(path, t, x, External);
    LeafKeysPlug(path, t);
  }

  lemma KeyOnRoute<A>(path: seq<Frame<int, A>>, t: Tree<int, A>, x: int)
    requires Ordered(Plug(path, t), Internal) && Routes(path, x, Internal)
    ensures x in Keys(Plug(path, t)) <==> x in Keys(t)
  {
    RouteAvoids(path, t, x, Internal);
    KeysPlug(path, t);
  }

  // ---------------------------------------------------------------------
  // Descents
  // ---------------------------------------------------------------------

  /**
   * The access path of an external tree: go left iff `x <= key` until a
   * node with no children (or an empty tree).
   */
  function ExtDescend<A>(t: Tree<int, A>, x: int): (r: (seq<Frame<int, A>>, Tree<int, A>))
    ensures Plug(r.0, r.1) == t && Routes(r.0, x, External)
    ensures t.Nil? ==> r.0 == [] && r.1.Nil?
    ensures Full(t) && t.Node? ==> IsLeaf(r.1)
    decreases t
  {
    if t.Nil? || IsLeaf(t) then ([], t)
    else
      var d := if x <= t.key then Left else Right;
      var (p, leaf) := ExtDescend(Child(t, d), x);
      PlugCons(FrameOf(t, d), p, leaf);
      ([FrameOf(t, d)] + p, leaf)
  }

  /** The access path of an internal tree: stop at the node holding `x` or at NULL. */
  function IntDescend<A>(t: Tree<int, A>, x: int): (r: (seq<Frame<int, A>>, Tree<int, A>))
    ensures Plug(r.0, r.1) == t && Routes(r.0, x, Internal)
    ensures r.1.Nil? || r.1.key == x
    decreases t
  {
    if t.Nil? || t.key == x then ([], t)
    else
      var d := if x < t.key then Left else Right;
      var (p, stop) := IntDescend(Child(t, d), x);
      PlugCons(FrameOf(t, d), p, stop);
      ([FrameOf(t, d)] + p, stop)
  }

  /** One more step of an external descent, taken from the front. */
  lemma ExtDescendStep<A>(t: Tree<int, A>, x: int, path: seq<Frame<int, A>>, cur: Tree<int, A>)
    requires cur.Node? && !IsLeaf(cur)
    requires ExtDescend(t, x) == (path + ExtDescend(cur, x).0, ExtDescend(cur, x).1)
    ensures var d := if x <= cur.key then Left else Right;
      ExtDescend(t, x) == ((path + [FrameOf(cur, d)]) + ExtDescend(Child(cur, d), x).0, ExtDescend(Child(cur, d), x).1)
  {
    var d := if x <= cur.key then Left else Right;
    assert path + ([FrameOf(cur, d)] + ExtDescend(Child(cur, d), x).0)
      == (path + [FrameOf(cur, d)]) + ExtDescend(Child(cur, d), x).0;
  }

  lemma IntDescendStep<A>(t: Tree<int, A>, x: int, path: seq<Frame<int, A>>, cur: Tree<int, A>)
    requires cur.Node? && cur.key != x
    requires IntDescend(t, x) == (path + IntDescend(cur, x).0, IntDescend(cur, x).1)
    ensures var d := if x < cur.key then Left else Right;
      IntDescend(t, x) == ((path + [FrameOf(cur, d)]) + IntDescend(Child(cur, d), x).0, IntDescend(Child(cur, d), x).1)
  {
    var d := if x < cur.key then Left else Right;
    assert path + ([FrameOf(cur, d)] + IntDescend(Child(cur, d), x).0)
      == (path + [FrameOf(cur, d)]) + IntDescend(Child(cur, d), x).0;
  }

  /** In an ordered external tree, `x` is present iff the descent ends at a leaf holding it. */
  lemma ExtDescendFinds<A>(t: Tree<int, A>, x: int)
    requires Ordered(t, External) && Full(t)
    ensures var (_, leaf) := ExtDescend(t, x);
      x in LeafKeys(t) <==> leaf.Node? && leaf.key == x
  {
    var (p, leaf) := ExtDescend(t, x);
    if leaf.Node? {
      LeafOnRoute(p, leaf, x);
    }
  }

  /** In an ordered internal tree, `x` is present iff the descent stops at a node. */
  lemma IntDescendFinds<A>(t: Tree<int, A>, x: int)
    requires Ordered(t, Internal)
    ensures x in Keys(t) <==> IntDescend(t, x).1.Node?
  {
    var (p, stop) := IntDescend(t, x);
    KeyOnRoute(p, stop, x);
  }

  // ---------------------------------------------------------------------
  // Rotations keep the order
  // ---------------------------------------------------------------------

  /**
   * A rotation keeps the order.  In an external tree the subtree that
   * changes parent must hold a leaf, which a full tree guarantees.
   */
  lemma RotateOrdered<A>(t: Tree<int, A>, d: Dir, pol: Policy)
    requires t.Node? && Child(t, Flip(d)).Node? && Ordered(t, pol)
    requires pol == External ==> Full(t) && !IsLeaf(Child(t, Flip(d)))
    ensures Ordered(Rotate(t, d), pol)
  {
    var s := Child(t, Flip(d));
    var moved := Child(s, d);
    assert Content(s.left, pol) <= Content(s, pol);
    assert Content(s.right, pol) <= Content(s, pol);
    if pol == External {
      assert Full(s) && moved.Node?;
      var w := FullHasLeaf(moved);
      assert w in Content(s, pol);
      if d == Left {
        assert t.key < w <= s.key;
      } else {
        assert s.key < w <= t.key;
      }
    }
  }

  /** Removing a leaf that hangs off `parent` and hoisting its sibling. */
  lemma {:induction false} HoistSibling<A>(init: seq<Frame<int, A>>, parent: Frame<int, A>, leaf: Tree<int, A>, key: int)
    requires Full(Plug(init, Attach(parent, leaf))) && Ordered(Plug(init, Attach(parent, leaf)), External)
    requires IsLeaf(leaf) && leaf.key == key
    requires Routes(init + [parent], key, External)
    ensures Full(Plug(init, parent.other)) && Ordered(Plug(init, parent.other), External)
    ensures LeafKeys(Plug(init, parent.other)) == LeafKeys(Plug(init, Attach(parent, leaf))) - {key}
  {
    var path := init + [parent];
    var sibling := parent.other;
    PlugSnoc(init, parent, leaf);
    FullPlug(init, Attach(parent, leaf));
    assert Full(Attach(parent, leaf));
    assert sibling.Node? && Full(sibling);
    FullPlug(init, sibling);
    OrderedFocus(init, Attach(parent, leaf), External);
    ContentAttach(parent, leaf, External);
    OrderedReplace(init, Attach(parent, leaf), sibling, External);
    RouteAvoids(path, leaf, key, External);
    assert init + [parent] == path;
    assert PathLeafKeys(path) == PathLeafKeys(init) + LeafKeys(sibling);
    LeafKeysPlug(init, Attach(parent, leaf));
    LeafKeysPlug(init, sibling);
  }

  // ---------------------------------------------------------------------
  // The in-order successor of an internal tree's node
  // ---------------------------------------------------------------------

  /** The way to the smallest node of a subtree: left links until a node without a left child. */
  function Leftmost<A>(t: Tree<int, A>): (r: (seq<Frame<int, A>>, Tree<int, A>))
    requires t.Node?
    ensures Plug(r.0, r.1) == t && r.1.Node? && r.1.left.Nil? && r.1.key in Keys(t)
    decreases t
  {
    if t.left.Nil? then ([], t)
    else
      var (q, m) := Leftmost(t.left);
      PlugCons(FrameOf(t, Left), q, m);
      ([FrameOf(t, Left)] + q, m)
  }

  /**
   * The leftmost node holds the smallest key, and splicing in its right
   * child removes exactly that key and keeps the order.
   */
  lemma {:induction false} LeftmostRemoves<A>(t: Tree<int, A>)
    requires t.Node? && Ordered(t, Internal)
    ensures var (q, m) := Leftmost(t);
      (forall x :: x in Keys(t) ==> m.key <= x)
      && Ordered(Plug(q, m.right), Internal) && Keys(Plug(q, m.right)) == Keys(t) - {m.key}
    decreases t
  {
    var (q, m) := Leftmost(t);
    assert Content(t.left, Internal) == Keys(t.left) && Content(t.right, Internal) == Keys(t.right);
    if t.left.Nil? {
      assert t.key !in Keys(t.right);
    } else {
      LeftmostRemoves(t.left);
      var (q1, m1) := Leftmost(t.left);
      assert q == [FrameOf(t, Left)] + q1 && m == m1;
      PlugCons(FrameOf(t, Left), q1, m.right);
      var rest := Plug(q1, m.right);
      assert Plug(q, m.right) == Node(rest, t.key, t.info, t.right);
      assert m.key in Keys(t.left);
      assert m.key !in Keys(t.right);
    }
  }

  lemma LeftmostStep<A>(t: Tree<int, A>, q: seq<Frame<int, A>>, cur: Tree<int, A>)
    requires t.Node? && cur.Node? && cur.left.Node?
    requires Leftmost(t) == (q + Leftmost(cur).0, Leftmost(cur).1)
    ensures Leftmost(t) == ((q + [FrameOf(cur, Left)]) + Leftmost(cur.left).0, Leftmost(cur.left).1)
  {
    assert q + ([FrameOf(cur, Left)] + Leftmost(cur.left).0) == (q + [FrameOf(cur, Left)]) + Leftmost(cur.left).0;
  }

  /** The stack `path + [f] + q` around a focus is `path` around `f` around `q`. */
  lemma SplicePlug<A>(path: seq<Frame<int, A>>, f: Frame<int, A>, q: seq<Frame<int, A>>, u: Tree<int, A>)
    ensures Plug(path + [f] + q, u) == Plug(path, Attach(f, Plug(q, u)))
  {
    PlugAppend(path + [f], q, u);
    PlugSnoc(path, f, Plug(q, u));
  }

  lemma SuccessorOrder<A>(path: seq<Frame<int, A>>, place: Tree<int, A>, key: int)
    requires Ordered(Plug(path, place), Internal) && place.Node? && place.key == key && Routes(path, key, Internal)
    requires place.right.Node?
    ensures var (q, succ) := Leftmost(place.right);
      var f := Frame(Right, succ.key, place.info, place.left);
      Ordered(Plug(path, Attach(f, Plug(q, succ.right))), Internal)
      && Keys(Plug(path, Attach(f, Plug(q, succ.right)))) == Keys(Plug(path, place)) - {key}
  {
    var (q, succ) := Leftmost(place.right);
    var f := Frame(Right, succ.key, place.info, place.left);
    var spliced := Attach(f, Plug(q, succ.right));
    OrderedFocus(path, place, Internal);
    SplicedNode(place);
    OrderedReplace(path, place, spliced, Internal);
    KeysPlug(path, place);
    KeysPlug(path, spliced);
    RouteAvoids(path, place, key, Internal);
  }

  /** The node itself after a successor splice: still ordered, its own key gone. */
  lemma SplicedNode<A>(place: Tree<int, A>)
    requires Ordered(place, Internal) && place.Node? && place.right.Node?
    ensures var (q, succ) := Leftmost(place.right);
      var spliced := Attach(Frame(Right, succ.key, place.info, place.left), Plug(q, succ.right));
      Ordered(spliced, Internal) && Keys(spliced) == Keys(place) - {place.key}
  {
    var (q, succ) := Leftmost(place.right);
    var rest := Plug(q, succ.right);
    var spliced := Attach(Frame(Right, succ.key, place.info, place.left), rest);
    assert spliced == Node(place.left, succ.key, place.info, rest);
    var left, right := Keys(place.left), Keys(place.right);
    assert Content(place.left, Internal) == left && Content(place.right, Internal) == right;
    LeftmostRemoves(place.right);
    assert Content(rest, Internal) == Keys(rest);
    assert forall x :: x in left ==> x < succ.key by {
      assert succ.key in right && place.key < succ.key;
    }
    AboveLeast(right, Keys(rest), succ.key);
    assert Ordered(spliced, Internal);
    SpliceKeys(left, right, Keys(rest), place.key, succ.key);
  }

  /** With the least key taken out, every key left is above it. */
  lemma AboveLeast(all: set<int>, rest: set<int>, least: int)
    requires forall x :: x in all ==> least <= x
    requires rest == all - {least}
    ensures forall x :: x in rest ==> least < x
  {
  }

  /** The key arithmetic of a successor splice. */
  lemma SpliceKeys(left: set<int>, right: set<int>, rest: set<int>, key: int, s: int)
    requires key !in left && key !in right && s in right && rest == right - {s}
    ensures left + {s} + rest == (left + {key} + right) - {key}
  {
  }

  /**
   * Splicing out a node with at most one child: the child (or NULL) takes
   * its place, and exactly the node's key leaves the tree.
   */
  lemma {:induction false} ChildSpliceOrder<A>(path: seq<Frame<int, A>>, place: Tree<int, A>, key: int, child: Tree<int, A>)
    requires Ordered(Plug(path, place), Internal) && place.Node? && place.key == key && Routes(path, key, Internal)
    requires (place.left.Nil? && child == place.right) || (place.right.Nil? && child == place.left)
    ensures Ordered(Plug(path, child), Internal) && Keys(Plug(path, child)) == Keys(Plug(path, place)) - {key}
  {
    OrderedFocus(path, place, Internal);
    assert Content(place.left, Internal) == Keys(place.left) && Content(place.right, Internal) == Keys(place.right);
    assert Ordered(child, Internal);
    assert AllRoute(path, Content(child, Internal), Internal) by {
      assert Content(child, Internal) <= Content(place, Internal);
    }
    OrderedReplace(path, place, child, Internal);
    ChildSpliceKeys(path, place, key, child);
  }

  lemma {:induction false} ChildSpliceKeys<A>(path: seq<Frame<int, A>>, place: Tree<int, A>, key: int, child: Tree<int, A>)
    requires Ordered(Plug(path, place), Internal) && place.Node? && place.key == key && Routes(path, key, Internal)
    requires (place.left.Nil? && child == place.right) || (place.right.Nil? && child == place.left)
    ensures Keys(Plug(path, child)) == Keys(Plug(path, place)) - {key}
  {
    OrderedFocus(path, place, Internal);
    RouteAvoids(path, place, key, Internal);
    var pk := PathKeys(path);
    KeysPlug(path, place);
    KeysPlug(path, child);
    NodeKeyFresh(place, child);
    RemoveFresh(pk, Keys(child), key);
  }

  /** The key of an ordered node with at most one child is none of that child's, and all the node holds besides. */
  lemma NodeKeyFresh<A>(place: Tree<int, A>, child: Tree<int, A>)
    requires Ordered(place, Internal) && place.Node?
    requires (place.left.Nil? && child == place.right) || (place.right.Nil? && child == place.left)
    ensures place.key !in Keys(child) && Keys(place) == Keys(child) + {place.key}
  {
    assert Content(place.left, Internal) == Keys(place.left) && Content(place.right, Internal) == Keys(place.right);
    assert Keys(place) == Keys(place.left) + {place.key} + Keys(place.right);
    if place.left.Nil? && child == place.right {
      assert Keys(place.left) == {};
      assert forall x :: x in Keys(child) ==> place.key < x;
    } else {
      assert Keys(place.right) == {};
      assert forall x :: x in Keys(child) ==> x < place.key;
    }
  }

  /** The set arithmetic of a splice: a key held nowhere else leaves, and nothing else does. */
  lemma RemoveFresh(a: set<int>, b: set<int>, key: int)
    requires key !in a && key !in b
    ensures (a + (b + {key})) - {key} == a + b
  {
  }
}
