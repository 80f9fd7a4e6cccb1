/**
 * The AVL validator of avl/avl_validate.h, run over the external AVL trees.
 *
 * It walks the whole tree with a key range per subtree (left subtree up to
 * the node's key, right subtree from the key plus one), counts a BST
 * violation for every key outside its range, recomputes real heights and
 * counts an AVL violation wherever two sibling heights differ by more than
 * one.  The C code codes "no bound" as -1; `ValidateRecAsWritten` keeps that
 * coding, `ValidateRec` uses `Option` bounds.
 */
module AvlValidate {
  import opened Wrappers
  import opened Trees
  import opened SearchOrder
  import opened AvlCore

  /** The validator's global counters. */
  datatype Tally = Tally(totalNodes: nat, totalPaths: nat, avlViolations: nat, bstViolations: nat)

  /** Nodes with at least one NULL link: the validator's "paths". */
  function OpenCount(t: AvlTree): nat
  {
    match t
    case Nil => 0
    case Node(l, _, _, r) => (if l.Nil? || r.Nil? then 1 else 0) + OpenCount(l) + OpenCount(r)
  }

  /** Sibling subtrees differ in real height by at most one, everywhere. */
  predicate HeightBalanced(t: AvlTree)
  {
    match t
    case Nil => true
    case Node(l, _, _, r) => -1 <= Height(l) - Height(r) <= 1 && HeightBalanced(l) && HeightBalanced(r)
  }

  /** Every key of a left subtree is at most the node's, every key of a right subtree above it. */
  predicate KeysOrdered(t: AvlTree)
  {
    match t
    case Nil => true
    case Node(l, k, _, r) =>
      (forall x :: x in Keys(l) ==> x <= k) && (forall x :: x in Keys(r) ==> k < x)
      && KeysOrdered(l) && KeysOrdered(r)
  }

  predicate Within(x: int, lo: Option<int>, hi: Option<int>)
  {
    (lo.Some? ==> lo.value <= x) && (hi.Some? ==> x <= hi.value)
  }

  /**
   * `_avl_validate_rec` with bounds that are absent or present: returns the
   * real height (-1 for NULL) and the counters after the subtree.
   */
  function ValidateRec(t: AvlTree, lo: Option<int>, hi: Option<int>, c: Tally): (r: (int, Tally))
    ensures r.0 == Height(t) - 1
    ensures r.1.totalNodes == c.totalNodes + Size(t)
    ensures r.1.totalPaths == c.totalPaths + OpenCount(t)
    ensures r.1.avlViolations >= c.avlViolations
    ensures r.1.avlViolations == c.avlViolations <==> HeightBalanced(t)
    ensures r.1.bstViolations >= c.bstViolations
  {
    match t
    case Nil => (-1, c)
    case Node(l, k, _, rt) =>
      var left := if l.Node? then ValidateRec(l, lo, Some(k), Enter(t, lo, hi, c)) else (-1, Enter(t, lo, hi, c));
      var right := if rt.Node? then ValidateRec(rt, Some(k + 1), hi, left.1) else (-1, left.1);
      (Max(left.0, right.0) + 1, Leave(left.0, right.0, right.1))
  }

  /** The counters as a node is entered: one more node, perhaps one more path, a BST violation per broken bound. */
  function Enter(t: AvlTree, lo: Option<int>, hi: Option<int>, c: Tally): (r: Tally)
    requires t.Node?
    ensures r.totalNodes == c.totalNodes + 1 && r.avlViolations == c.avlViolations
    ensures r.totalPaths == c.totalPaths + (if t.left.Nil? || t.right.Nil? then 1 else 0)
    ensures r.bstViolations >= c.bstViolations && (r.bstViolations == c.bstViolations <==> Within(t.key, lo, hi))
  {
    Tally(c.totalNodes + 1, c.totalPaths + (if t.left.Nil? || t.right.Nil? then 1 else 0), c.avlViolations,
          c.bstViolations + (if lo.Some? && t.key < lo.value then 1 else 0)
                          + (if hi.Some? && t.key > hi.value then 1 else 0))
  }

  /** The counters as a node is left: an AVL violation when the child heights differ by more than one. */
  function Leave(lh: int, rh: int, c: Tally): (r: Tally)
    ensures r.totalNodes == c.totalNodes && r.totalPaths == c.totalPaths && r.bstViolations == c.bstViolations
    ensures r.avlViolations >= c.avlViolations && (r.avlViolations == c.avlViolations <==> -1 <= lh - rh <= 1)
  {
    Tally(c.totalNodes, c.totalPaths, c.avlViolations + (if lh - rh > 1 || rh - lh > 1 then 1 else 0), c.bstViolations)
  }

  /** A subtree the validator finds no BST violation in: ordered keys, all within the bounds. */
  predicate InRange(t: AvlTree, lo: Option<int>, hi: Option<int>)
  {
    KeysOrdered(t) && forall x :: x in Keys(t) ==> Within(x, lo, hi)
  }

  /** No BST violation is counted in a subtree iff its keys are ordered and all within the bounds. */
  lemma {:induction false} ValidateRanges(t: AvlTree, lo: Option<int>, hi: Option<int>, c: Tally)
    ensures ValidateRec(t, lo, hi, c).1.bstViolations == c.bstViolations <==> InRange(t, lo, hi)
  {
    match t
    case Nil =>
    case Node(l, k, _, rt) =>
      var c1 := Enter(t, lo, hi, c);
      var c2 := if l.Node? then ValidateRec(l, lo, Some(k), c1).1 else c1;
      var c3 := if rt.Node? then ValidateRec(rt, Some(k + 1), hi, c2).1 else c2;
      assert ValidateRec(t, lo, hi, c).1.bstViolations == c3.bstViolations;
      ValidateRanges(l, lo, Some(k), c1);
      ValidateRanges(rt, Some(k + 1), hi, c2);
      RangesSplit(t, lo, hi);
  }

  /** A subtree within bounds splits into its root within them and its children within the root's. */
  lemma RangesSplit(t: AvlTree, lo: Option<int>, hi: Option<int>)
    requires t.Node?
    ensures InRange(t, lo, hi) <==>
      Within(t.key, lo, hi) && InRange(t.left, lo, Some(t.key)) && InRange(t.right, Some(t.key + 1), hi)
  {
    var l, k, rt := t.left, t.key, t.right;
    if Within(k, lo, hi) && InRange(l, lo, Some(k)) && InRange(rt, Some(k + 1), hi) {
      assert KeysOrdered(t) by {
        forall x | x in Keys(l)
          ensures x <= k
        {
          assert Within(x, lo, Some(k));
        }
        forall x | x in Keys(rt)
          ensures k < x
        {
          assert Within(x, Some(k + 1), hi);
        }
      }
      forall x | x in Keys(t)
        ensures Within(x, lo, hi)
      {
        if x in Keys(l) {
          assert Within(x, lo, Some(k));
        } else if x in Keys(rt) {
          assert Within(x, Some(k + 1), hi);
        }
      }
    }
    if InRange(t, lo, hi) {
      assert k in Keys(t);
      forall x | x in Keys(l)
        ensures Within(x, lo, Some(k))
      {
        assert x in Keys(t);
      }
      forall x | x in Keys(rt)
        ensures Within(x, Some(k + 1), hi)
      {
        assert x in Keys(t);
      }
    }
  }

  /** `_avl_validate_helper`: fresh counters, no bounds, verdict "no violation of either kind". */
  function Validate(t: AvlTree): (ok: bool)
    ensures ok <==> KeysOrdered(t) && HeightBalanced(t)
  {
    ValidateRanges(t, None, None, Tally(0, 0, 0, 0));
    var (_, c) := ValidateRec(t, None, None, Tally(0, 0, 0, 0));
    c.avlViolations == 0 && c.bstViolations == 0
  }

  // ---------------------------------------------------------------------
  // The -1 coding of the C code
  // ---------------------------------------------------------------------

  /** `_avl_validate_rec` as written: a bound of -1 is no bound. */
  function ValidateRecAsWritten(t: AvlTree, lo: int, hi: int, c: Tally): (r: (int, Tally))
    ensures r.0 == Height(t) - 1
    ensures r.1.totalNodes == c.totalNodes + Size(t)
  {
    match t
    case Nil => (-1, c)
    case Node(l, k, _, rt) =>
      var left := if l.Node? then ValidateRecAsWritten(l, lo, k, EnterAsWritten(t, lo, hi, c))
                  else (-1, EnterAsWritten(t, lo, hi, c));
      var right := if rt.Node? then ValidateRecAsWritten(rt, k + 1, hi, left.1) else (-1, left.1);
      (Max(left.0, right.0) + 1, Leave(left.0, right.0, right.1))
  }

  function EnterAsWritten(t: AvlTree, lo: int, hi: int, c: Tally): (r: Tally)
    requires t.Node?
    ensures r.bstViolations >= c.bstViolations
    ensures lo != -1 && hi != -1 ==> (r.bstViolations == c.bstViolations <==> lo <= t.key <= hi)
  {
    Tally(c.totalNodes + 1, c.totalPaths + (if t.left.Nil? || t.right.Nil? then 1 else 0), c.avlViolations,
          c.bstViolations + (if lo != -1 && t.key < lo then 1 else 0)
                          + (if hi != -1 && t.key > hi then 1 else 0))
  }

  function ValidateAsWritten(t: AvlTree): bool
  {
    var (_, c) := ValidateRecAsWritten(t, -1, -1, Tally(0, 0, 0, 0));
    c.avlViolations == 0 && c.bstViolations == 0
  }

  /** No key is -1, nor -2 (whose successor is -1). */
  predicate NoSentinelKeys(t: AvlTree)
  {
    match t
    case Nil => true
    case Node(l, k, _, r) => k != -1 && k != -2 && NoSentinelKeys(l) && NoSentinelKeys(r)
  }

  /** A bound in the C coding. */
  function Code(b: Option<int>): int
  {
    if b.None? then -1 else b.value
  }

  /**
   * The two validators agree as long as no key is -1 or -2 (a key of -2
   * makes the right subtree's lower bound -1) and no given bound is -1.
   */
  lemma {:induction false} AsWrittenAgrees(t: AvlTree, lo: Option<int>, hi: Option<int>, c: Tally)
    requires lo != Some(-1) && hi != Some(-1)
    requires NoSentinelKeys(t)
    ensures ValidateRecAsWritten(t, Code(lo), Code(hi), c) == ValidateRec(t, lo, hi, c)
  {
    match t
    case Nil =>
    case Node(l, k, _, rt) =>
      var c1 := Enter(t, lo, hi, c);
      assert EnterAsWritten(t, Code(lo), Code(hi), c) == c1;
      assert Code(Some(k)) == k && Code(Some(k + 1)) == k + 1;
      var left := if l.Node? then ValidateRec(l, lo, Some(k), c1) else (-1, c1);
      if l.Node? {
        AsWrittenAgrees(l, lo, Some(k), c1);
      }
      assert left == if l.Node? then ValidateRecAsWritten(l, Code(lo), k, c1) else (-1, c1);
      if rt.Node? {
        AsWrittenAgrees(rt, Some(k + 1), hi, left.1);
      }
      assert (if rt.Node? then ValidateRec(rt, Some(k + 1), hi, left.1) else (-1, left.1))
        == (if rt.Node? then ValidateRecAsWritten(rt, k + 1, Code(hi), left.1) else (-1, left.1));
  }

  /**
   * With a node keyed -1 the left subtree is checked against the bound -1,
   * which the C code reads as "no bound": a leaf 7 left of it passes.
   */
  lemma SentinelKeyEscapes()
    ensures var t := Node(NewNode(7, 0), -1, AvlInfo(1, 0), NewNode(0, 0));
      ValidateAsWritten(t) && !Validate(t) && !Ordered(t, External) && AvlOk(t) && Full(t)
  {
    var t := Node(NewNode(7, 0), -1, AvlInfo(1, 0), NewNode(0, 0));
    assert 7 in Keys(t.left) && 7 in Content(t.left, External);
  }

  // ---------------------------------------------------------------------
  // What the validator accepts
  // ---------------------------------------------------------------------

  /** Stored heights that are right make the real heights balanced. */
  lemma {:induction false} AvlIsHeightBalanced(t: AvlTree)
    requires AvlOk(t)
    ensures HeightBalanced(t)
  {
    if t.Node? {
      StoredIsHeight(t.left);
      StoredIsHeight(t.right);
      AvlIsHeightBalanced(t.left);
      AvlIsHeightBalanced(t.right);
    }
  }

  /** An inner node's key lies between two of its leaves. */
  lemma KeyBetweenLeaves(t: AvlTree) returns (lo: int, hi: int)
    requires Full(t) && Ordered(t, External) && t.Node?
    ensures lo in LeafKeys(t) && hi in LeafKeys(t) && lo <= t.key <= hi
  {
    if IsLeaf(t) {
      lo, hi := t.key, t.key;
    } else {
      lo := FullHasLeaf(t.left);
      hi := FullHasLeaf(t.right);
      assert lo in Content(t.left, External);
      assert hi in Content(t.right, External);
    }
  }

  /** Every key of a full, leaf-ordered tree lies between two of its leaves. */
  lemma {:induction false} KeysBracketed(t: AvlTree, x: int) returns (lo: int, hi: int)
    requires Full(t) && Ordered(t, External) && x in Keys(t)
    ensures lo in LeafKeys(t) && hi in LeafKeys(t) && lo <= x <= hi
  {
    var l, k, r := t.left, t.key, t.right;
    if x == k {
      lo, hi := KeyBetweenLeaves(t);
    } else if x in Keys(l) {
      lo, hi := KeysBracketed(l, x);
      assert lo in Content(l, External) && hi in Content(l, External);
    } else {
      lo, hi := KeysBracketed(r, x);
      assert lo in Content(r, External) && hi in Content(r, External);
    }
  }

  /** On a full tree the validator's all-keys ranges and the leaf order are the same thing. */
  lemma {:induction false} RangesAreLeafOrder(t: AvlTree)
    requires Full(t)
    ensures KeysOrdered(t) <==> Ordered(t, External)
  {
    if t.Node? {
      var l, k, r := t.left, t.key, t.right;
      RangesAreLeafOrder(l);
      RangesAreLeafOrder(r);
      if Ordered(t, External) {
        forall x | x in Keys(l)
          ensures x <= k
        {
          var lo, hi := KeysBracketed(l, x);
          assert hi in Content(l, External);
        }
        forall x | x in Keys(r)
          ensures k < x
        {
          var lo, hi := KeysBracketed(r, x);
          assert lo in Content(r, External);
        }
      }
      if KeysOrdered(t) {
        assert Content(l, External) <= Keys(l) && Content(r, External) <= Keys(r);
      }
    }
  }

  /** Every external AVL tree the operations keep passes the validator. */
  lemma ValidPasses(t: AvlTree)
    requires Full(t) && Ordered(t, External) && AvlOk(t)
    ensures Validate(t)
  {
    RangesAreLeafOrder(t);
    AvlIsHeightBalanced(t);
  }
}
