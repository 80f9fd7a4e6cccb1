/**
 * What the two bottom-up internal red-black trees of rbt/ share: the
 * invariant their operations keep, and the delete fix-up's invariant in
 * an internal tree with the steps that carry it (the key set and the
 * search order on top of the red-black facts of `RbBottomUp`).
 */
module RbInternal {
  import opened Trees
  import opened SearchOrder
  import opened RbCore
  import opened RbBottomUp

  /** What every operation keeps: an internal search tree, the red-black rules, a black root. */
  predicate Valid(t: RbTree)
  {
    Ordered(t, Internal) && RbOk(t) && !IsRed(t)
  }

  /** The delete fix-up's invariant: the shortage, the order, the keys and the black root. */
  predicate Repair(path: Path, x: RbTree, keys: set<int>)
  {
    Short(path, x) && Ordered(Plug(path, x), Internal) && Keys(Plug(path, x)) == keys
    && (path != [] ==> path[0].info.color == Black)
  }

  /** A red `x` painted black ends the repair with a valid tree. */
  lemma RepairRed(path: Path, x: RbTree, keys: set<int>)
    requires Repair(path, x, keys) && IsRed(x)
    ensures Valid(Plug(path, Paint(x, Black))) && Keys(Plug(path, Paint(x, Black))) == keys
  {
    ShortRed(path, x);
    RecolourIn(path, x, Paint(x, Black));
    if path != [] {
      PlugTop(path, Paint(x, Black));
    }
  }

  /** A black `x` at the root ends the repair: the tree is one black node shorter. */
  lemma RepairRoot(x: RbTree, keys: set<int>)
    requires Repair([], x, keys) && !IsRed(x)
    ensures Valid(x) && Keys(x) == keys
  {
    ShortAtRoot(x);
  }

  /** A valid tree is a repair already finished at the root. */
  lemma RepairDone(x: RbTree, keys: set<int>)
    requires Valid(x) && Keys(x) == keys
    ensures Repair([], x, keys)
  {
  }

  /** Case 1 keeps the invariant and leaves a red parent over a black sibling, on the same side. */
  lemma RepairLift(path: Path, x: RbTree, keys: set<int>)
    requires Repair(path, x, keys) && path != [] && IsRed(path[|path| - 1].other)
    ensures var q := LiftSibling(path); var f := q[|q| - 1];
      Repair(q, x, keys) && |q| == |path| + 1 && f.dir == path[|path| - 1].dir
      && f.info.color == Red && f.other.Node? && !IsRed(f.other)
  {
    LiftSiblingStep(path, x);
    LiftSiblingOrder(path, x, Internal);
  }

  /** Case 2 moves the invariant one frame up. */
  lemma RepairPush(path: Path, x: RbTree, keys: set<int>)
    requires Repair(path, x, keys) && path != [] && !IsRed(x)
    requires var s := path[|path| - 1].other; s.Node? && !IsRed(s) && !IsRed(s.left) && !IsRed(s.right)
    ensures var n := |path|; Repair(path[..n - 1], PushUp(path[n - 1], x), keys)
  {
    var n := |path|;
    PushUpStep(path, x);
    Recoloured(Plug(path[..n - 1], PushUp(path[n - 1], x)), Plug(path, x));
  }

  /** Case 3, after case 4 when the far child is black, ends the repair with a valid tree. */
  lemma RepairFar(path: Path, x: RbTree, keys: set<int>)
    requires Repair(path, x, keys) && path != [] && !IsRed(x)
    requires var p := path[|path| - 1]; var s := p.other;
      s.Node? && !IsRed(s) && (IsRed(s.left) || IsRed(s.right))
    ensures var p := path[|path| - 1]; var s := p.other;
      var q := if IsRed(Child(s, Flip(p.dir))) then path else TurnNear(path); var n := |q|;
      q[n - 1].other.Node? && Child(q[n - 1].other, Flip(q[n - 1].dir)).Node?
      && Valid(Plug(q[..n - 1], TurnFar(q[n - 1], x))) && Keys(Plug(q[..n - 1], TurnFar(q[n - 1], x))) == keys
  {
    var p := path[|path| - 1];
    var s := p.other;
    var q := path;
    if !IsRed(Child(s, Flip(p.dir))) {
      TurnNearStep(path, x);
      TurnNearOrder(path, x, Internal);
      q := TurnNear(path);
    }
    var n := |q|;
    TurnFarStep(q, x);
    TurnFarOrder(q, x, Internal);
    if n > 1 {
      PlugTop(q[..n - 1], TurnFar(q[n - 1], x));
    }
  }
}
