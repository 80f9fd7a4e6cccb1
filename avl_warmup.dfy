/**
 * `_avl_warmup_helper` of avl/avl_warmup.h: insert keys drawn as
 * `rand() % max_key` until `nr_nodes` inserts have succeeded.  The random
 * numbers are an input sequence of values `rand()` can return (never
 * negative, so the C remainder is Dafny's); the loop stops early when it
 * runs out of them.  `_avl_insert_warmup` and `_avl_insert_fixup_warmup` are the same
 * code as `_avl_insert_helper` and `_avl_insert_fixup` without statistics,
 * so the warmup calls `AvlExternal.Insert`.
 */
module AvlWarmup {
  import opened Trees
  import opened SearchOrder
  import opened AvlCore
  import AvlExternal
  import opened WarmupKeys

  /**
   * Each draw that finds its key absent adds it (a duplicate frees its node
   * pair and counts nothing); the count of successful inserts is the growth
   * of the key set, and the loop ends with `nr_nodes` of them unless the
   * random numbers run out first.
   */
  method WarmupHelper(root: AvlTree, nrNodes: int, maxKey: int, rands: seq<nat>)
    returns (t: AvlTree, inserted: int, used: nat)
    requires AvlExternal.Valid(root) && maxKey > 0
    ensures Warmed(root, t, rands, used, inserted, maxKey)
    ensures inserted >= nrNodes || used == |rands|
    ensures nrNodes >= 0 ==> inserted <= nrNodes
  {
    t, inserted, used := root, 0, 0;
    while inserted < nrNodes && used < |rands|
      invariant Warmed(root, t, rands, used, inserted, maxKey)
      invariant nrNodes >= 0 ==> inserted <= nrNodes
      decreases |rands| - used
    {
      t, inserted := WarmupRound(root, t, rands, used, inserted, maxKey);
      used := used + 1;
    }
  }

  /**
   * What the warmup has done after `used` random numbers: `t` is valid and
   * holds the keys of `root` and every key drawn, `inserted` more than `root`.
   */
  predicate Warmed(root: AvlTree, t: AvlTree, rands: seq<nat>, used: nat, inserted: int, maxKey: int)
    requires maxKey > 0
  {
    AvlExternal.Valid(t) && Progress(LeafKeys(root), LeafKeys(t), rands, used, inserted, maxKey)
  }

  /** One round of the warmup loop: draw a key, insert it, count a success. */
  method WarmupRound(ghost root: AvlTree, t: AvlTree, rands: seq<nat>, used: nat, inserted: int, maxKey: int)
    returns (t': AvlTree, inserted': int)
    requires maxKey > 0 && used < |rands| && Warmed(root, t, rands, used, inserted, maxKey)
    ensures Warmed(root, t', rands, used + 1, inserted', maxKey)
    ensures inserted' == inserted || inserted' == inserted + 1
  {
    var key := rands[used] % maxKey;
    var ret;
    t', ret := AvlExternal.Insert(t, key, 0);
    ProgressStep(LeafKeys(root), LeafKeys(t), LeafKeys(t'), rands, used, inserted, maxKey, ret);
    inserted' := if ret then inserted + 1 else inserted;
  }
}
