/**
 * The small fixed-size hash table of rbt/rbt_links_bu_ext_rcu_htm.c that maps
 * node addresses to node addresses.  Sixteen buckets of at most 64 pairs each
 * are stored in one two-dimensional array: even slots hold keys, odd slots
 * the values that follow them.  A key is the address read as a signed
 * 64-bit integer; a value of 0 stands for NULL.
 */
module HashTable {
  import opened Wrappers

  const Len := 16
  const MaxBucketLen := 64
  const Slots := 2 * MaxBucketLen

  /** C's `a % 16`: the remainder truncated toward zero, so it has the sign of `a`. */
  function CRem(a: int): (r: int)
    ensures -Len < r < Len
    ensures (a - r) % Len == 0
    ensures a >= 0 ==> r >= 0
    ensures a < 0 ==> r <= 0
  {
    if a >= 0 then
      assert a - a % Len == Len * (a / Len);
      a % Len
    else
      assert a + (-a) % Len == -(Len * ((-a) / Len));
      MultipleRem(-((-a) / Len));
      -((-a) % Len)
  }

  /** A multiple of sixteen leaves no remainder. */
  lemma MultipleRem(q: int)
    ensures (Len * q) % Len == 0
  {
  }

  /** HT_GET_BUCKET: an arithmetic shift by four bits, then C's remainder. */
  function Bucket(key: int): (b: int)
    ensures -Len < b < Len
    ensures key >= 0 ==> 0 <= b
  {
    CRem(key / 16)
  }

  /** Addresses 256 bytes apart share a bucket: only bits 4 to 7 choose it. */
  lemma BucketPeriodic(key: int)
    requires key >= 0
    ensures Bucket(key + 256) == Bucket(key)
  {
    assert (key + 256) / 16 == key / 16 + 16;
  }

  /** The value stored with the earliest pair whose key is `key`. */
  function Find(pairs: seq<(int, int)>, key: int): (r: Option<int>)
    ensures r.None? <==> forall i :: 0 <= i < |pairs| ==> pairs[i].0 != key
    ensures r.Some? ==> exists i :: 0 <= i < |pairs| && pairs[i] == (key, r.value) &&
                                    forall j :: 0 <= j < i ==> pairs[j].0 != key
  {
    if |pairs| == 0 then None
    else if pairs[0].0 == key then Some(pairs[0].1)
    else
      var r := Find(pairs[1..], key);
      assert forall i :: 1 <= i < |pairs| ==> pairs[i] == pairs[1..][i - 1];
      if r.Some? then
        var i :| 0 <= i < |pairs[1..]| && pairs[1..][i] == (key, r.value) &&
                 forall j :: 0 <= j < i ==> pairs[1..][j].0 != key;
        assert pairs[i + 1] == (key, r.value);
        r
      else r
  }

  /** What a lookup returns: the value found, or NULL. */
  function Lookup(pairs: seq<(int, int)>, key: int): int
  {
    match Find(pairs, key)
    case Some(v) => v
    case None => 0
  }

  /**
   * Appending a pair never hides an earlier one: a key already present keeps
   * its first value, and a key that was absent is found with the new value.
   */
  lemma {:induction false} FindAppend(pairs: seq<(int, int)>, k: int, v: int, key: int)
    ensures Find(pairs + [(k, v)], key) ==
            if Find(pairs, key).Some? then Find(pairs, key)
            else if k == key then Some(v) else None
  {
    if |pairs| == 0 {
    } else {
      assert (pairs + [(k, v)])[1..] == pairs[1..] + [(k, v)];
      FindAppend(pairs[1..], k, v, key);
    }
  }

  class Table {
    /** bucket_next_index: the first free slot of each bucket. */
    const nextIndex: array<int>
    /** entries: keys in even slots, their values in the odd slot after. */
    const entries: array2<int>
    /** The pairs of each bucket, in insertion order. */
    ghost var buckets: seq<seq<(int, int)>>

    ghost predicate Valid()
      reads this, nextIndex, entries
    {
      nextIndex.Length == Len && entries.Length0 == Len && entries.Length1 == Slots &&
      |buckets| == Len &&
      forall b :: 0 <= b < Len ==>
        nextIndex[b] == 2 * |buckets[b]| && |buckets[b]| <= MaxBucketLen &&
        forall i :: 0 <= i < |buckets[b]| ==> buckets[b][i] == (entries[b, 2 * i], entries[b, 2 * i + 1])
    }

    /** ht_new: every count and every slot zeroed. */
    constructor ()
      ensures Valid()
      ensures forall b :: 0 <= b < Len ==> buckets[b] == []
      ensures forall b, s :: 0 <= b < Len && 0 <= s < Slots ==> entries[b, s] == 0
      ensures fresh(nextIndex) && fresh(entries)
    {
      nextIndex := new int[Len](_ => 0);
      entries := new int[Len, Slots]((_, _) => 0);
      buckets := seq(Len, _ => []);
    }

    /** ht_reset: the counts are zeroed; the stale slots stay as they were. */
    method Reset()
      requires Valid()
      modifies this, nextIndex
      ensures Valid()
      ensures forall b :: 0 <= b < Len ==> buckets[b] == []
      ensures unchanged(entries)
    {
      var b := 0;
      while b < Len
        invariant 0 <= b <= Len
        invariant forall c :: 0 <= c < b ==> nextIndex[c] == 0
      {
        nextIndex[b] := 0;
        b := b + 1;
      }
      buckets := seq(Len, _ => []);
    }

    /**
     * ht_insert: the pair goes into the next free slots of the key's bucket,
     * after any pair with the same key.  The source asserts that the bucket
     * still has room, and indexes the bucket array with the bucket number,
     * so that number must not be negative.
     */
    method Insert(key: int, value: int)
      requires Valid()
      requires 0 <= Bucket(key)
      requires |buckets[Bucket(key)]| < MaxBucketLen
      modifies this, nextIndex, entries
      ensures Valid()
      ensures buckets == old(buckets)[Bucket(key) := old(buckets)[Bucket(key)] + [(key, value)]]
    {
      var b := Bucket(key);
      var index := nextIndex[b];
      nextIndex[b] := index + 2;
      entries[b, index] := key;
      entries[b, index + 1] := value;
      buckets := buckets[b := buckets[b] + [(key, value)]];
    }

    /**
     * ht_get: the value of the earliest pair with the key in its bucket, or
     * NULL when there is none.
     */
    method Get(key: int) returns (v: int)
      requires Valid()
      requires 0 <= Bucket(key)
      ensures v == Lookup(buckets[Bucket(key)], key)
    {
      var b := Bucket(key);
      var i := 0;
      while i < nextIndex[b]
        invariant 0 <= i <= nextIndex[b] && i % 2 == 0
        invariant forall j :: 0 <= j < i / 2 ==> buckets[b][j].0 != key
      {
        if key == entries[b, i] {
          assert buckets[b][i / 2] == (key, entries[b, i + 1]);
          return entries[b, i + 1];
        }
        i := i + 2;
      }
      return 0;
    }
  }
}
