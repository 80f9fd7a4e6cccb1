/**
 * What every `*_warmup_helper` of the suite shares: keys drawn as
 * `rand() % max_key` from a given sequence of values `rand()` can return
 * (never negative, so the C remainder is Dafny's), and the progress a
 * loop of inserts makes with them.
 */
module WarmupKeys {
  /** The keys `rand() % max_key` made from the first `n` random numbers, each in `[0, max_key)`. */
  function Drawn(rands: seq<nat>, n: nat, maxKey: int): set<int>
    requires maxKey > 0 && n <= |rands|
  {
    if n == 0 then {} else Drawn(rands, n - 1, maxKey) + {rands[n - 1] % maxKey}
  }

  /** The drawn keys are exactly the remainders of the first `n` random numbers, each in `[0, max_key)`. */
  lemma {:induction false} DrawnKeys(rands: seq<nat>, n: nat, maxKey: int)
    requires maxKey > 0 && n <= |rands|
    ensures forall x :: x in Drawn(rands, n, maxKey) ==> 0 <= x < maxKey
    ensures forall x :: x in Drawn(rands, n, maxKey) <==> exists i :: 0 <= i < n && rands[i] % maxKey == x
  {
    if n > 0 {
      DrawnKeys(rands, n - 1, maxKey);
      forall x ensures x in Drawn(rands, n, maxKey) <==> exists i :: 0 <= i < n && rands[i] % maxKey == x {
        if x == rands[n - 1] % maxKey {
        } else if exists i :: 0 <= i < n && rands[i] % maxKey == x {
          var i :| 0 <= i < n && rands[i] % maxKey == x;
          assert i < n - 1;
        }
      }
    }
  }

  /** What a warmup loop keeps: the tree's keys `now` are the start keys and every key drawn, `inserted` more than at the start. */
  predicate Progress(start: set<int>, now: set<int>, rands: seq<nat>, used: nat, inserted: int, maxKey: int)
    requires maxKey > 0
  {
    used <= |rands| && 0 <= inserted && now == start + Drawn(rands, used, maxKey) && |now| == |start| + inserted
  }

  /** One round keeps `Progress`: the insert succeeds, and adds a key, iff the drawn key was absent. */
  lemma ProgressStep(start: set<int>, now: set<int>, next: set<int>, rands: seq<nat>, used: nat, inserted: int, maxKey: int, ret: bool)
    requires maxKey > 0 && Progress(start, now, rands, used, inserted, maxKey) && used < |rands|
    requires next == now + {rands[used] % maxKey} && (ret <==> rands[used] % maxKey !in now)
    ensures Progress(start, next, rands, used + 1, inserted + (if ret then 1 else 0), maxKey)
  {
    AddKey(start, Drawn(rands, used, maxKey), now, next, rands[used] % maxKey);
  }

  /** The set arithmetic of one round: a key new to the tree grows it by one, a known key not at all. */
  lemma AddKey(start: set<int>, drawn: set<int>, now: set<int>, next: set<int>, key: int)
    requires now == start + drawn && next == now + {key}
    ensures next == start + (drawn + {key})
    ensures |next| == |now| + (if key in now then 0 else 1)
  {
    if key in now {
      assert next == now;
    }
  }
}
