/**
 * The C strings of rbt/rbt_links_bu_ext_iterative_string.c and the one
 * comparison made on them, `strncmp(a, b, MAX_STR_LEN)` with
 * `MAX_STR_LEN == 256`.
 *
 * A string is the sequence of its bytes before the terminating NUL; the
 * model reads a NUL at and past its end, as C reads the terminator.
 * `strncmp` compares unsigned bytes until the first difference, a common
 * NUL, or 256 bytes; only the sign of its result is used, so `Strncmp`
 * returns -1, 0 or 1.
 *
 * `Rank` reads the first 256 bytes (up to the NUL) as a base-256 number;
 * `strncmp` compares two strings exactly as their ranks compare
 * (`StrncmpRank`), so a tree may hold a key string as its rank.
 */
module CStrings {
  /** An unsigned byte. */
  type Byte = b: int | 0 <= b < 256

  /** The bytes of a C string before its NUL. */
  type CStr = seq<Byte>

  const MaxStrLen: nat := 256

  /** The byte a C loop reads at the front: the first one, or the NUL of an empty string. */
  function Head(s: CStr): Byte
  {
    if s == [] then 0 else s[0]
  }

  /** The string after its first byte (the empty string stays empty). */
  function Tail(s: CStr): (r: CStr)
    ensures |r| == if s == [] then 0 else |s| - 1
  {
    if s == [] then [] else s[1..]
  }

  /** `strncmp(a, b, n)`: the sign of the first byte difference within `n` bytes; 0 at a common NUL. */
  function Cmp(a: CStr, b: CStr, n: nat): (c: int)
    ensures -1 <= c <= 1
    ensures c == 0 ==> Head(a) == Head(b) || n == 0
  {
    if n == 0 then 0
    else if Head(a) != Head(b) then (if Head(a) < Head(b) then -1 else 1)
    else if Head(a) == 0 then 0
    else Cmp(Tail(a), Tail(b), n - 1)
  }

  /** `strncmp(a, b, MAX_STR_LEN)`. */
  function Strncmp(a: CStr, b: CStr): int
  {
    Cmp(a, b, MaxStrLen)
  }

  function Pow256(n: nat): (p: nat)
    ensures p >= 1
  {
    if n == 0 then 1 else 256 * Pow256(n - 1)
  }

  /** The first `n` bytes of `s`, up to its NUL and padded with NULs, as an `n`-digit base-256 number. */
  function RankN(s: CStr, n: nat): (r: nat)
    ensures r < Pow256(n)
  {
    if n == 0 then 0
    else if Head(s) == 0 then 0
    else
      var rest := RankN(Tail(s), n - 1);
      DigitBound(Head(s), rest, Pow256(n - 1));
      Head(s) * Pow256(n - 1) + rest
  }

  /** The rank a key string is held by: its first 256 bytes as a number. */
  function Rank(s: CStr): nat
  {
    RankN(s, MaxStrLen)
  }

  /** A leading digit and a smaller remainder stay below the next power. */
  lemma DigitBound(d: int, rest: int, p: int)
    requires 0 <= d < 256 && 0 <= rest < p
    ensures d * p + rest < 256 * p
  {
    assert d * p <= 255 * p;
  }

  /** A lower leading digit gives a lower number, whatever the remainders below the power. */
  lemma DigitOrder(c: int, d: int, r: int, s: int, p: int)
    requires 0 <= c < d && 0 <= r < p && 0 <= s
    ensures c * p + r < d * p + s
  {
    assert (c + 1) * p <= d * p;
  }

  /** The rank of a string whose first byte is not NUL, taken apart. */
  lemma RankSplit(s: CStr, n: nat)
    requires n > 0 && Head(s) != 0
    ensures RankN(s, n) == Head(s) * Pow256(n - 1) + RankN(Tail(s), n - 1)
  {
  }

  /** `strncmp` over `n` bytes orders two strings as their `n`-byte ranks. */
  lemma {:induction false} CmpRank(a: CStr, b: CStr, n: nat)
    ensures Cmp(a, b, n) < 0 <==> RankN(a, n) < RankN(b, n)
    ensures Cmp(a, b, n) == 0 <==> RankN(a, n) == RankN(b, n)
  {
    if n > 0 {
      var p := Pow256(n - 1);
      var ha, hb := Head(a), Head(b);
      var ra, rb := RankN(Tail(a), n - 1), RankN(Tail(b), n - 1);
      if ha != hb {
        var lo, hi, rlo, rhi := ha, hb, ra, rb;
        if hb < ha {
          lo, hi, rlo, rhi := hb, ha, rb, ra;
        }
        RankSplit(if ha < hb then b else a, n);
        if lo != 0 {
          RankSplit(if ha < hb then a else b, n);
          DigitOrder(lo, hi, rlo, rhi, p);
        } else {
          DigitOrder(0, hi, 0, rhi, p);
        }
      } else if ha != 0 {
        RankSplit(a, n);
        RankSplit(b, n);
        CmpRank(Tail(a), Tail(b), n - 1);
      }
    }
  }

  /** `strncmp(a, b, MAX_STR_LEN)` is negative, zero or positive as `Rank(a)` is below, equal to or above `Rank(b)`. */
  lemma StrncmpRank(a: CStr, b: CStr)
    ensures Strncmp(a, b) < 0 <==> Rank(a) < Rank(b)
    ensures Strncmp(a, b) == 0 <==> Rank(a) == Rank(b)
    ensures Strncmp(a, b) > 0 <==> Rank(a) > Rank(b)
  {
    CmpRank(a, b, MaxStrLen);
  }

  // ---------------------------------------------------------------------
  // The warmup's keys
  // ---------------------------------------------------------------------

  function Pow10(n: nat): (p: nat)
    ensures p >= 1
  {
    if n == 0 then 1 else 10 * Pow10(n - 1)
  }

  /** The `n` decimal digits of `x` in ASCII, zero-padded on the left, most significant first. */
  function Digits(x: nat, n: nat): (s: CStr)
    requires x < Pow10(n)
    ensures |s| == n && forall i :: 0 <= i < n ==> '0' as int <= s[i] <= '9' as int
  {
    if n == 0 then []
    else
      var p := Pow10(n - 1);
      LeadingDigit(x, p);
      [('0' as int + x / p) as Byte] + Digits(x % p, n - 1)
  }

  /** `x` below ten times `p` has a leading digit below ten. */
  lemma LeadingDigit(x: nat, p: nat)
    requires p >= 1 && x < 10 * p
    ensures 0 <= x / p < 10 && x == (x / p) * p + x % p && 0 <= x % p < p
  {
  }

  /** `sprintf(key, "%030d", int_key)` for a key below 10^30. */
  function WarmupKey(x: nat): (s: CStr)
    requires x < Pow10(30)
    ensures |s| == 30
  {
    Digits(x, 30)
  }

  /** The first digit and the rest of a zero-padded decimal. */
  lemma DigitsSplit(x: nat, n: nat) returns (d: nat, r: nat)
    requires n > 0 && x < Pow10(n)
    ensures d < 10 && r < Pow10(n - 1) && x == d * Pow10(n - 1) + r
    ensures Head(Digits(x, n)) == '0' as int + d && Tail(Digits(x, n)) == Digits(r, n - 1)
  {
    var p := Pow10(n - 1);
    LeadingDigit(x, p);
    d, r := x / p, x % p;
  }

  /**
   * One step of comparing two zero-padded decimals: the leading digits
   * decide unless they agree, and then the remainders do.
   */
  lemma DigitsStep(x: nat, y: nat, n: nat) returns (rx: nat, ry: nat)
    requires n > 0 && x < Pow10(n) && y < Pow10(n)
    ensures rx < Pow10(n - 1) && ry < Pow10(n - 1)
    ensures Tail(Digits(x, n)) == Digits(rx, n - 1) && Tail(Digits(y, n)) == Digits(ry, n - 1)
    ensures Head(Digits(x, n)) != 0
    ensures Head(Digits(x, n)) < Head(Digits(y, n)) ==> x < y
    ensures Head(Digits(y, n)) < Head(Digits(x, n)) ==> y < x
    ensures Head(Digits(x, n)) == Head(Digits(y, n)) ==> (x < y <==> rx < ry) && (x == y <==> rx == ry)
  {
    var dx, dy;
    dx, rx := DigitsSplit(x, n);
    dy, ry := DigitsSplit(y, n);
    PlaceOrder(dx, rx, dy, ry, Pow10(n - 1));
  }

  /** Equally long zero-padded decimals compare under `strncmp` as their numbers do. */
  lemma {:induction false} DigitsOrder(x: nat, y: nat, n: nat, m: nat)
    requires x < Pow10(n) && y < Pow10(n) && n <= m
    ensures Cmp(Digits(x, n), Digits(y, n), m) < 0 <==> x < y
    ensures Cmp(Digits(x, n), Digits(y, n), m) == 0 <==> x == y
    decreases n
  {
    if n > 0 {
      var rx, ry := DigitsStep(x, y, n);
      if Head(Digits(x, n)) == Head(Digits(y, n)) {
        DigitsOrder(rx, ry, n - 1, m - 1);
      }
    }
  }

  /** Two numbers written as a leading digit over place value `p` and a remainder compare digit first. */
  lemma PlaceOrder(c: nat, r: nat, d: nat, s: nat, p: nat)
    requires r < p && s < p
    ensures c * p + r < d * p + s <==> c < d || (c == d && r < s)
    ensures c * p + r == d * p + s <==> c == d && r == s
  {
    if c < d {
      DigitOrder(c, d, r, s, p);
    } else if d < c {
      DigitOrder(d, c, s, r, p);
    }
  }

  /**
   * The warmup's keys are 30-digit zero-padded decimals, so `strncmp`
   * orders them as their numbers, and so do their ranks.
   */
  lemma WarmupKeyOrder(x: nat, y: nat)
    requires x < Pow10(30) && y < Pow10(30)
    ensures Strncmp(WarmupKey(x), WarmupKey(y)) < 0 <==> x < y
    ensures Strncmp(WarmupKey(x), WarmupKey(y)) == 0 <==> x == y
    ensures Rank(WarmupKey(x)) < Rank(WarmupKey(y)) <==> x < y
    ensures Rank(WarmupKey(x)) == Rank(WarmupKey(y)) <==> x == y
  {
    DigitsOrder(x, y, 30, MaxStrLen);
    StrncmpRank(WarmupKey(x), WarmupKey(y));
  }
}
