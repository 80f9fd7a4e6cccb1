/**
 * The pieces of Python 2 string handling that the benchmark-log scripts rely
 * on: `str.split()` with no separator, `str.split(sep)`, `sep.join(...)`,
 * `str.startswith`, the `in` substring test, `int(...)`, `float(...)` and
 * `str(int)`.  Exceptions and `sys.exit(1)` become `ScriptError` values.
 */
module ScriptText {
  import opened Wrappers

  /** The ways a script run can end without producing its output. */
  datatype ScriptError =
    | Exit            // sys.exit(1) after a diagnostic message
    | IndexError      // a list index past the end
    | ValueError      // int()/float() of a malformed token, or a bad unpacking
    | NameError       // a variable read before any assignment
    | KeyError        // a dictionary lookup of a missing key
    | ZeroDivisionError

  /** Whitespace as `str.split()` understands it: space, \t, \n, \v, \f, \r. */
  predicate IsSpace(c: char)
  {
    c == ' ' || (9 <= c as int <= 13)
  }

  predicate NoSpace(s: string)
  {
    forall i :: 0 <= i < |s| ==> !IsSpace(s[i])
  }

  predicate StartsWith(s: string, prefix: string)
  {
    |prefix| <= |s| && s[..|prefix|] == prefix
  }

  predicate EndsWith(s: string, suffix: string)
  {
    |suffix| <= |s| && s[|s| - |suffix|..] == suffix
  }

  /** Python's `sub in s`. */
  predicate Contains(s: string, sub: string)
    decreases |s|
  {
    StartsWith(s, sub) || (s != [] && Contains(s[1..], sub))
  }

  /** `s` with all whitespace removed. */
  function RemoveSpaces(s: string): string
  {
    if s == [] then []
    else if IsSpace(s[0]) then RemoveSpaces(s[1..])
    else [s[0]] + RemoveSpaces(s[1..])
  }

  function Concat(parts: seq<string>): string
  {
    if parts == [] then [] else parts[0] + Concat(parts[1..])
  }

  /** Length of the longest whitespace-free prefix of `s`. */
  function TokenLength(s: string): (n: nat)
    ensures n <= |s|
    ensures forall i :: 0 <= i < n ==> !IsSpace(s[i])
    ensures n < |s| ==> IsSpace(s[n])
  {
    if s == [] || IsSpace(s[0]) then 0 else 1 + TokenLength(s[1..])
  }

  lemma {:induction false} RemoveSpacesOfToken(s: string, n: nat)
    requires n <= |s|
    requires forall i :: 0 <= i < n ==> !IsSpace(s[i])
    ensures RemoveSpaces(s) == s[..n] + RemoveSpaces(s[n..])
    decreases n
  {
    if n > 0 {
      RemoveSpacesOfToken(s[1..], n - 1);
      assert s[1..][..n - 1] == s[1..n];
      assert s[1..][n - 1..] == s[n..];
      assert s[..n] == [s[0]] + s[1..n];
    }
  }

  /**
   * Python's `s.split()`: the maximal runs of non-whitespace characters, in
   * order.  Every token is non-empty and blank-free, and gluing the tokens
   * back together gives `s` without its whitespace.
   */
  function Split(s: string): (tokens: seq<string>)
    ensures forall i :: 0 <= i < |tokens| ==> tokens[i] != [] && NoSpace(tokens[i])
    ensures Concat(tokens) == RemoveSpaces(s)
    decreases |s|
  {
    if s == [] then []
    else if IsSpace(s[0]) then Split(s[1..])
    else
      var n := TokenLength(s);
      RemoveSpacesOfToken(s, n);
      [s[..n]] + Split(s[n..])
  }

  /**
   * A token ends exactly at the first whitespace: any `m` with no whitespace
   * before it and whitespace (or the end) at it is the token length.
   */
  lemma TokenLengthIs(s: string, m: nat)
    requires m <= |s|
    requires forall i :: 0 <= i < m ==> !IsSpace(s[i])
    requires m < |s| ==> IsSpace(s[m])
    ensures TokenLength(s) == m
  {
  }

  /** A whitespace character cuts the string into two independent halves. */
  lemma {:induction false} SplitAtSpace(a: string, c: char, b: string)
    requires IsSpace(c)
    ensures Split(a + [c] + b) == Split(a) + Split(b)
    decreases |a|
  {
    var x := a + [c] + b;
    if a == [] {
      assert x[1..] == b;
    } else if IsSpace(a[0]) {
      assert x[1..] == a[1..] + [c] + b;
      SplitAtSpace(a[1..], c, b);
    } else {
      var n := TokenLength(a);
      assert forall i :: 0 <= i < n ==> x[i] == a[i];
      assert n < |a| ==> x[n] == a[n];
      TokenLengthIs(x, n);
      assert x[..n] == a[..n];
      assert x[n..] == a[n..] + [c] + b;
      SplitAtSpace(a[n..], c, b);
    }
  }

  /** A non-empty string without whitespace is a single token. */
  lemma SplitToken(t: string)
    requires t != [] && NoSpace(t)
    ensures Split(t) == [t]
  {
    TokenLengthIs(t, |t|);
    assert t[..|t|] == t && t[|t|..] == [];
  }

  /**
   * `str.split()` undoes `' '.join`: non-empty whitespace-free tokens joined
   * by single spaces split back into the same tokens.
   */
  lemma {:induction false} SplitJoin(tokens: seq<string>)
    requires forall i :: 0 <= i < |tokens| ==> tokens[i] != [] && NoSpace(tokens[i])
    ensures Split(JoinWith(tokens, ' ')) == tokens
    decreases |tokens|
  {
    if |tokens| == 1 {
      SplitToken(tokens[0]);
    } else if |tokens| > 1 {
      SplitAtSpace(tokens[0], ' ', JoinWith(tokens[1..], ' '));
      SplitToken(tokens[0]);
      SplitJoin(tokens[1..]);
      assert tokens == [tokens[0]] + tokens[1..];
    }
  }

  /**
   * Python's `s.split(sep)` for a one-character separator: the pieces between
   * separators, always at least one (possibly empty) piece.
   */
  function SplitOn(s: string, sep: char): (parts: seq<string>)
    ensures |parts| >= 1
    ensures forall i :: 0 <= i < |parts| ==> sep !in parts[i]
    decreases |s|
  {
    if s == [] then [[]]
    else
      var rest := SplitOn(s[1..], sep);
      if s[0] == sep then [[]] + rest
      else [[s[0]] + rest[0]] + rest[1..]
  }

  /** Python's `sep.join(parts)`. */
  function JoinWith(parts: seq<string>, sep: char): string
  {
    if parts == [] then []
    else if |parts| == 1 then parts[0]
    else parts[0] + [sep] + JoinWith(parts[1..], sep)
  }

  /** Joining the pieces with the same separator gives the string back. */
  lemma {:induction false} JoinSplitOn(s: string, sep: char)
    ensures JoinWith(SplitOn(s, sep), sep) == s
    decreases |s|
  {
    if s != [] {
      var rest := SplitOn(s[1..], sep);
      JoinSplitOn(s[1..], sep);
      if s[0] == sep {
        assert SplitOn(s, sep) == [[]] + rest;
        assert ([[]] + rest)[1..] == rest;
      } else {
        if |rest| == 1 {
          assert JoinWith(rest, sep) == rest[0];
        } else {
          assert JoinWith(rest, sep) == rest[0] + [sep] + JoinWith(rest[1..], sep);
          assert ([[s[0]] + rest[0]] + rest[1..])[1..] == rest[1..];
        }
      }
    }
  }

  // ---------------------------------------------------------------------
  // Benchmark log lines
  // ---------------------------------------------------------------------

  /** The benchmark prints these two line heads, read by more than one script. */
  const NumThreadsPrefix: string := "  num_threads:"
  const ThroughputPrefix: string := "Throughput(Ops/usec):"

  /** No line starts with both prefixes. */
  lemma PrefixesExclusive(line: string)
    ensures !(StartsWith(line, NumThreadsPrefix) && StartsWith(line, ThroughputPrefix))
  {
    assert NumThreadsPrefix[0] != ThroughputPrefix[0];
  }

  // ---------------------------------------------------------------------
  // Decimal numbers
  // ---------------------------------------------------------------------

  predicate IsDigit(c: char) { '0' <= c <= '9' }

  predicate AllDigits(s: string)
  {
    forall i :: 0 <= i < |s| ==> IsDigit(s[i])
  }

  function DigitValue(c: char): nat
    requires IsDigit(c)
  {
    c as int - '0' as int
  }

  function DigitChar(d: nat): (c: char)
    requires d < 10
    ensures IsDigit(c) && DigitValue(c) == d
  {
    ('0' as int + d) as char
  }

  /** The value of a string of decimal digits, most significant first. */
  function DigitsValue(s: string): nat
    requires AllDigits(s)
  {
    if s == [] then 0
    else DigitsValue(s[..|s| - 1]) * 10 + DigitValue(s[|s| - 1])
  }

  /** The decimal digits of `n` with no leading zero. */
  function NatToString(n: nat): (s: string)
    ensures |s| >= 1 && AllDigits(s)
    ensures |s| > 1 ==> s[0] != '0'
  {
    if n < 10 then [DigitChar(n)] else NatToString(n / 10) + [DigitChar(n % 10)]
  }

  lemma {:induction false} DigitsOfNat(n: nat)
    ensures DigitsValue(NatToString(n)) == n
  {
    if n >= 10 {
      var s := NatToString(n);
      DigitsOfNat(n / 10);
      assert s[..|s| - 1] == NatToString(n / 10);
    }
  }

  /** Python's `str(n)` for an int. */
  function IntToString(n: int): (s: string)
    ensures |s| >= 1
  {
    if n < 0 then "-" + NatToString(-n) else NatToString(n)
  }

  /**
   * Python's `int(token)` for a whitespace-free token: an optional sign and
   * at least one decimal digit; anything else raises ValueError.
   */
  function ParseInt(s: string): (r: Result<int, ScriptError>)
    ensures r.Err? ==> r.error == ValueError
    ensures r.Ok? ==> s != [] && NoSpace(s) && '.' !in s
    ensures r.Ok? ==> -(Pow10(|s|) as int) < r.value < Pow10(|s|)
    ensures r.Ok? && r.value < 0 ==> s[0] == '-'
  {
    if |s| >= 2 && (s[0] == '-' || s[0] == '+') && AllDigits(s[1..]) then
      DigitsBound(s[1..]);
      assert Pow10(|s| - 1) <= Pow10(|s|);
      var v: int := DigitsValue(s[1..]);
      Ok(if s[0] == '-' then -v else v)
    else if |s| >= 1 && AllDigits(s) then
      DigitsBound(s);
      Ok(DigitsValue(s))
    else Err(ValueError)
  }

  /** A string of n digits stands for a number below 10^n. */
  lemma {:induction false} DigitsBound(s: string)
    requires AllDigits(s)
    ensures DigitsValue(s) < Pow10(|s|)
    decreases |s|
  {
    if s != [] {
      DigitsBound(s[..|s| - 1]);
    }
  }

  /** Digits written after other digits shift them by their own length. */
  lemma {:induction false} DigitsAppend(a: string, b: string)
    requires AllDigits(a) && AllDigits(b)
    ensures AllDigits(a + b)
    ensures DigitsValue(a + b) == DigitsValue(a) * Pow10(|b|) + DigitsValue(b)
    decreases |b|
  {
    assert forall i :: 0 <= i < |a + b| ==> IsDigit((a + b)[i]) by {
      forall i | 0 <= i < |a + b| ensures IsDigit((a + b)[i]) {
        if i < |a| { assert (a + b)[i] == a[i]; } else { assert (a + b)[i] == b[i - |a|]; }
      }
    }
    if b != [] {
      var n := |b|;
      assert (a + b)[..|a + b| - 1] == a + b[..n - 1];
      assert (a + b)[|a + b| - 1] == b[n - 1];
      DigitsAppend(a, b[..n - 1]);
      var x, y, d, q := DigitsValue(a), DigitsValue(b[..n - 1]), DigitValue(b[n - 1]), Pow10(n - 1);
      assert DigitsValue(a + b) == (x * q + y) * 10 + d;
      assert DigitsValue(b) == y * 10 + d;
      assert Pow10(n) == 10 * q;
      ShiftByTen(x, y, d, q);
    } else {
      assert a + b == a;
    }
  }

  /** `int(str(n)) == n`: the two conversions are inverse. */
  lemma IntRoundTrip(n: int)
    ensures ParseInt(IntToString(n)) == Ok(n)
  {
    if n < 0 {
      DigitsOfNat(-n);
      assert IntToString(n)[1..] == NatToString(-n);
    } else {
      DigitsOfNat(n);
    }
  }

  function Pow10(k: nat): (p: nat)
    ensures p >= 1
  {
    if k == 0 then 1 else 10 * Pow10(k - 1)
  }

  /** Index of the first '.' in `s`, or |s| when there is none. */
  function DotIndex(s: string): (i: nat)
    ensures i <= |s|
    ensures forall j :: 0 <= j < i ==> s[j] != '.'
    ensures i < |s| ==> s[i] == '.'
  {
    if s == [] || s[0] == '.' then 0 else 1 + DotIndex(s[1..])
  }

  /** An unsigned decimal `digits[.digits]` with at least one digit. */
  function ParseUnsignedReal(s: string): (r: Result<real, ScriptError>)
    ensures r.Err? ==> r.error == ValueError
    ensures r.Ok? ==> s != [] && NoSpace(s) && r.value >= 0.0
  {
    var i := DotIndex(s);
    var whole := s[..i];
    var frac := if i < |s| then s[i + 1..] else [];
    if AllDigits(whole) && AllDigits(frac) && |whole| + |frac| >= 1 then
      assert forall j :: 0 <= j < |s| ==> !IsSpace(s[j]) by {
        forall j | 0 <= j < |s| ensures !IsSpace(s[j]) {
          if j < i {
            assert s[j] == whole[j];
          } else if j > i {
            assert s[j] == frac[j - i - 1];
          }
        }
      }
      Ok(DigitsValue(whole) as real + DigitsValue(frac) as real / Pow10(|frac|) as real)
    else Err(ValueError)
  }

  /**
   * Python's `float(token)` for tokens written as an optional sign, digits
   * and an optional fractional part; the sample is the exact decimal value.
   */
  function ParseFloat(s: string): (r: Result<real, ScriptError>)
    ensures r.Err? ==> r.error == ValueError
    ensures r.Ok? ==> s != [] && NoSpace(s)
    ensures r.Ok? && r.value < 0.0 ==> s[0] == '-'
  {
    if |s| >= 1 && (s[0] == '-' || s[0] == '+') then
      match ParseUnsignedReal(s[1..])
      case Ok(v) => Ok(if s[0] == '-' then -v else v)
      case Err(e) => Err(e)
    else ParseUnsignedReal(s)
  }

  /** Every token `int()` accepts, `float()` accepts with the same value. */
  lemma IntTokenIsFloat(s: string)
    requires ParseInt(s).Ok?
    ensures ParseFloat(s) == Ok(ParseInt(s).value as real)
  {
    if |s| >= 2 && (s[0] == '-' || s[0] == '+') && AllDigits(s[1..]) {
      NoDotInDigits(s[1..]);
      assert s[1..][..|s| - 1] == s[1..];
    } else {
      NoDotInDigits(s);
      assert s[..|s|] == s;
    }
  }

  lemma ShiftByTen(x: int, y: int, d: int, q: int)
    ensures (x * q + y) * 10 + d == x * (10 * q) + (y * 10 + d)
  {
  }

  /** The token without its first dot. */
  function DropDot(s: string): string
  {
    var i := DotIndex(s);
    if i < |s| then s[..i] + s[i + 1..] else s
  }

  /** The number of characters after the first dot, 0 without a dot. */
  function FracDigits(s: string): nat
  {
    var i := DotIndex(s);
    if i < |s| then |s| - i - 1 else 0
  }

  /**
   * `float(s)` is `int(s)` with the dot removed, divided by ten to the
   * number of digits after the dot: `float("-12.50") == int("-1250") / 100`.
   */
  lemma {:induction false} FloatIsScaledInt(s: string)
    requires ParseFloat(s).Ok?
    ensures ParseInt(DropDot(s)).Ok?
    ensures ParseFloat(s).value == ParseInt(DropDot(s)).value as real / Pow10(FracDigits(s)) as real
  {
    if |s| >= 1 && (s[0] == '-' || s[0] == '+') {
      SignedScaled(s);
    } else {
      UnsignedScaled(s);
      assert ParseFloat(s) == ParseUnsignedReal(s);
      assert ParseInt(DropDot(s)) == Ok(DigitsValue(DropDot(s)));
    }
  }

  /** The signed case of `FloatIsScaledInt`. */
  lemma {:induction false} SignedScaled(s: string)
    requires |s| >= 1 && (s[0] == '-' || s[0] == '+')
    requires ParseFloat(s).Ok?
    ensures ParseInt(DropDot(s)).Ok?
    ensures ParseFloat(s).value == ParseInt(DropDot(s)).value as real / Pow10(FracDigits(s)) as real
  {
    var u := s[1..];
    var w := DropDot(u);
    assert ParseUnsignedReal(u).Ok?;
    UnsignedScaled(u);
    var n: int := DigitsValue(w);
    var p := Pow10(FracDigits(u)) as real;
    assert ParseFloat(s).value == if s[0] == '-' then -(n as real / p) else n as real / p;
    assert ParseInt(DropDot(s)) == Ok(if s[0] == '-' then -n else n) && FracDigits(s) == FracDigits(u) by {
      SignMovesDot(s);
      SignedInt(s[0], w);
    }
    if s[0] == '-' {
      NegDiv(n as real, p);
    }
  }

  /** The unsigned case: `float(u)` is the digits of `u` read as an integer, over 10^k. */
  lemma {:induction false} UnsignedScaled(u: string)
    requires ParseUnsignedReal(u).Ok?
    ensures |DropDot(u)| >= 1 && AllDigits(DropDot(u))
    ensures ParseUnsignedReal(u).value == DigitsValue(DropDot(u)) as real / Pow10(FracDigits(u)) as real
  {
    UnsignedValue(u);
    var j := DotIndex(u);
    var whole := u[..j];
    var frac := if j < |u| then u[j + 1..] else [];
    var w := DropDot(u);
    assert w == whole + frac;
    assert FracDigits(u) == |frac|;
    DigitsAppend(whole, frac);
    ScaledValue(ParseUnsignedReal(u).value, DigitsValue(w), DigitsValue(whole), DigitsValue(frac), Pow10(|frac|));
  }

  /** The whole and fractional digits of an unsigned decimal, and its value. */
  lemma {:induction false} UnsignedValue(u: string)
    requires ParseUnsignedReal(u).Ok?
    ensures var j := DotIndex(u);
            var whole := u[..j];
            var frac := if j < |u| then u[j + 1..] else [];
            AllDigits(whole) && AllDigits(frac) && |whole| + |frac| >= 1 &&
            ParseUnsignedReal(u).value == DigitsValue(whole) as real + DigitsValue(frac) as real / Pow10(|frac|) as real
  {
  }

  lemma ScaledValue(v: real, n: int, a: nat, b: nat, q: nat)
    requires q > 0 && v == a as real + b as real / q as real && n == a * q + b
    ensures v == n as real / q as real
  {
    assert v * q as real == n as real;
  }

  lemma NegDiv(x: real, p: real)
    requires p > 0.0
    ensures -(x / p) == (-x) / p
  {
  }

  /** A leading sign stays in front when the dot is dropped, and keeps the digits after it. */
  lemma {:induction false} SignMovesDot(s: string)
    requires |s| >= 1 && (s[0] == '-' || s[0] == '+')
    ensures DropDot(s) == [s[0]] + DropDot(s[1..])
    ensures FracDigits(s) == FracDigits(s[1..])
  {
    var u := s[1..];
    var i := DotIndex(s);
    var j := DotIndex(u);
    assert i == 1 + j;
    if j < |u| {
      var a, b := u[..j], u[j + 1..];
      assert DropDot(u) == a + b;
      assert s[..i] == [s[0]] + a;
      assert s[i + 1..] == b;
      assert DropDot(s) == ([s[0]] + a) + b;
    } else {
      assert DropDot(s) == s;
      assert s == [s[0]] + u;
    }
  }

  /** `int()` of a sign followed by digits. */
  lemma {:induction false} SignedInt(c: char, w: string)
    requires c == '-' || c == '+'
    requires |w| >= 1 && AllDigits(w)
    ensures ParseInt([c] + w) == Ok(if c == '-' then -(DigitsValue(w) as int) else DigitsValue(w))
  {
    assert ([c] + w)[1..] == w;
  }

  lemma NoDotInDigits(s: string)
    requires AllDigits(s)
    ensures DotIndex(s) == |s|
  {
    if s != [] {
      NoDotInDigits(s[1..]);
    }
  }

  /** `float(str(n)) == n`. */
  lemma FloatOfIntString(n: int)
    ensures ParseFloat(IntToString(n)) == Ok(n as real)
  {
    IntRoundTrip(n);
    IntTokenIsFloat(IntToString(n));
  }

  // ---------------------------------------------------------------------
  // Sorting
  // ---------------------------------------------------------------------

  predicate Ascending(s: seq<int>)
  {
    forall i, j :: 0 <= i < j < |s| ==> s[i] <= s[j]
  }

  function InsertAscending(x: int, s: seq<int>): (r: seq<int>)
    requires Ascending(s)
    ensures Ascending(r)
    ensures multiset(r) == multiset(s) + multiset{x}
    ensures |r| == |s| + 1 && (r[0] == x || (s != [] && r[0] == s[0]))
  {
    if s == [] then [x]
    else if x <= s[0] then PrependAscending(x, s); [x] + s
    else
      var rest := InsertAscending(x, s[1..]);
      PrependAscending(s[0], rest);
      PrependCounts(s[0], s[1..], rest, x);
      assert [s[0]] + s[1..] == s;
      [s[0]] + rest
  }

  /** A head no greater than the first element keeps a sequence ascending. */
  lemma PrependAscending(a: int, s: seq<int>)
    requires Ascending(s) && (s != [] ==> a <= s[0])
    ensures Ascending([a] + s)
  {
  }

  /** Putting the same head on both sides keeps the counts apart by `x`. */
  lemma PrependCounts(a: int, tail: seq<int>, rest: seq<int>, x: int)
    requires multiset(rest) == multiset(tail) + multiset{x}
    ensures multiset([a] + rest) == multiset([a] + tail) + multiset{x}
  {
  }

  /** Python's `list.sort()` on a list of ints: the same elements, ascending. */
  function SortInts(s: seq<int>): (r: seq<int>)
    ensures Ascending(r)
    ensures multiset(r) == multiset(s)
  {
    if s == [] then []
    else
      assert s == [s[0]] + s[1..];
      InsertAscending(s[0], SortInts(s[1..]))
  }
}
