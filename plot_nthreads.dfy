/**
 * Model of scripts/plot-nthreads-VS-throughput_averages.py: every file named
 * on the command line is one benchmark run; runs whose file names share a
 * group key are repetitions of one configuration.  Each run contributes its
 * list of throughput samples to its group, each group is drawn as the
 * elementwise mean of its runs with a style chosen from its name, and the
 * title names the key range and the lookup percentage.  File contents are
 * given as sequences of lines and the figure becomes a value; drawing is
 * not modelled.
 */
module PlotNThreads {
  import opened Wrappers
  import opened ScriptText

  // ---------------------------------------------------------------------
  // prefix_large_number
  // ---------------------------------------------------------------------

  const Prefixes: seq<string> := ["", "K", "M", "G"]

  function Power(b: nat, k: nat): (p: nat)
    ensures b >= 1 ==> p >= 1
  {
    if k == 0 then 1 else b * Power(b, k - 1)
  }

  /**
   * How many times the loop of `prefix_large_number` divides `number` by
   * `divider`, and what is left; it stops with Exit at a remainder.  The
   * loop test `number / divider >= 1` uses Python's floor division, which
   * agrees with Dafny's for a positive divider.
   */
  function Scale(number: int, divider: int): (r: Result<(nat, int), ScriptError>)
    requires divider >= 2
    ensures r.Ok? ==> r.value.1 < divider
    ensures r.Ok? && r.value.0 > 0 ==> r.value.1 >= 1
    ensures r.Err? ==> r.error == Exit
    decreases if number > 0 then number else 0
  {
    if number / divider < 1 then Ok((0, number))
    else if number % divider != 0 then Err(Exit)
    else
      DivDecreases(number, divider);
      match Scale(number / divider, divider)
      case Err(e) => Err(e)
      case Ok((k, m)) => Ok((k + 1, m))
  }

  /** What the loop keeps is the number itself: the remainder times the divider to the count. */
  lemma {:induction false} ScaleSound(number: int, divider: int)
    requires divider >= 2 && Scale(number, divider).Ok?
    ensures Scale(number, divider).value.1 * Power(divider, Scale(number, divider).value.0) == number
    decreases if number > 0 then number else 0
  {
    if number / divider >= 1 {
      DivDecreases(number, divider);
      ScaleSound(number / divider, divider);
      var (k, m) := Scale(number / divider, divider).value;
      assert Scale(number, divider).value == (k + 1, m);
      MultiplyBack(number, divider, k, m);
    }
  }

  lemma MultiplyBack(number: int, divider: int, k: nat, m: int)
    requires divider >= 2 && number % divider == 0 && m * Power(divider, k) == number / divider
    ensures m * Power(divider, k + 1) == number
  {
    var p := Power(divider, k);
    assert Power(divider, k + 1) == divider * p;
    Swap(m, divider, p);
    assert number == divider * (number / divider) + number % divider;
  }

  lemma Swap(m: int, divider: int, p: int)
    ensures m * (divider * p) == divider * (m * p)
  {
  }

  lemma DivDecreases(n: int, divider: int)
    requires divider >= 2 && n / divider >= 1
    ensures n > 0 && 0 <= n / divider < n
  {
    var q := n / divider;
    assert n == divider * q + n % divider;
    assert divider * q >= 2 * q;
  }

  /** The result of continuing the loop after `shift` divisions. */
  function Shifted(r: Result<(nat, int), ScriptError>, shift: nat): Result<(nat, int), ScriptError>
  {
    match r
    case Err(e) => Err(e)
    case Ok((k, m)) => Ok((k + shift, m))
  }

  lemma ScaleStep(n: int, divider: int, shift: nat)
    requires divider >= 2 && n / divider >= 1 && n % divider == 0
    ensures Shifted(Scale(n, divider), shift) == Shifted(Scale(n / divider, divider), shift + 1)
  {
    match Scale(n / divider, divider)
    case Err(e) =>
      assert Scale(n, divider) == Err(e);
    case Ok((k, m)) =>
      assert Scale(n, divider) == Ok((k + 1, m));
  }

  /** What `prefix_large_number(number, divider)` returns. */
  function LargeNumberLabel(number: int, divider: int): Result<string, ScriptError>
    requires divider >= 2
  {
    match Scale(number, divider)
    case Err(e) => Err(e)
    case Ok((k, m)) => if k < |Prefixes| then Ok(IntToString(m) + Prefixes[k]) else Err(IndexError)
  }

  /** The loop of `prefix_large_number` (source lines 9-22). */
  method PrefixLargeNumber(number: int, divider: int) returns (r: Result<string, ScriptError>)
    requires divider >= 2
    ensures r == LargeNumberLabel(number, divider)
  {
    var prefixIndex: nat := 0;
    var n := number;
    while n / divider >= 1
      invariant Scale(number, divider) == Shifted(Scale(n, divider), prefixIndex)
      decreases if n > 0 then n else 0
    {
      if n % divider != 0 {
        return Err(Exit);
      }
      ScaleStep(n, divider, prefixIndex);
      DivDecreases(n, divider);
      prefixIndex := prefixIndex + 1;
      n := n / divider;
    }
    if prefixIndex >= |Prefixes| {
      return Err(IndexError);
    }
    r := Ok(IntToString(n) + Prefixes[prefixIndex]);
  }

  /**
   * Every number that is a multiple `m * divider^k` of a power of the
   * divider with `1 <= m < divider` is accepted, and only those (with the
   * numbers below the divider): the converse of `Scale`'s contract.
   */
  lemma {:induction false} ScaleOfMultiple(n: int, m: int, k: nat, divider: int)
    requires divider >= 2 && m < divider
    requires k > 0 ==> m >= 1
    requires n == m * Power(divider, k)
    ensures Scale(n, divider) == Ok((k, m))
    decreases k
  {
    if k > 0 {
      var q := m * Power(divider, k - 1);
      MultipleIsTimes(m, k, divider);
      ScaleOfMultiple(q, m, k - 1, divider);
      ScaleTimes(n, q, divider);
    } else {
      assert n == m;
      DivBelow(n, divider);
    }
  }

  lemma DivBelow(n: int, divider: int)
    requires divider >= 2 && n < divider
    ensures n / divider < 1
  {
    var d := n / divider;
    assert n == divider * d + n % divider && n % divider >= 0;
    if d >= 1 {
      MoreThanOnce(divider, d);
    }
  }

  /** Multiplying by the divider adds one division to the loop. */
  lemma ScaleTimes(n: int, q: int, divider: int)
    requires divider >= 2 && q >= 1 && n == divider * q
    ensures Scale(n, divider) == Shifted(Scale(q, divider), 1)
  {
    DivMultiple(q, divider);
    ScaleStep(n, divider, 0);
    assert Shifted(Scale(n, divider), 0) == Scale(n, divider);
  }

  /** One more power of the divider is one more factor `divider`. */
  lemma MultipleIsTimes(m: int, k: nat, divider: int)
    requires divider >= 2 && m >= 1 && k > 0
    ensures m * Power(divider, k) == divider * (m * Power(divider, k - 1))
    ensures m * Power(divider, k - 1) >= 1
  {
    var p := Power(divider, k - 1);
    assert Power(divider, k) == divider * p;
    Swap(m, divider, p);
    AtLeastOne(m, p);
  }

  lemma AtLeastOne(a: int, b: int)
    requires a >= 1 && b >= 1
    ensures a * b >= 1
  {
  }

  /** Dividing a multiple of the divider gives back the factor, with nothing left over. */
  lemma DivMultiple(q: int, divider: int)
    requires divider >= 2 && q >= 1
    ensures (divider * q) / divider == q && (divider * q) % divider == 0
    ensures (divider * q) / divider >= 1
  {
    var n := divider * q;
    var d, r := n / divider, n % divider;
    assert n == divider * d + r && 0 <= r < divider;
    Distribute(divider, q, d);
    if q - d >= 1 {
      MoreThanOnce(divider, q - d);
    } else if q - d <= -1 {
      MoreThanOnce(divider, d - q);
      Negate(divider, d - q);
    }
  }

  lemma Distribute(a: int, x: int, y: int)
    ensures a * x - a * y == a * (x - y)
  {
  }

  lemma MoreThanOnce(a: int, x: int)
    requires a >= 0 && x >= 1
    ensures a * x >= a
  {
  }

  lemma Negate(a: int, x: int)
    ensures a * -x == -(a * x)
  {
  }

  /** Reading a label back: the digits, times the power its prefix letter names. */
  function Unprefix(s: string, divider: int): Result<int, ScriptError>
    requires divider >= 2
  {
    if s != [] && s[|s| - 1] in "KMG" then
      var k := if s[|s| - 1] == 'K' then 1 else if s[|s| - 1] == 'M' then 2 else 3;
      match ParseInt(s[..|s| - 1])
      case Err(e) => Err(e)
      case Ok(m) => Ok(m * Power(divider, k))
    else ParseInt(s)
  }

  /** A label names exactly the number it was made from. */
  lemma LabelRoundTrip(number: int, divider: int)
    requires divider >= 2
    requires LargeNumberLabel(number, divider).Ok?
    ensures Unprefix(LargeNumberLabel(number, divider).value, divider) == Ok(number)
  {
    ScaleSound(number, divider);
    var (k, m) := Scale(number, divider).value;
    var digits := IntToString(m);
    var s := digits + Prefixes[k];
    IntRoundTrip(m);
    EndsInDigit(m);
    if k == 0 {
      assert s == digits;
    } else {
      assert s[..|s| - 1] == digits;
      assert s[|s| - 1] == Prefixes[k][0];
    }
  }

  lemma EndsInDigit(n: int)
    ensures IsDigit(IntToString(n)[|IntToString(n)| - 1])
  {
  }

  // ---------------------------------------------------------------------
  // get_average
  // ---------------------------------------------------------------------

  /**
   * numpy's `a + b` on one-dimensional arrays: elementwise on equal
   * lengths, a length-one operand broadcast over the other, and any other
   * mismatch a ValueError.
   */
  function AddArrays(a: seq<real>, b: seq<real>): (r: Result<seq<real>, ScriptError>)
    ensures r.Err? <==> |a| != |b| && |a| != 1 && |b| != 1
    ensures r.Err? ==> r.error == ValueError
    ensures r.Ok? && |a| == |b| ==> |r.value| == |a| && forall i :: 0 <= i < |a| ==> r.value[i] == a[i] + b[i]
  {
    if |a| == |b| then Ok(seq(|a|, i requires 0 <= i < |a| => a[i] + b[i]))
    else if |a| == 1 then Ok(seq(|b|, i requires 0 <= i < |b| => a[0] + b[i]))
    else if |b| == 1 then Ok(seq(|a|, i requires 0 <= i < |a| => a[i] + b[0]))
    else Err(ValueError)
  }

  /** `array_of_sums` after adding the first `|arrays|` runs. */
  function SumArrays(arrays: seq<seq<real>>): Result<seq<real>, ScriptError>
    requires arrays != []
  {
    if |arrays| == 1 then Ok(arrays[0])
    else match SumArrays(arrays[..|arrays| - 1])
      case Err(e) => Err(e)
      case Ok(s) => AddArrays(s, arrays[|arrays| - 1])
  }

  function DivideAll(s: seq<real>, n: nat): seq<real>
    requires n > 0
  {
    seq(|s|, i requires 0 <= i < |s| => s[i] / n as real)
  }

  /** What `get_average(arrays)` returns; no runs at all is an IndexError. */
  function Average(arrays: seq<seq<real>>): Result<seq<real>, ScriptError>
  {
    if arrays == [] then Err(IndexError)
    else match SumArrays(arrays)
      case Err(e) => Err(e)
      case Ok(s) => Ok(DivideAll(s, |arrays|))
  }

  /** The loop of `get_average` (source lines 24-30). */
  method GetAverage(arrays: seq<seq<real>>) returns (r: Result<seq<real>, ScriptError>)
    ensures r == Average(arrays)
  {
    if |arrays| == 0 {
      return Err(IndexError);
    }
    var sums := arrays[0];
    var j := 1;
    while j < |arrays|
      invariant 1 <= j <= |arrays|
      invariant SumArrays(arrays[..j]) == Ok(sums)
    {
      assert arrays[..j + 1][..j] == arrays[..j];
      var next := AddArrays(sums, arrays[j]);
      if next.Err? {
        SumFailureSticks(arrays, j + 1);
        return Err(next.error);
      }
      sums := next.value;
      j := j + 1;
    }
    assert arrays[..j] == arrays;
    r := Ok(DivideAll(sums, |arrays|));
  }

  lemma {:induction false} SumFailureSticks(arrays: seq<seq<real>>, j: nat)
    requires 1 <= j <= |arrays| && SumArrays(arrays[..j]).Err?
    ensures SumArrays(arrays) == SumArrays(arrays[..j])
    decreases |arrays| - j
  {
    if j < |arrays| {
      assert arrays[..j + 1][..j] == arrays[..j];
      SumFailureSticks(arrays, j + 1);
    } else {
      assert arrays[..j] == arrays;
    }
  }

  /** Sum of column `i` over the runs. */
  function ColumnSum(arrays: seq<seq<real>>, i: nat): real
    requires forall j :: 0 <= j < |arrays| ==> i < |arrays[j]|
  {
    if arrays == [] then 0.0 else ColumnSum(arrays[..|arrays| - 1], i) + arrays[|arrays| - 1][i]
  }

  /** Runs of equal length average to the elementwise arithmetic mean. */
  lemma {:induction false} AverageOfEqualRuns(arrays: seq<seq<real>>, n: nat)
    requires arrays != []
    requires forall j :: 0 <= j < |arrays| ==> |arrays[j]| == n
    ensures Average(arrays).Ok?
    ensures |Average(arrays).value| == n
    ensures forall i :: 0 <= i < n ==> Average(arrays).value[i] == ColumnSum(arrays, i) / |arrays| as real
  {
    ColumnSums(arrays, n);
  }

  lemma {:induction false} ColumnSums(arrays: seq<seq<real>>, n: nat)
    requires arrays != []
    requires forall j :: 0 <= j < |arrays| ==> |arrays[j]| == n
    ensures SumArrays(arrays).Ok? && |SumArrays(arrays).value| == n
    ensures forall i :: 0 <= i < n ==> SumArrays(arrays).value[i] == ColumnSum(arrays, i)
    decreases |arrays|
  {
    if |arrays| == 1 {
      forall i | 0 <= i < n ensures arrays[0][i] == ColumnSum(arrays, i) {
        assert arrays[..0] == [];
      }
    } else {
      var init := arrays[..|arrays| - 1];
      ColumnSums(init, n);
    }
  }

  // ---------------------------------------------------------------------
  // get_label_from_filename
  // ---------------------------------------------------------------------

  /** Legend label, marker, line style and colour of a curve. */
  datatype Style = Style(legend: string, marker: string, lineStyle: string, color: string)

  const ErrorStyle: Style := Style("ERROR LABEL", "", "-", "black")

  /**
   * The if/elif chain of `get_label_from_filename` (source lines 32-74): it
   * tests the substrings in the order of `LabelRules` and takes the style
   * of the first one that occurs in the name, or the error style.
   */
  function LabelOf(filename: string): (s: Style)
    ensures s == FirstMatch(LabelRules, filename)
    ensures NoHitBefore(LabelRules, filename, |LabelRules|) ==> s == ErrorStyle
    ensures forall i ::
              (0 <= i < |LabelRules| && Contains(filename, LabelRules[i].0) && NoHitBefore(LabelRules, filename, i))
              ==> s == LabelRules[i].1
  {
    var s :=
      if Contains(filename, "x.avl.bronson") then Style("bronson-avl", "s", "-", "purple")
      else if Contains(filename, "x.bst.aravind") then Style("natarajan-bst", "D", "-", "gray")
      else if Contains(filename, "x.bst.citrus") then Style("citrus-bst", "^", "-", "blue")
      else if Contains(filename, "x.avl.int.rcu_sgl") then Style("rcu-sgl-avl", "^", "-", "yellow")
      else if Contains(filename, "x.avl.int.cop") then Style("cop-avl", "o", "-", "red")
      else if Contains(filename, "x.avl.int.rcu_htm") then Style("rcu-htm-avl", "x", "-", "black")
      else if Contains(filename, "x.rbt.int.rcu_htm") then Style("rcu-htm-rbt", "x", "--", "black")
      else ErrorStyle;
    var r := LabelRules;
    var k := if Contains(filename, r[0].0) then 0
      else if Contains(filename, r[1].0) then 1
      else if Contains(filename, r[2].0) then 2
      else if Contains(filename, r[3].0) then 3
      else if Contains(filename, r[4].0) then 4
      else if Contains(filename, r[5].0) then 5
      else if Contains(filename, r[6].0) then 6
      else 7;
    assert forall j :: 0 <= j < k ==> !Contains(filename, r[j].0);
    Skip(r, filename, k);
    assert k < 7 ==> FirstMatch(r[k..], filename) == r[k].1;
    s
  }

  /** The same classification as a table of (substring, style) rules. */
  const LabelRules: seq<(string, Style)> := [
    ("x.avl.bronson", Style("bronson-avl", "s", "-", "purple")),
    ("x.bst.aravind", Style("natarajan-bst", "D", "-", "gray")),
    ("x.bst.citrus", Style("citrus-bst", "^", "-", "blue")),
    ("x.avl.int.rcu_sgl", Style("rcu-sgl-avl", "^", "-", "yellow")),
    ("x.avl.int.cop", Style("cop-avl", "o", "-", "red")),
    ("x.avl.int.rcu_htm", Style("rcu-htm-avl", "x", "-", "black")),
    ("x.rbt.int.rcu_htm", Style("rcu-htm-rbt", "x", "--", "black"))
  ]

  /** The style of the first rule whose substring occurs in the name. */
  function FirstMatch(rules: seq<(string, Style)>, filename: string): (s: Style)
    ensures NoHitBefore(rules, filename, |rules|) ==> s == ErrorStyle
    ensures forall i :: 0 <= i < |rules| && Contains(filename, rules[i].0) && NoHitBefore(rules, filename, i)
                        ==> s == rules[i].1
  {
    if rules == [] then ErrorStyle
    else if Contains(filename, rules[0].0) then rules[0].1
    else
      var s := FirstMatch(rules[1..], filename);
      assert forall i :: 1 <= i <= |rules| && NoHitBefore(rules, filename, i) ==> NoHitBefore(rules[1..], filename, i - 1);
      s
  }

  /** None of the first `n` rules' substrings occurs in the name. */
  predicate NoHitBefore(rules: seq<(string, Style)>, filename: string, n: nat)
    requires n <= |rules|
  {
    forall j :: 0 <= j < n ==> !Contains(filename, rules[j].0)
  }

  /** Rules that do not match are passed over. */
  lemma {:induction false} Skip(rules: seq<(string, Style)>, filename: string, n: nat)
    requires n <= |rules|
    requires forall j :: 0 <= j < n ==> !Contains(filename, rules[j].0)
    ensures FirstMatch(rules, filename) == FirstMatch(rules[n..], filename)
    decreases n
  {
    if n > 0 {
      Skip(rules[1..], filename, n - 1);
      assert rules[1..][n - 1..] == rules[n..];
    }
  }

  /** With no known substring the label is the error label, which no rule uses. */
  lemma UnknownNameGetsErrorLabel(filename: string)
    requires forall i :: 0 <= i < |LabelRules| ==> !Contains(filename, LabelRules[i].0)
    ensures LabelOf(filename) == ErrorStyle
    ensures forall i :: 0 <= i < |LabelRules| ==> LabelRules[i].1.legend != LabelOf(filename).legend
  {
    assert LabelOf(filename) == ErrorStyle;
    ErrorLabelUnused();
  }

  lemma ErrorLabelUnused()
    ensures forall i :: 0 <= i < |LabelRules| ==> LabelRules[i].1.legend != ErrorStyle.legend
  {
    forall i | 0 <= i < |LabelRules|
      ensures LabelRules[i].1.legend != ErrorStyle.legend
    {
      assert LabelRules[i].1.legend[0] != ErrorStyle.legend[0];
    }
  }

  // ---------------------------------------------------------------------
  // The group key of a file name
  // ---------------------------------------------------------------------

  /** `os.path.basename(path)`: what follows the last '/'. */
  function Basename(path: string): (b: string)
    ensures '/' !in b
    ensures |b| <= |path| && path[|path| - |b|..] == b
    ensures |b| < |path| ==> path[|path| - |b| - 1] == '/'
  {
    if path == [] || path[|path| - 1] == '/' then []
    else Basename(path[..|path| - 1]) + [path[|path| - 1]]
  }

  /** `'.'.join(basename.split('.')[0:-2])` (source line 84). */
  function GroupKey(filename: string): string
  {
    var parts := SplitOn(Basename(filename), '.');
    JoinWith(if |parts| <= 2 then [] else parts[..|parts| - 2], '.')
  }

  /** The group key is a prefix of the base name, so it holds no '/'. */
  lemma GroupKeyIsPrefix(filename: string)
    ensures StartsWith(Basename(filename), GroupKey(filename))
    ensures '/' !in GroupKey(filename)
  {
    var base := Basename(filename);
    var parts := SplitOn(base, '.');
    var k := GroupKey(filename);
    assert |k| <= |base| && base[..|k|] == k by {
      if |parts| > 2 {
        JoinSplitOn(base, '.');
        JoinInitIsPrefix(parts, '.');
      }
    }
    PrefixKeepsOut(base, k, '/');
  }

  /** A character missing from a string is missing from its prefixes. */
  lemma PrefixKeepsOut(s: string, p: string, c: char)
    requires c !in s && |p| <= |s| && s[..|p|] == p
    ensures c !in p
  {
    assert forall i :: 0 <= i < |p| ==> p[i] == s[i];
  }

  /** The join of all but the last two parts is a prefix of the whole join. */
  lemma JoinInitIsPrefix(parts: seq<string>, sep: char)
    requires |parts| > 2
    ensures var k := JoinWith(parts[..|parts| - 2], sep);
            |k| <= |JoinWith(parts, sep)| && JoinWith(parts, sep)[..|k|] == k
  {
    var n := |parts|;
    var k := JoinWith(parts[..n - 2], sep);
    DropLastTwo(parts, sep);
    var rest := [sep] + parts[n - 2] + [sep] + parts[n - 1];
    assert JoinWith(parts, sep) == k + rest;
    assert (k + rest)[..|k|] == k;
  }

  lemma {:induction false} JoinAppend(a: seq<string>, b: seq<string>, sep: char)
    requires a != [] && b != []
    ensures JoinWith(a + b, sep) == JoinWith(a, sep) + [sep] + JoinWith(b, sep)
    decreases |a|
  {
    if |a| == 1 {
      assert (a + b)[1..] == b;
    } else {
      JoinAppend(a[1..], b, sep);
      assert (a + b)[1..] == a[1..] + b;
    }
  }

  /**
   * The key is the base name without its last two '.'-separated fields;
   * a base name with fewer than three fields has the empty key.
   */
  lemma GroupKeyDropsTwoFields(filename: string)
    ensures var parts := SplitOn(Basename(filename), '.');
            if |parts| <= 2 then GroupKey(filename) == []
            else GroupKey(filename) + "." + parts[|parts| - 2] + "." + parts[|parts| - 1] == Basename(filename)
  {
    var base := Basename(filename);
    var parts := SplitOn(base, '.');
    if |parts| > 2 {
      JoinSplitOn(base, '.');
      DropLastTwo(parts, '.');
    }
  }

  /** Joining all but the last two parts, then the last two, gives back the whole join. */
  lemma DropLastTwo(parts: seq<string>, sep: char)
    requires |parts| > 2
    ensures JoinWith(parts[..|parts| - 2], sep) + [sep] + parts[|parts| - 2] + [sep] + parts[|parts| - 1] == JoinWith(parts, sep)
  {
    var n := |parts|;
    assert parts == parts[..n - 2] + [parts[n - 2], parts[n - 1]];
    JoinTwoMore(parts[..n - 2], parts[n - 2], parts[n - 1], sep);
  }

  lemma JoinTwoMore(init: seq<string>, a: string, b: string, sep: char)
    requires init != []
    ensures JoinWith(init + [a, b], sep) == JoinWith(init, sep) + [sep] + a + [sep] + b
  {
    JoinAppend(init, [a, b], sep);
    JoinPair(a, b, sep);
    var j := JoinWith(init, sep);
    assert j + [sep] + (a + [sep] + b) == j + [sep] + a + [sep] + b;
  }

  lemma JoinPair(a: string, b: string, sep: char)
    ensures JoinWith([a, b], sep) == a + [sep] + b
  {
    assert [a, b][1..] == [b];
  }

  // ---------------------------------------------------------------------
  // The read loop
  // ---------------------------------------------------------------------

  const LookupPrefix: string := "  lookup_frac:"
  const InsertPrefix: string := "  insert_frac:"
  const MaxKeyPrefix: string := "  max_key"

  /**
   * The script's global variables: `d` with the list of its keys in
   * insertion order, the two axes of the current file, and the four
   * configuration values (None while never assigned).
   */
  datatype Globals = Globals(
    d: map<string, seq<seq<real>>>, groups: seq<string>,
    nthreadsAxis: seq<int>, throughputAxis: seq<real>,
    lookups: Option<int>, inserts: Option<int>, deletes: Option<int>, maxKey: Option<int>)

  const Initial: Globals := Globals(map[], [], [], [], None, None, None, None)

  /** `groups` lists each key of `d` once. */
  predicate Inv(g: Globals)
  {
    && (forall i, j :: 0 <= i < j < |g.groups| ==> g.groups[i] != g.groups[j])
    && (forall k :: k in g.groups ==> k in g.d)
    && (forall k :: k in g.d ==> k in g.groups)
  }

  /** `int(tokens[1])` of a line. */
  function SecondInt(tokens: seq<string>): Result<int, ScriptError>
  {
    if |tokens| < 2 then Err(IndexError) else ParseInt(tokens[1])
  }

  /** One iteration of the read loop (source lines 93-107). */
  function LineStep(g: Globals, line: string): (r: Result<Globals, ScriptError>)
    ensures r.Ok? ==> r.value.d == g.d && r.value.groups == g.groups
  {
    var tokens := Split(line);
    if StartsWith(line, NumThreadsPrefix) then
      match SecondInt(tokens)
      case Err(e) => Err(e)
      case Ok(n) => Ok(g.(nthreadsAxis := g.nthreadsAxis + [n]))
    else if StartsWith(line, ThroughputPrefix) then
      if |tokens| < 2 then Err(IndexError)
      else match ParseFloat(tokens[1])
        case Err(e) => Err(e)
        case Ok(x) => Ok(g.(throughputAxis := g.throughputAxis + [x]))
    else if StartsWith(line, LookupPrefix) then
      match SecondInt(tokens)
      case Err(e) => Err(e)
      case Ok(n) => Ok(g.(lookups := Some(n)))
    else if StartsWith(line, InsertPrefix) then
      match SecondInt(tokens)
      case Err(e) => Err(e)
      case Ok(n) =>
        if g.lookups.None? then Err(NameError)
        else Ok(g.(inserts := Some(n), deletes := Some(100 - g.lookups.value - n)))
    else if StartsWith(line, MaxKeyPrefix) then
      match SecondInt(tokens)
      case Err(e) => Err(e)
      case Ok(n) => Ok(g.(maxKey := Some(n)))
    else Ok(g)
  }

  /** The read loop over the lines of one file. */
  function Scan(g: Globals, lines: seq<string>): (r: Result<Globals, ScriptError>)
    ensures r.Ok? ==> r.value.d == g.d && r.value.groups == g.groups
    decreases |lines|
  {
    if lines == [] then Ok(g)
    else match Scan(g, lines[..|lines| - 1])
      case Err(e) => Err(e)
      case Ok(h) => LineStep(h, lines[|lines| - 1])
  }

  /** The globals just before the read loop of file `filename` (source lines 84-90). */
  function OpenFile(g: Globals, filename: string): (r: Globals)
    requires Inv(g)
    ensures Inv(r) && GroupKey(filename) in r.d
  {
    var key := GroupKey(filename);
    var h := if key in g.d then g else g.(d := g.d[key := []], groups := g.groups + [key]);
    h.(nthreadsAxis := [], throughputAxis := [])
  }

  /** One iteration of the loop over files (source lines 81-110). */
  function FileStep(g: Globals, filename: string, lines: seq<string>): (r: Result<Globals, ScriptError>)
    requires Inv(g)
    ensures r.Ok? ==> Inv(r.value)
  {
    var h := OpenFile(g, filename);
    var key := GroupKey(filename);
    match Scan(h, lines)
    case Err(e) => Err(e)
    case Ok(s) => Ok(s.(d := s.d[key := s.d[key] + [s.throughputAxis]]))
  }

  /** The loop over all files, each a (name, lines) pair. */
  function ReadAll(files: seq<(string, seq<string>)>): (r: Result<Globals, ScriptError>)
    ensures r.Ok? ==> Inv(r.value)
    decreases |files|
  {
    if files == [] then Ok(Initial)
    else match ReadAll(files[..|files| - 1])
      case Err(e) => Err(e)
      case Ok(g) => FileStep(g, files[|files| - 1].0, files[|files| - 1].1)
  }

  /** The thread count a line announces, if it announces one. */
  function LineThreads(line: string): seq<int>
  {
    if StartsWith(line, NumThreadsPrefix) && SecondInt(Split(line)).Ok?
    then [SecondInt(Split(line)).value] else []
  }

  /** The throughput sample a line carries, if it carries one. */
  function LineThroughput(line: string): seq<real>
  {
    var tokens := Split(line);
    if !StartsWith(line, NumThreadsPrefix) && StartsWith(line, ThroughputPrefix)
       && |tokens| >= 2 && ParseFloat(tokens[1]).Ok?
    then [ParseFloat(tokens[1]).value] else []
  }

  /** The thread counts announced by the lines, in order. */
  function ThreadCounts(lines: seq<string>): seq<int>
  {
    if lines == [] then []
    else ThreadCounts(lines[..|lines| - 1]) + LineThreads(lines[|lines| - 1])
  }

  /** The throughput samples carried by the lines, in order. */
  function Throughputs(lines: seq<string>): seq<real>
  {
    if lines == [] then []
    else Throughputs(lines[..|lines| - 1]) + LineThroughput(lines[|lines| - 1])
  }

  /** The axes fill in line order. */
  lemma {:induction false} ScanFillsAxes(g: Globals, lines: seq<string>)
    requires Scan(g, lines).Ok?
    ensures Scan(g, lines).value.nthreadsAxis == g.nthreadsAxis + ThreadCounts(lines)
    ensures Scan(g, lines).value.throughputAxis == g.throughputAxis + Throughputs(lines)
    decreases |lines|
  {
    if lines != [] {
      var init, last := lines[..|lines| - 1], lines[|lines| - 1];
      ScanFillsAxes(g, init);
      var h := Scan(g, init).value;
      assert Scan(g, lines) == LineStep(h, last);
      StepFillsAxes(h, last);
    }
  }

  /** One line appends its announcement or its sample, nothing else, to the axes. */
  lemma StepFillsAxes(h: Globals, line: string)
    requires LineStep(h, line).Ok?
    ensures LineStep(h, line).value.nthreadsAxis == h.nthreadsAxis + LineThreads(line)
    ensures LineStep(h, line).value.throughputAxis == h.throughputAxis + LineThroughput(line)
  {
    PrefixesExclusive(line);
  }

  /** The globals after a file, in terms of those after its read loop. */
  lemma FileStepParts(g: Globals, filename: string, lines: seq<string>)
    requires Inv(g) && FileStep(g, filename, lines).Ok?
    ensures var key := GroupKey(filename);
            var s := Scan(OpenFile(g, filename), lines).value;
            && s.d == (if key in g.d then g.d else g.d[key := []])
            && s.throughputAxis == Throughputs(lines)
            && s.nthreadsAxis == ThreadCounts(lines)
            && FileStep(g, filename, lines).value == s.(d := s.d[key := s.d[key] + [s.throughputAxis]])
  {
    var h := OpenFile(g, filename);
    ScanFillsAxes(h, lines);
  }

  /**
   * A file appends its own throughput list to the runs of its group; the
   * thread axis is that file's own.
   */
  lemma FileAppendsRun(g: Globals, filename: string, lines: seq<string>)
    requires Inv(g) && FileStep(g, filename, lines).Ok?
    ensures var r := FileStep(g, filename, lines).value;
            var key := GroupKey(filename);
            && r.d[key] == (if key in g.d then g.d[key] else []) + [Throughputs(lines)]
            && r.nthreadsAxis == ThreadCounts(lines)
  {
    FileStepParts(g, filename, lines);
  }

  /** A file leaves the runs of every other group alone and adds at most its own group. */
  lemma FileKeepsOtherGroups(g: Globals, filename: string, lines: seq<string>)
    requires Inv(g) && FileStep(g, filename, lines).Ok?
    ensures var r := FileStep(g, filename, lines).value;
            var key := GroupKey(filename);
            && (forall k :: k in g.d && k != key ==> k in r.d && r.d[k] == g.d[k])
            && r.d.Keys == g.d.Keys + {key}
  {
    FileStepParts(g, filename, lines);
    AppendRunKeeps(g.d, GroupKey(filename), Scan(OpenFile(g, filename), lines).value.throughputAxis);
  }

  lemma AppendRunKeeps(d: map<string, seq<seq<real>>>, key: string, run: seq<real>)
    ensures var d1 := if key in d then d else d[key := []];
            var d2 := d1[key := d1[key] + [run]];
            && (forall k :: k in d && k != key ==> k in d2 && d2[k] == d[k])
            && d2.Keys == d.Keys + {key}
  {
  }

  /**
   * The insert line sets the delete percentage from the last lookup
   * percentage read before it; with none read yet it is a NameError.
   */
  lemma DeletesFromLastLookup(g: Globals, line: string)
    requires StartsWith(line, InsertPrefix) && SecondInt(Split(line)).Ok?
    ensures g.lookups.None? ==> LineStep(g, line) == Err(NameError)
    ensures g.lookups.Some? ==> (LineStep(g, line).Ok? &&
              LineStep(g, line).value.deletes == Some(100 - g.lookups.value - SecondInt(Split(line)).value))
  {
    InsertLineIsNoOther(line);
    var n := SecondInt(Split(line)).value;
    assert LineStep(g, line) == if g.lookups.None? then Err(NameError)
      else Ok(g.(inserts := Some(n), deletes := Some(100 - g.lookups.value - n)));
  }

  /** An insert line starts with none of the prefixes tested before it. */
  lemma InsertLineIsNoOther(line: string)
    requires StartsWith(line, InsertPrefix)
    ensures !StartsWith(line, NumThreadsPrefix) && !StartsWith(line, ThroughputPrefix) && !StartsWith(line, LookupPrefix)
  {
    assert line[0] == InsertPrefix[0] == ' ' != ThroughputPrefix[0];
    assert line[2] == InsertPrefix[2] == 'i';
    assert NumThreadsPrefix[2] == 'n' && LookupPrefix[2] == 'l';
  }

  // ---------------------------------------------------------------------
  // The figure
  // ---------------------------------------------------------------------

  const OutputFile: string := "nthreads-VS-throughput.png"

  /** What the script draws: one averaged curve per group, the x tick labels, the title. */
  datatype Figure = Figure(curves: seq<(Style, seq<real>)>, xticks: seq<int>, title: string, file: string)

  /** The curves for the groups listed, in that order (source lines 116-121). */
  function Curves(g: Globals, groups: seq<string>): (r: Result<seq<(Style, seq<real>)>, ScriptError>)
    requires forall i :: 0 <= i < |groups| ==> groups[i] in g.d
    ensures r.Ok? ==> |r.value| == |groups|
    ensures r.Ok? ==> forall i :: 0 <= i < |groups| ==>
              Average(g.d[groups[i]]).Ok? && r.value[i] == (LabelOf(groups[i]), Average(g.d[groups[i]]).value)
    ensures r.Err? ==> exists i :: 0 <= i < |groups| && Average(g.d[groups[i]]).Err?
  {
    if groups == [] then Ok([])
    else match Curves(g, groups[..|groups| - 1])
      case Err(e) => Err(e)
      case Ok(cs) =>
        var last := groups[|groups| - 1];
        match Average(g.d[last])
        case Err(e) => Err(e)
        case Ok(avg) => Ok(cs + [(LabelOf(last), avg)])
  }

  /** The title: key range and lookup percentage (source line 130). */
  function Title(g: Globals): (r: Result<string, ScriptError>)
    ensures g.maxKey.None? ==> r == Err(NameError)
    ensures r.Err? <==> || g.maxKey.None? || LargeNumberLabel(g.maxKey.value, 1000).Err?
                        || g.lookups.None?
    ensures r.Ok? ==> EndsWith(r.value, IntToString(g.lookups.value) + "% lookups")
  {
    if g.maxKey.None? then Err(NameError)
    else match LargeNumberLabel(g.maxKey.value, 1000)
      case Err(e) => Err(e)
      case Ok(keys) =>
        if g.lookups.None? then Err(NameError)
        else Ok(keys + " keys - " + IntToString(g.lookups.value) + "% lookups")
  }

  /** The whole script on its command-line files. */
  function Script(files: seq<(string, seq<string>)>): Result<Figure, ScriptError>
  {
    match ReadAll(files)
    case Err(e) => Err(e)
    case Ok(g) =>
      match Curves(g, g.groups)
      case Err(e) => Err(e)
      case Ok(cs) =>
        match Title(g)
        case Err(e) => Err(e)
        case Ok(t) => Ok(Figure(cs, g.nthreadsAxis, t, OutputFile))
  }

  /** The read loop over one file's lines, updating the globals. */
  method ReadLine(g: Globals, line: string) returns (r: Result<Globals, ScriptError>)
    ensures r == LineStep(g, line)
  {
    var tokens := Split(line);
    var h := g;
    if StartsWith(line, NumThreadsPrefix) {
      var n := SecondInt(tokens);
      if n.Err? { return Err(n.error); }
      h := h.(nthreadsAxis := h.nthreadsAxis + [n.value]);
    } else if StartsWith(line, ThroughputPrefix) {
      if |tokens| < 2 { return Err(IndexError); }
      var x := ParseFloat(tokens[1]);
      if x.Err? { return Err(x.error); }
      h := h.(throughputAxis := h.throughputAxis + [x.value]);
    } else if StartsWith(line, LookupPrefix) {
      var n := SecondInt(tokens);
      if n.Err? { return Err(n.error); }
      h := h.(lookups := Some(n.value));
    } else if StartsWith(line, InsertPrefix) {
      var n := SecondInt(tokens);
      if n.Err? { return Err(n.error); }
      h := h.(inserts := Some(n.value));
      if h.lookups.None? { return Err(NameError); }
      h := h.(deletes := Some(100 - h.lookups.value - n.value));
    } else if StartsWith(line, MaxKeyPrefix) {
      var n := SecondInt(tokens);
      if n.Err? { return Err(n.error); }
      h := h.(maxKey := Some(n.value));
    }
    r := Ok(h);
  }

  lemma {:induction false} ScanFailureSticks(g: Globals, lines: seq<string>, i: nat)
    requires i < |lines| && Scan(g, lines[..i + 1]).Err?
    ensures Scan(g, lines) == Scan(g, lines[..i + 1])
    decreases |lines| - i
  {
    if i + 1 < |lines| {
      assert lines[..i + 2][..i + 1] == lines[..i + 1];
      ScanFailureSticks(g, lines, i + 1);
    } else {
      assert lines[..i + 1] == lines;
    }
  }

  lemma {:induction false} ReadAllFailureSticks(files: seq<(string, seq<string>)>, f: nat)
    requires f < |files| && ReadAll(files[..f + 1]).Err?
    ensures ReadAll(files) == ReadAll(files[..f + 1])
    decreases |files| - f
  {
    if f + 1 < |files| {
      assert files[..f + 2][..f + 1] == files[..f + 1];
      ReadAllFailureSticks(files, f + 1);
    } else {
      assert files[..f + 1] == files;
    }
  }

  /** After file `f`, either the files so far have been read or the whole read has failed. */
  lemma ReadAllAfter(files: seq<(string, seq<string>)>, f: nat, g: Globals, next: Result<Globals, ScriptError>)
    requires f < |files| && ReadAll(files[..f]) == Ok(g)
    requires Inv(g) && next == FileStep(g, files[f].0, files[f].1)
    ensures next.Ok? ==> ReadAll(files[..f + 1]) == next
    ensures next.Err? ==> ReadAll(files) == Err(next.error)
  {
    ReadAllNext(files, f, g);
    if next.Err? {
      ReadAllFailureSticks(files, f);
    }
  }

  /** Reading one more file is one more `FileStep`. */
  lemma ReadAllNext(files: seq<(string, seq<string>)>, f: nat, g: Globals)
    requires f < |files| && ReadAll(files[..f]) == Ok(g)
    ensures Inv(g) && ReadAll(files[..f + 1]) == FileStep(g, files[f].0, files[f].1)
  {
    assert files[..f + 1][..f] == files[..f];
  }

  /** One file: find its group, reset the axes, read its lines, append its run (source lines 82-110). */
  method ReadFile(g0: Globals, filename: string, lines: seq<string>) returns (r: Result<Globals, ScriptError>)
    requires Inv(g0)
    ensures r == FileStep(g0, filename, lines)
  {
    var g := g0;
    var key := GroupKey(filename);
    if !(key in g.d) {
      g := g.(d := g.d[key := []], groups := g.groups + [key]);
    }
    g := g.(nthreadsAxis := [], throughputAxis := []);
    assert g == OpenFile(g0, filename);
    var s := ScanLines(g, lines);
    if s.Err? {
      return Err(s.error);
    }
    r := Ok(s.value.(d := s.value.d[key := s.value.d[key] + [s.value.throughputAxis]]));
  }

  /** The read loop over the lines of one file (source lines 91-108). */
  method ScanLines(start: Globals, lines: seq<string>) returns (r: Result<Globals, ScriptError>)
    ensures r == Scan(start, lines)
  {
    var g := start;
    var i := 0;
    assert lines[..i] == [];
    while i < |lines|
      invariant 0 <= i <= |lines|
      invariant Scan(start, lines[..i]) == Ok(g)
    {
      var next := ScanOne(g, start, lines, i);
      if next.Err? {
        ScanFailureSticks(start, lines, i);
        return next;
      }
      g := next.value;
      i := i + 1;
    }
    assert lines[..i] == lines;
    r := Ok(g);
  }

  method ScanOne(g: Globals, start: Globals, lines: seq<string>, i: nat) returns (next: Result<Globals, ScriptError>)
    requires i < |lines| && Scan(start, lines[..i]) == Ok(g)
    ensures next == Scan(start, lines[..i + 1])
  {
    ScanNextLine(start, lines, i);
    next := ReadLine(g, lines[i]);
  }

  lemma ScanNextLine(g: Globals, lines: seq<string>, i: nat)
    requires i < |lines| && Scan(g, lines[..i]).Ok?
    ensures Scan(g, lines[..i + 1]) == LineStep(Scan(g, lines[..i]).value, lines[i])
  {
    assert lines[..i + 1][..i] == lines[..i];
  }

  /** The loop over files (source lines 81-110). */
  method ReadFiles(files: seq<(string, seq<string>)>) returns (r: Result<Globals, ScriptError>)
    ensures r == ReadAll(files)
  {
    var g := Initial;
    var f := 0;
    while f < |files|
      invariant 0 <= f <= |files|
      invariant ReadAll(files[..f]) == Ok(g) && Inv(g)
    {
      var next := ReadNext(files, f, g);
      if next.Err? {
        return Err(next.error);
      }
      g := next.value;
      f := f + 1;
    }
    assert files[..f] == files;
    r := Ok(g);
  }

  /** One iteration of the loop over files: read file `f` after the files before it. */
  method ReadNext(files: seq<(string, seq<string>)>, f: nat, g: Globals) returns (next: Result<Globals, ScriptError>)
    requires f < |files| && ReadAll(files[..f]) == Ok(g) && Inv(g)
    ensures next.Ok? ==> ReadAll(files[..f + 1]) == next && Inv(next.value)
    ensures next.Err? ==> ReadAll(files) == Err(next.error)
  {
    next := ReadFile(g, files[f].0, files[f].1);
    ReadAllAfter(files, f, g, next);
  }

  /** The plotting loop and the title (source lines 116-141). */
  method Draw(g: Globals) returns (r: Result<Figure, ScriptError>)
    requires Inv(g)
    ensures r == (match Curves(g, g.groups)
                  case Err(e) => Err(e)
                  case Ok(cs) =>
                    match Title(g)
                    case Err(e) => Err(e)
                    case Ok(t) => Ok(Figure(cs, g.nthreadsAxis, t, OutputFile)))
  {
    var curves: seq<(Style, seq<real>)> := [];
    var i := 0;
    while i < |g.groups|
      invariant 0 <= i <= |g.groups|
      invariant Curves(g, g.groups[..i]) == Ok(curves)
    {
      var avg := GetAverage(g.d[g.groups[i]]);
      if avg.Err? {
        CurvesFailureSticks(g, i, curves);
        return Err(avg.error);
      }
      CurvesNext(g, i, curves, avg.value);
      curves := curves + [(LabelOf(g.groups[i]), avg.value)];
      i := i + 1;
    }
    assert g.groups[..i] == g.groups;
    if g.maxKey.None? {
      return Err(NameError);
    }
    var keys := PrefixLargeNumber(g.maxKey.value, 1000);
    if keys.Err? {
      return Err(keys.error);
    }
    if g.lookups.None? {
      return Err(NameError);
    }
    r := Ok(Figure(curves, g.nthreadsAxis, keys.value + " keys - " + IntToString(g.lookups.value) + "% lookups", OutputFile));
  }

  lemma CurvesNext(g: Globals, i: nat, curves: seq<(Style, seq<real>)>, avg: seq<real>)
    requires Inv(g) && i < |g.groups| && Curves(g, g.groups[..i]) == Ok(curves)
    requires Average(g.d[g.groups[i]]) == Ok(avg)
    ensures Curves(g, g.groups[..i + 1]) == Ok(curves + [(LabelOf(g.groups[i]), avg)])
  {
    assert g.groups[..i + 1][..i] == g.groups[..i];
  }

  lemma CurvesFailureSticks(g: Globals, i: nat, curves: seq<(Style, seq<real>)>)
    requires Inv(g) && i < |g.groups| && Curves(g, g.groups[..i]) == Ok(curves)
    requires Average(g.d[g.groups[i]]).Err?
    ensures Curves(g, g.groups) == Err(Average(g.d[g.groups[i]]).error)
  {
    assert g.groups[..i + 1][..i] == g.groups[..i];
    CurvesStayFailed(g, g.groups, i + 1);
  }

  lemma CurvesExtend(g: Globals, groups: seq<string>, x: string)
    requires forall i :: 0 <= i < |groups| ==> groups[i] in g.d
    requires x in g.d && Curves(g, groups).Err?
    ensures Curves(g, groups + [x]) == Curves(g, groups)
  {
    assert (groups + [x])[..|groups|] == groups;
  }

  lemma {:induction false} CurvesStayFailed(g: Globals, groups: seq<string>, n: nat)
    requires forall i :: 0 <= i < |groups| ==> groups[i] in g.d
    requires n <= |groups| && Curves(g, groups[..n]).Err?
    ensures Curves(g, groups) == Curves(g, groups[..n])
    decreases |groups| - n
  {
    if n < |groups| {
      assert groups[..n + 1] == groups[..n] + [groups[n]];
      CurvesExtend(g, groups[..n], groups[n]);
      CurvesStayFailed(g, groups, n + 1);
    } else {
      assert groups[..n] == groups;
    }
  }

  /** The whole script. */
  method PlotNThreadsScript(files: seq<(string, seq<string>)>) returns (r: Result<Figure, ScriptError>)
    ensures r == Script(files)
  {
    var g := ReadFiles(files);
    if g.Err? {
      return Err(g.error);
    }
    r := Draw(g.value);
  }
}
