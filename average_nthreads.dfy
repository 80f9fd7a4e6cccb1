/**
 * Model of scripts/get_average_nthreads.py: every file named on the command
 * line is read line by line; a "  num_threads:" line selects the current
 * thread count (creating its bucket on first sight), a
 * "Throughput(Ops/usec):" line adds a sample to the bucket of the current
 * thread count, and at the end one mean per thread count is reported in
 * ascending thread-count order.  File contents are given as sequences of
 * lines; the printed text becomes a sequence of (thread count, mean) pairs.
 */
module AverageNThreads {
  import opened Wrappers
  import opened ScriptText

  /**
   * The script's global variables between two lines: the dictionary `d`
   * (its buckets, and the list `d.keys()` returns, here in insertion order:
   * Python 2 leaves that order unspecified and the script sorts it away) and
   * `nthreads` (None while it has never been assigned).
   */
  datatype State = State(buckets: map<int, seq<real>>, keys: seq<int>, nthreads: Option<int>)

  const Initial: State := State(map[], [], None)

  /** `keys` lists each key of `d` once; the current thread count has a bucket. */
  predicate Inv(st: State)
  {
    && (forall i, j :: 0 <= i < j < |st.keys| ==> st.keys[i] != st.keys[j])
    && (forall n :: n in st.keys ==> n in st.buckets)
    && (forall n :: n in st.buckets ==> n in st.keys)
    && (st.nthreads.Some? ==> st.nthreads.value in st.buckets)
  }

  /** One iteration of the read loop (source lines 19-27). */
  function Step(st: State, line: string): (r: Result<State, ScriptError>)
    requires Inv(st)
    ensures r.Ok? ==> Inv(r.value) && st.buckets.Keys <= r.value.buckets.Keys
  {
    var tokens := Split(line);
    if StartsWith(line, NumThreadsPrefix) then
      if |tokens| < 2 then Err(IndexError)
      else match ParseInt(tokens[1])
        case Err(e) => Err(e)
        case Ok(n) =>
          if n in st.buckets then Ok(State(st.buckets, st.keys, Some(n)))
          else Ok(State(st.buckets[n := []], st.keys + [n], Some(n)))
    else if StartsWith(line, ThroughputPrefix) then
      if |tokens| < 2 then Err(IndexError)
      else match ParseFloat(tokens[1])
        case Err(e) => Err(e)
        case Ok(x) =>
          if st.nthreads.None? then Err(NameError)
          else
            var n := st.nthreads.value;
            Ok(State(st.buckets[n := st.buckets[n] + [x]], st.keys, st.nthreads))
    else Ok(st)
  }

  /** The read loop over a sequence of lines; the first exception ends it. */
  function Run(st: State, lines: seq<string>): (r: Result<State, ScriptError>)
    requires Inv(st)
    ensures r.Ok? ==> Inv(r.value) && st.buckets.Keys <= r.value.buckets.Keys
    decreases |lines|
  {
    if lines == [] then Ok(st)
    else match Run(st, lines[..|lines| - 1])
      case Err(e) => Err(e)
      case Ok(s) => Step(s, lines[|lines| - 1])
  }

  /** All lines of all files, in command-line order. */
  function Flatten(files: seq<seq<string>>): seq<string>
  {
    if files == [] then [] else Flatten(files[..|files| - 1]) + files[|files| - 1]
  }

  lemma {:induction false} FlattenSplit(files: seq<seq<string>>, f: nat)
    requires f <= |files|
    ensures Flatten(files) == Flatten(files[..f]) + Flatten(files[f..])
    decreases |files| - f
  {
    if f < |files| {
      FlattenSplit(files, f + 1);
      assert files[..f + 1][..f] == files[..f];
      FlattenSplit(files[f..], 1);
      assert files[f..][..1] == [files[f]];
      assert files[f..][1..] == files[f + 1..];
      assert Flatten([files[f]]) == Flatten([]) + files[f];
    } else {
      assert files[..f] == files;
    }
  }

  /**
   * Running two pieces one after the other is running their concatenation:
   * the state is carried across file boundaries, so a file's throughput lines
   * may land in a bucket chosen by an earlier file.
   */
  lemma {:induction false} RunAppend(st: State, a: seq<string>, b: seq<string>)
    requires Inv(st)
    ensures Run(st, a + b) == (match Run(st, a)
                                case Err(e) => Err(e)
                                case Ok(s) => Run(s, b))
    decreases |b|
  {
    if b == [] {
      assert a + b == a;
    } else {
      RunAppend(st, a, b[..|b| - 1]);
      assert (a + b)[..|a + b| - 1] == a + b[..|b| - 1];
    }
  }

  /** Lines that start with neither prefix change neither buckets nor context. */
  lemma OtherLinesIgnored(st: State, line: string)
    requires Inv(st)
    requires !StartsWith(line, NumThreadsPrefix) && !StartsWith(line, ThroughputPrefix)
    ensures Step(st, line) == Ok(st)
  {
  }

  // ---------------------------------------------------------------------
  // An independent description of the buckets
  // ---------------------------------------------------------------------

  /** The thread count a line announces, if it is a well-formed num_threads line. */
  function AnnouncedThreads(line: string): Option<int>
  {
    var tokens := Split(line);
    if StartsWith(line, NumThreadsPrefix) && |tokens| >= 2 && ParseInt(tokens[1]).Ok?
    then Some(ParseInt(tokens[1]).value) else None
  }

  /** The sample a line carries, if it is a well-formed throughput line. */
  function CarriedSample(line: string): Option<real>
  {
    var tokens := Split(line);
    if !StartsWith(line, NumThreadsPrefix) && StartsWith(line, ThroughputPrefix)
       && |tokens| >= 2 && ParseFloat(tokens[1]).Ok?
    then Some(ParseFloat(tokens[1]).value) else None
  }

  /** The thread count announced last in `lines`. */
  function LastAnnounced(lines: seq<string>): Option<int>
  {
    if lines == [] then None
    else match AnnouncedThreads(lines[|lines| - 1])
      case Some(n) => Some(n)
      case None => LastAnnounced(lines[..|lines| - 1])
  }

  /** Every thread count announced in `lines`. */
  function Announced(lines: seq<string>): set<int>
  {
    if lines == [] then {}
    else Announced(lines[..|lines| - 1]) +
         (match AnnouncedThreads(lines[|lines| - 1]) case Some(n) => {n} case None => {})
  }

  /** The samples of `lines`, in order, whose most recent announcement is `n`. */
  function Samples(lines: seq<string>, n: int): seq<real>
  {
    if lines == [] then []
    else
      var init := lines[..|lines| - 1];
      Samples(init, n) +
      (match CarriedSample(lines[|lines| - 1])
        case Some(x) => if LastAnnounced(init) == Some(n) then [x] else []
        case None => [])
  }

  /** `st` holds, for `lines`, the buckets and the context the description predicts. */
  predicate Describes(st: State, lines: seq<string>)
  {
    && st.buckets.Keys == Announced(lines)
    && st.nthreads == LastAnnounced(lines)
    && forall n :: n in Announced(lines) ==> st.buckets[n] == Samples(lines, n)
  }

  /**
   * A run that raises nothing ends with one bucket per announced thread
   * count, holding exactly the samples announced under it, in line order,
   * and with the last announced count as the current one.
   */
  lemma {:induction false} BucketsHoldSamples(lines: seq<string>)
    requires Run(Initial, lines).Ok?
    ensures Run(Initial, lines).value.buckets.Keys == Announced(lines)
    ensures Run(Initial, lines).value.nthreads == LastAnnounced(lines)
    ensures forall n :: n in Announced(lines) ==>
              Run(Initial, lines).value.buckets[n] == Samples(lines, n)
    decreases |lines|
  {
    if lines != [] {
      var init := lines[..|lines| - 1];
      BucketsHoldSamples(init);
      var s := Run(Initial, init).value;
      assert Describes(s, init);
      DescribesStep(lines, s, Run(Initial, lines).value);
    }
  }

  /** One more line keeps the state in step with the description. */
  lemma DescribesStep(lines: seq<string>, s: State, t: State)
    requires lines != [] && Inv(s) && Describes(s, lines[..|lines| - 1])
    requires Step(s, lines[|lines| - 1]) == Ok(t)
    ensures Describes(t, lines)
  {
    var init := lines[..|lines| - 1];
    var line := lines[|lines| - 1];
    var tokens := Split(line);
    if StartsWith(line, NumThreadsPrefix) {
      var n := ParseInt(tokens[1]).value;
      assert AnnouncedThreads(line) == Some(n) && CarriedSample(line) == None;
      forall m | m in Announced(lines) ensures t.buckets[m] == Samples(lines, m) {
        if m == n && n !in Announced(init) {
          UnannouncedHasNoSamples(init, n);
        }
      }
    } else if StartsWith(line, ThroughputPrefix) {
      assert AnnouncedThreads(line) == None;
      assert CarriedSample(line) == Some(ParseFloat(tokens[1]).value);
    } else {
      assert AnnouncedThreads(line) == None && CarriedSample(line) == None;
    }
  }

  /** A count never announced collects no sample. */
  lemma {:induction false} UnannouncedHasNoSamples(lines: seq<string>, n: int)
    requires n !in Announced(lines)
    ensures Samples(lines, n) == []
    decreases |lines|
  {
    if lines != [] {
      var init := lines[..|lines| - 1];
      UnannouncedHasNoSamples(init, n);
      LastIsAnnounced(init);
    }
  }

  lemma {:induction false} LastIsAnnounced(lines: seq<string>)
    ensures LastAnnounced(lines).Some? ==> LastAnnounced(lines).value in Announced(lines)
    decreases |lines|
  {
    if lines != [] {
      LastIsAnnounced(lines[..|lines| - 1]);
    }
  }

  /**
   * A throughput line met before any num_threads line of the whole run
   * raises an exception (NameError when its sample is well formed).
   */
  lemma {:induction false} SampleWithoutContextFails(lines: seq<string>, i: nat)
    requires i < |lines|
    requires StartsWith(lines[i], ThroughputPrefix)
    requires forall j :: 0 <= j < i ==> !StartsWith(lines[j], NumThreadsPrefix)
    ensures Run(Initial, lines).Err?
  {
    NoAnnouncementNoContext(lines[..i]);
    RunAppend(Initial, lines[..i + 1], lines[i + 1..]);
    assert lines[..i + 1] + lines[i + 1..] == lines;
    var pre := lines[..i + 1];
    assert pre[..|pre| - 1] == lines[..i] && pre[|pre| - 1] == lines[i];
    PrefixesExclusive(lines[i]);
    if Run(Initial, lines[..i]).Ok? {
      var s := Run(Initial, lines[..i]).value;
      assert s.nthreads.None?;
      assert Step(s, lines[i]).Err?;
    }
    assert Run(Initial, pre).Err?;
  }

  lemma {:induction false} NoAnnouncementNoContext(lines: seq<string>)
    requires forall j :: 0 <= j < |lines| ==> !StartsWith(lines[j], NumThreadsPrefix)
    ensures Run(Initial, lines).Ok? ==> Run(Initial, lines).value.nthreads.None?
    decreases |lines|
  {
    if lines != [] {
      NoAnnouncementNoContext(lines[..|lines| - 1]);
    }
  }

  // ---------------------------------------------------------------------
  // The report
  // ---------------------------------------------------------------------

  function Sum(a: seq<real>): real
  {
    if a == [] then 0.0 else Sum(a[..|a| - 1]) + a[|a| - 1]
  }

  /** `avg(a)`: sum(a) / len(a). */
  function Mean(a: seq<real>): real
    requires a != []
  {
    Sum(a) / |a| as real
  }

  /** The mean lies between any lower and any upper bound of the samples. */
  lemma MeanBetween(a: seq<real>, lo: real, hi: real)
    requires a != []
    requires forall i :: 0 <= i < |a| ==> lo <= a[i] <= hi
    ensures lo <= Mean(a) <= hi
  {
    SumBetween(a, lo, hi);
    var n := |a| as real;
    assert lo * n <= Sum(a) <= hi * n;
    assert Mean(a) == Sum(a) / n;
    assert lo == (lo * n) / n && hi == (hi * n) / n;
  }

  /** Each of the `|a|` terms adds between `lo` and `hi` to the sum. */
  lemma {:induction false} SumBetween(a: seq<real>, lo: real, hi: real)
    requires forall i :: 0 <= i < |a| ==> lo <= a[i] <= hi
    ensures lo * |a| as real <= Sum(a) <= hi * |a| as real
    decreases |a|
  {
    if a != [] {
      SumBetween(a[..|a| - 1], lo, hi);
    }
  }

  /**
   * The printed report for the dictionary `d` whose `d.keys()` list is
   * `keys`: one (thread count, mean) pair per key, in ascending order of
   * thread count; a key with an empty bucket makes `avg` divide by zero.
   */
  function Averages(d: map<int, seq<real>>, keys: seq<int>): (r: Result<seq<(int, real)>, ScriptError>)
    requires forall n :: n in keys <==> n in d
    ensures r.Err? <==> exists n :: n in d && d[n] == []
    ensures r.Err? ==> r.error == ZeroDivisionError
    ensures r.Ok? ==> |r.value| == |keys|
    ensures r.Ok? ==> forall i, j :: 0 <= i < j < |r.value| ==> r.value[i].0 <= r.value[j].0
    ensures r.Ok? ==> forall i :: 0 <= i < |r.value| ==>
              r.value[i].0 in d && d[r.value[i].0] != [] && r.value[i].1 == Mean(d[r.value[i].0])
    ensures r.Ok? ==> forall n :: n in d ==> exists i :: 0 <= i < |r.value| && r.value[i].0 == n
  {
    var sorted := SortInts(keys);
    SameElements(keys, sorted);
    SortedAverages(d, sorted);
    AveragesOf(d, sorted)
  }

  /** The report over the keys in ascending order has one entry per key, in that order, each its bucket's mean. */
  lemma SortedAverages(d: map<int, seq<real>>, keys: seq<int>)
    requires forall n :: n in keys <==> n in d
    requires Ascending(keys)
    ensures forall i :: 0 <= i < |keys| ==> keys[i] in d
    ensures var r := AveragesOf(d, keys);
      && (r.Err? <==> exists n :: n in d && d[n] == [])
      && (r.Ok? ==> forall i, j :: 0 <= i < j < |r.value| ==> r.value[i].0 <= r.value[j].0)
      && (r.Ok? ==> forall i :: 0 <= i < |r.value| ==>
            r.value[i].0 in d && d[r.value[i].0] != [] && r.value[i].1 == Mean(d[r.value[i].0]))
      && (r.Ok? ==> forall n :: n in d ==> exists i :: 0 <= i < |r.value| && r.value[i].0 == n)
  {
    assert forall i :: 0 <= i < |keys| ==> keys[i] in keys;
    var r := AveragesOf(d, keys);
    if r.Err? {
      var i :| 0 <= i < |keys| && d[keys[i]] == [];
      assert keys[i] in d;
    } else {
      forall n | n in d
        ensures exists i :: 0 <= i < |r.value| && r.value[i].0 == n
      {
        var i :| 0 <= i < |keys| && keys[i] == n;
        assert r.value[i].0 == n;
      }
      forall n | n in d
        ensures d[n] != []
      {
        var i :| 0 <= i < |keys| && keys[i] == n;
        assert d[keys[i]] != [];
      }
    }
  }

  lemma SameElements(keys: seq<int>, sorted: seq<int>)
    requires multiset(sorted) == multiset(keys)
    ensures |sorted| == |keys|
    ensures forall n :: n in sorted <==> n in keys
  {
    assert |multiset(sorted)| == |multiset(keys)|;
    forall n ensures n in sorted <==> n in keys {
      assert n in sorted <==> n in multiset(sorted);
      assert n in keys <==> n in multiset(keys);
    }
  }

  function AveragesOf(d: map<int, seq<real>>, keys: seq<int>): (r: Result<seq<(int, real)>, ScriptError>)
    requires forall i :: 0 <= i < |keys| ==> keys[i] in d
    ensures r.Err? <==> exists i :: 0 <= i < |keys| && d[keys[i]] == []
    ensures r.Err? ==> r.error == ZeroDivisionError
    ensures r.Ok? ==> |r.value| == |keys|
    ensures r.Ok? ==> forall i :: 0 <= i < |keys| ==> r.value[i] == (keys[i], Mean(d[keys[i]]))
  {
    if keys == [] then Ok([])
    else if d[keys[0]] == [] then Err(ZeroDivisionError)
    else match AveragesOf(d, keys[1..])
      case Err(e) => Err(e)
      case Ok(rest) => Ok([(keys[0], Mean(d[keys[0]]))] + rest)
  }

  /** What the whole script produces for the given file contents. */
  function Script(files: seq<seq<string>>): Result<seq<(int, real)>, ScriptError>
  {
    if files == [] then Err(Exit)
    else match Run(Initial, Flatten(files))
      case Err(e) => Err(e)
      case Ok(st) => Averages(st.buckets, st.keys)
  }

  /** The report loop (source lines 31-34). */
  method Report(d: map<int, seq<real>>, dkeys: seq<int>) returns (r: Result<seq<(int, real)>, ScriptError>)
    requires forall n :: n in dkeys <==> n in d
    ensures r == Averages(d, dkeys)
  {
    var keys := SortInts(dkeys);
    SameElements(dkeys, keys);
    assert forall j :: 0 <= j < |keys| ==> keys[j] in d by {
      forall j | 0 <= j < |keys| ensures keys[j] in d {
        assert keys[j] in keys;
      }
    }
    r := MeansInOrder(d, keys);
  }

  /** The loop of the report: the mean of each bucket in the order of `keys`, failing at the first empty one. */
  method MeansInOrder(d: map<int, seq<real>>, keys: seq<int>) returns (r: Result<seq<(int, real)>, ScriptError>)
    requires forall j :: 0 <= j < |keys| ==> keys[j] in d
    ensures r == AveragesOf(d, keys)
  {
    var out: seq<(int, real)> := [];
    var i := 0;
    while i < |keys|
      invariant 0 <= i <= |keys|
      invariant forall j :: 0 <= j < i ==> d[keys[j]] != []
      invariant |out| == i && forall j :: 0 <= j < i ==> out[j] == (keys[j], Mean(d[keys[j]]))
    {
      var bucket := d[keys[i]];
      if |bucket| == 0 {
        assert AveragesOf(d, keys).Err?;
        return AveragesOf(d, keys);
      }
      out := out + [(keys[i], Mean(bucket))];
      i := i + 1;
    }
    r := Ok(out);
    assert AveragesOf(d, keys).Ok?;
    assert AveragesOf(d, keys).value == out;
  }

  /**
   * The body of the read loop for one line (source lines 19-27), updating
   * the globals `d` and `nthreads` held in `st`.
   */
  method ReadLine(st: State, line: string) returns (r: Result<State, ScriptError>)
    requires Inv(st)
    ensures r == Step(st, line)
  {
    var d, dkeys, nthreads := st.buckets, st.keys, st.nthreads;
    var tokens := Split(line);
    if StartsWith(line, NumThreadsPrefix) {
      if |tokens| < 2 {
        return Err(IndexError);
      }
      var parsed := ParseInt(tokens[1]);
      if parsed.Err? {
        return Err(parsed.error);
      }
      nthreads := Some(parsed.value);
      if !(parsed.value in d) {
        d := d[parsed.value := []];
        dkeys := dkeys + [parsed.value];
      }
    } else if StartsWith(line, ThroughputPrefix) {
      if |tokens| < 2 {
        return Err(IndexError);
      }
      var parsed := ParseFloat(tokens[1]);
      if parsed.Err? {
        return Err(parsed.error);
      }
      if nthreads.None? {
        return Err(NameError);
      }
      d := d[nthreads.value := d[nthreads.value] + [parsed.value]];
    }
    r := Ok(State(d, dkeys, nthreads));
  }

  /**
   * The whole script (source lines 5-34): usage check, the read loop over
   * every line of every file, then the report.
   */
  method AverageByThreads(files: seq<seq<string>>) returns (r: Result<seq<(int, real)>, ScriptError>)
    ensures r == Script(files)
  {
    if |files| == 0 {
      return Err(Exit);
    }
    var st := Initial;
    var f := 0;
    while f < |files|
      invariant 0 <= f <= |files|
      invariant Run(Initial, Flatten(files[..f])) == Ok(st)
    {
      var next := ReadLines(st, Flatten(files[..f]), files[f]);
      FlattenNext(files, f);
      if next.Err? {
        FailureSticks(files, f + 1, next.error);
        return Err(next.error);
      }
      st := next.value;
      f := f + 1;
    }
    assert files[..f] == files;
    r := Report(st.buckets, st.keys);
  }

  /** The inner loop of the script over the lines of one file (source lines 14-27). */
  method ReadLines(st0: State, ghost before: seq<string>, lines: seq<string>) returns (r: Result<State, ScriptError>)
    requires Run(Initial, before) == Ok(st0)
    ensures r == Run(Initial, before + lines)
  {
    var st := st0;
    var i := 0;
    assert before + lines[..i] == before;
    while i < |lines|
      invariant 0 <= i <= |lines|
      invariant Run(Initial, before + lines[..i]) == Ok(st)
    {
      var next := ReadNext(st, before, lines, i);
      if next.Err? {
        LaterLines(before, lines, i + 1);
        return next;
      }
      st := next.value;
      i := i + 1;
    }
    assert lines[..i] == lines;
    r := Ok(st);
  }

  method ReadNext(st: State, ghost before: seq<string>, lines: seq<string>, i: nat) returns (next: Result<State, ScriptError>)
    requires i < |lines| && Run(Initial, before + lines[..i]) == Ok(st)
    ensures next == Run(Initial, before + lines[..i + 1])
  {
    next := ReadLine(st, lines[i]);
    NextLine(before, lines, i, st);
  }

  lemma NextLine(before: seq<string>, lines: seq<string>, i: nat, st: State)
    requires i < |lines| && Run(Initial, before + lines[..i]) == Ok(st)
    ensures Inv(st) && Run(Initial, before + lines[..i + 1]) == Step(st, lines[i])
  {
    assert before + lines[..i + 1] == (before + lines[..i]) + [lines[i]];
    RunLastLine(before + lines[..i], lines[i]);
  }

  /** A failure stays a failure whatever lines follow. */
  lemma LaterLines(before: seq<string>, lines: seq<string>, i: nat)
    requires i <= |lines| && Run(Initial, before + lines[..i]).Err?
    ensures Run(Initial, before + lines) == Run(Initial, before + lines[..i])
  {
    assert before + lines == (before + lines[..i]) + lines[i..];
    RunAppend(Initial, before + lines[..i], lines[i..]);
  }

  lemma FlattenNext(files: seq<seq<string>>, f: nat)
    requires f < |files|
    ensures Flatten(files[..f + 1]) == Flatten(files[..f]) + files[f]
  {
    assert files[..f + 1][..f] == files[..f];
  }

  lemma RunLastLine(before: seq<string>, line: string)
    requires Run(Initial, before).Ok?
    ensures Run(Initial, before + [line]) == Step(Run(Initial, before).value, line)
  {
    assert (before + [line])[..|before|] == before;
  }

  lemma FailureSticks(files: seq<seq<string>>, f: nat, e: ScriptError)
    requires f <= |files|
    requires Run(Initial, Flatten(files[..f])) == Err(e)
    ensures Run(Initial, Flatten(files)) == Err(e)
  {
    FlattenSplit(files, f);
    RunAppend(Initial, Flatten(files[..f]), Flatten(files[f..]));
  }
}
