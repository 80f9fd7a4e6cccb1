/**
 * Model of scripts/plotbars_performance_evaluation.py: a results file holds
 * a header line naming the thread count and then one
 * "executable init_size workload throughput" line per measurement.  The
 * samples are bucketed per executable (and per workload or per initial
 * size, depending on the statistic asked for), each bucket is reduced by
 * `geomean`, the reduced values are laid out one row per category and
 * transposed into one bar series per executable.  The environment
 * variables, the command line and the file's lines are parameters; the
 * chart becomes a value.  `geomean` itself is a parameter: its real root is
 * not modelled.
 */
module PlotBars {
  import opened Wrappers
  import opened ScriptText

  /** The statistic named by the first argument. */
  datatype StatType = TreeSize | Workload | Total

  function TypeName(t: StatType): string
  {
    match t
    case TreeSize => "tree_size"
    case Workload => "workload"
    case Total => "total"
  }

  /** LABELS, EXECUTABLES, WORKLOADS and INIT_SIZES (source lines 12-15). */
  datatype Config = Config(labels: seq<string>, executables: seq<string>, workloads: seq<string>, initSizes: seq<string>)

  /** Each variable's value split on whitespace; an unset variable reads as "". */
  function ReadConfig(labels: string, executables: string, workloads: string, initSizes: string): Config
  {
    Config(Split(labels), Split(executables), Split(workloads), Split(initSizes))
  }

  const Colors: seq<string> := ["white", "white", "white", "white", "white", "black", "white"]
  const Hatches: seq<string> := ["", "///", "xxx", "\\\\\\", "ooo", "", "---"]

  /**
   * The configuration and command-line checks (source lines 21-35): every
   * list set, exactly two arguments, and a known statistic.
   */
  function CheckArgs(config: Config, argv: seq<string>): (r: Result<(StatType, string), ScriptError>)
    ensures r.Ok? <==> && config.labels != [] && config.executables != []
                       && config.workloads != [] && config.initSizes != []
                       && |argv| == 3 && argv[1] in {"tree_size", "workload", "total"}
    ensures r.Err? ==> r.error == Exit
    ensures r.Ok? ==> TypeName(r.value.0) == argv[1] && r.value.1 == argv[2]
  {
    if |config.labels| == 0 || |config.executables| == 0 || |config.workloads| == 0 || |config.initSizes| == 0 then
      Err(Exit)
    else if |argv| != 3 then Err(Exit)
    else if argv[1] != "tree_size" && argv[1] != "workload" && argv[1] != "total" then Err(Exit)
    else
      var t := if argv[1] == "tree_size" then TreeSize else if argv[1] == "workload" then Workload else Total;
      Ok((t, argv[2]))
  }

  /** `int(line.split()[2])` of the header line (source line 41). */
  function ThreadCount(header: string): (r: Result<int, ScriptError>)
    ensures r == Err(IndexError) <==> |Split(header)| < 3
    ensures r.Err? ==> r.error == IndexError || r.error == ValueError
    ensures r.Ok? ==> var tok := Split(header)[2]; -(Pow10(|tok|) as int) < r.value < Pow10(|tok|)
  {
    var tokens := Split(header);
    if |tokens| < 3 then Err(IndexError) else ParseInt(tokens[2])
  }

  /** A header whose third token is the decimal text of `n` announces `n` threads. */
  lemma ThreadCountReadsThirdToken(header: string, n: int)
    requires |Split(header)| >= 3 && Split(header)[2] == IntToString(n)
    ensures ThreadCount(header) == Ok(n)
  {
    IntRoundTrip(n);
  }

  // ---------------------------------------------------------------------
  // The read loop
  // ---------------------------------------------------------------------

  /** The dictionary key of a measurement (source lines 46-51). */
  function Key(t: StatType, executable: string, initSize: string, workload: string): (k: string)
    ensures |executable| <= |k| && k[..|executable|] == executable
    ensures k == executable <==> t.Total?
  {
    match t
    case Total => executable
    case Workload => executable + "_" + workload
    case TreeSize => executable + "_" + initSize
  }

  /**
   * For executables without '_', distinct measurements of one statistic get
   * distinct keys unless they agree on the fields the statistic groups by.
   */
  lemma KeySeparates(t: StatType, e1: string, i1: string, w1: string, e2: string, i2: string, w2: string)
    requires '_' !in e1 && '_' !in e2
    requires Key(t, e1, i1, w1) == Key(t, e2, i2, w2)
    ensures e1 == e2
    ensures t.Workload? ==> w1 == w2
    ensures t.TreeSize? ==> i1 == i2
  {
    match t
    case Total =>
    case Workload => SplitAtFirstSep(e1, w1, e2, w2);
    case TreeSize => SplitAtFirstSep(e1, i1, e2, i2);
  }

  /** `a + "_" + x` determines `a` and `x` when `a` has no '_'. */
  lemma SplitAtFirstSep(a: string, x: string, b: string, y: string)
    requires '_' !in a && '_' !in b
    requires a + "_" + x == b + "_" + y
    ensures a == b && x == y
  {
    var u := a + "_" + x;
    FirstSepAt(a, x);
    FirstSepAt(b, y);
    assert |a| == |b|;
    assert a == u[..|a|] == b;
    assert x == u[|a| + 1..] == y;
  }

  /** The first '_' of `a + "_" + x` is at index `|a|` when `a` has no '_'. */
  lemma FirstSepAt(a: string, x: string)
    requires '_' !in a
    ensures var u := a + "_" + x; u[|a|] == '_' && forall j :: 0 <= j < |a| ==> u[j] != '_'
  {
    var u := a + "_" + x;
    assert forall j :: 0 <= j < |a| ==> u[j] == a[j];
  }

  /** A measurement line: exactly four fields, the last a number. */
  predicate WellFormed(line: string)
  {
    var fields := Split(line);
    |fields| == 4 && ParseFloat(fields[3]).Ok?
  }

  /** One iteration of the read loop (source lines 44-56). */
  function LineStep(d: map<string, seq<real>>, t: StatType, line: string): (r: Result<map<string, seq<real>>, ScriptError>)
    ensures r.Ok? <==> WellFormed(line)
    ensures r.Err? ==> r.error == ValueError
  {
    var fields := Split(line);
    if |fields| != 4 then Err(ValueError)
    else
      var key := Key(t, fields[0], fields[1], fields[2]);
      var bucket := if key in d then d[key] else [];
      match ParseFloat(fields[3])
      case Err(e) => Err(e)
      case Ok(x) => Ok(d[key := bucket + [x]])
  }

  function ReadLoop(t: StatType, lines: seq<string>): (r: Result<map<string, seq<real>>, ScriptError>)
    ensures r.Err? ==> r.error == ValueError
    decreases |lines|
  {
    if lines == [] then Ok(map[])
    else match ReadLoop(t, lines[..|lines| - 1])
      case Err(e) => Err(e)
      case Ok(d) => LineStep(d, t, lines[|lines| - 1])
  }

  /** The read loop succeeds exactly when every line is a well-formed measurement. */
  lemma {:induction false} ReadLoopOk(t: StatType, lines: seq<string>)
    ensures ReadLoop(t, lines).Ok? <==> forall i :: 0 <= i < |lines| ==> WellFormed(lines[i])
    decreases |lines|
  {
    if lines != [] {
      var init := lines[..|lines| - 1];
      ReadLoopOk(t, init);
      ReadLoopLast(t, lines);
      AllSnoc(lines, init, WellFormed);
    }
  }

  lemma AllSnoc<T>(s: seq<T>, init: seq<T>, p: T -> bool)
    requires s != [] && init == s[..|s| - 1]
    ensures (forall i :: 0 <= i < |s| ==> p(s[i])) <==>
            (forall i :: 0 <= i < |init| ==> p(init[i])) && p(s[|s| - 1])
  {
    assert forall i :: 0 <= i < |init| ==> init[i] == s[i];
  }

  lemma ReadLoopLast(t: StatType, lines: seq<string>)
    requires lines != []
    ensures ReadLoop(t, lines).Ok? <==> ReadLoop(t, lines[..|lines| - 1]).Ok? && WellFormed(lines[|lines| - 1])
  {
    var init := lines[..|lines| - 1];
    if ReadLoop(t, init).Ok? {
      assert ReadLoop(t, lines) == LineStep(ReadLoop(t, init).value, t, lines[|lines| - 1]);
    }
  }

  /** The samples of the lines whose key is `key`, in file order. */
  function Bucket(t: StatType, lines: seq<string>, key: string): seq<real>
  {
    if lines == [] then []
    else
      var line := lines[|lines| - 1];
      var fields := Split(line);
      var more := if WellFormed(line) && Key(t, fields[0], fields[1], fields[2]) == key
                  then [ParseFloat(fields[3]).value] else [];
      Bucket(t, lines[..|lines| - 1], key) + more
  }

  /** Every key seen has a bucket holding exactly its samples, in file order. */
  lemma {:induction false} ReadLoopBuckets(t: StatType, lines: seq<string>)
    requires ReadLoop(t, lines).Ok?
    ensures forall key :: key in ReadLoop(t, lines).value <==> Bucket(t, lines, key) != []
    ensures forall key :: key in ReadLoop(t, lines).value ==> ReadLoop(t, lines).value[key] == Bucket(t, lines, key)
    decreases |lines|
  {
    if lines != [] {
      ReadLoopBuckets(t, lines[..|lines| - 1]);
    }
  }

  /** The body of the read loop for one line (source lines 44-54). */
  method AddSample(d0: map<string, seq<real>>, t: StatType, line: string) returns (r: Result<map<string, seq<real>>, ScriptError>)
    ensures r == LineStep(d0, t, line)
  {
    var d := d0;
    var fields := Split(line);
    if |fields| != 4 {
      return Err(ValueError);
    }
    var key := Key(t, fields[0], fields[1], fields[2]);
    if !(key in d) {
      d := d[key := []];
    }
    assert d[key] == (if key in d0 then d0[key] else []);
    var x := ParseFloat(fields[3]);
    if x.Err? {
      return Err(x.error);
    }
    d := d[key := d[key] + [x.value]];
    assert d == d0[key := (if key in d0 then d0[key] else []) + [x.value]];
    r := Ok(d);
  }

  /** The read loop as the script runs it, over the lines after the header. */
  method ReadSamples(t: StatType, lines: seq<string>) returns (r: Result<map<string, seq<real>>, ScriptError>)
    ensures r == ReadLoop(t, lines)
  {
    var d: map<string, seq<real>> := map[];
    var i := 0;
    assert lines[..i] == [];
    while i < |lines|
      invariant 0 <= i <= |lines|
      invariant ReadLoop(t, lines[..i]) == Ok(d)
    {
      var next := ReadSample(d, t, lines, i);
      if next.Err? {
        ReadFailureSticks(t, lines, i);
        return next;
      }
      d := next.value;
      i := i + 1;
    }
    assert lines[..i] == lines;
    r := Ok(d);
  }

  method ReadSample(d: map<string, seq<real>>, t: StatType, lines: seq<string>, i: nat)
    returns (next: Result<map<string, seq<real>>, ScriptError>)
    requires i < |lines| && ReadLoop(t, lines[..i]) == Ok(d)
    ensures next == ReadLoop(t, lines[..i + 1])
  {
    ReadNextLine(t, lines, i);
    next := AddSample(d, t, lines[i]);
  }

  lemma ReadNextLine(t: StatType, lines: seq<string>, i: nat)
    requires i < |lines| && ReadLoop(t, lines[..i]).Ok?
    ensures ReadLoop(t, lines[..i + 1]) == LineStep(ReadLoop(t, lines[..i]).value, t, lines[i])
  {
    assert lines[..i + 1][..i] == lines[..i];
  }

  /** Once a line raises, the whole read loop raises. */
  lemma {:induction false} ReadFailureSticks(t: StatType, lines: seq<string>, i: nat)
    requires i < |lines| && ReadLoop(t, lines[..i + 1]).Err?
    ensures ReadLoop(t, lines).Err?
    decreases |lines| - i
  {
    if i + 1 < |lines| {
      var longer := lines[..i + 2];
      assert longer[..|longer| - 1] == lines[..i + 1];
      ReadFailureSticks(t, lines, i + 1);
    } else {
      assert lines[..i + 1] == lines;
    }
  }

  // ---------------------------------------------------------------------
  // Rows, one per category
  // ---------------------------------------------------------------------

  /** The categories of the rows: the total has a single row, whose name is unused. */
  function Categories(t: StatType, config: Config): seq<string>
  {
    match t
    case Total => [""]
    case Workload => config.workloads
    case TreeSize => config.initSizes
  }

  /** The dictionary key of executable `exe` in category `cat` (source lines 62, 69, 76). */
  function RowKey(t: StatType, exe: string, cat: string): string
  {
    match t
    case Total => exe
    case Workload => exe + "_" + cat
    case TreeSize => exe + "_" + cat
  }

  /** One row: the reduced bucket of each executable, in configured order. */
  function Row(d: map<string, seq<real>>, geomean: seq<real> -> real, t: StatType, exes: seq<string>, cat: string)
    : (r: Result<seq<real>, ScriptError>)
    ensures r.Ok? <==> forall i :: 0 <= i < |exes| ==> RowKey(t, exes[i], cat) in d
    ensures r.Err? ==> r.error == KeyError
    ensures r.Ok? ==> (|r.value| == |exes| &&
              forall i :: 0 <= i < |exes| ==> r.value[i] == geomean(d[RowKey(t, exes[i], cat)]))
  {
    if exes == [] then Ok([])
    else match Row(d, geomean, t, exes[..|exes| - 1], cat)
      case Err(e) => Err(e)
      case Ok(row) =>
        var key := RowKey(t, exes[|exes| - 1], cat);
        if key in d then Ok(row + [geomean(d[key])]) else Err(KeyError)
  }

  /** All rows, one per category, in configured order (source lines 58-78). */
  function Rows(d: map<string, seq<real>>, geomean: seq<real> -> real, t: StatType, exes: seq<string>, cats: seq<string>)
    : (r: Result<seq<seq<real>>, ScriptError>)
    ensures r.Ok? <==> forall j, i :: 0 <= j < |cats| && 0 <= i < |exes| ==> RowKey(t, exes[i], cats[j]) in d
    ensures r.Err? ==> r.error == KeyError
    ensures r.Ok? ==> |r.value| == |cats| && forall j :: 0 <= j < |cats| ==>
              |r.value[j]| == |exes| &&
              forall i :: 0 <= i < |exes| ==> r.value[j][i] == geomean(d[RowKey(t, exes[i], cats[j])])
  {
    if cats == [] then Ok([])
    else
      var init := cats[..|cats| - 1];
      assert forall j :: 0 <= j < |init| ==> init[j] == cats[j];
      match Rows(d, geomean, t, exes, init)
      case Err(e) => Err(e)
      case Ok(rows) =>
        match Row(d, geomean, t, exes, cats[|cats| - 1])
        case Err(e) => Err(e)
        case Ok(row) => Ok(rows + [row])
  }

  /** The inner aggregation loop: one row (source lines 67-71, 74-78). */
  method BuildRow(d: map<string, seq<real>>, geomean: seq<real> -> real, t: StatType, exes: seq<string>, cat: string)
    returns (r: Result<seq<real>, ScriptError>)
    ensures r == Row(d, geomean, t, exes, cat)
  {
    var row: seq<real> := [];
    var i := 0;
    while i < |exes|
      invariant 0 <= i <= |exes|
      invariant Row(d, geomean, t, exes[..i], cat) == Ok(row)
    {
      assert exes[..i + 1][..i] == exes[..i];
      var key := RowKey(t, exes[i], cat);
      if !(key in d) {
        assert !(forall k :: 0 <= k < |exes| ==> RowKey(t, exes[k], cat) in d);
        return Err(KeyError);
      }
      row := row + [geomean(d[key])];
      i := i + 1;
    }
    assert exes[..i] == exes;
    r := Ok(row);
  }

  /** A category with a missing key fails the whole aggregation. */
  lemma RowsFail(d: map<string, seq<real>>, geomean: seq<real> -> real, t: StatType, exes: seq<string>, cats: seq<string>, j: nat)
    requires j < |cats| && Row(d, geomean, t, exes, cats[j]).Err?
    ensures Rows(d, geomean, t, exes, cats) == Err(KeyError)
  {
    var k :| 0 <= k < |exes| && RowKey(t, exes[k], cats[j]) !in d;
  }

  lemma RowsNext(d: map<string, seq<real>>, geomean: seq<real> -> real, t: StatType, exes: seq<string>, cats: seq<string>,
                 j: nat, rows: seq<seq<real>>, row: seq<real>)
    requires j < |cats| && Rows(d, geomean, t, exes, cats[..j]) == Ok(rows)
    requires Row(d, geomean, t, exes, cats[j]) == Ok(row)
    ensures Rows(d, geomean, t, exes, cats[..j + 1]) == Ok(rows + [row])
  {
    assert cats[..j + 1][..j] == cats[..j];
  }

  /** The aggregation loops (source lines 58-78). */
  method Aggregate(d: map<string, seq<real>>, geomean: seq<real> -> real, t: StatType, config: Config)
    returns (r: Result<seq<seq<real>>, ScriptError>)
    ensures r == Rows(d, geomean, t, config.executables, Categories(t, config))
  {
    var cats := Categories(t, config);
    var exes := config.executables;
    var rows: seq<seq<real>> := [];
    var j := 0;
    while j < |cats|
      invariant 0 <= j <= |cats|
      invariant Rows(d, geomean, t, exes, cats[..j]) == Ok(rows)
    {
      var row := BuildRow(d, geomean, t, exes, cats[j]);
      if row.Err? {
        RowsFail(d, geomean, t, exes, cats, j);
        return Err(KeyError);
      }
      RowsNext(d, geomean, t, exes, cats, j, rows, row.value);
      rows := rows + [row.value];
      j := j + 1;
    }
    assert cats[..j] == cats;
    r := Ok(rows);
  }

  // ---------------------------------------------------------------------
  // zip(*rows)
  // ---------------------------------------------------------------------

  /** The length of the shortest row. */
  function MinLength(rows: seq<seq<real>>): (n: nat)
    requires rows != []
    ensures forall j :: 0 <= j < |rows| ==> n <= |rows[j]|
    ensures exists j :: 0 <= j < |rows| && n == |rows[j]|
  {
    if |rows| == 1 then |rows[0]|
    else
      var m := MinLength(rows[1..]);
      assert forall j :: 1 <= j < |rows| ==> rows[1..][j - 1] == rows[j];
      if |rows[0]| <= m then |rows[0]| else m
  }

  /** `zip(*rows)`: column i of the rows, for every i the shortest row has. */
  function Zip(rows: seq<seq<real>>): (cols: seq<seq<real>>)
    ensures rows != [] ==> |cols| == MinLength(rows)
    ensures forall i :: 0 <= i < |cols| ==> (|cols[i]| == |rows| &&
              forall j :: 0 <= j < |rows| ==> i < |rows[j]| && cols[i][j] == rows[j][i])
  {
    if rows == [] then []
    else
      var w := MinLength(rows);
      seq(w, i requires 0 <= i < w => seq(|rows|, j requires 0 <= j < |rows| => rows[j][i]))
  }

  /** Zipping a non-empty rectangle twice gives it back. */
  lemma ZipTwice(rows: seq<seq<real>>, w: nat)
    requires rows != [] && w >= 1
    requires forall j :: 0 <= j < |rows| ==> |rows[j]| == w
    ensures Zip(Zip(rows)) == rows
  {
    var cols := Zip(rows);
    assert cols != [] && MinLength(cols) == |rows|;
    var back := Zip(cols);
    assert |back| == |rows|;
    forall j | 0 <= j < |rows| ensures back[j] == rows[j] {
      assert |back[j]| == |cols| == w;
    }
  }

  // ---------------------------------------------------------------------
  // The chart
  // ---------------------------------------------------------------------

  /** One bar series: x offset, heights, colour, hatch and legend. */
  datatype Bars = Bars(offset: real, heights: seq<real>, color: string, hatch: string, legend: string)

  const BarWidth: real := 0.12

  /** The plotting loop (source lines 107-109): series i takes style i and LABELS[i]. */
  function Series(zipped: seq<seq<real>>, labels: seq<string>): (r: Result<seq<Bars>, ScriptError>)
    ensures r.Ok? <==> |zipped| <= |Colors| && |zipped| <= |labels|
    ensures r.Err? ==> r.error == IndexError
    ensures r.Ok? ==> |r.value| == |zipped| && forall i :: 0 <= i < |zipped| ==>
              r.value[i] == Bars(i as real * BarWidth, zipped[i], Colors[i], Hatches[i], labels[i])
  {
    if zipped == [] then Ok([])
    else match Series(zipped[..|zipped| - 1], labels)
      case Err(e) => Err(e)
      case Ok(bars) =>
        var i := |zipped| - 1;
        if i < |Colors| && i < |Hatches| && i < |labels| then
          Ok(bars + [Bars(i as real * BarWidth, zipped[i], Colors[i], Hatches[i], labels[i])])
        else Err(IndexError)
  }

  /** The x tick labels (source lines 95-104). */
  function Ticks(t: StatType, config: Config, nthreads: int): (ticks: seq<string>)
    ensures |ticks| == match t case TreeSize => |config.initSizes| case Total => 1 case Workload => |config.workloads|
    ensures t.TreeSize? ==> ticks == config.initSizes
    ensures t.Total? ==> ticks == [Title(nthreads)]
    ensures t.Workload? ==> forall i :: 0 <= i < |ticks| ==> EndsWith(ticks[i], "% lookups")
  {
    match t
    case TreeSize => config.initSizes
    case Total => [IntToString(nthreads) + " Threads"]
    case Workload => seq(|config.workloads|, i requires 0 <= i < |config.workloads| =>
                         SplitOn(config.workloads[i], '_')[0] + "% lookups")
  }

  /** The first '_'-separated field is the text before the first '_'. */
  lemma {:induction false} FirstField(s: string, sep: char)
    ensures var p := SplitOn(s, sep)[0];
            |p| <= |s| && s[..|p|] == p && sep !in p && (|p| < |s| ==> s[|p|] == sep)
    decreases |s|
  {
    if s != [] && s[0] != sep {
      FirstField(s[1..], sep);
    }
  }

  /** A workload's tick is its text up to the first '_', followed by "% lookups". */
  lemma WorkloadTicks(config: Config, nthreads: int, i: nat)
    requires i < |config.workloads|
    ensures var w := config.workloads[i];
            exists n :: 0 <= n <= |w| && '_' !in w[..n] && (n < |w| ==> w[n] == '_') &&
              Ticks(Workload, config, nthreads)[i] == w[..n] + "% lookups"
  {
    var w := config.workloads[i];
    FirstField(w, '_');
    var n := |SplitOn(w, '_')[0]|;
    assert Ticks(Workload, config, nthreads)[i] == w[..n] + "% lookups";
  }

  /** The picture: bar series, tick labels, title and output file name. */
  datatype Chart = Chart(series: seq<Bars>, ticks: seq<string>, title: string, file: string)

  function Title(nthreads: int): string
  {
    IntToString(nthreads) + " Threads"
  }

  function OutputFile(t: StatType, nthreads: int): string
  {
    "performance_evaluation_bars." + TypeName(t) + "." + IntToString(nthreads) + "_threads.png"
  }

  /**
   * The whole script on the configuration, the command line and the lines
   * of the input file.
   */
  function Script(config: Config, argv: seq<string>, lines: seq<string>, geomean: seq<real> -> real)
    : Result<Chart, ScriptError>
  {
    match CheckArgs(config, argv)
    case Err(e) => Err(e)
    case Ok((t, _)) =>
      var header := if lines == [] then "" else lines[0];
      match ThreadCount(header)
      case Err(e) => Err(e)
      case Ok(nthreads) =>
        match ReadLoop(t, if lines == [] then [] else lines[1..])
        case Err(e) => Err(e)
        case Ok(d) =>
          match Rows(d, geomean, t, config.executables, Categories(t, config))
          case Err(e) => Err(e)
          case Ok(rows) =>
            var zipped := Zip(rows);
            if zipped == [] then Err(IndexError)
            else match Series(zipped, config.labels)
              case Err(e) => Err(e)
              case Ok(series) => Ok(Chart(series, Ticks(t, config, nthreads), Title(nthreads), OutputFile(t, nthreads)))
  }

  /** The script as run (source lines 21-119). */
  method PlotBarsScript(config: Config, argv: seq<string>, lines: seq<string>, geomean: seq<real> -> real)
    returns (r: Result<Chart, ScriptError>)
    ensures r == Script(config, argv, lines, geomean)
  {
    var args := CheckArgs(config, argv);
    if args.Err? {
      return Err(args.error);
    }
    var t := args.value.0;
    var header := if lines == [] then "" else lines[0];
    var nthreads := ThreadCount(header);
    if nthreads.Err? {
      return Err(nthreads.error);
    }
    var d := ReadSamples(t, if lines == [] then [] else lines[1..]);
    if d.Err? {
      return Err(d.error);
    }
    var rows := Aggregate(d.value, geomean, t, config);
    if rows.Err? {
      return Err(rows.error);
    }
    var zipped := Zip(rows.value);
    if zipped == [] {
      return Err(IndexError);
    }
    var series := Series(zipped, config.labels);
    if series.Err? {
      return Err(series.error);
    }
    r := Ok(Chart(series.value, Ticks(t, config, nthreads.value), Title(nthreads.value), OutputFile(t, nthreads.value)));
  }

  /**
   * In a drawn chart there is one series per executable, and series i holds
   * executable i's reduced bucket in each category, labelled LABELS[i].
   */
  lemma SeriesPerExecutable(config: Config, argv: seq<string>, lines: seq<string>, geomean: seq<real> -> real)
    requires Script(config, argv, lines, geomean).Ok?
    ensures var t := CheckArgs(config, argv).value.0;
            var d := ReadLoop(t, lines[1..]).value;
            var cats := Categories(t, config);
            var exes := config.executables;
            var series := Script(config, argv, lines, geomean).value.series;
            && |series| == |exes|
            && forall i :: 0 <= i < |exes| ==>
                 && series[i].legend == config.labels[i]
                 && |series[i].heights| == |cats|
                 && forall j :: 0 <= j < |cats| ==> series[i].heights[j] == geomean(d[RowKey(t, exes[i], cats[j])])
  {
    var t := CheckArgs(config, argv).value.0;
    var d := ReadLoop(t, lines[1..]).value;
    var cats := Categories(t, config);
    var rows := Rows(d, geomean, t, config.executables, cats).value;
    assert cats != [];
    ZippedSeries(rows, |config.executables|, config.labels);
  }

  /** Series i of a rectangle of rows is its column i. */
  lemma ZippedSeries(rows: seq<seq<real>>, w: nat, labels: seq<string>)
    requires rows != [] && forall j :: 0 <= j < |rows| ==> |rows[j]| == w
    requires Series(Zip(rows), labels).Ok?
    ensures var series := Series(Zip(rows), labels).value;
            |series| == w && forall i :: 0 <= i < w ==>
              series[i].legend == labels[i] && |series[i].heights| == |rows| &&
              forall j :: 0 <= j < |rows| ==> series[i].heights[j] == rows[j][i]
  {
    assert MinLength(rows) == w by {
      var j :| 0 <= j < |rows| && MinLength(rows) == |rows[j]|;
    }
  }

  /** The title and file name carry the third token of the header line. */
  lemma ThreadsFromHeader(config: Config, argv: seq<string>, lines: seq<string>, geomean: seq<real> -> real)
    requires Script(config, argv, lines, geomean).Ok?
    ensures lines != [] && |Split(lines[0])| >= 3 && ParseInt(Split(lines[0])[2]).Ok?
    ensures var n := ParseInt(Split(lines[0])[2]).value;
            var chart := Script(config, argv, lines, geomean).value;
            chart.title == IntToString(n) + " Threads" &&
            chart.file == "performance_evaluation_bars." + argv[1] + "." + IntToString(n) + "_threads.png"
  {
  }

  /** More executables than colours or labels is an IndexError. */
  lemma TooManyExecutables(config: Config, argv: seq<string>, lines: seq<string>, geomean: seq<real> -> real)
    requires Script(config, argv, lines, geomean).Ok?
    ensures |config.executables| <= 7 && |config.executables| <= |config.labels|
  {
    SeriesPerExecutable(config, argv, lines, geomean);
  }
}
