/** The runner scripts run_java.py and run_go.py: each runs its program 100
    times, splits the standard output into lines, reads the execution time,
    the CPU usage and the memory at the start and at the end from lines 0 to 3
    (the text after the first ':' on each), and builds a four-column table.

    The scripts differ only in the command they run and the file they write,
    so one model stands for both. The outputs of the runs are a parameter. */
module ResultParser {
  import opened Wrappers
  import opened Text
  import opened PyNumbers
  import GoWorkerPool
  import JavaWorkerPool
  import JavaTestWorkerPool

  /** How many times each script runs its program. */
  const Iterations: nat := 100

  /** The exceptions that end a script before it writes its table. */
  datatype PyError = IndexError | ValueError

  /** What one run contributes: a time only when its text carries a unit. */
  datatype Sample = Sample(time: Option<real>, cpu: real, memBegin: int, memEnd: int)

  /** The four lists the scripts append to. */
  datatype Columns = Columns(times: seq<real>, cpu: seq<real>, memBegin: seq<int>, memEnd: seq<int>)

  /** One row of the table. */
  datatype Row = Row(time: real, cpu: real, memBegin: int, memEnd: int)

  /** line.split(":")[1].strip(): the text between the first and the second
      colon, without the whitespace around it. */
  function LineField(line: string): (r: Result<string, PyError>)
    ensures r.Failure? <==> ':' !in line
    ensures r.Failure? ==> r.error == IndexError
  {
    var parts := Split(line, ':');
    SplitSeveral(line, ':');
    if |parts| < 2 then Failure(IndexError) else Success(Strip(parts[1]))
  }

  /** output[k].split(":")[1].strip(). */
  function FieldText(output: seq<string>, k: nat): (r: Result<string, PyError>)
    ensures r.Failure? ==> r.error == IndexError
    ensures r.Failure? <==> k >= |output| || ':' !in output[k]
  {
    if k >= |output| then Failure(IndexError) else LineField(output[k])
  }

  /** The time branch: milliseconds are divided by 1000, a text with an 's'
      is read as seconds, and a text with neither is skipped. */
  function ParseTime(t: string): Result<Option<real>, PyError>
  {
    if Contains(t, "ms") then
      match ParseFloat(RemoveAll(t, "ms"))
      case None => Failure(ValueError)
      case Some(v) => Success(Some(v / 1000.0))
    else if 's' in t then
      match ParseFloat(RemoveAll(t, "s"))
      case None => Failure(ValueError)
      case Some(v) => Success(Some(v))
    else Success(None)
  }

  /** float(t.replace('%', '')). */
  function ParseCpu(t: string): Result<real, PyError>
  {
    match ParseFloat(RemoveAll(t, "%"))
    case None => Failure(ValueError)
    case Some(v) => Success(v)
  }

  /** int(t.replace(' bytes', '')). */
  function ParseMemory(t: string): Result<int, PyError>
  {
    match ParseInt(RemoveAll(t, " bytes"))
    case None => Failure(ValueError)
    case Some(v) => Success(v)
  }

  /** The body of the loop on one run's output, failing with the first error in
      the script's order of evaluation. */
  function ParseIteration(stdout: string): (r: Result<Sample, PyError>)
    ensures r.Success? ==> |Split(stdout, '\n')| >= 4
  {
    var output := Split(stdout, '\n');
    var timeText := FieldText(output, 0);
    if timeText.Failure? then Failure(timeText.error) else
    var time := ParseTime(timeText.value);
    if time.Failure? then Failure(time.error) else
    var cpuText := FieldText(output, 1);
    if cpuText.Failure? then Failure(cpuText.error) else
    var cpu := ParseCpu(cpuText.value);
    if cpu.Failure? then Failure(cpu.error) else
    var beginText := FieldText(output, 2);
    if beginText.Failure? then Failure(beginText.error) else
    var memBegin := ParseMemory(beginText.value);
    if memBegin.Failure? then Failure(memBegin.error) else
    var endText := FieldText(output, 3);
    if endText.Failure? then Failure(endText.error) else
    var memEnd := ParseMemory(endText.value);
    if memEnd.Failure? then Failure(memEnd.error) else
    Success(Sample(time.value, cpu.value, memBegin.value, memEnd.value))
  }

  /** Every run's output parses. */
  predicate AllParse(stdouts: seq<string>)
  {
    forall i :: 0 <= i < |stdouts| ==> ParseIteration(stdouts[i]).Success?
  }

  /** What the loop over the runs reaches from their parse results: the samples
      of all runs, or the error of the first run that fails. */
  function FirstFailure(results: seq<Result<Sample, PyError>>): Result<seq<Sample>, PyError>
    decreases |results|
  {
    if |results| == 0 then Success([])
    else
      var before := FirstFailure(results[..|results| - 1]);
      var last := results[|results| - 1];
      if before.Failure? then before
      else if last.Failure? then Failure(last.error)
      else Success(before.value + [last.value])
  }

  predicate AllSucceed(results: seq<Result<Sample, PyError>>)
  {
    forall i :: 0 <= i < |results| ==> results[i].Success?
  }

  /** The loop gets through exactly when every run parses, and then holds one
      sample per run, in order. */
  lemma {:induction false} FirstFailureSuccess(results: seq<Result<Sample, PyError>>)
    ensures FirstFailure(results).Success? <==> AllSucceed(results)
    ensures FirstFailure(results).Success? ==>
              |FirstFailure(results).value| == |results| &&
              forall i :: 0 <= i < |results| ==> results[i] == Success(FirstFailure(results).value[i])
    decreases |results|
  {
    if |results| > 0 {
      var n := |results| - 1;
      var prefix := results[..n];
      FirstFailureSuccess(prefix);
      assert forall i :: 0 <= i < n ==> prefix[i] == results[i];
      assert AllSucceed(results) <==> AllSucceed(prefix) && results[n].Success?;
    }
  }

  /** A failing loop fails with the error of a run all of whose predecessors parse. */
  lemma {:induction false} FirstFailureFailure(results: seq<Result<Sample, PyError>>)
    requires FirstFailure(results).Failure?
    ensures exists i :: 0 <= i < |results| && AllSucceed(results[..i])
                        && results[i] == Failure(FirstFailure(results).error)
    decreases |results|
  {
    var n := |results| - 1;
    var prefix := results[..n];
    if FirstFailure(prefix).Failure? {
      FirstFailureFailure(prefix);
      var i :| 0 <= i < n && AllSucceed(prefix[..i]) && prefix[i] == Failure(FirstFailure(prefix).error);
      assert prefix[..i] == results[..i];
    } else {
      FirstFailureSuccess(prefix);
      assert results[..n] == prefix;
    }
  }

  /** Once the runs so far have failed, later runs change nothing. */
  lemma {:induction false} FirstFailureStops(results: seq<Result<Sample, PyError>>, i: nat)
    requires i <= |results| && FirstFailure(results[..i]).Failure?
    ensures FirstFailure(results) == FirstFailure(results[..i])
    decreases |results| - i
  {
    if i < |results| {
      var prefix := results[..|results| - 1];
      assert prefix[..i] == results[..i];
      FirstFailureStops(prefix, i);
    } else {
      assert results[..i] == results;
    }
  }

  /** The parse result of every run, in order. */
  function Parsed(stdouts: seq<string>): (r: seq<Result<Sample, PyError>>)
    ensures |r| == |stdouts|
  {
    seq(|stdouts|, i requires 0 <= i < |stdouts| => ParseIteration(stdouts[i]))
  }

  /** What the loop over the runs reaches. */
  function Collected(stdouts: seq<string>): Result<seq<Sample>, PyError>
  {
    FirstFailure(Parsed(stdouts))
  }

  lemma ParsedPrefix(stdouts: seq<string>, i: nat)
    requires i <= |stdouts|
    ensures Parsed(stdouts[..i]) == Parsed(stdouts)[..i]
  {
  }

  /** Every run parses exactly when the loop gets through. */
  lemma CollectedSuccess(stdouts: seq<string>)
    ensures Collected(stdouts).Success? <==> AllParse(stdouts)
    ensures Collected(stdouts).Success? ==>
              |Collected(stdouts).value| == |stdouts| &&
              forall i :: 0 <= i < |stdouts| ==> ParseIteration(stdouts[i]) == Success(Collected(stdouts).value[i])
  {
    var results := Parsed(stdouts);
    FirstFailureSuccess(results);
    assert AllSucceed(results) <==> AllParse(stdouts) by {
      assert forall i :: 0 <= i < |stdouts| ==> results[i] == ParseIteration(stdouts[i]);
    }
  }

  /** A failing loop fails with the error of a run all of whose predecessors parse. */
  lemma CollectedFailure(stdouts: seq<string>)
    requires Collected(stdouts).Failure?
    ensures exists i :: 0 <= i < |stdouts| && AllParse(stdouts[..i])
                        && ParseIteration(stdouts[i]) == Failure(Collected(stdouts).error)
  {
    var results := Parsed(stdouts);
    FirstFailureFailure(results);
    var i :| 0 <= i < |results| && AllSucceed(results[..i]) && results[i] == Failure(FirstFailure(results).error);
    ParsedPrefix(stdouts, i);
    assert forall j :: 0 <= j < i ==> Parsed(stdouts[..i])[j] == ParseIteration(stdouts[..i][j]);
  }

  /** The four lists after the given samples have been appended, as the loop
      appends them: a time only when the sample has one. */
  function ColumnsOf(samples: seq<Sample>): Columns
    decreases |samples|
  {
    if |samples| == 0 then Columns([], [], [], [])
    else
      var c := ColumnsOf(samples[..|samples| - 1]);
      var s := samples[|samples| - 1];
      Columns(c.times + (if s.time.Some? then [s.time.value] else []),
              c.cpu + [s.cpu], c.memBegin + [s.memBegin], c.memEnd + [s.memEnd])
  }

  predicate AllTimed(samples: seq<Sample>)
  {
    forall i :: 0 <= i < |samples| ==> samples[i].time.Some?
  }

  /** The CPU and memory lists hold one entry per sample, in order. */
  lemma {:induction false} ColumnsOfFigures(samples: seq<Sample>)
    ensures var c := ColumnsOf(samples);
      && |c.cpu| == |samples| && |c.memBegin| == |samples| && |c.memEnd| == |samples|
      && forall i :: 0 <= i < |samples| ==>
           c.cpu[i] == samples[i].cpu && c.memBegin[i] == samples[i].memBegin && c.memEnd[i] == samples[i].memEnd
    decreases |samples|
  {
    if |samples| > 0 {
      var n := |samples| - 1;
      ColumnsOfFigures(samples[..n]);
    }
  }

  /** The times list is as long as the others exactly when every sample has a
      time, and then holds every sample's time in order. */
  lemma {:induction false} ColumnsOfTimes(samples: seq<Sample>)
    ensures |ColumnsOf(samples).times| <= |samples|
    ensures |ColumnsOf(samples).times| == |samples| <==> AllTimed(samples)
    ensures AllTimed(samples) ==> forall i :: 0 <= i < |samples| ==>
              ColumnsOf(samples).times[i] == samples[i].time.value
    decreases |samples|
  {
    if |samples| > 0 {
      var n := |samples| - 1;
      var prefix := samples[..n];
      ColumnsOfTimes(prefix);
      assert forall i :: 0 <= i < n ==> prefix[i] == samples[i];
      assert AllTimed(samples) <==> AllTimed(prefix) && samples[n].time.Some?;
    }
  }

  /** The loop of the script: every run's output is parsed and appended to the
      lists; the first error ends the script. */
  method CollectResults(stdouts: seq<string>) returns (r: Result<Columns, PyError>)
    ensures r == if Collected(stdouts).Failure? then Failure(Collected(stdouts).error)
                 else Success(ColumnsOf(Collected(stdouts).value))
  {
    var times: seq<real> := [];
    var cpu: seq<real> := [];
    var memBegin: seq<int> := [];
    var memEnd: seq<int> := [];
    ghost var samples: seq<Sample> := [];
    for i := 0 to |stdouts|
      invariant FirstFailure(Parsed(stdouts)[..i]) == Success(samples)
      invariant ColumnsOf(samples) == Columns(times, cpu, memBegin, memEnd)
    {
      ghost var results := Parsed(stdouts);
      assert results[..i + 1][..i] == results[..i];
      var sample := ParseIteration(stdouts[i]);
      assert results[..i + 1][i] == sample;
      if sample.Failure? {
        FirstFailureStops(results, i + 1);
        return Failure(sample.error);
      }
      times := times + if sample.value.time.Some? then [sample.value.time.value] else [];
      cpu := cpu + [sample.value.cpu];
      memBegin := memBegin + [sample.value.memBegin];
      memEnd := memEnd + [sample.value.memEnd];
      assert (samples + [sample.value])[..|samples|] == samples;
      samples := samples + [sample.value];
    }
    assert Parsed(stdouts)[..|stdouts|] == Parsed(stdouts);
    r := Success(Columns(times, cpu, memBegin, memEnd));
  }

  /** pd.DataFrame of the four lists: a table when they are equally long,
      otherwise ValueError. */
  function DataFrame(c: Columns): Result<seq<Row>, PyError>
  {
    if |c.times| == |c.cpu| == |c.memBegin| == |c.memEnd| then
      Success(seq(|c.cpu|, i requires 0 <= i < |c.cpu| => Row(c.times[i], c.cpu[i], c.memBegin[i], c.memEnd[i])))
    else Failure(ValueError)
  }

  /** The four columns of a table, read back. */
  function TableColumns(rows: seq<Row>): Columns
  {
    Columns(seq(|rows|, i requires 0 <= i < |rows| => rows[i].time),
            seq(|rows|, i requires 0 <= i < |rows| => rows[i].cpu),
            seq(|rows|, i requires 0 <= i < |rows| => rows[i].memBegin),
            seq(|rows|, i requires 0 <= i < |rows| => rows[i].memEnd))
  }

  /** The table pandas builds has the four lists as its columns. */
  lemma DataFrameColumns(c: Columns)
    ensures DataFrame(c).Success? ==> TableColumns(DataFrame(c).value) == c
  {
    if DataFrame(c).Success? {
      var t := TableColumns(DataFrame(c).value);
      assert t.times == c.times && t.cpu == c.cpu && t.memBegin == c.memBegin && t.memEnd == c.memEnd;
    }
  }

  /** Every table is the one pandas builds from its own columns. */
  lemma ColumnsDataFrame(rows: seq<Row>)
    ensures DataFrame(TableColumns(rows)) == Success(rows)
  {
    var r := DataFrame(TableColumns(rows));
    assert r.value == rows;
  }

  /** The sample a row of the table was made from. */
  function SampleOf(row: Row): Sample
  {
    Sample(Some(row.time), row.cpu, row.memBegin, row.memEnd)
  }

  /** A whole script: the table has one row per run, made from that run's
      figures, exactly when every run's output parses and carries a time unit.
      Otherwise the script stops with the first run's error or, when every run
      parsed, with pandas' ValueError for lists of unequal length. */
  method RunScript(stdouts: seq<string>) returns (r: Result<seq<Row>, PyError>)
    requires |stdouts| == Iterations
    ensures r.Success? <==>
              AllParse(stdouts) && forall i :: 0 <= i < |stdouts| ==> ParseIteration(stdouts[i]).value.time.Some?
    ensures r.Success? ==> |r.value| == Iterations && forall i :: 0 <= i < Iterations ==>
              ParseIteration(stdouts[i]) == Success(SampleOf(r.value[i]))
    ensures r.Failure? && !AllParse(stdouts) ==>
              exists i :: 0 <= i < |stdouts| && AllParse(stdouts[..i]) && ParseIteration(stdouts[i]) == Failure(r.error)
    ensures r.Failure? && AllParse(stdouts) ==> r.error == ValueError
  {
    var columns := CollectResults(stdouts);
    CollectedSuccess(stdouts);
    if columns.Failure? {
      CollectedFailure(stdouts);
      return Failure(columns.error);
    }
    ghost var samples := Collected(stdouts).value;
    ColumnsOfFigures(samples);
    ColumnsOfTimes(samples);
    r := DataFrame(columns.value);
    DataFrameColumns(columns.value);
    assert AllTimed(samples) <==> forall i :: 0 <= i < |stdouts| ==> ParseIteration(stdouts[i]).value.time.Some?;
    if r.Success? {
      forall i | 0 <= i < Iterations
        ensures ParseIteration(stdouts[i]) == Success(SampleOf(r.value[i]))
      {
        assert samples[i].time.Some?;
      }
    }
  }

  /** The composition of the loop body: four fields that read as the parts of a
      sample make the run read as that sample. */
  lemma IterationOfFields(stdout: string, t0: string, t1: string, t2: string, t3: string, s: Sample)
    requires var output := Split(stdout, '\n');
      && FieldText(output, 0) == Success(t0) && FieldText(output, 1) == Success(t1)
      && FieldText(output, 2) == Success(t2) && FieldText(output, 3) == Success(t3)
    requires ParseTime(t0) == Success(s.time) && ParseCpu(t1) == Success(s.cpu)
    requires ParseMemory(t2) == Success(s.memBegin) && ParseMemory(t3) == Success(s.memEnd)
    ensures ParseIteration(stdout) == Success(s)
  {
  }

  /** A time the script cannot read ends the run with that error. */
  lemma IterationFailsAtTime(stdout: string, t0: string, e: PyError)
    requires FieldText(Split(stdout, '\n'), 0) == Success(t0) && ParseTime(t0) == Failure(e)
    ensures ParseIteration(stdout) == Failure(e)
  {
  }

  // Reading back what the programs print.

  /** A title as the programs print it: a name without a colon, then ": ". */
  predicate Label(title: string)
  {
    |title| >= 2 && title[|title| - 2..] == ": " && ':' !in title[..|title| - 2]
  }

  /** A title that also keeps to its line. */
  predicate Title(title: string)
  {
    Label(title) && '\n' !in title
  }

  /** The titles the three programs print. */
  lemma CommonTitles()
    ensures Title("Execution Time: ") && Title("CPU Usage: ")
  {
  }

  lemma MemoryTitles()
    ensures Title("Memory Usage Begin: ") && Title("Memory Usage End: ")
  {
  }

  lemma JavaTitles()
    ensures Title("Memory Usage Difference: ")
  {
  }

  lemma TestTitles()
    ensures Title("Memory Used in the begin: ") && Title("Memory Usage: ")
  {
  }

  /** The text after the title on a line. */
  lemma {:induction false} LabelledLine(title: string, value: string)
    requires Label(title) && ':' !in value && Stripped(value)
    ensures LineField(title + value) == Success(value)
  {
    var name := title[..|title| - 2];
    assert title + value == name + [':'] + (" " + value) by {
      assert title == name + ": ";
    }
    SplitAppend(name, " " + value, ':');
    SplitNoSep(name, ':');
    SplitNoSep(" " + value, ':');
    StripLeadingSpace(value);
    StripStripped(value);
  }

  /** A number as the programs print it: digits, perhaps with a sign and a point. */
  predicate Figure(d: string)
  {
    |d| >= 1 && forall j :: 0 <= j < |d| ==> d[j] == '-' || d[j] == '.' || IsDigit(d[j])
  }

  /** A figure has none of the characters a title, a unit or a line break adds. */
  lemma FigureAvoids(d: string, c: char)
    requires Figure(d) && c != '-' && c != '.' && !IsDigit(c)
    ensures c !in d
  {
  }

  /** A unit as the programs print it after a figure: on the same line, with no
      colon and no trailing space. */
  predicate Unit(unit: string)
  {
    ':' !in unit && '\n' !in unit && |unit| > 0 && !IsSpace(unit[|unit| - 1])
  }

  /** The units the three programs print. */
  lemma Units()
    ensures Unit(" ms") && Unit(" %") && Unit("%") && Unit(" bytes")
  {
  }

  /** "<title><figure><unit>" is one line, and its field is the figure with its unit. */
  lemma FigureLine(title: string, d: string, unit: string)
    requires Title(title) && Unit(unit) && Figure(d)
    ensures '\n' !in title + d + unit
    ensures LineField(title + d + unit) == Success(d + unit)
  {
    FigureAvoids(d, ':');
    FigureAvoids(d, '\n');
    assert Stripped(d + unit) by {
      assert (d + unit)[0] == d[0];
      assert (d + unit)[|d + unit| - 1] == unit[|unit| - 1];
    }
    assert title + d + unit == title + (d + unit);
    LabelledLine(title, d + unit);
  }

  lemma IntFigure(i: int)
    ensures Figure(IntToString(i))
  {
    IntToStringChars(i);
  }

  lemma NatFigure(n: nat)
    ensures Figure(NatToString(n))
  {
  }

  lemma FixedTwoFigure(x: int)
    ensures Figure(JavaWorkerPool.FixedTwo(x))
  {
    var d := IntToString(x);
    IntFigure(x);
    assert forall j :: |d| <= j < |d + ".00"| ==> (d + ".00")[j] == '.' || (d + ".00")[j] == '0';
  }

  /** Removing a unit from the end of a figure that cannot start it leaves the figure. */
  lemma {:induction false} RemoveUnit(n: string, unit: string)
    requires |unit| > 0 && unit[0] !in n
    ensures RemoveAll(n + unit, unit) == n
  {
    RemoveAllSkip(n, unit, unit);
    assert unit[|unit|..] == "";
    assert RemoveAll(unit, unit) == RemoveAll("", unit);
    assert n + "" == n;
  }

  lemma FloatTrailingSpace(d: string)
    ensures ParseFloat(d + " ") == ParseFloat(d)
  {
    StripTrailingSpace(d);
  }

  /** A text with "ms" in it is read as milliseconds. */
  lemma TimeOfMillisText(t: string, v: real)
    requires Contains(t, "ms") && ParseFloat(RemoveAll(t, "ms")) == Some(v)
    ensures ParseTime(t) == Success(Some(v / 1000.0))
  {
  }

  /** "<figure> ms", as Java prints it: the figure in seconds. */
  lemma TimeOfSpacedMillis(d: string, v: real)
    requires ParseFloat(d) == Some(v) && 'm' !in d
    ensures ParseTime(d + " ms") == Success(Some(v / 1000.0))
  {
    var t := d + " ms";
    assert Contains(t, "ms") && RemoveAll(t, "ms") == d + " " by {
      assert t == (d + " ") + "ms";
      ContainsSuffix(d + " ", "ms");
      RemoveUnit(d + " ", "ms");
    }
    FloatTrailingSpace(d);
    TimeOfMillisText(t, v);
  }

  /** "<figure>ms", as Go's Duration.String writes a duration under a second. */
  lemma TimeOfMillis(d: string, v: real)
    requires ParseFloat(d) == Some(v) && 'm' !in d
    ensures ParseTime(d + "ms") == Success(Some(v / 1000.0))
  {
    ContainsSuffix(d, "ms");
    RemoveUnit(d, "ms");
  }

  /** "<figure>s", as Go's Duration.String writes a duration under a minute:
      read as seconds. */
  lemma TimeOfSeconds(d: string, v: real)
    requires ParseFloat(d) == Some(v) && 'm' !in d && 's' !in d
    ensures ParseTime(d + "s") == Success(Some(v))
  {
    NotContainsHead(d + "s", "ms");
    assert (d + "s")[|d|] == 's';
    RemoveUnit(d, "s");
  }

  /** "<digits>µs", as Go writes a duration under a millisecond: it has an 's'
      and no "ms", and float() rejects what is left once the 's' is removed. */
  lemma TimeOfMicros(d: string)
    requires |d| > 0 && AllDigits(d)
    ensures ParseTime(d + "µs") == Failure(ValueError)
  {
    var t := d + "µs";
    assert forall j :: 0 <= j < |d| ==> d[j] != 'm' && d[j] != 's';
    assert t == (d + "µ") + "s";
    NotContainsHead(t, "ms");
    assert t[|t| - 1] == 's';
    RemoveUnit(d + "µ", "s");
    FloatRejectsTrailing(d, 'µ');
  }

  /** "<figure>%", as Java prints the CPU figure. */
  lemma CpuOfPercent(d: string, v: real)
    requires ParseFloat(d) == Some(v) && '%' !in d
    ensures ParseCpu(d + "%") == Success(v)
  {
    RemoveUnit(d, "%");
  }

  /** "<figure> %", as Go and the test variant print the CPU figure. */
  lemma CpuOfSpacedPercent(d: string, v: real)
    requires ParseFloat(d) == Some(v) && '%' !in d
    ensures ParseCpu(d + " %") == Success(v)
  {
    assert d + " %" == (d + " ") + "%";
    RemoveUnit(d + " ", "%");
    FloatTrailingSpace(d);
  }

  /** "<figure> bytes". */
  lemma MemoryOfBytes(d: string, m: int)
    requires ParseInt(d) == Some(m) && ' ' !in d
    ensures ParseMemory(d + " bytes") == Success(m)
  {
    RemoveUnit(d, " bytes");
  }

  /** The lines of a report come back from splitting its output. */
  lemma {:induction false} ReportSplits(lines: seq<string>)
    requires forall i :: 0 <= i < |lines| ==> '\n' !in lines[i]
    ensures Split(Join(lines + [""], '\n'), '\n') == lines + [""]
  {
    SplitJoin(lines + [""], '\n');
  }

  /** The same for a report of four or five lines, given line by line. */
  lemma ReportOfLines(lines: seq<string>)
    requires |lines| == 4 || |lines| == 5
    requires '\n' !in lines[0] && '\n' !in lines[1] && '\n' !in lines[2] && '\n' !in lines[3]
    requires |lines| == 5 ==> '\n' !in lines[4]
    ensures Split(Join(lines + [""], '\n'), '\n') == lines + [""]
  {
    forall i | 0 <= i < |lines|
      ensures '\n' !in lines[i]
    {
      assert i < 4 || i == 4;
    }
    ReportSplits(lines);
  }

  /** The fields of the first four lines of a report, read back from its output. */
  lemma FieldsOfLines(lines: seq<string>, f0: string, f1: string, f2: string, f3: string)
    requires |lines| == 4 || |lines| == 5
    requires '\n' !in lines[0] && '\n' !in lines[1] && '\n' !in lines[2] && '\n' !in lines[3]
    requires |lines| == 5 ==> '\n' !in lines[4]
    requires LineField(lines[0]) == Success(f0) && LineField(lines[1]) == Success(f1)
    requires LineField(lines[2]) == Success(f2) && LineField(lines[3]) == Success(f3)
    ensures var output := Split(Join(lines + [""], '\n'), '\n');
      && FieldText(output, 0) == Success(f0) && FieldText(output, 1) == Success(f1)
      && FieldText(output, 2) == Success(f2) && FieldText(output, 3) == Success(f3)
  {
    ReportOfLines(lines);
    var output := lines + [""];
    assert output[0] == lines[0] && output[1] == lines[1] && output[2] == lines[2] && output[3] == lines[3];
  }

  /** Both memory figures of a report read as their values. */
  lemma MemoryValues(memStart: string, memEnd: string, beginBytes: int, endBytes: int)
    requires Figure(memStart) && Figure(memEnd)
    requires ParseInt(memStart) == Some(beginBytes) && ParseInt(memEnd) == Some(endBytes)
    ensures ParseMemory(memStart + " bytes") == Success(beginBytes)
    ensures ParseMemory(memEnd + " bytes") == Success(endBytes)
  {
    FigureAvoids(memStart, ' ');
    MemoryOfBytes(memStart, beginBytes);
    FigureAvoids(memEnd, ' ');
    MemoryOfBytes(memEnd, endBytes);
  }

  // The Java program.

  /** Every line of a Java report keeps to its line, and the first four carry
      their figure with its unit. */
  lemma JavaReportLines(elapsed: string, cpu: string, memStart: string, memEnd: string, memDiff: string)
    requires Figure(elapsed) && Figure(cpu) && Figure(memStart) && Figure(memEnd) && Figure(memDiff)
    ensures var lines := JavaWorkerPool.ReportLinesOf(elapsed, cpu, memStart, memEnd, memDiff);
      && '\n' !in lines[0] && '\n' !in lines[1] && '\n' !in lines[2] && '\n' !in lines[3] && '\n' !in lines[4]
      && LineField(lines[0]) == Success(elapsed + " ms") && LineField(lines[1]) == Success(cpu + "%")
      && LineField(lines[2]) == Success(memStart + " bytes") && LineField(lines[3]) == Success(memEnd + " bytes")
  {
    Units();
    CommonTitles();
    MemoryTitles();
    JavaTitles();
    FigureLine("Execution Time: ", elapsed, " ms");
    FigureLine("CPU Usage: ", cpu, "%");
    FigureLine("Memory Usage Begin: ", memStart, " bytes");
    FigureLine("Memory Usage End: ", memEnd, " bytes");
    FigureLine("Memory Usage Difference: ", memDiff, " bytes");
  }

  /** The fields of a Java report: each figure with its unit. */
  lemma JavaReportFields(elapsed: string, cpu: string, memStart: string, memEnd: string, memDiff: string)
    requires Figure(elapsed) && Figure(cpu) && Figure(memStart) && Figure(memEnd) && Figure(memDiff)
    ensures var output := Split(Join(JavaWorkerPool.ReportLinesOf(elapsed, cpu, memStart, memEnd, memDiff) + [""], '\n'), '\n');
      && FieldText(output, 0) == Success(elapsed + " ms")
      && FieldText(output, 1) == Success(cpu + "%")
      && FieldText(output, 2) == Success(memStart + " bytes")
      && FieldText(output, 3) == Success(memEnd + " bytes")
  {
    JavaReportLines(elapsed, cpu, memStart, memEnd, memDiff);
    FieldsOfLines(JavaWorkerPool.ReportLinesOf(elapsed, cpu, memStart, memEnd, memDiff),
                  elapsed + " ms", cpu + "%", memStart + " bytes", memEnd + " bytes");
  }

  /** The time and CPU fields of a Java report read as their values. */
  lemma JavaFigureValues(elapsed: string, cpu: string, ms: real, load: real)
    requires Figure(elapsed) && Figure(cpu)
    requires ParseFloat(elapsed) == Some(ms) && ParseFloat(cpu) == Some(load)
    ensures ParseTime(elapsed + " ms") == Success(Some(ms / 1000.0))
    ensures ParseCpu(cpu + "%") == Success(load)
  {
    FigureAvoids(elapsed, 'm');
    TimeOfSpacedMillis(elapsed, ms);
    FigureAvoids(cpu, '%');
    CpuOfPercent(cpu, load);
  }

  /** A report of the Java program whose figures read as the given values: the
      script reads the milliseconds in seconds, the CPU figure, and the memory
      at the start and at the end. */
  lemma JavaReportReads(elapsed: string, cpu: string, memStart: string, memEnd: string, memDiff: string,
                        ms: real, load: real, beginBytes: int, endBytes: int)
    requires Figure(elapsed) && Figure(cpu) && Figure(memStart) && Figure(memEnd) && Figure(memDiff)
    requires ParseFloat(elapsed) == Some(ms) && ParseFloat(cpu) == Some(load)
    requires ParseInt(memStart) == Some(beginBytes) && ParseInt(memEnd) == Some(endBytes)
    ensures ParseIteration(Join(JavaWorkerPool.ReportLinesOf(elapsed, cpu, memStart, memEnd, memDiff) + [""], '\n'))
         == Success(Sample(Some(ms / 1000.0), load, beginBytes, endBytes))
  {
    JavaReportFields(elapsed, cpu, memStart, memEnd, memDiff);
    JavaFigureValues(elapsed, cpu, ms, load);
    MemoryValues(memStart, memEnd, beginBytes, endBytes);
    IterationOfFields(Join(JavaWorkerPool.ReportLinesOf(elapsed, cpu, memStart, memEnd, memDiff) + [""], '\n'),
                      elapsed + " ms", cpu + "%", memStart + " bytes", memEnd + " bytes",
                      Sample(Some(ms / 1000.0), load, beginBytes, endBytes));
  }

  /** What run_java.py reads from one run of the Java program: the elapsed
      milliseconds in seconds, the CPU difference times 100, and the memory at
      the start and at the end. */
  lemma JavaRunParses(elapsedMs: int, cpuDelta: int, memStart: int, memEnd: int)
    ensures ParseIteration(JavaWorkerPool.Report(elapsedMs, cpuDelta, memStart, memEnd))
         == Success(Sample(Some(elapsedMs as real / 1000.0), (cpuDelta * 100) as real, memStart, memEnd))
  {
    IntFigure(elapsedMs);
    FixedTwoFigure(cpuDelta * 100);
    IntFigure(memStart);
    IntFigure(memEnd);
    IntFigure(memEnd - memStart);
    FloatOfInt(elapsedMs);
    FloatOfFixed2(cpuDelta * 100);
    IntOfInt(memStart);
    IntOfInt(memEnd);
    JavaReportReads(IntToString(elapsedMs), JavaWorkerPool.FixedTwo(cpuDelta * 100), IntToString(memStart),
                    IntToString(memEnd), IntToString(memEnd - memStart),
                    elapsedMs as real, (cpuDelta * 100) as real, memStart, memEnd);
  }

  // The test variant.

  /** Every line of a report of the test variant keeps to its line and carries
      its figure with its unit. */
  lemma TestReportLines(elapsed: string, cpu: string, memStart: string, memDiff: string)
    requires Figure(elapsed) && Figure(cpu) && Figure(memStart) && Figure(memDiff)
    ensures var lines := JavaTestWorkerPool.ReportLinesOf(elapsed, cpu, memStart, memDiff);
      && '\n' !in lines[0] && '\n' !in lines[1] && '\n' !in lines[2] && '\n' !in lines[3]
      && LineField(lines[0]) == Success(elapsed + " ms") && LineField(lines[1]) == Success(cpu + " %")
      && LineField(lines[2]) == Success(memStart + " bytes") && LineField(lines[3]) == Success(memDiff + " bytes")
  {
    Units();
    CommonTitles();
    TestTitles();
    FigureLine("Execution Time: ", elapsed, " ms");
    FigureLine("CPU Usage: ", cpu, " %");
    FigureLine("Memory Used in the begin: ", memStart, " bytes");
    FigureLine("Memory Usage: ", memDiff, " bytes");
  }

  /** The fields of a report of the test variant. */
  lemma TestReportFields(elapsed: string, cpu: string, memStart: string, memDiff: string)
    requires Figure(elapsed) && Figure(cpu) && Figure(memStart) && Figure(memDiff)
    ensures var output := Split(Join(JavaTestWorkerPool.ReportLinesOf(elapsed, cpu, memStart, memDiff) + [""], '\n'), '\n');
      && FieldText(output, 0) == Success(elapsed + " ms")
      && FieldText(output, 1) == Success(cpu + " %")
      && FieldText(output, 2) == Success(memStart + " bytes")
      && FieldText(output, 3) == Success(memDiff + " bytes")
  {
    TestReportLines(elapsed, cpu, memStart, memDiff);
    FieldsOfLines(JavaTestWorkerPool.ReportLinesOf(elapsed, cpu, memStart, memDiff),
                  elapsed + " ms", cpu + " %", memStart + " bytes", memDiff + " bytes");
  }

  /** A CPU figure followed by " %", as Go and the test variant print it. */
  lemma SpacedCpuValue(cpu: string, load: real)
    requires Figure(cpu) && ParseFloat(cpu) == Some(load)
    ensures ParseCpu(cpu + " %") == Success(load)
  {
    FigureAvoids(cpu, '%');
    CpuOfSpacedPercent(cpu, load);
  }

  /** A report of the test variant whose figures read as the given values. */
  lemma TestReportReads(elapsed: string, cpu: string, memStart: string, memDiff: string,
                        ms: real, load: real, beginBytes: int, diffBytes: int)
    requires Figure(elapsed) && Figure(cpu) && Figure(memStart) && Figure(memDiff)
    requires ParseFloat(elapsed) == Some(ms) && ParseFloat(cpu) == Some(load)
    requires ParseInt(memStart) == Some(beginBytes) && ParseInt(memDiff) == Some(diffBytes)
    ensures ParseIteration(Join(JavaTestWorkerPool.ReportLinesOf(elapsed, cpu, memStart, memDiff) + [""], '\n'))
         == Success(Sample(Some(ms / 1000.0), load, beginBytes, diffBytes))
  {
    TestReportFields(elapsed, cpu, memStart, memDiff);
    FigureAvoids(elapsed, 'm');
    TimeOfSpacedMillis(elapsed, ms);
    SpacedCpuValue(cpu, load);
    MemoryValues(memStart, memDiff, beginBytes, diffBytes);
    IterationOfFields(Join(JavaTestWorkerPool.ReportLinesOf(elapsed, cpu, memStart, memDiff) + [""], '\n'),
                      elapsed + " ms", cpu + " %", memStart + " bytes", memDiff + " bytes",
                      Sample(Some(ms / 1000.0), load, beginBytes, diffBytes));
  }

  /** What run_java.py reads from the test variant: its fourth line is the
      memory difference, which lands in the "Memory Usage End" column. */
  lemma TestRunParses(elapsedMs: int, cpuDelta: int, memStart: int, memEnd: int)
    ensures ParseIteration(JavaTestWorkerPool.Report(elapsedMs, cpuDelta, memStart, memEnd))
         == Success(Sample(Some(elapsedMs as real / 1000.0), cpuDelta as real, memStart, memEnd - memStart))
  {
    var diff := memEnd - memStart;
    IntFigure(elapsedMs);
    IntFigure(cpuDelta);
    IntFigure(memStart);
    IntFigure(diff);
    FloatOfInt(elapsedMs);
    FloatOfInt(cpuDelta);
    IntOfInt(memStart);
    IntOfInt(diff);
    TestReportReads(IntToString(elapsedMs), IntToString(cpuDelta), IntToString(memStart), IntToString(diff),
                    elapsedMs as real, cpuDelta as real, memStart, diff);
  }

  // The Go program.

  /** What Duration.String writes for a duration that is not a whole number of
      units: the whole units, then optionally a '.' and the fraction's digits. */
  function GoFigure(whole: nat, fraction: string): string
  {
    if fraction == "" then NatToString(whole) else NatToString(whole) + "." + fraction
  }

  lemma GoFigureIsFigure(whole: nat, fraction: string)
    requires AllDigits(fraction)
    ensures Figure(GoFigure(whole, fraction)) && IsDigit(GoFigure(whole, fraction)[0])
  {
    var d := NatToString(whole);
    if fraction != "" {
      var n := d + "." + fraction;
      forall j | 0 <= j < |n|
        ensures n[j] == '.' || IsDigit(n[j])
      {
        if j < |d| {
          assert n[j] == d[j];
        } else if j > |d| {
          assert n[j] == fraction[j - |d| - 1];
        }
      }
    }
  }

  /** float() reads a Duration.String figure as its whole units plus its fraction. */
  lemma FloatOfGoFigure(whole: nat, fraction: string)
    requires AllDigits(fraction)
    ensures ParseFloat(GoFigure(whole, fraction)) == Some(whole as real + FractionValue(fraction))
  {
    if fraction == "" {
      FloatOfNat(whole);
      FractionOfNothing();
    } else {
      FloatOfDecimal(whole, fraction);
    }
  }

  /** A duration from one millisecond to under a second ("12.5ms"): its figure,
      which float() reads as v (FloatOfGoFigure), is divided by 1000. */
  lemma TimeOfGoMillis(whole: nat, fraction: string, v: real)
    requires AllDigits(fraction) && ParseFloat(GoFigure(whole, fraction)) == Some(v)
    ensures ParseTime(GoFigure(whole, fraction) + "ms") == Success(Some(v / 1000.0))
  {
    GoFigureIsFigure(whole, fraction);
    FigureAvoids(GoFigure(whole, fraction), 'm');
    TimeOfMillis(GoFigure(whole, fraction), v);
  }

  /** A duration from one second to under a minute ("1.25s"): its figure is
      read as seconds. */
  lemma TimeOfGoSeconds(whole: nat, fraction: string, v: real)
    requires AllDigits(fraction) && ParseFloat(GoFigure(whole, fraction)) == Some(v)
    ensures ParseTime(GoFigure(whole, fraction) + "s") == Success(Some(v))
  {
    GoFigureIsFigure(whole, fraction);
    FigureAvoids(GoFigure(whole, fraction), 'm');
    FigureAvoids(GoFigure(whole, fraction), 's');
    TimeOfSeconds(GoFigure(whole, fraction), v);
  }

  /** A duration under a millisecond in whole microseconds ("850µs"): the script
      fails with ValueError. */
  lemma TimeOfGoMicros(n: nat)
    ensures ParseTime(NatToString(n) + "µs") == Failure(ValueError)
  {
    TimeOfMicros(NatToString(n));
  }

  /** Text the script can cut out of the first line intact. */
  predicate FieldSafe(t: string)
  {
    ':' !in t && '\n' !in t && Stripped(t)
  }

  /** Duration texts in milliseconds, seconds and microseconds can be cut out of
      the first line intact. */
  lemma GoFigureSafe(whole: nat, fraction: string, unit: string)
    requires AllDigits(fraction) && unit in {"ms", "s", "µs"}
    ensures FieldSafe(GoFigure(whole, fraction) + unit)
  {
    var n := GoFigure(whole, fraction);
    GoFigureIsFigure(whole, fraction);
    FigureAvoids(n, ':');
    FigureAvoids(n, '\n');
    DigitNotSpace(n[0]);
    assert (n + unit)[0] == n[0];
  }

  /** Every line of a Go report keeps to its line, and the first four carry the
      duration text and the other figures with their units. */
  lemma GoReportLines(executionTime: string, cpu: string, memStart: string, memEnd: string, memDiff: string)
    requires FieldSafe(executionTime) && Figure(cpu) && Figure(memStart) && Figure(memEnd) && Figure(memDiff)
    ensures var lines := GoWorkerPool.ReportLinesOf(executionTime, cpu, memStart, memEnd, memDiff);
      && '\n' !in lines[0] && '\n' !in lines[1] && '\n' !in lines[2] && '\n' !in lines[3] && '\n' !in lines[4]
      && LineField(lines[0]) == Success(executionTime) && LineField(lines[1]) == Success(cpu + " %")
      && LineField(lines[2]) == Success(memStart + " bytes") && LineField(lines[3]) == Success(memEnd + " bytes")
  {
    Units();
    CommonTitles();
    MemoryTitles();
    TestTitles();
    LabelledLine("Execution Time: ", executionTime);
    assert '\n' !in "Execution Time: " + executionTime;
    FigureLine("CPU Usage: ", cpu, " %");
    FigureLine("Memory Usage Begin: ", memStart, " bytes");
    FigureLine("Memory Usage End: ", memEnd, " bytes");
    FigureLine("Memory Usage: ", memDiff, " bytes");
  }

  /** The fields of a Go report: the duration text as it stands, and the other
      figures with their units. */
  lemma GoReportFields(executionTime: string, cpu: string, memStart: string, memEnd: string, memDiff: string)
    requires FieldSafe(executionTime) && Figure(cpu) && Figure(memStart) && Figure(memEnd) && Figure(memDiff)
    ensures var output := Split(Join(GoWorkerPool.ReportLinesOf(executionTime, cpu, memStart, memEnd, memDiff) + [""], '\n'), '\n');
      && FieldText(output, 0) == Success(executionTime)
      && FieldText(output, 1) == Success(cpu + " %")
      && FieldText(output, 2) == Success(memStart + " bytes")
      && FieldText(output, 3) == Success(memEnd + " bytes")
  {
    GoReportLines(executionTime, cpu, memStart, memEnd, memDiff);
    FieldsOfLines(GoWorkerPool.ReportLinesOf(executionTime, cpu, memStart, memEnd, memDiff),
                  executionTime, cpu + " %", memStart + " bytes", memEnd + " bytes");
  }

  /** A report of the Go program whose duration text the script reads as time
      and whose other figures read as the given values. */
  lemma GoReportReads(executionTime: string, cpu: string, memStart: string, memEnd: string, memDiff: string,
                      time: Option<real>, load: real, beginBytes: int, endBytes: int)
    requires FieldSafe(executionTime) && Figure(cpu) && Figure(memStart) && Figure(memEnd) && Figure(memDiff)
    requires ParseTime(executionTime) == Success(time) && ParseFloat(cpu) == Some(load)
    requires ParseInt(memStart) == Some(beginBytes) && ParseInt(memEnd) == Some(endBytes)
    ensures ParseIteration(Join(GoWorkerPool.ReportLinesOf(executionTime, cpu, memStart, memEnd, memDiff) + [""], '\n'))
         == Success(Sample(time, load, beginBytes, endBytes))
  {
    GoReportFields(executionTime, cpu, memStart, memEnd, memDiff);
    SpacedCpuValue(cpu, load);
    MemoryValues(memStart, memEnd, beginBytes, endBytes);
    IterationOfFields(Join(GoWorkerPool.ReportLinesOf(executionTime, cpu, memStart, memEnd, memDiff) + [""], '\n'),
                      executionTime, cpu + " %", memStart + " bytes", memEnd + " bytes",
                      Sample(time, load, beginBytes, endBytes));
  }

  /** What run_go.py reads from one run of the Go program whose duration text
      it can read and whose CPU difference is a whole number. */
  lemma GoRunParses(executionTime: string, time: Option<real>, cpuDelta: int, memStart: nat, memEnd: nat)
    requires memStart < GoWorkerPool.U64Modulus && memEnd < GoWorkerPool.U64Modulus
    requires FieldSafe(executionTime) && ParseTime(executionTime) == Success(time)
    ensures ParseIteration(GoWorkerPool.Report(executionTime, IntToString(cpuDelta), memStart, memEnd))
         == Success(Sample(time, cpuDelta as real, memStart, memEnd))
  {
    IntFigure(cpuDelta);
    NatFigure(memStart);
    NatFigure(memEnd);
    NatFigure(GoWorkerPool.MemDifference(memStart, memEnd));
    FloatOfInt(cpuDelta);
    IntOfNat(memStart);
    IntOfNat(memEnd);
    GoReportReads(executionTime, IntToString(cpuDelta), NatToString(memStart), NatToString(memEnd),
                  NatToString(GoWorkerPool.MemDifference(memStart, memEnd)),
                  time, cpuDelta as real, memStart, memEnd);
  }

  /** A Go run whose duration text the script cannot read ends the script with
      that error, whatever follows. */
  lemma GoRunFails(executionTime: string, e: PyError, cpuDelta: int, memStart: nat, memEnd: nat)
    requires memStart < GoWorkerPool.U64Modulus && memEnd < GoWorkerPool.U64Modulus
    requires FieldSafe(executionTime) && ParseTime(executionTime) == Failure(e)
    ensures ParseIteration(GoWorkerPool.Report(executionTime, IntToString(cpuDelta), memStart, memEnd)) == Failure(e)
  {
    var memDiff := NatToString(GoWorkerPool.MemDifference(memStart, memEnd));
    IntFigure(cpuDelta);
    NatFigure(memStart);
    NatFigure(memEnd);
    NatFigure(GoWorkerPool.MemDifference(memStart, memEnd));
    GoReportFields(executionTime, IntToString(cpuDelta), NatToString(memStart), NatToString(memEnd), memDiff);
    IterationFailsAtTime(GoWorkerPool.Report(executionTime, IntToString(cpuDelta), memStart, memEnd), executionTime, e);
  }
}
