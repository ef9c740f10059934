/** The test variant of the Java program
    (test/src/main/java/com/github/thukabjj/javaworkerpool/WorkerPoolPattern.java):
    the same required-field check written as a loop with an early exit, an
    unbounded queue that keeps every failing line, and an error file that is
    opened only when there is something to write.

    The executor's tasks run here one after another, in the order the lines
    were read. */
module JavaTestWorkerPool {
  import opened Wrappers
  import opened Text
  import JavaWorkerPool

  /** The unbounded first-in first-out error queue (a ConcurrentLinkedQueue). */
  class ErrorQueue {
    var items: seq<string>

    constructor ()
      ensures items == []
    {
      items := [];
    }

    /** add: always appends. */
    method Add(x: string)
      modifies this
      ensures items == old(items) + [x]
    {
      items := items + [x];
    }

    /** poll: removes and returns the head, or returns nothing when the queue is empty. */
    method Poll() returns (x: Option<string>)
      modifies this
      ensures old(items) == [] ==> x == None && items == []
      ensures old(items) != [] ==> x == Some(old(items)[0]) && items == old(items)[1..]
    {
      if items == [] {
        x := None;
      } else {
        x := Some(items[0]);
        items := items[1..];
      }
    }
  }

  /** The loop of processLine: visit the required positions, in whatever order
      the set yields them, and stop at the first absent or empty one. The verdict
      is the one the main variant's anyMatch reaches. */
  method HasMissingRequiredField(line: string) returns (hasError: bool)
    ensures hasError == JavaWorkerPool.HasError(line)
  {
    var fields := JavaWorkerPool.JavaSplit(line);
    hasError := false;
    var remaining := JavaWorkerPool.RequiredFieldPositions;
    while remaining != {}
      invariant remaining <= JavaWorkerPool.RequiredFieldPositions
      invariant hasError ==> JavaWorkerPool.HasError(line)
      invariant !hasError ==> forall pos :: pos in JavaWorkerPool.RequiredFieldPositions - remaining
                                            ==> !JavaWorkerPool.FieldAbsent(fields, pos)
      decreases remaining
    {
      var fieldPos :| fieldPos in remaining;
      if |fields| <= fieldPos || fields[fieldPos] == "" {
        assert JavaWorkerPool.FieldAbsent(fields, fieldPos);
        hasError := true;
        break;
      }
      remaining := remaining - {fieldPos};
    }
  }

  /** processLine: every failing line is queued with the error suffix. */
  method ProcessLine(q: ErrorQueue, line: string)
    modifies q
    ensures q.items == old(q.items)
                       + if JavaWorkerPool.HasError(line) then [JavaWorkerPool.ErrorEntry(line)] else []
  {
    var hasError := HasMissingRequiredField(line);
    if hasError {
      q.Add(JavaWorkerPool.ErrorEntry(line));
    }
  }

  /** writeErrorLinesToFile: when the queue holds something, the file is opened
      and every line is written, in order, each followed by the line separator;
      an empty queue leaves no file behind. */
  method WriteErrorLinesToFile(q: ErrorQueue, lineSeparator: string) returns (fileOpened: bool, contents: string)
    modifies q
    ensures fileOpened <==> old(q.items) != []
    ensures contents == JavaWorkerPool.Rendered(old(q.items), lineSeparator)
    ensures q.items == []
  {
    fileOpened := q.items != [];
    contents := "";
    if fileOpened {
      ghost var taken: seq<string> := [];
      while q.items != []
        invariant old(q.items) == taken + q.items
        invariant contents == JavaWorkerPool.Rendered(taken, lineSeparator)
        decreases |q.items|
      {
        var line := q.Poll();
        JavaWorkerPool.RenderedAppend(taken, [line.value], lineSeparator);
        assert JavaWorkerPool.Rendered([line.value], lineSeparator) == line.value + lineSeparator;
        contents := contents + line.value + lineSeparator;
        taken := taken + [line.value];
      }
      assert taken + q.items == taken;
    }
  }

  /** The whole run: the file is opened exactly when some line fails, and holds
      the error entry of every failing line, in line order, none dropped. */
  method RunTest(lines: seq<string>, lineSeparator: string) returns (fileOpened: bool, contents: string)
    ensures fileOpened <==> exists i :: 0 <= i < |lines| && JavaWorkerPool.HasError(lines[i])
    ensures contents == JavaWorkerPool.Rendered(JavaWorkerPool.Entries(lines), lineSeparator)
  {
    var q := new ErrorQueue();
    for i := 0 to |lines|
      invariant q.items == JavaWorkerPool.Entries(lines[..i])
    {
      assert lines[..i + 1][..i] == lines[..i];
      ProcessLine(q, lines[i]);
    }
    assert lines[..|lines|] == lines;
    ghost var entries := q.items;
    fileOpened, contents := WriteErrorLinesToFile(q, lineSeparator);
    if fileOpened {
      JavaWorkerPool.EntriesSound(lines, entries[0]);
    } else {
      forall i | 0 <= i < |lines|
        ensures !JavaWorkerPool.HasError(lines[i])
      {
        if JavaWorkerPool.HasError(lines[i]) {
          JavaWorkerPool.EntriesComplete(lines, i);
        }
      }
    }
  }

  /** The lines main prints (test WorkerPoolPattern.java:53-56), given the text
      of each figure. */
  function ReportLinesOf(elapsed: string, cpu: string, memStart: string, memDiff: string): seq<string>
  {
    [ "Execution Time: " + elapsed + " ms",
      "CPU Usage: " + cpu + " %",
      "Memory Used in the begin: " + memStart + " bytes",
      "Memory Usage: " + memDiff + " bytes" ]
  }

  /** The lines main prints: elapsed milliseconds, the CPU load difference,
      memory at the start and the difference between end and start. */
  function ReportLines(elapsedMs: int, cpuDelta: int, memStart: int, memEnd: int): seq<string>
  {
    ReportLinesOf(IntToString(elapsedMs), IntToString(cpuDelta), IntToString(memStart), IntToString(memEnd - memStart))
  }

  /** The program's standard output, every println line ended by a newline. */
  function Report(elapsedMs: int, cpuDelta: int, memStart: int, memEnd: int): string
  {
    Join(ReportLines(elapsedMs, cpuDelta, memStart, memEnd) + [""], '\n')
  }
}
