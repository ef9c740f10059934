/** The Java subject program
    (java-worker-pool/src/main/java/com/github/thukabjj/javaworkerpool/WorkerPoolPattern.java):
    every line of the CSV file is checked for a missing or empty field 0 or
    field 3; failing lines, with an error suffix, go into a bounded queue of
    capacity 500 that silently drops what does not fit; at the end the queue is
    drained into the error file in batches of 100 lines.

    The executor's tasks run here one after another, in the order the lines
    were read. */
module JavaWorkerPool {
  import opened Wrappers
  import opened Text
  import opened Seqs
  import GoWorkerPool

  /** The positions of the required fields. */
  const RequiredFieldPositions: set<nat> := {0, 3}

  /** The capacity of the error queue. */
  const QueueCapacity: nat := 500

  /** How many error lines are collected before one write. */
  const BatchSize: nat := 100

  /** The text appended to a failing line before it is queued. */
  const ErrorSuffix: string := ", error: missing required field(s)"

  /** Remove the empty strings at the end, as String.split with no limit does. */
  function DropTrailingEmpty(parts: seq<string>): (r: seq<string>)
    ensures |r| <= |parts| && r == parts[..|r|]
    ensures |r| == 0 || r[|r| - 1] != ""
    ensures forall i :: |r| <= i < |parts| ==> parts[i] == ""
  {
    if |parts| == 0 then []
    else if parts[|parts| - 1] == "" then DropTrailingEmpty(parts[..|parts| - 1])
    else parts
  }

  /** Java's line.split(","): the line itself when it has no comma, otherwise
      the comma-separated fields without the trailing empty ones. */
  function JavaSplit(line: string): seq<string>
  {
    if ',' !in line then [line] else DropTrailingEmpty(Split(line, ','))
  }

  /** Field pos of the split line is absent or empty. */
  predicate FieldAbsent(fields: seq<string>, pos: nat)
  {
    |fields| <= pos || fields[pos] == ""
  }

  /** The check of processLine: some required position is absent or empty. */
  predicate HasError(line: string)
  {
    var fields := JavaSplit(line);
    exists pos :: pos in RequiredFieldPositions && FieldAbsent(fields, pos)
  }

  /** What processLine queues for a failing line. */
  function ErrorEntry(line: string): string
  {
    line + ErrorSuffix
  }

  /** Dropping trailing empty fields does not change whether a field is absent or empty. */
  lemma DropKeepsAbsence(parts: seq<string>, pos: nat)
    ensures FieldAbsent(DropTrailingEmpty(parts), pos) <==> FieldAbsent(parts, pos)
  {
  }

  /** The Java check and the Go check agree on every line, the empty one
      included; only Go's rule that an empty line is never reported tells them apart. */
  lemma JavaAgreesWithGo(line: string)
    ensures HasError(line) <==> GoWorkerPool.LineFails(line)
    ensures HasError(line) <==> GoWorkerPool.Reported(line) || line == ""
  {
    var parts := Split(line, ',');
    if ',' !in line {
      SplitNoSep(line, ',');
      assert FieldAbsent(JavaSplit(line), 3);
    } else {
      DropKeepsAbsence(parts, 0);
      DropKeepsAbsence(parts, 3);
    }
    assert HasError(line) <==> FieldAbsent(JavaSplit(line), 0) || FieldAbsent(JavaSplit(line), 3);
  }

  /** The bounded, first-in first-out error queue (a LinkedBlockingQueue of capacity 500). */
  class ErrorQueue {
    var items: seq<string>

    ghost predicate Valid()
      reads this
    {
      |items| <= QueueCapacity
    }

    constructor ()
      ensures Valid() && items == []
    {
      items := [];
    }

    /** offer: appends when there is room, otherwise leaves the queue as it was. */
    method Offer(x: string) returns (accepted: bool)
      requires Valid()
      modifies this
      ensures Valid()
      ensures accepted <==> old(|items|) < QueueCapacity
      ensures items == if accepted then old(items) + [x] else old(items)
    {
      if |items| < QueueCapacity {
        items := items + [x];
        accepted := true;
      } else {
        accepted := false;
      }
    }

    /** poll: removes and returns the head, or returns nothing when the queue is empty. */
    method Poll() returns (x: Option<string>)
      requires Valid()
      modifies this
      ensures Valid()
      ensures old(items) == [] ==> x == None && items == []
      ensures old(items) != [] ==> x == Some(old(items)[0]) && items == old(items)[1..]
    {
      if items == [] {
        x := None;
      } else {
        x := Some(items[0]);
        items := items[1..];
      }
    }
  }

  /** processLine: a failing line is offered to the queue, and dropped when it is full. */
  method ProcessLine(q: ErrorQueue, line: string)
    requires q.Valid()
    modifies q
    ensures q.Valid()
    ensures q.items == if HasError(line) && old(|q.items|) < QueueCapacity
                       then old(q.items) + [ErrorEntry(line)] else old(q.items)
  {
    var fields := JavaSplit(line);
    var hasError := exists pos :: pos in RequiredFieldPositions && FieldAbsent(fields, pos);
    if hasError {
      var _ := q.Offer(ErrorEntry(line));
    }
  }

  /** The lines, each followed by the line separator. */
  function Rendered(lines: seq<string>, lineSeparator: string): string
  {
    if |lines| == 0 then "" else lines[0] + lineSeparator + Rendered(lines[1..], lineSeparator)
  }

  lemma {:induction false} RenderedAppend(a: seq<string>, b: seq<string>, lineSeparator: string)
    ensures Rendered(a + b, lineSeparator) == Rendered(a, lineSeparator) + Rendered(b, lineSeparator)
  {
    if |a| == 0 {
      assert a + b == b;
    } else {
      assert (a + b)[1..] == a[1..] + b;
      RenderedAppend(a[1..], b, lineSeparator);
      calc {
        Rendered(a + b, lineSeparator);
        a[0] + lineSeparator + Rendered(a[1..] + b, lineSeparator);
        a[0] + lineSeparator + (Rendered(a[1..], lineSeparator) + Rendered(b, lineSeparator));
        (a[0] + lineSeparator + Rendered(a[1..], lineSeparator)) + Rendered(b, lineSeparator);
      }
    }
  }

  /** The text of each write: one rendered batch per call of writer.write. */
  function RenderBatches(batches: seq<seq<string>>, lineSeparator: string): seq<string>
  {
    seq(|batches|, i requires 0 <= i < |batches| => Rendered(batches[i], lineSeparator))
  }

  /** The writes, put together, are the lines in order, each followed by the separator. */
  lemma {:induction false} RenderBatchesFlatten(batches: seq<seq<string>>, lineSeparator: string)
    ensures Flatten(RenderBatches(batches, lineSeparator)) == Rendered(Flatten(batches), lineSeparator)
  {
    if |batches| > 0 {
      var writes := RenderBatches(batches, lineSeparator);
      assert writes[1..] == RenderBatches(batches[1..], lineSeparator);
      RenderBatchesFlatten(batches[1..], lineSeparator);
      RenderedAppend(batches[0], Flatten(batches[1..]), lineSeparator);
    }
  }

  lemma RenderBatchesAppend(batches: seq<seq<string>>, last: seq<string>, lineSeparator: string)
    ensures RenderBatches(batches + [last], lineSeparator)
         == RenderBatches(batches, lineSeparator) + [Rendered(last, lineSeparator)]
  {
    var a := RenderBatches(batches + [last], lineSeparator);
    var b := RenderBatches(batches, lineSeparator) + [Rendered(last, lineSeparator)];
    forall i | 0 <= i < |a|
      ensures a[i] == b[i]
    {
      assert (batches + [last])[i] == if i < |batches| then batches[i] else last;
    }
  }

  ghost predicate AllFull(batches: seq<seq<string>>)
  {
    forall i :: 0 <= i < |batches| ==> |batches[i]| == BatchSize
  }

  /** Appending a non-empty batch to full batches keeps the shape of a slicing
      into batches of 100, and keeps every batch full when the new one is. */
  lemma BatchedStep(batches: seq<seq<string>>, last: seq<string>)
    requires WellChunked(batches, BatchSize) && AllFull(batches)
    requires 0 < |last| <= BatchSize
    ensures WellChunked(batches + [last], BatchSize)
    ensures |last| == BatchSize ==> AllFull(batches + [last])
  {
    var b := batches + [last];
    assert forall i :: 0 <= i < |batches| ==> b[i] == batches[i];
  }

  /** writeErrorLinesToFile: polls the queue until it is empty and no batch is
      pending, writing each batch of 100 lines, and the last, shorter one, as
      one piece. */
  method WriteErrorLinesToFile(q: ErrorQueue, lineSeparator: string) returns (writes: seq<string>)
    requires q.Valid()
    modifies q
    ensures q.Valid() && q.items == []
    ensures writes == RenderBatches(ChunksOf(old(q.items), BatchSize), lineSeparator)
  {
    var batch := "";
    var count := 0;
    writes := [];
    ghost var batches: seq<seq<string>> := [];
    ghost var pending: seq<string> := [];
    while |q.items| != 0 || count > 0
      invariant q.Valid()
      invariant old(q.items) == Flatten(batches) + pending + q.items
      invariant count == |pending| < BatchSize
      invariant batch == Rendered(pending, lineSeparator)
      invariant writes == RenderBatches(batches, lineSeparator)
      invariant WellChunked(batches, BatchSize)
      invariant AllFull(batches) || (q.items == [] && count == 0)
      decreases |q.items|, count
    {
      ghost var before := q.items;
      var line := q.Poll();
      if line.Some? {
        HeadTail(before);
        MoveOne(Flatten(batches), pending, line.value, q.items);
        RenderedAppend(pending, [line.value], lineSeparator);
        assert Rendered([line.value], lineSeparator) == line.value + lineSeparator;
        batch := batch + line.value + lineSeparator;
        count := count + 1;
        pending := pending + [line.value];
      }
      if count >= BatchSize || line.None? {
        FlattenAppend(batches, [pending]);
        assert Flatten([pending]) == pending + Flatten([]);
        FlushPending(Flatten(batches), pending, Flatten(batches + [pending]), q.items);
        BatchedStep(batches, pending);
        RenderBatchesAppend(batches, pending, lineSeparator);
        assert batch == Rendered(pending, lineSeparator);
        assert writes + [batch] == RenderBatches(batches + [pending], lineSeparator);
        writes := writes + [batch];
        batches := batches + [pending];
        batch := "";
        count := 0;
        pending := [];
      }
    }
    if |batch| > 0 {
      writes := writes + [batch];
    }
    ChunksOfUnique(batches, old(q.items), BatchSize);
  }

  lemma HeadTail(s: seq<string>)
    requires s != []
    ensures s == [s[0]] + s[1..]
  {
  }

  /** Moving the head of the queue to the end of the pending batch keeps their concatenation. */
  lemma MoveOne(written: seq<string>, pending: seq<string>, x: string, rest: seq<string>)
    ensures written + pending + ([x] + rest) == written + (pending + [x]) + rest
  {
  }

  /** Writing the pending batch keeps the concatenation of all lines. */
  lemma FlushPending(written: seq<string>, pending: seq<string>, flushed: seq<string>, rest: seq<string>)
    requires flushed == written + pending
    ensures written + pending + rest == flushed + [] + rest
  {
  }

  /** The error entries of the lines for which fails holds, in line order. */
  function Flagged(lines: seq<string>, fails: string -> bool): seq<string>
  {
    if |lines| == 0 then []
    else Flagged(lines[..|lines| - 1], fails)
         + (if fails(lines[|lines| - 1]) then [ErrorEntry(lines[|lines| - 1])] else [])
  }

  /** The error entries the lines produce, in order, before the queue bound. */
  function Entries(lines: seq<string>): seq<string>
  {
    Flagged(lines, HasError)
  }

  /** The longest prefix of s that fits in the queue. */
  function Bounded(s: seq<string>): (r: seq<string>)
    ensures |r| <= QueueCapacity && r <= s
    ensures |s| <= QueueCapacity ==> r == s
    ensures |s| > QueueCapacity ==> r == s[..QueueCapacity]
  {
    if |s| <= QueueCapacity then s else s[..QueueCapacity]
  }

  /** The whole run: every line is processed, then the queue is written out. The
      file receives the first 500 error entries, in line order, and nothing else. */
  method RunJava(lines: seq<string>, lineSeparator: string) returns (writes: seq<string>)
    ensures writes == RenderBatches(ChunksOf(Bounded(Entries(lines)), BatchSize), lineSeparator)
    ensures Flatten(writes) == Rendered(Bounded(Entries(lines)), lineSeparator)
  {
    var q := new ErrorQueue();
    for i := 0 to |lines|
      invariant q.Valid()
      invariant q.items == Bounded(Entries(lines[..i]))
    {
      assert lines[..i + 1][..i] == lines[..i];
      ProcessLine(q, lines[i]);
    }
    assert lines[..|lines|] == lines;
    writes := WriteErrorLinesToFile(q, lineSeparator);
    RenderBatchesFlatten(ChunksOf(Bounded(Entries(lines)), BatchSize), lineSeparator);
    ChunksOfSpec(Bounded(Entries(lines)), BatchSize);
  }

  /** The entries of a prefix of the lines begin the entries of all of them. */
  lemma {:induction false} FlaggedPrefix(lines: seq<string>, fails: string -> bool, k: nat)
    requires k <= |lines|
    ensures Flagged(lines[..k], fails) <= Flagged(lines, fails)
    decreases |lines| - k
  {
    if k < |lines| {
      var n := |lines| - 1;
      assert lines[..n][..k] == lines[..k];
      FlaggedPrefix(lines[..n], fails, k);
    } else {
      assert lines[..k] == lines;
    }
  }

  /** Every flagged line leaves its entry. */
  lemma FlaggedComplete(lines: seq<string>, fails: string -> bool, i: nat)
    requires i < |lines| && fails(lines[i])
    ensures ErrorEntry(lines[i]) in Flagged(lines, fails)
  {
    assert lines[..i + 1][..i] == lines[..i];
    FlaggedPrefix(lines, fails, i + 1);
    var before := Flagged(lines[..i], fails);
    assert Flagged(lines[..i + 1], fails)[|before|] == ErrorEntry(lines[i]);
  }

  /** Every entry comes from a flagged line. */
  lemma {:induction false} FlaggedSound(lines: seq<string>, fails: string -> bool, e: string)
    requires e in Flagged(lines, fails)
    ensures exists i :: 0 <= i < |lines| && fails(lines[i]) && e == ErrorEntry(lines[i])
  {
    var n := |lines| - 1;
    if e in Flagged(lines[..n], fails) {
      FlaggedSound(lines[..n], fails, e);
      var i :| 0 <= i < n && fails(lines[..n][i]) && e == ErrorEntry(lines[..n][i]);
      assert lines[i] == lines[..n][i];
    } else {
      assert fails(lines[n]) && e == ErrorEntry(lines[n]);
    }
  }

  /** Every failing line leaves its entry. */
  lemma EntriesComplete(lines: seq<string>, i: nat)
    requires i < |lines| && HasError(lines[i])
    ensures ErrorEntry(lines[i]) in Entries(lines)
  {
    FlaggedComplete(lines, HasError, i);
  }

  /** Every entry comes from a failing line. */
  lemma EntriesSound(lines: seq<string>, e: string)
    requires e in Entries(lines)
    ensures exists i :: 0 <= i < |lines| && HasError(lines[i]) && e == ErrorEntry(lines[i])
  {
    FlaggedSound(lines, HasError, e);
  }

  /** Java's %.2f of a whole number: its digits followed by ".00". */
  function FixedTwo(x: int): string
  {
    IntToString(x) + ".00"
  }

  /** The lines main prints (WorkerPoolPattern.java:48-52), given the text of
      each figure. */
  function ReportLinesOf(elapsed: string, cpu: string, memStart: string, memEnd: string, memDiff: string): seq<string>
  {
    [ "Execution Time: " + elapsed + " ms",
      "CPU Usage: " + cpu + "%",
      "Memory Usage Begin: " + memStart + " bytes",
      "Memory Usage End: " + memEnd + " bytes",
      "Memory Usage Difference: " + memDiff + " bytes" ]
  }

  /** The lines main prints: elapsed milliseconds, the CPU load difference
      times 100, memory at the start, at the end and the difference. */
  function ReportLines(elapsedMs: int, cpuDelta: int, memStart: int, memEnd: int): seq<string>
  {
    ReportLinesOf(IntToString(elapsedMs), FixedTwo(cpuDelta * 100), IntToString(memStart),
                  IntToString(memEnd), IntToString(memEnd - memStart))
  }

  /** The program's standard output, every printf line ended by %n. */
  function Report(elapsedMs: int, cpuDelta: int, memStart: int, memEnd: int): string
  {
    Join(ReportLines(elapsedMs, cpuDelta, memStart, memEnd) + [""], '\n')
  }
}
