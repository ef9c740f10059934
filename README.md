# Worker-pool benchmark: a Dafny model

This project models the worker-pool-pattern repository: two subject programs and the scripts that read their output.

- **Go program** (`golang-worker-pool/main.go`)
  - Reads a CSV file in blocks and extends each block to the next newline.
  - When `ReadBytes` reaches the end of the input instead of a newline, the loop sends the bare block and drops what `ReadBytes` returned. The last line of an input that does not end in a newline can therefore be lost, or cut short and checked as a fragment (`TruncatedChunk`, `FragmentReported`). Even a chunk that ends in a newline can be followed by such a dropped tail (`TerminatedChunkThenDroppedTail`). The model keeps this behaviour as the code has it.
  - Splits every block into lines and checks the lines in slices of 300.
  - A non-empty line is reported when its field 0 (id) or field 3 (email) is absent or empty.
  - `main` writes each report to `errors.csv`, which it creates when the first report arrives, then prints five measurement lines.
- **Java program** (`java-worker-pool/.../WorkerPoolPattern.java`)
  - `processLine` runs the same check, with Java's `String.split`, which drops trailing empty fields.
  - Failing lines get the suffix `, error: missing required field(s)` and are offered to a queue of capacity 500, which silently drops what does not fit.
  - `writeErrorLinesToFile` drains the queue in writes of 100 lines each, plus a last, shorter write.
  - It always creates `errors.csv` (`Files.newBufferedWriter`, WorkerPoolPattern.java:66), even when no line fails; the model gives the writes, and an empty run gives none.
  - `main` prints five measurement lines.
- **Test variant of the Java program** (`test/.../WorkerPoolPattern.java`)
  - The check is a loop with an early exit.
  - The queue is unbounded.
  - The error file is opened only when the queue holds something.
  - `main` prints four measurement lines.
- **Runner scripts** (`run_java.py`, `run_go.py`)
  - Each runs its program 100 times and splits the output into lines.
  - From lines 0 to 3 each script takes the text between the first and the second `:`, strips it and removes the unit: `ms`, checked before `s`; `%`; ` bytes`.
  - It reads the texts with `float()` and `int()` and builds a four-column pandas table.
  - The two scripts differ only in the command they run and the file they write, so one model (`ResultParser`) stands for both.

The repository has no sampling benchmark harness: no warmup phase, no resource sampler polling a child process, no mean or standard deviation. It only has the runner scripts above, which read the figures the programs print about themselves. The model follows the code: `ResultParser` is the scripts' parsing loop and table.

Modules, one per source file, plus shared helpers:

| module | file | models |
|---|---|---|
| `Wrappers` | wrappers.dfy | `Option` and `Result` |
| `Seqs` | seqs.dfy | flattening, and cutting a sequence into fixed-size batches |
| `Text` | text.dfy | the string operations the programs use (Go's `strings.Split`, Python's `str.split`, `strip`, `replace`, `in`, decimal rendering of integers) |
| `PyNumbers` | py_numbers.dfy | Python's `float()` and `int()` on decimal text |
| `GoWorkerPool` | go_worker_pool.dfy | main.go |
| `JavaWorkerPool` | java_worker_pool.dfy | the Java program |
| `JavaTestWorkerPool` | java_test_worker_pool.dfy | the test variant |
| `ResultParser` | result_parser.dfy | run_java.py and run_go.py, plus the lemmas that read each program's report back |

Code that changes state step by step is written as methods with loops and invariants:
- the reader loop of `Process`;
- the worker loops of `ProcessChunk`;
- the receiving loop of `main`;
- `processLine` and `writeErrorLinesToFile`;
- the scripts' loop over the runs.

Each method is proved against a function that specifies it. The two Java queues are classes, with a `seq` field that their methods reassign.

## Model

| member | source | states |
|---|---|---|
| GoWorkerPool.CheckRequiredFields | golang-worker-pool/main.go:181-192 | a line is reported exactly when field 0 or field 3 is absent or empty, whichever order the map yields the positions in; the reported error names its line and a required position that really is missing |
| GoWorkerPool.CheckSlice | golang-worker-pool/main.go:176-193 | one worker goroutine sends, in order, exactly the non-empty failing lines of its slice, each with a justified error |
| GoWorkerPool.SliceBounds | golang-worker-pool/main.go:164-194 | each slice is non-empty, at most 300 lines long, and ends where the next begins or at the last line |
| GoWorkerPool.Partition | golang-worker-pool/main.go:164-194 | the number of goroutines is the ceiling of lines/300, and their slices partition the lines from 0 to n |
| GoWorkerPool.SliceOfIndex | golang-worker-pool/main.go:164-194 | every line index lies in exactly one slice, the one numbered index/300 |
| GoWorkerPool.SliceIsChunk | golang-worker-pool/main.go:172-194 | slice i is exactly batch i of the lines cut into batches of 300 |
| GoWorkerPool.ProcessChunk | golang-worker-pool/main.go:151-198 | the errors of a chunk are about exactly its non-empty failing lines, in line order, and each is justified |
| GoWorkerPool.ReadBytesSpec | golang-worker-pool/main.go:134-138 | ReadBytes('\n') returns a prefix of the unread input: up to and including its first newline, or, with EOF, all of it when it holds no newline |
| GoWorkerPool.BlockSize | golang-worker-pool/main.go:124 | defines what one `r.Read` into a buffer of the given size delivers: that many bytes, or what is left of the input when less |
| GoWorkerPool.ReadBytesAt | golang-worker-pool/main.go:134 | ReadBytes on the input from position p returns the input from p to just past the next newline, or to the end with EOF |
| GoWorkerPool.LineEndSpec | golang-worker-pool/main.go:134 | where ReadBytes stops: at EOF, the end of the input with no newline after p; otherwise just past a newline, with none before it |
| GoWorkerPool.ReadLoop | golang-worker-pool/main.go:121-146 | defines the reader loop turn by turn: a Read that delivers nothing ends it; otherwise its block, extended by ReadBytes up to the next newline unless ReadBytes reached EOF, becomes a chunk, and the loop goes on where ReadBytes stopped |
| GoWorkerPool.Process | golang-worker-pool/main.go:101-149 | the chunks are exactly the reader loop's: each Read's block extended to and including the next newline, or, when ReadBytes reaches EOF, the bare block, with what ReadBytes returned dropped; every chunk is non-empty and came from a Read that delivered bytes; every chunk but the last ends in a newline; together they are a prefix of the input; unless the Read that ended the loop asked for no bytes, what is not kept holds no newline; when every Read asks for at least one byte and the input ends in a newline, the chunks are all of the input; a last chunk without a newline is exactly its Read's block: no longer than that Read asked for, and as long unless it runs to the end of the input |
| GoWorkerPool.ReadLoopStep | golang-worker-pool/main.go:121-146 | one turn of the loop that delivers bytes keeps its invariant: the chunks sent so far, then the rest of the reader loop from where ReadBytes stopped, make up the whole loop |
| GoWorkerPool.ReadLoopShaped | golang-worker-pool/main.go:121-146 | every chunk is non-empty and came from a Read that delivered bytes, and every chunk but the last ends in a newline |
| GoWorkerPool.ReadLoopStretch | golang-worker-pool/main.go:121-146 | the chunks, concatenated, are the input from the start up to where the loop stopped, and that stretch ends where no newline remains or where the Read that ended the loop asked for no bytes |
| GoWorkerPool.ReadLoopLastBlock | golang-worker-pool/main.go:124-138 | a last chunk without a newline is its Read's block, no longer than asked, and shorter only at the end of the input |
| GoWorkerPool.NoNewlineToEnd | golang-worker-pool/main.go:134-138 | when no newline remains after a position and the input ends in a newline, that position is the end of the input |
| GoWorkerPool.ReadLoopFacts | golang-worker-pool/main.go:121-146 | the reader loop's chunks have all the properties Process states about them |
| GoWorkerPool.TruncatedChunk | golang-worker-pool/main.go:124-138 | with Reads of 15 bytes, "1,a,b,c@x\n9,q,r,s@y" yields the single chunk "1,a,b,c@x\n9,q,r": the text ReadBytes returned at EOF is dropped |
| GoWorkerPool.FragmentReported | golang-worker-pool/main.go:178-185 | that fragment "9,q,r" is reported, while the whole line "9,q,r,s@y" would not be |
| GoWorkerPool.TerminatedChunkThenDroppedTail | golang-worker-pool/main.go:124-138 | with Reads of 3 bytes, "ab\ncd" yields only "ab\n": a last chunk that ends in a newline does not mean the input was read to its end |
| GoWorkerPool.AfterNewline | golang-worker-pool/main.go:160 | after a text that ends in a newline, the lines of the next text are reported on their own |
| GoWorkerPool.ChunkedReports | golang-worker-pool/main.go:121-160 | no line is cut across chunks: the lines reported chunk by chunk are the lines reported on the whole text |
| GoWorkerPool.CheckChunks | golang-worker-pool/main.go:140-147 | the errors of all the chunks, taken chunk by chunk, are about exactly the lines each chunk reports, in order; each is justified and holds no newline |
| GoWorkerPool.ReportedLinesAppend | golang-worker-pool/main.go:176-193 | reporting distributes over concatenation of line lists |
| GoWorkerPool.ReportedLinesFrom | golang-worker-pool/main.go:176-187 | every reported line is one of the lines checked |
| GoWorkerPool.LineOfChunk | golang-worker-pool/main.go:160 | a reported line, cut from a chunk at newlines, holds no newline |
| GoWorkerPool.RenderErrorsAppend | golang-worker-pool/main.go:69 | each received error appends its record and a newline to the file |
| GoWorkerPool.RecordOneLine | golang-worker-pool/main.go:69 | a record keeps to one line when its input line does |
| GoWorkerPool.ErrorFileLines | golang-worker-pool/main.go:59-74 | the error file splits into exactly one record per error, in order, then an empty tail |
| GoWorkerPool.DrainErrors | golang-worker-pool/main.go:59-85 | the file is created exactly when some error arrives, and holds every error's record in order |
| GoWorkerPool.RunGo | golang-worker-pool/main.go:38-85 | the whole program: the chunks are exactly the reader loop's; everything it reads is a prefix of the input; its errors are exactly the non-empty failing lines of what it read, in order, each justified, and those of the whole input when every Read asks for at least one byte and the input ends in a newline; the file exists exactly when there are errors, and splits back into their records |
| GoWorkerPool.MemDifference | golang-worker-pool/main.go:89 | memEnd - memStart on uint64: below 2^64, congruent to the difference, and equal to it when memory grew |
| GoWorkerPool.LineFails | golang-worker-pool/main.go:181-185 | defines the check: field 0 or field 3 of the comma-split line is absent or empty |
| GoWorkerPool.ErrorMessage | golang-worker-pool/main.go:188 | defines the `fmt.Errorf` message naming the missing position in decimal |
| GoWorkerPool.Reported | golang-worker-pool/main.go:178-185 | defines which lines are reported: the non-empty ones that fail the check |
| GoWorkerPool.ErrorRecord | golang-worker-pool/main.go:69 | defines one record: the line, ", error: " and the message |
| GoWorkerPool.RenderErrors | golang-worker-pool/main.go:69 | defines the error file: each error's record followed by a newline, in order |
| GoWorkerPool.ReportLinesOf | golang-worker-pool/main.go:94-98 | defines the five report lines, given the text of each figure |
| GoWorkerPool.ReportLines | golang-worker-pool/main.go:94-98 | defines the report lines from the measured values |
| GoWorkerPool.Report | golang-worker-pool/main.go:94-98 | defines standard output: the report lines, each ended by a newline |
| JavaWorkerPool.DropTrailingEmpty | java-worker-pool/src/main/java/com/github/thukabjj/javaworkerpool/WorkerPoolPattern.java:56 | String.split drops exactly the trailing empty fields: what is left is a prefix, ends in a non-empty field, and everything removed is empty |
| JavaWorkerPool.DropKeepsAbsence | java-worker-pool/src/main/java/com/github/thukabjj/javaworkerpool/WorkerPoolPattern.java:56-58 | dropping trailing empty fields does not change whether a position is absent or empty |
| JavaWorkerPool.JavaAgreesWithGo | java-worker-pool/src/main/java/com/github/thukabjj/javaworkerpool/WorkerPoolPattern.java:55-59 | the Java check (String.split, anyMatch) and the Go check (strings.Split, map loop at main.go:181-185) agree on every line; Go differs only in skipping the empty line |
| JavaWorkerPool.ErrorQueue.constructor | java-worker-pool/src/main/java/com/github/thukabjj/javaworkerpool/WorkerPoolPattern.java:19 | the queue starts empty and within its capacity |
| JavaWorkerPool.ErrorQueue.Offer | java-worker-pool/src/main/java/com/github/thukabjj/javaworkerpool/WorkerPoolPattern.java:19 | offer appends exactly when fewer than 500 items are queued, and otherwise leaves the queue as it was |
| JavaWorkerPool.ErrorQueue.Poll | java-worker-pool/src/main/java/com/github/thukabjj/javaworkerpool/WorkerPoolPattern.java:71 | poll removes and returns the head, or returns null on an empty queue |
| JavaWorkerPool.ProcessLine | java-worker-pool/src/main/java/com/github/thukabjj/javaworkerpool/WorkerPoolPattern.java:55-63 | a failing line's entry is queued when there is room; otherwise the queue is unchanged |
| JavaWorkerPool.RenderedAppend | java-worker-pool/src/main/java/com/github/thukabjj/javaworkerpool/WorkerPoolPattern.java:73 | rendering lines with their separator distributes over concatenation |
| JavaWorkerPool.RenderBatchesFlatten | java-worker-pool/src/main/java/com/github/thukabjj/javaworkerpool/WorkerPoolPattern.java:73-87 | the writes, concatenated, are all the lines in order, each followed by the separator |
| JavaWorkerPool.BatchedStep | java-worker-pool/src/main/java/com/github/thukabjj/javaworkerpool/WorkerPoolPattern.java:76-80 | writing a batch at count 100 keeps every earlier batch full |
| JavaWorkerPool.WriteErrorLinesToFile | java-worker-pool/src/main/java/com/github/thukabjj/javaworkerpool/WorkerPoolPattern.java:65-89 | the queue ends empty, and the writes are its contents cut into batches of 100 in order, the last one possibly shorter |
| JavaWorkerPool.Bounded | java-worker-pool/src/main/java/com/github/thukabjj/javaworkerpool/WorkerPoolPattern.java:19 | what a queue of 500 keeps: all the entries when at most 500, and exactly the first 500 when there are more |
| JavaWorkerPool.RunJava | java-worker-pool/src/main/java/com/github/thukabjj/javaworkerpool/WorkerPoolPattern.java:32-42 | the file receives the first 500 error entries in line order, in batches of 100, and nothing else |
| JavaWorkerPool.FlaggedPrefix | java-worker-pool/src/main/java/com/github/thukabjj/javaworkerpool/WorkerPoolPattern.java:34-36 | the entries of the first k lines begin the entries of all the lines |
| JavaWorkerPool.FlaggedComplete | java-worker-pool/src/main/java/com/github/thukabjj/javaworkerpool/WorkerPoolPattern.java:60-62 | every flagged line leaves its entry |
| JavaWorkerPool.FlaggedSound | java-worker-pool/src/main/java/com/github/thukabjj/javaworkerpool/WorkerPoolPattern.java:60-62 | every entry comes from a flagged line |
| JavaWorkerPool.EntriesComplete | java-worker-pool/src/main/java/com/github/thukabjj/javaworkerpool/WorkerPoolPattern.java:55-62 | every line that fails the check leaves its entry |
| JavaWorkerPool.EntriesSound | java-worker-pool/src/main/java/com/github/thukabjj/javaworkerpool/WorkerPoolPattern.java:55-62 | every entry is the entry of a line that fails the check |
| JavaWorkerPool.JavaSplit | java-worker-pool/src/main/java/com/github/thukabjj/javaworkerpool/WorkerPoolPattern.java:56 | defines String.split(","): the whole line when it has no comma, otherwise the comma-split fields with the trailing empty ones dropped |
| JavaWorkerPool.HasError | java-worker-pool/src/main/java/com/github/thukabjj/javaworkerpool/WorkerPoolPattern.java:57-59 | defines the check: some required position is absent or empty |
| JavaWorkerPool.ErrorEntry | java-worker-pool/src/main/java/com/github/thukabjj/javaworkerpool/WorkerPoolPattern.java:61 | defines a queued entry: the line and the error suffix |
| JavaWorkerPool.Rendered | java-worker-pool/src/main/java/com/github/thukabjj/javaworkerpool/WorkerPoolPattern.java:73 | defines the text appended for some lines: each line followed by the line separator |
| JavaWorkerPool.Flagged | java-worker-pool/src/main/java/com/github/thukabjj/javaworkerpool/WorkerPoolPattern.java:34-36 | defines the entries a check leaves when the lines are processed in order |
| JavaWorkerPool.Entries | java-worker-pool/src/main/java/com/github/thukabjj/javaworkerpool/WorkerPoolPattern.java:34-36 | defines the entries processLine (:55-62) queues for the lines of the file, in line order, before the capacity bound |
| JavaWorkerPool.FixedTwo | java-worker-pool/src/main/java/com/github/thukabjj/javaworkerpool/WorkerPoolPattern.java:49 | defines `%.2f` of a whole number: its decimal digits and ".00" |
| JavaWorkerPool.ReportLinesOf | java-worker-pool/src/main/java/com/github/thukabjj/javaworkerpool/WorkerPoolPattern.java:48-52 | defines the five printf lines, given the text of each figure |
| JavaWorkerPool.ReportLines | java-worker-pool/src/main/java/com/github/thukabjj/javaworkerpool/WorkerPoolPattern.java:48-52 | defines the printf lines from the measured values |
| JavaWorkerPool.Report | java-worker-pool/src/main/java/com/github/thukabjj/javaworkerpool/WorkerPoolPattern.java:48-52 | defines standard output: the lines, each ended by %n |
| JavaTestWorkerPool.ErrorQueue.constructor | test/src/main/java/com/github/thukabjj/javaworkerpool/WorkerPoolPattern.java:23 | the unbounded queue starts empty |
| JavaTestWorkerPool.ErrorQueue.Add | test/src/main/java/com/github/thukabjj/javaworkerpool/WorkerPoolPattern.java:70 | add always appends |
| JavaTestWorkerPool.ErrorQueue.Poll | test/src/main/java/com/github/thukabjj/javaworkerpool/WorkerPoolPattern.java:78 | poll removes and returns the head, or returns null on an empty queue |
| JavaTestWorkerPool.HasMissingRequiredField | test/src/main/java/com/github/thukabjj/javaworkerpool/WorkerPoolPattern.java:60-68 | the loop with an early exit, over the set in any order, reaches the same verdict as the main variant's anyMatch |
| JavaTestWorkerPool.ProcessLine | test/src/main/java/com/github/thukabjj/javaworkerpool/WorkerPoolPattern.java:60-72 | a failing line's entry is always queued, and a passing line changes nothing |
| JavaTestWorkerPool.WriteErrorLinesToFile | test/src/main/java/com/github/thukabjj/javaworkerpool/WorkerPoolPattern.java:74-83 | the file is opened exactly when the queue is non-empty, holds every line in order followed by the separator, and the queue ends empty |
| JavaTestWorkerPool.RunTest | test/src/main/java/com/github/thukabjj/javaworkerpool/WorkerPoolPattern.java:34-45 | the file is opened exactly when some line fails, and holds the entry of every failing line in line order, none dropped |
| JavaTestWorkerPool.ReportLinesOf | test/src/main/java/com/github/thukabjj/javaworkerpool/WorkerPoolPattern.java:53-56 | defines the four println lines, given the text of each figure |
| JavaTestWorkerPool.ReportLines | test/src/main/java/com/github/thukabjj/javaworkerpool/WorkerPoolPattern.java:53-56 | defines the println lines from the measured values |
| JavaTestWorkerPool.Report | test/src/main/java/com/github/thukabjj/javaworkerpool/WorkerPoolPattern.java:53-56 | defines standard output: the lines, each ended by a newline |
| Text.Split | run_java.py:14 | the pieces number at least one, and none holds the separator |
| Text.SplitLength | run_java.py:14 | splitting gives one more piece than there are separators |
| Text.JoinSplit | run_java.py:14 | joining the pieces with the separator gives back the text |
| Text.SplitJoin | run_java.py:14 | splitting a join of separator-free pieces gives back the pieces |
| Text.SplitAppend | golang-worker-pool/main.go:160 | splitting at a separator distributes over the two sides |
| Text.SplitSeveral | run_java.py:16 | there are at least two pieces exactly when the separator occurs |
| Text.StripSpec | run_java.py:16 | strip() keeps no whitespace at either end and removes only whitespace |
| Text.StripParts | run_java.py:16 | the whitespace strip() removes from each end of a text, with what is kept between them |
| Text.StripPadding | run_java.py:16 | strip() ignores any whitespace padding |
| Text.RemoveAllChar | run_java.py:25 | replacing a character by nothing removes every occurrence |
| Text.RemoveAllAbsent | run_java.py:18 | replacing an absent pattern changes nothing |
| Text.Strip | run_java.py:16 | defines str.strip() |
| Text.RemoveAll | run_java.py:18 | defines str.replace(p, '') |
| Text.Contains | run_java.py:17 | defines Python's substring test p in s |
| Text.NatToString | java-worker-pool/src/main/java/com/github/thukabjj/javaworkerpool/WorkerPoolPattern.java:50 | the decimal rendering is a non-empty digit string with no leading zero |
| PyNumbers.DigitsOfNat | run_java.py:30 | the value of a number's decimal digits is the number |
| PyNumbers.FloatOfNumeral | run_java.py:19 | float() reads a signed decimal numeral as its value |
| PyNumbers.FloatOfInt | run_java.py:26 | float() reads an integer's decimal text as that integer |
| PyNumbers.FloatOfFixed2 | run_java.py:26 | float() reads a whole number printed with %.2f as that number |
| PyNumbers.FloatOfDecimal | run_go.py:20 | float() reads "whole.fraction" as the whole part plus the fraction |
| PyNumbers.FloatRejectsTrailing | run_go.py:23 | float() rejects digits followed by a character that cannot continue a number |
| PyNumbers.IntOfInt | run_java.py:30 | int() reads an integer's decimal text as that integer |
| PyNumbers.IntOfNat | run_go.py:31 | int() reads a natural number's decimal text as that number |
| PyNumbers.FloatPadding | run_java.py:26 | float() ignores surrounding whitespace |
| PyNumbers.IntPadding | run_java.py:30 | int() ignores surrounding whitespace |
| PyNumbers.ParseFloat | run_java.py:26 | defines float() on decimal text, None where Python raises ValueError |
| PyNumbers.ParseInt | run_java.py:30 | defines int() on decimal text, None where Python raises ValueError |
| ResultParser.LineField | run_java.py:16 | line.split(":")[1].strip() raises IndexError exactly when the line has no colon |
| ResultParser.FieldText | run_java.py:14-16 | taking field k fails with IndexError exactly when there is no line k, or line k has no colon |
| ResultParser.ParseTime | run_java.py:16-22 | defines the time branch: "ms" first, then 's', and nothing appended when neither occurs |
| ResultParser.ParseCpu | run_java.py:24-26 | defines the CPU reading |
| ResultParser.ParseMemory | run_java.py:28-30 | defines the memory reading |
| ResultParser.ParseIteration | run_java.py:14-34 | a run's output that parses has at least four lines |
| ResultParser.FirstFailureSuccess | run_java.py:13-34 | the loop gets through exactly when every run parses, with one sample per run in order |
| ResultParser.FirstFailureFailure | run_java.py:13-34 | a failing loop stops with the error of a run whose predecessors all parsed |
| ResultParser.FirstFailureStops | run_java.py:13-34 | after the first error, later runs change nothing |
| ResultParser.CollectedSuccess | run_java.py:13-34 | the runs' outputs all parse exactly when the loop gets through, and then each output reads as its sample |
| ResultParser.CollectedFailure | run_java.py:13-34 | a failing loop fails with the error of the first output that does not parse |
| ResultParser.ColumnsOfFigures | run_java.py:24-34 | the CPU and memory lists hold one entry per run, in order |
| ResultParser.ColumnsOfTimes | run_java.py:16-22 | the times list is as long as the others exactly when every run's time text has a unit, and then holds every run's time in order |
| ResultParser.CollectResults | run_java.py:13-34 | the loop's lists, or the first error raised |
| ResultParser.FirstFailure | run_java.py:13-34 | defines the loop's outcome from the runs' results: the samples in order, or the first error |
| ResultParser.Collected | run_java.py:13-34 | defines that outcome for the runs' outputs |
| ResultParser.ColumnsOf | run_java.py:16-34 | defines the four lists the loop builds from the samples, a run without a time unit adding no time |
| ResultParser.DataFrame | run_java.py:36-41 | defines pd.DataFrame of the four lists: one row per run when they are equally long, otherwise ValueError |
| ResultParser.DataFrameColumns | run_java.py:36-41 | a table pandas builds gives back, column by column, the lists it was built from |
| ResultParser.ColumnsDataFrame | run_java.py:36-41 | building a table from the columns of any table gives back that table |
| ResultParser.RunScript | run_java.py:13-41 | the table has one row per run, from that run's figures, exactly when every output parses and carries a time unit; otherwise the script stops with the first run's error, or with pandas' ValueError |
| ResultParser.LabelledLine | run_java.py:16 | the field of "title: value" is the value |
| ResultParser.FigureLine | run_java.py:16 | a title, a figure and a unit make one line whose field is the figure with its unit |
| ResultParser.TimeOfSpacedMillis | run_java.py:17-19 | "<n> ms", as Java prints it, reads as n/1000 seconds |
| ResultParser.TimeOfMillis | run_go.py:18-20 | "<n>ms", as Go prints a duration under a second, reads as n/1000 seconds |
| ResultParser.TimeOfSeconds | run_go.py:21-23 | "<n>s", as Go prints a duration under a minute, reads as n seconds |
| ResultParser.TimeOfMicros | run_go.py:17-23 | "<n>µs" has an 's' and no "ms"; once the 's' is removed, float() rejects the rest with ValueError |
| ResultParser.CpuOfPercent | run_java.py:24-26 | "<n>%" reads as n |
| ResultParser.CpuOfSpacedPercent | run_go.py:25-27 | "<n> %" reads as n |
| ResultParser.MemoryOfBytes | run_java.py:28-30 | "<n> bytes" reads as n |
| ResultParser.ReportSplits | run_java.py:14 | an output of newline-free lines, each ended by a newline, splits back into those lines and an empty tail |
| ResultParser.JavaReportLines | java-worker-pool/src/main/java/com/github/thukabjj/javaworkerpool/WorkerPoolPattern.java:48-52 | every Java report line keeps to its line, and the first four carry their figure with its unit |
| ResultParser.JavaReportFields | run_java.py:16-32 | the script cuts each Java figure with its unit out of lines 0 to 3 |
| ResultParser.JavaReportReads | run_java.py:13-34 | a Java report whose figures read as given values parses to exactly those values, the time in seconds |
| ResultParser.JavaRunParses | java-worker-pool/src/main/java/com/github/thukabjj/javaworkerpool/WorkerPoolPattern.java:48-52 | run_java.py reads a Java run as its elapsed milliseconds in seconds, its CPU difference times 100, and its memory at the start and the end |
| ResultParser.TestReportLines | test/src/main/java/com/github/thukabjj/javaworkerpool/WorkerPoolPattern.java:53-56 | every line of a test-variant report keeps to its line and carries its figure with its unit |
| ResultParser.TestReportFields | run_java.py:16-32 | the script cuts each test-variant figure with its unit out of lines 0 to 3 |
| ResultParser.TestReportReads | run_java.py:13-34 | a test-variant report whose figures read as given values parses to those values |
| ResultParser.TestRunParses | test/src/main/java/com/github/thukabjj/javaworkerpool/WorkerPoolPattern.java:53-56 | the test variant's fourth line is the memory difference, which lands in the "Memory Usage End" column |
| ResultParser.GoFigureIsFigure | golang-worker-pool/main.go:94 | a Duration.String figure starts with a digit and holds only digits and a point |
| ResultParser.FloatOfGoFigure | run_go.py:20 | float() reads a Duration.String figure as its whole units plus its fraction |
| ResultParser.TimeOfGoMillis | run_go.py:18-20 | a duration from 1 ms up to 1 s ("12.5ms") reads as its figure divided by 1000 |
| ResultParser.TimeOfGoSeconds | run_go.py:21-23 | a duration from 1 s up to 1 min ("1.25s") reads as its figure in seconds |
| ResultParser.TimeOfGoMicros | run_go.py:17-23 | a duration under 1 ms in whole microseconds ("850µs") makes the script fail with ValueError |
| ResultParser.GoFigureSafe | run_go.py:17 | millisecond, second and microsecond duration texts come out of the first line intact |
| ResultParser.GoReportLines | golang-worker-pool/main.go:94-98 | every Go report line keeps to its line, and the first four carry the duration text and the other figures with their units |
| ResultParser.GoFigure | golang-worker-pool/main.go:94 | defines the figure of a `Duration.String` text: the whole units, then a point and the fraction digits when there are any |
| ResultParser.GoReportFields | run_go.py:17-35 | the script cuts the duration text and each other figure with its unit out of lines 0 to 3 |
| ResultParser.GoReportReads | run_go.py:14-35 | a Go report whose duration text reads as a time and whose figures read as given values parses to exactly those values |
| ResultParser.GoRunParses | golang-worker-pool/main.go:94-98 | run_go.py reads a Go run as its duration, its CPU difference and its memory at the start and the end |
| ResultParser.GoRunFails | run_go.py:17-23 | a Go run whose duration text the script cannot read ends the script with that error, whatever follows |

## Left out

- Concurrency. The goroutines of `Process` and `ProcessChunk`, the Java executors and the unbuffered channel of main.go run one after another, in the order the source starts them. Paths that interleave differently (the Go errors in another order; the Java queue filling in completion order rather than line order) are not modelled.
- File and console I/O. The CSV file is a string (Go) or a sequence of lines (Java); `BufferedReader.readLine` and its line-terminator handling are not modelled. The error file is its contents. Standard output is its text. `writer.write`, `Flush`, `Close` and their failures (`log.Fatalf`, `IOException`) are left out.
- Go `bufio.Reader.Read`: how many bytes each Read delivers is a parameter (`readSize`). A Read error other than EOF stops the loop exactly as end of input does; the logged message is left out.
- `sync.Pool` and `sync.WaitGroup`. The pooled buffer's length (`LinesPerWorker` for a new buffer, or whatever length a recycled one has) sets how many bytes each Read asks for; that is covered by `readSize` being an arbitrary parameter, one size per Read. `WaitGroup` only waits for the goroutines, which run here one after another.
- The measurement functions (`measureCPUUsage`, `measureMemoryUsage`, `measureCpuUsage`, `measureMemoryUsage`) and the clocks: their values are parameters of the `Report` functions.
- GoWorkerPool.ReportLines: the duration (`time.Duration.String`) and the CPU figure (`%v` of a float64) are taken as given text. Only the duration forms in milliseconds, seconds and microseconds are related to the script (`TimeOfGoMillis`, `TimeOfGoSeconds`, `TimeOfGoMicros`); minutes, hours and nanoseconds are left out.
- ResultParser.GoRunParses: the CPU figure is stated for the text of a whole number, because Go's shortest float64 formatting is not modelled.
- ResultParser.TimeOfGoMillis: stated for any value v that float() gives the figure, which FloatOfGoFigure computes; the two are not folded into one lemma.
- ResultParser.TimeOfGoSeconds: stated for any value v, as for TimeOfGoMillis.
- JavaWorkerPool.ReportLines: `%.2f` of `(cpuEnd - cpuStart) * 100.0` is modelled only for its whole-number value (the difference of two longs), written as the integer and ".00". Java's `long` overflow in the differences is not modelled.
- JavaWorkerPool.WriteErrorLinesToFile: the 50 ms timed poll is an immediate poll, because nothing else adds to the queue once the executor has terminated. An `InterruptedException` is not raised.
- `System.lineSeparator()` is a parameter. The printf `%n` and `println` endings are "\n", as on Linux, where the scripts split the output.
- JavaWorkerPool.ReportLines: Java's `printf` formats in the default locale; a locale whose decimal separator is '.' is assumed. Under a decimal-comma locale `%.2f` prints "0,00", which `float()` rejects with ValueError, so `ResultParser.JavaRunParses` and `PyNumbers.FloatOfFixed2` do not describe such a run.
- Python's `float()` and `int()`: only numerals in ASCII digits, with an optional sign (and, for `float()`, a point and an exponent), and Python's whitespace stripping. Other Unicode decimal digits, which Python also accepts, are rejected by the model. Underscores between digits (accepted by both), `inf`, `nan` and rounding to binary floating point are left out: values are exact reals.
- The scripts' `subprocess.check_output`, its `CalledProcessError` and `df.to_csv` are left out. The outputs of the 100 runs are the parameter of `RunScript`, and the table is its result.
- orchestrate_runs.py and analyze_results.py are not part of this model.
