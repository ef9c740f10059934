/** The Go subject program (golang-worker-pool/main.go): it reads a CSV file in
    blocks, extends each block to the next newline, splits each block into lines,
    hands the lines to workers in slices of 300, reports every non-empty line whose
    field 0 or field 3 is missing or empty, and writes the reports to an error
    file that is created when the first report arrives.

    Goroutines run here one after another, in the order the source starts them;
    every byte of the file is a char (Go's string(chunk) keeps the bytes, and
    only the ASCII bytes '\n' and ',' are ever inspected). */
module GoWorkerPool {
  import opened Wrappers
  import opened Text
  import opened Seqs

  /** The positions of the required fields (id and email), all marked required. */
  const RequiredFields: map<nat, bool> := map[0 := true, 3 := true]

  /** How many lines of a chunk one worker goroutine handles. */
  const ChunkSize: nat := 300

  /** A line that failed the check, with the required position it names. */
  datatype ErrorLine = ErrorLine(line: string, pos: nat)

  /** The text of the error a worker attaches to a failing line. */
  function ErrorMessage(pos: nat): string
  {
    "missing required field at position " + NatToString(pos)
  }

  /** Field pos of a split line is absent or empty. */
  predicate FieldMissing(entry: seq<string>, pos: nat)
  {
    |entry| <= pos || entry[pos] == ""
  }

  /** The required-field check on one line: field 0 or field 3 is absent or empty. */
  predicate LineFails(text: string)
  {
    var entry := Split(text, ',');
    FieldMissing(entry, 0) || FieldMissing(entry, 3)
  }

  /** A line of a chunk is reported when it is non-empty and fails the check. */
  predicate Reported(text: string)
  {
    |text| > 0 && LineFails(text)
  }

  /** An error names a required position that really is missing or empty in its line. */
  predicate Justified(err: ErrorLine)
  {
    err.pos in RequiredFields && RequiredFields[err.pos] && FieldMissing(Split(err.line, ','), err.pos)
  }

  /** The lines, in order, that the check reports among entries. */
  function ReportedLines(entries: seq<string>): seq<string>
  {
    if |entries| == 0 then []
    else ReportedLines(entries[..|entries| - 1]) + (if Reported(entries[|entries| - 1]) then [entries[|entries| - 1]] else [])
  }

  /** The lines the errors are about. */
  function Lines(errs: seq<ErrorLine>): seq<string>
  {
    if |errs| == 0 then [] else Lines(errs[..|errs| - 1]) + [errs[|errs| - 1].line]
  }

  lemma {:induction false} ReportedLinesAppend(a: seq<string>, b: seq<string>)
    ensures ReportedLines(a + b) == ReportedLines(a) + ReportedLines(b)
    decreases |b|
  {
    if |b| == 0 {
      assert a + b == a;
    } else {
      assert (a + b)[..|a + b| - 1] == a + b[..|b| - 1];
      ReportedLinesAppend(a, b[..|b| - 1]);
    }
  }

  lemma ReportedLinesStep(s: seq<string>, start: nat, k: nat)
    requires start <= k < |s|
    ensures ReportedLines(s[start..k + 1]) == ReportedLines(s[start..k]) + (if Reported(s[k]) then [s[k]] else [])
  {
    assert s[start..k + 1][..k - start] == s[start..k];
  }

  /** The lines reported among s[..a] and then among s[a..b] are those reported among s[..b]. */
  lemma ReportedLinesJoin(s: seq<string>, a: nat, b: nat)
    requires a <= b <= |s|
    ensures ReportedLines(s[..a]) + ReportedLines(s[a..b]) == ReportedLines(s[..b])
  {
    ReportedLinesAppend(s[..a], s[a..b]);
    assert s[..a] + s[a..b] == s[..b];
  }

  lemma LinesAppend(errs: seq<ErrorLine>, more: seq<ErrorLine>)
    ensures Lines(errs + more) == Lines(errs) + Lines(more)
    decreases |more|
  {
    if |more| == 0 {
      assert errs + more == errs;
    } else {
      assert (errs + more)[..|errs + more| - 1] == errs + more[..|more| - 1];
      LinesAppend(errs, more[..|more| - 1]);
    }
  }

  /** The check of main.go:181-191 on one non-empty line: split at ',' and look
      at the required positions in the map's iteration order, which Go leaves
      unspecified; the first missing one is reported and the search stops. */
  method CheckRequiredFields(text: string) returns (err: Option<ErrorLine>)
    ensures err.Some? <==> (var entry := Split(text, ','); |entry| <= 3 || entry[0] == "" || entry[3] == "")
    ensures err.Some? ==> err.value.line == text && Justified(err.value)
  {
    var entry := Split(text, ',');
    var zeroFirst: bool := *;
    var order: seq<nat> := if zeroFirst then [0, 3] else [3, 0];
    assert RequiredFields.Keys == {0, 3};
    err := None;
    var k := 0;
    while k < |order|
      invariant 0 <= k <= |order|
      invariant err.None? ==> forall j :: 0 <= j < k ==> !FieldMissing(entry, order[j])
      invariant err.Some? ==> err.value.line == text && Justified(err.value)
      invariant err.Some? ==> err.value.pos == 0 || err.value.pos == 3
    {
      var fieldPos := order[k];
      var required := RequiredFields[fieldPos];
      if required && (|entry| <= fieldPos || entry[fieldPos] == "") {
        err := Some(ErrorLine(text, fieldPos));
        break;
      }
      k := k + 1;
    }
    if err.None? {
      assert !FieldMissing(entry, order[0]) && !FieldMissing(entry, order[1]);
    }
  }

  /** How many worker goroutines a chunk of n lines gets. */
  function SliceCount(n: nat): nat
  {
    n / ChunkSize + (if n % ChunkSize != 0 then 1 else 0)
  }

  /** The first line index of slice i. */
  function SliceStart(i: nat): nat
  {
    i * ChunkSize
  }

  /** One past the last line index of slice i of n lines. */
  function SliceEnd(n: nat, i: nat): nat
  {
    if (i + 1) * ChunkSize < n then (i + 1) * ChunkSize else n
  }

  /** Slice i of n lines is non-empty, at most 300 long, and ends where slice
      i + 1 begins, or at n when it is the last. */
  lemma SliceBounds(n: nat, i: nat)
    requires i < SliceCount(n)
    ensures SliceStart(i) < SliceEnd(n, i) <= SliceStart(i) + ChunkSize
    ensures SliceEnd(n, i) == if i + 1 < SliceCount(n) then SliceStart(i + 1) else n
  {
  }

  /** The slices partition 0..n-1: their number is the ceiling of n / 300, each is
      non-empty and at most 300 long, each begins where the previous one ends, the
      first begins at 0 and the last ends at n. */
  lemma Partition(n: nat)
    ensures SliceCount(n) * ChunkSize >= n
    ensures n > 0 ==> (SliceCount(n) - 1) * ChunkSize < n
    ensures forall i :: 0 <= i < SliceCount(n) ==> SliceStart(i) < SliceEnd(n, i) <= SliceStart(i) + ChunkSize
    ensures forall i :: 0 <= i < SliceCount(n) - 1 ==> SliceEnd(n, i) == SliceStart(i + 1)
    ensures SliceCount(n) > 0 ==> SliceStart(0) == 0 && SliceEnd(n, SliceCount(n) - 1) == n
  {
    forall i | 0 <= i < SliceCount(n)
      ensures SliceStart(i) < SliceEnd(n, i) <= SliceStart(i) + ChunkSize
      ensures i < SliceCount(n) - 1 ==> SliceEnd(n, i) == SliceStart(i + 1)
    {
      SliceBounds(n, i);
    }
    if SliceCount(n) > 0 {
      SliceBounds(n, SliceCount(n) - 1);
    }
  }

  /** Every line index lies in exactly one slice, the one numbered k / 300. */
  lemma SliceOfIndex(n: nat, k: nat)
    requires k < n
    ensures k / ChunkSize < SliceCount(n)
    ensures SliceStart(k / ChunkSize) <= k < SliceEnd(n, k / ChunkSize)
    ensures forall i :: 0 <= i < SliceCount(n) && SliceStart(i) <= k < SliceEnd(n, i) ==> i == k / ChunkSize
  {
    Partition(n);
  }

  lemma {:induction false} SliceCountOfChunks(s: seq<string>)
    ensures |ChunksOf(s, ChunkSize)| == SliceCount(|s|)
    decreases |s|
  {
    if |s| > ChunkSize {
      SliceCountOfChunks(s[ChunkSize..]);
      assert SliceCount(|s|) == SliceCount(|s| - ChunkSize) + 1;
    }
  }

  /** Slice i of a chunk's lines is batch i of ChunksOf: the slices are exactly
      the fixed-size batches of those lines. */
  lemma {:induction false} SliceIsChunk(s: seq<string>, i: nat)
    requires i < SliceCount(|s|)
    ensures |ChunksOf(s, ChunkSize)| == SliceCount(|s|)
    ensures s[SliceStart(i)..SliceEnd(|s|, i)] == ChunksOf(s, ChunkSize)[i]
    decreases i
  {
    SliceCountOfChunks(s);
    SliceBounds(|s|, i);
    if |s| <= ChunkSize {
      assert i == 0;
    } else if i == 0 {
    } else {
      var rest := s[ChunkSize..];
      assert SliceCount(|s|) == SliceCount(|rest|) + 1;
      SliceIsChunk(rest, i - 1);
      assert ChunksOf(s, ChunkSize)[i] == ChunksOf(rest, ChunkSize)[i - 1];
      assert SliceStart(i) == SliceStart(i - 1) + ChunkSize;
      assert SliceEnd(|s|, i) == SliceEnd(|rest|, i - 1) + ChunkSize;
      assert rest[SliceStart(i - 1)..SliceEnd(|rest|, i - 1)] == s[SliceStart(i)..SliceEnd(|s|, i)];
    }
  }

  /** One worker goroutine of ProcessChunk (main.go:176-193): check the lines
      from start to end - 1, skip the empty ones and send an error for every
      line that fails. */
  method CheckSlice(entriesSlice: seq<string>, start: nat, end: nat) returns (sent: seq<ErrorLine>)
    requires start <= end <= |entriesSlice|
    ensures Lines(sent) == ReportedLines(entriesSlice[start..end])
    ensures forall j :: 0 <= j < |sent| ==> Justified(sent[j])
  {
    sent := [];
    for k := start to end
      invariant Lines(sent) == ReportedLines(entriesSlice[start..k])
      invariant forall j :: 0 <= j < |sent| ==> Justified(sent[j])
    {
      ReportedLinesStep(entriesSlice, start, k);
      var text := entriesSlice[k];
      if |text| == 0 {
        continue;
      }
      var err := CheckRequiredFields(text);
      if err.Some? {
        LinesAppend(sent, [err.value]);
        sent := sent + [err.value];
      }
    }
  }

  /** ProcessChunk (main.go:151-198): split the chunk into lines, cut the lines
      into slices of 300 and check every slice. The workers' errors are taken
      slice by slice. */
  method ProcessChunk(chunk: string) returns (errs: seq<ErrorLine>)
    ensures Lines(errs) == ReportedLines(Split(chunk, '\n'))
    ensures forall j :: 0 <= j < |errs| ==> Justified(errs[j])
  {
    var entriesSlice := Split(chunk, '\n');
    var n := |entriesSlice|;
    var noOfThread := n / ChunkSize;
    if n % ChunkSize != 0 {
      noOfThread := noOfThread + 1;
    }
    errs := [];
    for i := 0 to noOfThread
      invariant Lines(errs) == ReportedLines(entriesSlice[..if SliceStart(i) < n then SliceStart(i) else n])
      invariant forall j :: 0 <= j < |errs| ==> Justified(errs[j])
    {
      SliceBounds(n, i);
      var start, end := i * ChunkSize, SliceEnd(n, i);
      var sent := CheckSlice(entriesSlice, start, end);
      ReportedLinesJoin(entriesSlice, start, end);
      LinesAppend(errs, sent);
      errs := errs + sent;
    }
    assert noOfThread > 0;
    SliceBounds(n, noOfThread - 1);
    assert entriesSlice[..n] == entriesSlice;
  }

  predicate EndsWithNewline(c: string)
  {
    |c| > 0 && c[|c| - 1] == '\n'
  }

  /** bufio.Reader.ReadBytes('\n') on the unread input: everything up to and
      including the first newline, or, when there is none, all of it together
      with EOF. */
  function ReadBytes(rest: string): (r: (string, bool))
    ensures |r.0| <= |rest|
    decreases |rest|
  {
    if |rest| == 0 then ("", true)
    else if rest[0] == '\n' then ("\n", false)
    else var r := ReadBytes(rest[1..]); ([rest[0]] + r.0, r.1)
  }

  /** ReadBytes returns a prefix of the unread input: up to its first newline,
      or all of it, with EOF, when it has none. */
  lemma {:induction false} ReadBytesSpec(rest: string)
    ensures var (next, eof) := ReadBytes(rest);
      && next == rest[..|next|]
      && (!eof ==> EndsWithNewline(next) && '\n' !in next[..|next| - 1])
      && (eof ==> next == rest && '\n' !in rest)
    decreases |rest|
  {
    if |rest| > 0 && rest[0] != '\n' {
      ReadBytesSpec(rest[1..]);
      var (next, eof) := ReadBytes(rest[1..]);
      assert rest == [rest[0]] + rest[1..];
      if !eof {
        assert ([rest[0]] + next)[..|next|] == [rest[0]] + next[..|next| - 1];
      }
    }
  }

  /** Where ReadBytes('\n') stops when the unread input starts at position p:
      just past the first newline at or after p, or, with EOF, at the end of
      the input. */
  function LineEnd(data: string, p: nat): (r: (nat, bool))
    requires p <= |data|
    ensures p <= r.0 <= |data|
    decreases |data| - p
  {
    if p == |data| then (|data|, true)
    else if data[p] == '\n' then (p + 1, false)
    else LineEnd(data, p + 1)
  }

  /** ReadBytes on the input from p on returns the input from p up to LineEnd. */
  lemma {:induction false} ReadBytesAt(data: string, p: nat)
    requires p <= |data|
    ensures ReadBytes(data[p..]) == (data[p..LineEnd(data, p).0], LineEnd(data, p).1)
    decreases |data| - p
  {
    if p < |data| {
      assert data[p..][0] == data[p];
      if data[p] == '\n' {
        assert data[p..p + 1] == "\n";
      } else {
        ReadBytesAt(data, p + 1);
        assert data[p..][1..] == data[p + 1..];
        assert data[p..LineEnd(data, p).0] == [data[p]] + data[p + 1..LineEnd(data, p).0];
      }
    } else {
      assert data[p..p] == "";
    }
  }

  /** No newline in the input from position x on. */
  predicate NoNewlineFrom(data: string, x: nat)
    requires x <= |data|
    decreases |data| - x
  {
    x == |data| || (data[x] != '\n' && NoNewlineFrom(data, x + 1))
  }

  lemma {:induction false} NoNewlineFromSpec(data: string, x: nat)
    requires x <= |data|
    ensures NoNewlineFrom(data, x) <==> '\n' !in data[x..]
    decreases |data| - x
  {
    if x < |data| {
      NoNewlineFromSpec(data, x + 1);
      assert data[x..] == [data[x]] + data[x + 1..];
    }
  }

  /** LineEnd stops just past a newline, with no newline before it, or, with
      EOF, at the end of an input that has no newline left. */
  lemma {:induction false} LineEndSpec(data: string, p: nat)
    requires p <= |data|
    ensures var (e, eof) := LineEnd(data, p);
      && (eof ==> e == |data| && NoNewlineFrom(data, p))
      && (!eof ==> p < e && data[e - 1] == '\n' && '\n' !in data[p..e - 1])
    decreases |data| - p
  {
    if p < |data| && data[p] != '\n' {
      LineEndSpec(data, p + 1);
      var (e, eof) := LineEnd(data, p + 1);
      if !eof {
        assert data[p..e - 1] == [data[p]] + data[p + 1..e - 1];
      }
    }
  }

  /** The reader loop of Process as a function: from position pos, the k-th
      Read delivers readSize(k) bytes or what is left; a Read that delivers
      nothing ends the loop; otherwise ReadBytes continues to the next newline,
      and what it returned is kept only when it did not reach EOF. */
  function ReadLoop(data: string, pos: nat, k: nat, readSize: nat -> nat): seq<string>
    requires pos <= |data|
    decreases |data| - pos
  {
    var n := BlockSize(data, pos, readSize(k));
    if n == 0 then []
    else
      var r := LineEnd(data, pos + n);
      [if r.1 then data[pos..pos + n] else data[pos..r.0]] + ReadLoop(data, r.0, k + 1, readSize)
  }

  /** How many bytes a Read of up to size bytes delivers at position pos. */
  function BlockSize(data: string, pos: nat, size: nat): (n: nat)
    requires pos <= |data|
    ensures pos + n <= |data|
  {
    if size < |data| - pos then size else |data| - pos
  }

  /** Process (main.go:101-149): the reader loop that cuts the file into chunks.
      Read k delivers readSize(k) bytes, or fewer when the input has fewer left;
      a Read that delivers nothing ends the loop. The block read is extended to
      the next newline; when ReadBytes reaches the end of the input instead, what
      it returned is dropped and the block goes out as it is. */
  method Process(data: string, readSize: nat -> nat) returns (chunks: seq<string>)
    ensures chunks == ReadLoop(data, 0, 0, readSize)
    ensures ChunksShaped(chunks, 0, readSize)
    ensures |Flatten(chunks)| <= |data| && Flatten(chunks) == data[..|Flatten(chunks)|]
    ensures readSize(|chunks|) == 0 || '\n' !in data[|Flatten(chunks)|..]
    ensures (forall k :: readSize(k) > 0) && (|data| == 0 || data[|data| - 1] == '\n') ==> Flatten(chunks) == data
    ensures LastIsBlock(data, 0, 0, readSize, chunks)
  {
    var pos := 0;
    chunks := [];
    ghost var all := ReadLoop(data, 0, 0, readSize);
    while true
      invariant pos <= |data|
      invariant chunks + ReadLoop(data, pos, |chunks|, readSize) == all
      decreases |data| - pos
    {
      var n := BlockSize(data, pos, readSize(|chunks|));
      var buf := data[pos..pos + n];
      ghost var before := pos;
      pos := pos + n;
      if n == 0 {
        break;
      }
      var (nextUntilNewline, eof) := ReadBytes(data[pos..]);
      ReadBytesAt(data, pos);
      if !eof {
        buf := buf + nextUntilNewline;
      }
      ghost var done := chunks;
      pos := pos + |nextUntilNewline|;
      chunks := chunks + [buf];
      ReadLoopStep(data, before, readSize, n, nextUntilNewline, eof, buf, done, all, pos, chunks);
    }
    ReadLoopFacts(data, readSize);
  }

  /** One turn of the reader loop: the chunk it sends out, then the rest of the
      loop, so that the chunks sent so far and the rest of the loop still make
      up the whole of it. */
  lemma ReadLoopStep(data: string, pos: nat, readSize: nat -> nat, n: nat, next: string, eof: bool, buf: string,
                     done: seq<string>, all: seq<string>, nextPos: nat, chunks: seq<string>)
    requires pos <= |data| && n == BlockSize(data, pos, readSize(|done|)) && n > 0
    requires next == data[pos + n..LineEnd(data, pos + n).0] && eof == LineEnd(data, pos + n).1
    requires buf == if eof then data[pos..pos + n] else data[pos..pos + n] + next
    requires done + ReadLoop(data, pos, |done|, readSize) == all
    requires nextPos == pos + n + |next| && chunks == done + [buf]
    ensures nextPos <= |data|
    ensures chunks + ReadLoop(data, nextPos, |chunks|, readSize) == all
  {
    var k := |done|;
    var e := LineEnd(data, pos + n).0;
    assert nextPos == e && |chunks| == k + 1;
    if !eof {
      SliceConcat(data, pos, pos + n, e);
    }
    assert buf == if eof then data[pos..pos + n] else data[pos..e];
    var rest := ReadLoop(data, e, k + 1, readSize);
    assert ReadLoop(data, pos, k, readSize) == [buf] + rest;
    AppendAssoc(done, [buf], rest);
  }

  /** What the whole reader loop delivers: the shape of its chunks, the stretch
      of input they cover and what is left after them. */
  lemma ReadLoopFacts(data: string, readSize: nat -> nat)
    ensures var chunks := ReadLoop(data, 0, 0, readSize);
      && ChunksShaped(chunks, 0, readSize)
      && |Flatten(chunks)| <= |data| && Flatten(chunks) == data[..|Flatten(chunks)|]
      && (readSize(|chunks|) == 0 || '\n' !in data[|Flatten(chunks)|..])
      && ((forall k :: readSize(k) > 0) && (|data| == 0 || data[|data| - 1] == '\n') ==> Flatten(chunks) == data)
      && LastIsBlock(data, 0, 0, readSize, chunks)
  {
    ReadLoopShaped(data, 0, 0, readSize);
    ReadLoopStretch(data, 0, 0, readSize);
    assert Stretch(data, 0, 0, readSize, ReadLoop(data, 0, 0, readSize));
    NoNewlineFromSpec(data, |Flatten(ReadLoop(data, 0, 0, readSize))|);
    NoNewlineToEnd(data, |Flatten(ReadLoop(data, 0, 0, readSize))|);
    ReadLoopLastBlock(data, 0, 0, readSize);
  }

  /** Every chunk is non-empty and came from a Read that delivered bytes (the
      first of them Read number k), and every chunk but the last ends in a
      newline. */
  ghost predicate ChunksShaped(chunks: seq<string>, k: nat, readSize: nat -> nat)
  {
    && (forall j :: 0 <= j < |chunks| ==> |chunks[j]| > 0 && readSize(k + j) > 0)
    && (forall j :: 0 <= j < |chunks| - 1 ==> EndsWithNewline(chunks[j]))
  }

  /** The first turn of the reader loop from position pos, when its Read
      delivers bytes: the chunk it sends out, then the rest of the loop from
      where ReadBytes stopped. At EOF the chunk is the bare block and nothing
      follows; otherwise it is contiguous input ending in a newline. */
  lemma ReadLoopTurn(data: string, pos: nat, k: nat, readSize: nat -> nat)
      returns (buf: string, eof: bool, nextPos: nat)
    requires pos <= |data| && BlockSize(data, pos, readSize(k)) > 0
    ensures pos < nextPos <= |data| && readSize(k) > 0
    ensures ReadLoop(data, pos, k, readSize) == [buf] + ReadLoop(data, nextPos, k + 1, readSize)
    ensures eof ==> nextPos == |data| && ReadLoop(data, nextPos, k + 1, readSize) == []
    ensures eof ==> 0 < |buf| && pos + |buf| <= |data| && buf == data[pos..pos + |buf|] && NoNewlineFrom(data, pos + |buf|)
    ensures !eof ==> buf == data[pos..nextPos] && EndsWithNewline(buf)
  {
    var n := BlockSize(data, pos, readSize(k));
    var r := LineEnd(data, pos + n);
    LineEndSpec(data, pos + n);
    eof := r.1;
    nextPos := r.0;
    buf := if eof then data[pos..pos + n] else data[pos..nextPos];
  }

  /** A non-empty chunk from a Read that delivered bytes, ending in a newline
      when more chunks follow, extends a shaped run of chunks. */
  lemma ShapedCons(buf: string, rest: seq<string>, k: nat, readSize: nat -> nat)
    requires |buf| > 0 && readSize(k) > 0 && ChunksShaped(rest, k + 1, readSize)
    requires |rest| > 0 ==> EndsWithNewline(buf)
    ensures ChunksShaped([buf] + rest, k, readSize)
  {
    var c := [buf] + rest;
    forall j | 0 <= j < |c|
      ensures |c[j]| > 0 && readSize(k + j) > 0
    {
      if j > 0 {
        assert c[j] == rest[j - 1] && k + j == (k + 1) + (j - 1);
      }
    }
    forall j | 0 <= j < |c| - 1
      ensures EndsWithNewline(c[j])
    {
      if j > 0 {
        assert c[j] == rest[j - 1];
      }
    }
  }

  /** Every chunk from Read number k on is non-empty and came from a Read that
      delivered bytes, and every one but the last ends in a newline. */
  lemma {:induction false} ReadLoopShaped(data: string, pos: nat, k: nat, readSize: nat -> nat)
    requires pos <= |data|
    ensures ChunksShaped(ReadLoop(data, pos, k, readSize), k, readSize)
    decreases |data| - pos
  {
    if BlockSize(data, pos, readSize(k)) > 0 {
      var buf, eof, nextPos := ReadLoopTurn(data, pos, k, readSize);
      ReadLoopShaped(data, nextPos, k + 1, readSize);
      if !eof {
        assert |buf| > 0 by {
          assert pos < nextPos;
        }
      }
      ShapedCons(buf, ReadLoop(data, nextPos, k + 1, readSize), k, readSize);
    }
  }

  lemma SliceConcat(data: string, i: nat, j: nat, l: nat)
    requires i <= j <= l <= |data|
    ensures data[i..l] == data[i..j] + data[j..l]
  {
  }

  lemma FlattenCons(x: string, rest: seq<string>)
    ensures Flatten([x] + rest) == x + Flatten(rest)
  {
    assert ([x] + rest)[1..] == rest;
  }

  /** The chunks from position pos on are, together, the input from pos up to
      some point; past that point no newline is left unless the loop ended on a
      Read that asked for nothing. */
  lemma {:induction false} ReadLoopStretch(data: string, pos: nat, k: nat, readSize: nat -> nat)
    requires pos <= |data|
    ensures Stretch(data, pos, k, readSize, ReadLoop(data, pos, k, readSize))
    decreases |data| - pos
  {
    if BlockSize(data, pos, readSize(k)) > 0 {
      var buf, eof, nextPos := ReadLoopTurn(data, pos, k, readSize);
      ReadLoopStretch(data, nextPos, k + 1, readSize);
      StretchCons(data, pos, k, readSize, buf, eof, nextPos, ReadLoop(data, nextPos, k + 1, readSize));
    } else {
      assert ReadLoop(data, pos, k, readSize) == [];
      assert Flatten<char>([]) == [] == data[pos..pos];
    }
  }

  /** Chunks c delivered from position pos on, Read number k next: together
      the input from pos up to some point, after which no newline is left
      unless the Read that ended the loop asked for nothing. */
  ghost predicate Stretch(data: string, pos: nat, k: nat, readSize: nat -> nat, c: seq<string>)
    requires pos <= |data|
  {
    && pos + |Flatten(c)| <= |data| && Flatten(c) == data[pos..pos + |Flatten(c)|]
    && (readSize(k + |c|) == 0 || NoNewlineFrom(data, pos + |Flatten(c)|))
  }

  lemma StretchCons(data: string, pos: nat, k: nat, readSize: nat -> nat,
                    buf: string, eof: bool, nextPos: nat, rest: seq<string>)
    requires pos < nextPos <= |data|
    requires eof ==> nextPos == |data| && rest == []
    requires eof ==> 0 < |buf| && pos + |buf| <= |data| && buf == data[pos..pos + |buf|] && NoNewlineFrom(data, pos + |buf|)
    requires !eof ==> buf == data[pos..nextPos]
    requires Stretch(data, nextPos, k + 1, readSize, rest)
    ensures Stretch(data, pos, k, readSize, [buf] + rest)
  {
    var c := [buf] + rest;
    FlattenCons(buf, rest);
    if eof {
      assert Flatten(rest) == [];
      assert Flatten(c) == buf;
    } else {
      var end := nextPos + |Flatten(rest)|;
      SliceConcat(data, pos, nextPos, end);
      assert Flatten(c) == data[pos..end];
      assert k + |c| == (k + 1) + |rest|;
    }
  }

  /** Chunks c delivered from position pos on, Read number k next: when the
      last of them does not end in a newline, it is exactly the block its Read
      delivered, no longer than the Read asked for and as long unless it runs
      to the end of the input. */
  ghost predicate LastIsBlock(data: string, pos: nat, k: nat, readSize: nat -> nat, c: seq<string>)
  {
    || |c| == 0
    || EndsWithNewline(c[|c| - 1])
    || (&& |c[|c| - 1]| <= readSize(k + |c| - 1)
        && (|c[|c| - 1]| == readSize(k + |c| - 1) || pos + |Flatten(c)| == |data|))
  }

  /** Only a chunk whose ReadBytes reached EOF can lack a final newline, and
      that chunk is its bare Read block. */
  lemma {:induction false} ReadLoopLastBlock(data: string, pos: nat, k: nat, readSize: nat -> nat)
    requires pos <= |data|
    ensures LastIsBlock(data, pos, k, readSize, ReadLoop(data, pos, k, readSize))
    decreases |data| - pos
  {
    var n := BlockSize(data, pos, readSize(k));
    if n > 0 {
      var r := LineEnd(data, pos + n);
      LineEndStops(data, pos + n);
      if r.1 {
        LastBlockAtEof(data, pos, k, readSize, n);
        ReadLoopAtEnd(data, k + 1, readSize);
        assert [data[pos..pos + n]] + ReadLoop(data, r.0, k + 1, readSize) == [data[pos..pos + n]];
      } else {
        ReadLoopLastBlock(data, r.0, k + 1, readSize);
        var buf := data[pos..r.0];
        assert buf[|buf| - 1] == data[r.0 - 1];
        LastBlockCons(data, pos, k, readSize, buf, r.0, ReadLoop(data, r.0, k + 1, readSize));
      }
    }
  }

  /** LineEnd stops at the end of the input with EOF, and otherwise just past a newline. */
  lemma {:induction false} LineEndStops(data: string, p: nat)
    requires p <= |data|
    ensures LineEnd(data, p).1 ==> LineEnd(data, p).0 == |data|
    ensures !LineEnd(data, p).1 ==> p < LineEnd(data, p).0 && data[LineEnd(data, p).0 - 1] == '\n'
    decreases |data| - p
  {
    if p < |data| && data[p] != '\n' {
      LineEndStops(data, p + 1);
    }
  }

  /** A block whose ReadBytes reaches EOF is sent out bare, as the last chunk. */
  lemma LastBlockAtEof(data: string, pos: nat, k: nat, readSize: nat -> nat, n: nat)
    requires pos + n <= |data| && 0 < n && n == BlockSize(data, pos, readSize(k))
    ensures LastIsBlock(data, pos, k, readSize, [data[pos..pos + n]])
  {
    FlattenCons(data[pos..pos + n], []);
    assert Flatten<char>([]) == [];
  }

  /** At the end of the input no Read delivers anything, so the loop sends nothing more. */
  lemma ReadLoopAtEnd(data: string, k: nat, readSize: nat -> nat)
    ensures ReadLoop(data, |data|, k, readSize) == []
  {
    assert BlockSize(data, |data|, readSize(k)) == 0;
  }

  /** A chunk that ends in a newline, put before the rest of the loop, keeps
      the last chunk the block it was. */
  lemma LastBlockCons(data: string, pos: nat, k: nat, readSize: nat -> nat,
                      buf: string, nextPos: nat, rest: seq<string>)
    requires pos < nextPos && |buf| == nextPos - pos && EndsWithNewline(buf)
    requires LastIsBlock(data, nextPos, k + 1, readSize, rest)
    ensures LastIsBlock(data, pos, k, readSize, [buf] + rest)
  {
    var c := [buf] + rest;
    FlattenCons(buf, rest);
    if |rest| == 0 {
      assert c[|c| - 1] == buf;
    } else {
      assert c[|c| - 1] == rest[|rest| - 1];
      assert k + |c| - 1 == (k + 1) + |rest| - 1;
      assert pos + |Flatten(c)| == nextPos + |Flatten(rest)|;
    }
  }

  /** When what is left of the input from x on holds no newline, yet the input
      ends in one, nothing is left. */
  lemma NoNewlineToEnd(data: string, x: nat)
    requires x <= |data|
    ensures NoNewlineFrom(data, x) && (|data| == 0 || data[|data| - 1] == '\n') ==> x == |data|
  {
    NoNewlineFromSpec(data, x);
    if x < |data| && data[|data| - 1] == '\n' {
      assert data[x..][|data| - 1 - x] == '\n';
    }
  }

  /** When the Read that ends a block leaves only an unterminated last line,
      ReadBytes reaches EOF and that text is dropped: here the second line is
      cut after "9,q,r". */
  lemma TruncatedChunk()
    ensures ReadLoop("1,a,b,c@x\n9,q,r,s@y", 0, 0, (k: nat) => 15) == ["1,a,b,c@x\n9,q,r"]
  {
    var data := "1,a,b,c@x\n9,q,r,s@y";
    var readSize := (k: nat) => 15;
    assert BlockSize(data, 0, readSize(0)) == 15;
    assert LineEnd(data, 15) == (19, true);
    assert BlockSize(data, 19, readSize(1)) == 0;
    assert data[0..15] == "1,a,b,c@x\n9,q,r";
  }

  /** The fragment TruncatedChunk leaves fails the check that the whole line
      passes, so the program reports a line the input does not hold. */
  lemma FragmentReported()
    ensures Reported("9,q,r") && !Reported("9,q,r,s@y")
  {
    assert Join(["9", "q", "r"], ',') == "9,q,r";
    SplitJoin(["9", "q", "r"], ',');
    assert Join(["9", "q", "r", "s@y"], ',') == "9,q,r,s@y";
    SplitJoin(["9", "q", "r", "s@y"], ',');
  }

  /** A chunk can end in a newline and still be followed by text that is never
      read: here the block "ab\n" ends exactly at a newline, ReadBytes then
      reaches EOF on "cd", and "cd" is dropped. */
  lemma TerminatedChunkThenDroppedTail()
    ensures var chunks := ReadLoop("ab\ncd", 0, 0, (k: nat) => 3);
      && chunks == ["ab\n"] && EndsWithNewline(chunks[0]) && Flatten(chunks) != "ab\ncd"
  {
    var data := "ab\ncd";
    var readSize := (k: nat) => 3;
    assert BlockSize(data, 0, readSize(0)) == 3;
    assert LineEnd(data, 3) == (5, true);
    assert BlockSize(data, 5, readSize(1)) == 0;
    assert data[0..3] == "ab\n";
    assert Flatten(["ab\n"]) == "ab\n";
  }

  /** The lines reported chunk by chunk, in chunk order. */
  function ReportedInChunks(chunks: seq<string>): seq<string>
  {
    if |chunks| == 0 then []
    else ReportedInChunks(chunks[..|chunks| - 1]) + ReportedLines(Split(chunks[|chunks| - 1], '\n'))
  }

  lemma FlattenLast(p: seq<string>)
    requires |p| > 0
    ensures Flatten(p) == Flatten(p[..|p| - 1]) + p[|p| - 1]
  {
    FlattenAppend(p[..|p| - 1], [p[|p| - 1]]);
    assert p == p[..|p| - 1] + [p[|p| - 1]];
    assert Flatten([p[|p| - 1]]) == p[|p| - 1] + Flatten<char>([]);
  }

  /** After a text that ends in a newline, the next text's lines are reported
      separately. */
  lemma SplitOffLast(f: string, c: string)
    requires |f| > 0
    ensures f == f[..|f| - 1] + [f[|f| - 1]] + ""
    ensures f + c == f[..|f| - 1] + [f[|f| - 1]] + c
  {
  }

  lemma AfterNewline(f: string, c: string)
    requires EndsWithNewline(f)
    ensures ReportedLines(Split(f + c, '\n')) == ReportedLines(Split(f, '\n')) + ReportedLines(Split(c, '\n'))
  {
    var a := f[..|f| - 1];
    var lines := Split(a, '\n');
    SplitOffLast(f, c);
    SplitAppend(a, "", '\n');
    assert Split("", '\n') == [""];
    assert Split(f, '\n') == lines + [""];
    ReportedLinesAppend(lines, [""]);
    assert ReportedLines([""]) == ReportedLines([]) + [];
    AppendNil(ReportedLines(lines));
    assert ReportedLines(Split(f, '\n')) == ReportedLines(lines);
    SplitAppend(a, c, '\n');
    ReportedLinesAppend(lines, Split(c, '\n'));
  }

  /** No line is split across two chunks: when every chunk but the last ends in a
      newline, the lines reported chunk by chunk are the lines reported on the
      concatenated chunks. */
  lemma {:induction false} ChunkedReports(chunks: seq<string>)
    requires forall j :: 0 <= j < |chunks| - 1 ==> EndsWithNewline(chunks[j])
    ensures ReportedInChunks(chunks) == ReportedLines(Split(Flatten(chunks), '\n'))
    decreases |chunks|
  {
    if |chunks| == 0 {
      assert ReportedLines([""]) == ReportedLines([]) + [];
    } else {
      var p, c := chunks[..|chunks| - 1], chunks[|chunks| - 1];
      FlattenLast(chunks);
      if |p| == 0 {
        assert Flatten(p) == [];
        assert Flatten(chunks) == c;
      } else {
        ChunkedReports(p);
        FlattenLast(p);
        assert EndsWithNewline(p[|p| - 1]);
        AfterNewline(Flatten(p), c);
      }
    }
  }

  /** The line main.go writes to the error file for one error, without its newline. */
  function ErrorRecord(e: ErrorLine): string
  {
    e.line + ", error: " + ErrorMessage(e.pos)
  }

  /** The error file's contents for errors received in this order. */
  function RenderErrors(errs: seq<ErrorLine>): string
  {
    if |errs| == 0 then "" else ErrorRecord(errs[0]) + "\n" + RenderErrors(errs[1..])
  }

  /** One record per error, in the order received. */
  function Records(errs: seq<ErrorLine>): seq<string>
  {
    seq(|errs|, i requires 0 <= i < |errs| => ErrorRecord(errs[i]))
  }

  lemma {:induction false} RenderErrorsAppend(errs: seq<ErrorLine>, e: ErrorLine)
    ensures RenderErrors(errs + [e]) == RenderErrors(errs) + ErrorRecord(e) + "\n"
    decreases |errs|
  {
    if |errs| == 0 {
      assert [e][1..] == [];
    } else {
      assert (errs + [e])[1..] == errs[1..] + [e];
      RenderErrorsAppend(errs[1..], e);
    }
  }

  lemma DigitsHaveNoNewline(d: string)
    requires AllDigits(d)
    ensures '\n' !in d
  {
  }

  /** A record keeps to one line when its input line does. */
  lemma RecordOneLine(e: ErrorLine)
    requires '\n' !in e.line
    ensures '\n' !in ErrorRecord(e)
  {
    DigitsHaveNoNewline(NatToString(e.pos));
    assert '\n' !in ", error: " && '\n' !in "missing required field at position ";
  }

  /** The error file splits back into exactly one record per error, in order,
      when no reported line holds a newline (lines cut from a chunk never do). */
  lemma {:induction false} ErrorFileLines(errs: seq<ErrorLine>)
    requires forall i :: 0 <= i < |errs| ==> '\n' !in errs[i].line
    ensures Split(RenderErrors(errs), '\n') == Records(errs) + [""]
    decreases |errs|
  {
    if |errs| > 0 {
      var r := ErrorRecord(errs[0]);
      RecordOneLine(errs[0]);
      ErrorFileLines(errs[1..]);
      SplitPrefixField(r, RenderErrors(errs[1..]), '\n');
      assert RenderErrors(errs) == r + ['\n'] + RenderErrors(errs[1..]);
      assert Records(errs) == [r] + Records(errs[1..]);
    }
  }

  /** The receiving loop of main (main.go:59-74): the error file is created when
      the first error arrives, and every error is written as a record and a newline. */
  method DrainErrors(errs: seq<ErrorLine>) returns (fileCreated: bool, contents: string)
    ensures fileCreated <==> |errs| > 0
    ensures contents == RenderErrors(errs)
  {
    fileCreated := false;
    contents := "";
    for i := 0 to |errs|
      invariant fileCreated <==> i > 0
      invariant contents == RenderErrors(errs[..i])
    {
      if !fileCreated {
        fileCreated := true;
        contents := "";
      }
      RenderErrorsAppend(errs[..i], errs[i]);
      assert errs[..i + 1] == errs[..i] + [errs[i]];
      contents := contents + (errs[i].line + ", error: " + ErrorMessage(errs[i].pos) + "\n");
    }
    assert errs[..|errs|] == errs;
  }

  /** The whole program on one input file: chunk it, check every chunk, write the
      error file. */
  method RunGo(data: string, readSize: nat -> nat)
    returns (chunks: seq<string>, errs: seq<ErrorLine>, fileCreated: bool, contents: string)
    ensures chunks == ReadLoop(data, 0, 0, readSize)
    ensures |Flatten(chunks)| <= |data| && Flatten(chunks) == data[..|Flatten(chunks)|]
    ensures Lines(errs) == ReportedLines(Split(Flatten(chunks), '\n'))
    ensures (forall k :: readSize(k) > 0) && (|data| == 0 || data[|data| - 1] == '\n') ==>
              Lines(errs) == ReportedLines(Split(data, '\n'))
    ensures forall j :: 0 <= j < |errs| ==> Justified(errs[j])
    ensures fileCreated <==> |errs| > 0
    ensures Split(contents, '\n') == Records(errs) + [""]
  {
    chunks := Process(data, readSize);
    errs := CheckChunks(chunks);
    ChunkedReports(chunks);
    fileCreated, contents := DrainErrors(errs);
    ErrorFileLines(errs);
  }

  /** The goroutines Process starts (main.go:140-147), one ProcessChunk per
      chunk; their errors are taken chunk by chunk, in chunk order. Every error
      names a line of its chunk, so none holds a newline. */
  method CheckChunks(chunks: seq<string>) returns (errs: seq<ErrorLine>)
    ensures Lines(errs) == ReportedInChunks(chunks)
    ensures forall j :: 0 <= j < |errs| ==> Justified(errs[j])
    ensures forall j :: 0 <= j < |errs| ==> '\n' !in errs[j].line
  {
    errs := [];
    for i := 0 to |chunks|
      invariant Lines(errs) == ReportedInChunks(chunks[..i])
      invariant forall j :: 0 <= j < |errs| ==> Justified(errs[j])
      invariant forall j :: 0 <= j < |errs| ==> '\n' !in errs[j].line
    {
      var chunkErrs := ProcessChunk(chunks[i]);
      LinesAppend(errs, chunkErrs);
      assert chunks[..i + 1][..i] == chunks[..i];
      forall j | 0 <= j < |chunkErrs| ensures '\n' !in chunkErrs[j].line {
        LineOfChunk(chunks[i], chunkErrs, j);
      }
      errs := errs + chunkErrs;
    }
    assert chunks[..|chunks|] == chunks;
  }

  /** Every error line is a line of its chunk, so it holds no newline. */
  lemma LineOfChunk(chunk: string, errs: seq<ErrorLine>, j: nat)
    requires j < |errs|
    requires Lines(errs) == ReportedLines(Split(chunk, '\n'))
    ensures '\n' !in errs[j].line
  {
    LinesAt(errs, j);
    ReportedLinesFrom(Split(chunk, '\n'), errs[j].line);
  }

  lemma {:induction false} LinesAt(errs: seq<ErrorLine>, j: nat)
    requires j < |errs|
    ensures |Lines(errs)| == |errs| && Lines(errs)[j] == errs[j].line
    decreases |errs|
  {
    if j < |errs| - 1 {
      LinesAt(errs[..|errs| - 1], j);
    } else if |errs| > 1 {
      LinesAt(errs[..|errs| - 1], 0);
    }
  }

  /** Every reported line is one of the entries. */
  lemma {:induction false} ReportedLinesFrom(entries: seq<string>, x: string)
    requires x in ReportedLines(entries)
    ensures x in entries
    decreases |entries|
  {
    var p := entries[..|entries| - 1];
    if x in ReportedLines(p) {
      ReportedLinesFrom(p, x);
    }
  }

  /** One more than the largest uint64. */
  const U64Modulus: nat := 0x1_0000_0000_0000_0000

  /** main.go:89: memEnd - memStart on uint64, which wraps around when the
      heap shrank during the run. */
  function MemDifference(memStart: nat, memEnd: nat): (d: nat)
    requires memStart < U64Modulus && memEnd < U64Modulus
    ensures d < U64Modulus
    ensures (memStart + d) % U64Modulus == memEnd
    ensures memStart <= memEnd ==> d == memEnd - memStart
  {
    (memEnd - memStart) % U64Modulus
  }

  /** The lines main.go:94-98 prints, given the text of each figure. */
  function ReportLinesOf(executionTime: string, cpuUsage: string, memStart: string, memEnd: string, memDiff: string): seq<string>
  {
    [ "Execution Time: " + executionTime,
      "CPU Usage: " + cpuUsage + " %",
      "Memory Usage Begin: " + memStart + " bytes",
      "Memory Usage End: " + memEnd + " bytes",
      "Memory Usage: " + memDiff + " bytes" ]
  }

  /** The lines main.go prints. The duration and the CPU figure are given as the
      text Go renders for them (time.Duration.String, %v of a float64); the
      memory figures are unsigned 64-bit integers. */
  function ReportLines(executionTime: string, cpuUsage: string, memStart: nat, memEnd: nat): seq<string>
    requires memStart < U64Modulus && memEnd < U64Modulus
  {
    ReportLinesOf(executionTime, cpuUsage, NatToString(memStart), NatToString(memEnd),
                  NatToString(MemDifference(memStart, memEnd)))
  }

  /** The program's standard output: every line printed by fmt.Println ends in a newline. */
  function Report(executionTime: string, cpuUsage: string, memStart: nat, memEnd: nat): string
    requires memStart < U64Modulus && memEnd < U64Modulus
  {
    Join(ReportLines(executionTime, cpuUsage, memStart, memEnd) + [""], '\n')
  }
}
