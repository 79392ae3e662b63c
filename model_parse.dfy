/**
 * `ModelParse`: converts every partition file of a model directory to a text file. Each file is
 * handled by a `ConvertTask`, which decodes the partition through a `DataInputStream`, writes the
 * dump to its output stream and records whether it succeeded; the driver waits for each task in
 * list order and folds their reports into one verdict. Log calls matter where they format their
 * text with `String.format`, which can throw.
 */
module ModelParse {
  import opened JavaTypes
  import opened Results
  import opened Sequences
  import opened PartitionFormat
  import opened DataInput

  /** The message a task records when its conversion throws an `IOException`. */
  function ErrorLogFor(status: string): string {
    "convert partFile " + status + " error"
  }

  /** The task's state after `run()` for a conversion that ended with `o`, given its earlier flags. */
  function SuccessAfter(o: Outcome, wasSuccess: bool): bool {
    match o
    case Completed => true
    case IoFailure => false
    case Crashed => wasSuccess
  }

  function ErrorLogAfter(o: Outcome, status: string, wasLog: Option<string>): Option<string> {
    if o == IoFailure then Some(ErrorLogFor(status)) else wasLog
  }

  /** The line `run()` logs before it opens the file, and the one its `finally` block logs. */
  function OpenLine(path: string): string {
    "open file " + path
  }

  function CostLine(status: string, ms: int): string {
    "convert partFile " + status + " cost time: " + IntToString(ms) + "ms!"
  }

  /** A partition file as the driver lists it: `status.toString()`, the text of `status.getPath()`,
      and the bytes the file holds. */
  datatype PartFile = PartFile(status: string, path: string, bytes: seq<byte>)

  /** What a task shows the driver once `run()` has returned: its `finishFlag`, `isSuccess()` and
      `getErrorLog()`. */
  datatype TaskReport = TaskReport(finished: bool, success: bool, errorLog: Option<string>)

  /** The report of a fresh task for `f` whose run took `ms` milliseconds. When the line that
      opens the file fails to format, `run()` throws before it has set anything. When the cost line
      of the `finally` block fails, `finishFlag` is set only if the conversion had completed. */
  function ReportOf(f: PartFile, lib: Library, ms: int): (r: TaskReport)
    ensures r.success <==> !FormatThrows(lib, OpenLine(f.path)) && Convert(f.bytes, lib).outcome == Completed
    ensures r.success ==> r.finished && r.errorLog == None
    ensures r.errorLog.Some? <==> !FormatThrows(lib, OpenLine(f.path)) && Convert(f.bytes, lib).outcome == IoFailure
    ensures r.errorLog.Some? ==> r.errorLog == Some(ErrorLogFor(f.status))
  {
    if FormatThrows(lib, OpenLine(f.path)) then TaskReport(false, false, None)
    else
      var o := Convert(f.bytes, lib).outcome;
      TaskReport(o == Completed || !FormatThrows(lib, CostLine(f.status, ms)), SuccessAfter(o, false),
                 ErrorLogAfter(o, f.status, None))
  }

  /** A task whose file has no `%` in its path or its descriptor always sets `finishFlag`. */
  lemma PlainNamesFinish(f: PartFile, lib: Library, ms: int)
    requires '%' !in f.path && '%' !in f.status
    ensures ReportOf(f, lib, ms).finished
  {
    hide Convert, IntToString;
    PlainInt(ms);
  }

  /** A path with an invalid format specifier: the open line throws, and the task's `finishFlag` is
      never set. */
  lemma PercentPathNeverFinishes()
    ensures !ReportOf(PartFile("part-0", "/model/w/%q", []), Library(b => "", b => "", s => true), 0).finished
  {
    assert '%' in OpenLine("/model/w/%q") by {
      assert OpenLine("/model/w/%q")[19] == '%';
    }
  }

  /** The reports of the tasks for files `0..n`, the `i`-th having run for `ms(i)` milliseconds. */
  function Reports(files: seq<PartFile>, lib: Library, ms: nat -> int, n: nat): (rs: seq<TaskReport>)
    requires n <= |files|
    ensures |rs| == n && forall i :: 0 <= i < n ==> rs[i] == ReportOf(files[i], lib, ms(i))
  {
    seq(n, i requires 0 <= i < n => ReportOf(files[i], lib, ms(i)))
  }

  /** `convertSuccess` after the loop over the tasks: no task failed. */
  function AllSucceeded(rs: seq<TaskReport>): bool {
    if rs == [] then true else AllSucceeded(rs[..|rs| - 1]) && rs[|rs| - 1].success
  }

  /** `errorLog` after the loop over the tasks: each failing task overwrites it with its own log. */
  function LastFailureLog(rs: seq<TaskReport>): Option<string> {
    if rs == [] then None
    else if !rs[|rs| - 1].success then rs[|rs| - 1].errorLog
    else LastFailureLog(rs[..|rs| - 1])
  }

  /** The overall verdict means that every task succeeded. */
  lemma {:induction false} AllSucceededMeansEvery(rs: seq<TaskReport>)
    ensures AllSucceeded(rs) <==> forall i :: 0 <= i < |rs| ==> rs[i].success
  {
    if rs != [] {
      AllSucceededMeansEvery(rs[..|rs| - 1]);
      assert forall i :: 0 <= i < |rs| - 1 ==> rs[..|rs| - 1][i] == rs[i];
    }
  }

  /** No task failed: the reported log is `null`. */
  lemma {:induction false} NoFailureNoLog(rs: seq<TaskReport>)
    requires forall i :: 0 <= i < |rs| ==> rs[i].success
    ensures LastFailureLog(rs) == None
  {
    if rs != [] {
      var init := rs[..|rs| - 1];
      assert forall i :: 0 <= i < |init| ==> init[i].success by {
        forall i | 0 <= i < |init| ensures init[i].success { assert init[i] == rs[i]; }
      }
      NoFailureNoLog(init);
    }
  }

  /** The log reported is that of the last task that failed. */
  lemma {:induction false} LastFailureLogIsLast(rs: seq<TaskReport>, i: nat)
    requires i < |rs| && !rs[i].success
    requires forall j :: i < j < |rs| ==> rs[j].success
    ensures LastFailureLog(rs) == rs[i].errorLog
  {
    if i < |rs| - 1 {
      var init := rs[..|rs| - 1];
      assert rs[|rs| - 1].success;
      assert init[i] == rs[i];
      assert forall j :: i < j < |init| ==> init[j].success by {
        forall j | i < j < |init| ensures init[j].success { assert init[j] == rs[j]; }
      }
      LastFailureLogIsLast(init, i);
    }
  }

  /** A reported log is always the log of a task that failed. */
  lemma {:induction false} LastFailureLogFrom(rs: seq<TaskReport>)
    ensures LastFailureLog(rs).Some? ==>
              exists k :: 0 <= k < |rs| && !rs[k].success && rs[k].errorLog == LastFailureLog(rs)
  {
    if rs != [] && rs[|rs| - 1].success {
      var init := rs[..|rs| - 1];
      LastFailureLogFrom(init);
      if LastFailureLog(init).Some? {
        var k :| 0 <= k < |init| && !init[k].success && init[k].errorLog == LastFailureLog(init);
        assert init[k] == rs[k];
      }
    }
  }

  /** The first task at or after `i` whose `finishFlag` is never set, or `|rs|` if there is none. */
  function FirstUnfinished(rs: seq<TaskReport>, i: nat): (w: nat)
    requires i <= |rs|
    ensures i <= w <= |rs|
    ensures forall k :: i <= k < w ==> rs[k].finished
    ensures w < |rs| ==> !rs[w].finished
    decreases |rs| - i
  {
    if i == |rs| || !rs[i].finished then i else FirstUnfinished(rs, i + 1)
  }

  /** What an `IOException` or an `IllegalArgumentException` or `IllegalFormatException` thrown
      out of `convertModel()` is. */
  datatype Thrown = IOException(message: string) | IllegalArgument | IllegalFormat

  /** How `convertModel()` ends: at once, when a conversion is already under way; with the verdict
      and the error log it logs; by an exception; or never, polling the `finishFlag` of a task
      that will not set it. */
  datatype Ending =
    | AlreadyConverting
    | Converted(success: bool, errorLog: Option<string>)
    | Threw(thrown: Thrown)
    | WaitsForever(task: nat)

  /** The text logged when some task failed; a `null` log is spliced in as "null". */
  function FailedLine(log: Option<string>): string {
    "convert failed for " + (if log.Some? then log.value else "null")
  }

  /** The end of `convertModel()` once the tasks have run, from their reports in list order: it
      waits forever on the first task that never finishes; otherwise it has the verdict and the
      log, and it throws only when logging a failure does. */
  function Collected(rs: seq<TaskReport>, lib: Library): (e: Ending)
    ensures e.WaitsForever? <==> exists k :: 0 <= k < |rs| && !rs[k].finished
    ensures e.WaitsForever? ==> e.task < |rs| && !rs[e.task].finished && forall k :: 0 <= k < e.task ==> rs[k].finished
    ensures e.Converted? ==> e.success == AllSucceeded(rs) && e.errorLog == LastFailureLog(rs)
    ensures e.Threw? ==> e.thrown == IllegalFormat && !AllSucceeded(rs)
    ensures !e.AlreadyConverting?
  {
    var w := FirstUnfinished(rs, 0);
    if w < |rs| then WaitsForever(w)
    else if !AllSucceeded(rs) && FormatThrows(lib, FailedLine(LastFailureLog(rs))) then Threw(IllegalFormat)
    else Converted(AllSucceeded(rs), LastFailureLog(rs))
  }

  /** When no partition file has a `%` in its path or its descriptor, every task finishes and
      `convertModel()` returns the verdict that every task succeeded, with the log of the last one
      that failed. */
  lemma PlainNamesReturn(files: seq<PartFile>, lib: Library, ms: nat -> int)
    requires forall i :: 0 <= i < |files| ==> '%' !in files[i].path && '%' !in files[i].status
    ensures var rs := Reports(files, lib, ms, |files|);
            Collected(rs, lib) == Converted(AllSucceeded(rs), LastFailureLog(rs))
  {
    hide Convert, ReportOf;
    var rs := Reports(files, lib, ms, |files|);
    forall k | 0 <= k < |rs|
      ensures rs[k].finished
    {
      PlainNamesFinish(files[k], lib, ms(k));
    }
    LastFailureLogFrom(rs);
    if LastFailureLog(rs).Some? {
      var k :| 0 <= k < |rs| && !rs[k].success && rs[k].errorLog == LastFailureLog(rs);
      assert rs[k].errorLog == Some(ErrorLogFor(files[k].status));
    }
  }

  /** The names `String.valueOf(i)` of the output files for partition files `0..n`. */
  function OutputNames(n: nat): (names: set<string>)
    ensures forall k :: 0 <= k < n ==> IntToString(k) in names
  {
    if n == 0 then {} else OutputNames(n - 1) + {IntToString(n - 1)}
  }

  /** Only the names of files `0..n` are output names. */
  lemma {:induction false} OutputNamesOnly(n: nat, name: string)
    requires name in OutputNames(n)
    ensures exists k :: 0 <= k < n && name == IntToString(k)
  {
    if name != IntToString(n - 1) {
      OutputNamesOnly(n - 1, name);
    }
  }

  /** A later file's name is not among the earlier ones: no output file is written twice. */
  lemma {:induction false} LaterNameIsFresh(n: nat, m: nat)
    requires n <= m
    ensures IntToString(m) !in OutputNames(n)
  {
    if n > 0 {
      IntToStringInjective(m, n - 1);
      LaterNameIsFresh(n - 1, m);
    }
  }

  /** An output file: what was written to its stream, and whether the task closed the stream. */
  datatype OutputFile = OutputFile(written: string, closed: bool)

  /** The output file of the task for `f`: the dump, closed only by a conversion that completed;
      nothing at all when the open line failed to format. */
  function OutputOf(f: PartFile, lib: Library): OutputFile {
    if FormatThrows(lib, OpenLine(f.path)) then OutputFile("", false)
    else
      var c := Convert(f.bytes, lib);
      OutputFile(c.text, c.outcome == Completed)
  }

  /** A task closes its output file exactly when it reports success. */
  lemma ClosedIffSucceeded(f: PartFile, lib: Library, ms: int)
    ensures OutputOf(f, lib).closed <==> ReportOf(f, lib, ms).success
  {
  }

  /** The output directory's new files after tasks `0..n` have run: file `i`'s output under the
      name `String.valueOf(i)`. */
  function OutputFiles(files: seq<PartFile>, lib: Library, n: nat): map<string, OutputFile>
    requires n <= |files|
  {
    if n == 0 then map[] else OutputFiles(files, lib, n - 1)[IntToString(n - 1) := OutputOf(files[n - 1], lib)]
  }

  /** Every partition file gets its own output file, holding exactly its task's output. */
  lemma {:induction false} OutputFilesContents(files: seq<PartFile>, lib: Library, n: nat)
    requires n <= |files|
    ensures OutputFiles(files, lib, n).Keys == OutputNames(n)
    ensures forall k :: 0 <= k < n ==> OutputFiles(files, lib, n)[IntToString(k)] == OutputOf(files[k], lib)
  {
    hide OutputOf, IntToString;
    if n > 0 {
      OutputFilesContents(files, lib, n - 1);
      LaterNameIsFresh(n - 1, n - 1);
    }
  }

  /** The text `convertInit` logs first; a `null` input directory is spliced in as "null". */
  function ReadModelLine(inputStr: Option<string>): string {
    "read model from " + (if inputStr.Some? then inputStr.value else "null")
  }

  function OutputPathLine(outputPath: string): string {
    "outputPath:" + outputPath
  }

  class ConvertTask {
    /** `status.toString()`, the descriptor of the partition file. */
    const status: string
    /** `status.getPath()`, as text. */
    const path: string
    /** The bytes `infs.open(status.getPath())` delivers. */
    const input: seq<byte>
    var isSuccess: bool
    var finishFlag: bool
    var errorLog: Option<string>
    /** Everything written so far to the task's output stream, and whether the stream was closed. */
    var out: string
    var closed: bool

    constructor (status: string, path: string, input: seq<byte>)
      ensures this.status == status && this.path == path && this.input == input
      ensures !isSuccess && !finishFlag && errorLog == None && out == "" && !closed
    {
      this.status := status;
      this.path := path;
      this.input := input;
      isSuccess := false;
      finishFlag := false;
      errorLog := None;
      out := "";
      closed := false;
    }

    /** `isSuccess()`. */
    function IsSuccess(): bool
      reads this
    {
      isSuccess
    }

    /** `getErrorLog()`; `None` stands for Java's `null`. */
    function GetErrorLog(): Option<string>
      reads this
    {
      errorLog
    }

    /** `out.writeBytes(s)`. */
    method WriteBytes(s: string)
      modifies this`out
      ensures out == old(out) + s
    {
      out := out + s;
    }

    /** The soft-break test after entry `k`: a newline after every tenth entry, except the first
        and the last. */
    method WriteSoftBreak(k: int, rowLen: int)
      modifies this`out
      ensures out == old(out) + SoftBreakText(k, rowLen)
    {
      if k != 0 && k % 10 == 0 && k != rowLen - 1 {
        WriteBytes("\n");
      }
    }

    /** The body of the loop over a dense row: the entry, then the soft-break test twice. */
    method WriteDenseEntry(index: int, value: string, k: int, rowLen: int)
      modifies this`out
      ensures out == old(out) + DenseEntryText(index, value, k, rowLen)
    {
      WriteBytes(Item(index, value));
      WriteSoftBreak(k, rowLen);
      WriteSoftBreak(k, rowLen);
      AppendAssoc(old(out), Item(index, value), SoftBreakText(k, rowLen));
      AppendAssoc(old(out), Item(index, value) + SoftBreakText(k, rowLen), SoftBreakText(k, rowLen));
    }

    /** The body of the loop over a sparse row: the entry, then the soft-break test. */
    method WriteSparseEntry(key: int, value: string, k: int, rowLen: int)
      modifies this`out
      ensures out == old(out) + SparseEntryText(key, value, k, rowLen)
    {
      WriteBytes(Item(key, value));
      WriteSoftBreak(k, rowLen);
      AppendAssoc(old(out), Item(key, value), SoftBreakText(k, rowLen));
    }

    /** `run()`, having taken `ms` milliseconds: converts the partition file and records the
        outcome. If the line that opens the file fails to format, `run()` throws at once and
        nothing changes. Otherwise a completed conversion closes the output and sets both flags;
        an `IOException` records the error; an unchecked exception leaves the flags alone. The
        `finally` block then sets `finishFlag`, unless its own cost line fails to format. */
    method Run(lib: Library, ms: int)
      modifies this
      ensures FormatThrows(lib, OpenLine(path)) ==>
                out == old(out) && closed == old(closed) && isSuccess == old(isSuccess)
                && errorLog == old(errorLog) && finishFlag == old(finishFlag)
      ensures !FormatThrows(lib, OpenLine(path)) ==>
                var c := Convert(input, lib);
                && out == old(out) + c.text
                && closed == (old(closed) || c.outcome == Completed)
                && isSuccess == SuccessAfter(c.outcome, old(isSuccess))
                && errorLog == ErrorLogAfter(c.outcome, status, old(errorLog))
                && finishFlag == (old(finishFlag) || c.outcome == Completed || !FormatThrows(lib, CostLine(status, ms)))
    {
      if FormatThrows(lib, OpenLine(path)) {
        return;
      }
      var fin := new DataInputStream(input);
      var o := Decode(fin, lib);
      match o {
        case Completed =>
          closed := true;
          isSuccess := true;
          finishFlag := true;
        case IoFailure =>
          errorLog := Some(ErrorLogFor(status));
          isSuccess := false;
        case Crashed =>
      }
      // the finally block: an exception from its log call leaves finishFlag as it is
      if !FormatThrows(lib, CostLine(status, ms)) {
        finishFlag := true;
      }
    }

    /** The body of the `try` block of `run()`: the matrix id and the partition size, then the partition. */
    method Decode(fin: DataInputStream, lib: Library) returns (o: Outcome)
      requires fin.Valid() && fin.pos == 0
      modifies this`out, fin
      ensures out == old(out) + Convert(fin.data, lib).text
      ensures o == Convert(fin.data, lib).outcome
    {
      var matrixId := fin.ReadInt();
      if matrixId.None? {
        return IoFailure;
      }
      WriteBytes(MatrixIdLine(matrixId.value));
      var partSize := fin.ReadInt();
      if partSize.None? {
        return IoFailure;
      }
      var lines := MatrixIdLine(matrixId.value) + PartSizeLine(partSize.value);
      ghost var rest := PartitionAt(fin.data, lib);
      assert Convert(fin.data, lib) == Preceded(lines, rest);
      WriteBytes(PartSizeLine(partSize.value));
      AppendAssoc(old(out), MatrixIdLine(matrixId.value), PartSizeLine(partSize.value));
      o := DecodePartition(fin, lib);
      AppendAssoc(old(out), lines, rest.text);
    }

    /** The partition header after the partition size, the row count, then the rows. */
    method DecodePartition(fin: DataInputStream, lib: Library) returns (o: Outcome)
      requires fin.Valid() && fin.pos == 8
      modifies this`out, fin
      ensures out == old(out) + PartitionAt(fin.data, lib).text
      ensures o == PartitionAt(fin.data, lib).outcome
    {
      var startRow := fin.ReadInt();
      if startRow.None? {
        return IoFailure;
      }
      var startCol := fin.ReadInt();
      if startCol.None? {
        return IoFailure;
      }
      var endRow := fin.ReadInt();
      if endRow.None? {
        return IoFailure;
      }
      var endCol := fin.ReadInt();
      if endCol.None? {
        return IoFailure;
      }
      var rowType := fin.ReadUTF();
      if rowType.None? {
        return IoFailure;
      }
      assert fin.pos == TAG_AT + 2 + U16At(fin.data, TAG_AT);
      assert rowType.value == Chars(fin.data[TAG_AT + 2..fin.pos]);
      var range := RangeLine(rowType.value, startRow.value, startCol.value, endRow.value, endCol.value);
      WriteBytes(range);
      // LOG.info(String.format(patInfo)): an unchecked exception
      if FormatThrows(lib, RangeInfo(rowType.value, startRow.value, startCol.value, endRow.value, endCol.value)) {
        return Crashed;
      }
      var rowNum := fin.ReadInt();
      if rowNum.None? {
        return IoFailure;
      }
      var f := Frame(startCol.value, endCol.value);
      var layout := LayoutOf(rowType.value);
      ghost var rows := RowsOf(fin.data, fin.pos, f, layout, lib, rowNum.value);
      assert PartitionAt(fin.data, lib) == Preceded(range + RowNumLine(rowNum.value), rows);
      WriteBytes(RowNumLine(rowNum.value));
      AppendAssoc(old(out), range, RowNumLine(rowNum.value));
      o := DecodeRows(fin, f, layout, lib, rowNum.value);
      AppendAssoc(old(out), range + RowNumLine(rowNum.value), rows.text);
    }

    /** The `switch (rowType)`. */
    method DecodeRows(fin: DataInputStream, f: Frame, layout: Layout, lib: Library, rowNum: int) returns (o: Outcome)
      requires fin.Valid()
      modifies this`out, fin
      ensures var c := RowsOf(fin.data, old(fin.pos), f, layout, lib, rowNum);
              out == old(out) + c.text && o == c.outcome
    {
      match layout {
        case Dense(kind) =>
          if BufferBytes(kind, f) < 0 {
            // new byte[...] of a negative length
            return Crashed;
          }
          o := DenseRows(fin, ShapeOf(kind, f), kind, lib, rowNum);
        case Sparse(kind, clockFirst) =>
          o := SparseRows(fin, kind, clockFirst, lib, rowNum);
        case Arbitrary =>
          if BufferBytes(IntValue, f) < 0 {
            return Crashed;
          }
          o := ArbitraryRows(fin, ShapeOf(IntValue, f), lib, rowNum);
        case Unrecognised =>
          // the switch has no default case
          return Completed;
      }
    }

    /** The loop over the rows of a dense partition. */
    method DenseRows(fin: DataInputStream, g: DenseShape, kind: ValueKind, lib: Library, rowNum: int) returns (o: Outcome)
      requires fin.Valid()
      modifies this`out, fin
      ensures var s := DenseRowsFrom(fin.data, old(fin.pos), g, kind, lib, rowNum, 0);
              out == old(out) + s.text && o == s.outcome
    {
      hide DenseRowAt;
      ghost var data := fin.data;
      ghost var all := DenseRowsFrom(data, fin.pos, g, kind, lib, rowNum, 0);
      ghost var acc := "";
      PrefixEmpty(all);
      var j: nat := 0;
      while j < rowNum
        invariant fin.Valid() && fin.data == data
        invariant out == old(out) + acc
        invariant all == Prefix(acc, DenseRowsFrom(data, fin.pos, g, kind, lib, rowNum, j))
        decreases rowNum - j
      {
        ghost var r := DenseRowAt(data, fin.pos, g, kind, lib);
        DenseRowsStep(all, acc, data, fin.pos, g, kind, lib, rowNum, j);
        o := ConvertDenseRow(fin, g, kind, lib);
        AppendAssoc(old(out), acc, r.text);
        if o != Completed {
          return o;
        }
        acc := acc + r.text;
        j := j + 1;
      }
      PrefixOfEmpty(acc, fin.pos, Completed);
      return Completed;
    }

    /** The loop over the rows of a sparse partition. */
    method SparseRows(fin: DataInputStream, kind: ValueKind, clockFirst: bool, lib: Library, rowNum: int) returns (o: Outcome)
      requires fin.Valid()
      modifies this`out, fin
      ensures var s := SparseRowsFrom(fin.data, old(fin.pos), kind, clockFirst, lib, rowNum, 0);
              out == old(out) + s.text && o == s.outcome
    {
      hide SparseRowAt;
      ghost var data := fin.data;
      ghost var all := SparseRowsFrom(data, fin.pos, kind, clockFirst, lib, rowNum, 0);
      ghost var acc := "";
      PrefixEmpty(all);
      var j: nat := 0;
      while j < rowNum
        invariant fin.Valid() && fin.data == data
        invariant out == old(out) + acc
        invariant all == Prefix(acc, SparseRowsFrom(data, fin.pos, kind, clockFirst, lib, rowNum, j))
        decreases rowNum - j
      {
        ghost var r := SparseRowAt(data, fin.pos, kind, clockFirst, lib);
        SparseRowsStep(all, acc, data, fin.pos, kind, clockFirst, lib, rowNum, j);
        o := ConvertSparseRow(fin, kind, clockFirst, lib);
        AppendAssoc(old(out), acc, r.text);
        if o != Completed {
          return o;
        }
        acc := acc + r.text;
        j := j + 1;
      }
      PrefixOfEmpty(acc, fin.pos, Completed);
      return Completed;
    }

    /** The loop over the rows of a `T_INT_ARBITRARY` partition. */
    method ArbitraryRows(fin: DataInputStream, g: DenseShape, lib: Library, rowNum: int) returns (o: Outcome)
      requires fin.Valid()
      modifies this`out, fin
      ensures var s := ArbitraryRowsFrom(fin.data, old(fin.pos), g, lib, rowNum, 0);
              out == old(out) + s.text && o == s.outcome
    {
      hide ArbitraryRowAt;
      ghost var data := fin.data;
      ghost var all := ArbitraryRowsFrom(data, fin.pos, g, lib, rowNum, 0);
      ghost var acc := "";
      PrefixEmpty(all);
      var j: nat := 0;
      while j < rowNum
        invariant fin.Valid() && fin.data == data
        invariant out == old(out) + acc
        invariant all == Prefix(acc, ArbitraryRowsFrom(data, fin.pos, g, lib, rowNum, j))
        decreases rowNum - j
      {
        ghost var r := ArbitraryRowAt(data, fin.pos, g, lib);
        ArbitraryRowsStep(all, acc, data, fin.pos, g, lib, rowNum, j);
        o := ConvertArbitraryRow(fin, g, lib);
        AppendAssoc(old(out), acc, r.text);
        if o != Completed {
          return o;
        }
        acc := acc + r.text;
        j := j + 1;
      }
      PrefixOfEmpty(acc, fin.pos, Completed);
      return Completed;
    }

    /** `T_DOUBLE_DENSE`, `T_FLOAT_DENSE`, `T_INT_DENSE`: `rowIndex`, `clock`, then the values. */
    method ConvertDenseRow(fin: DataInputStream, g: DenseShape, kind: ValueKind, lib: Library) returns (o: Outcome)
      requires fin.Valid()
      modifies this`out, fin
      ensures fin.Valid()
      ensures var s := DenseRowAt(fin.data, old(fin.pos), g, kind, lib);
              out == old(out) + s.text && o == s.outcome && (o == Completed ==> fin.pos == s.next)
    {
      var rowIndex := fin.ReadInt();
      if rowIndex.None? {
        return IoFailure;
      }
      var clock := fin.ReadInt();
      if clock.None? {
        return IoFailure;
      }
      var head := DenseHead(rowIndex.value, clock.value, g.rowLen);
      DenseRowHeader(fin.data, old(fin.pos), g, kind, lib, rowIndex.value, clock.value);
      ghost var body := DenseBody(fin.data, fin.pos, g, kind, lib);
      WriteBytes(head);
      o := ReadDenseBody(fin, g, kind, lib);
      AppendAssoc(old(out), head, body.text);
    }

    /** `T_DOUBLE_SPARSE`, `T_INT_SPARSE`: the row index and the clock, the number of pairs, then the
        pairs. */
    method ConvertSparseRow(fin: DataInputStream, kind: ValueKind, clockFirst: bool, lib: Library) returns (o: Outcome)
      requires fin.Valid()
      modifies this`out, fin
      ensures fin.Valid()
      ensures var s := SparseRowAt(fin.data, old(fin.pos), kind, clockFirst, lib);
              out == old(out) + s.text && o == s.outcome && (o == Completed ==> fin.pos == s.next)
    {
      var first := fin.ReadInt();
      if first.None? {
        return IoFailure;
      }
      var second := fin.ReadInt();
      if second.None? {
        return IoFailure;
      }
      var rowLen := fin.ReadInt();
      if rowLen.None? {
        return IoFailure;
      }
      // T_DOUBLE_SPARSE reads the clock first, T_INT_SPARSE the row index first
      var rowIndex := if clockFirst then second.value else first.value;
      var clock := if clockFirst then first.value else second.value;
      var head := SparseHead(rowIndex, clock, rowLen.value);
      SparseRowHeader(fin.data, old(fin.pos), kind, clockFirst, lib, rowIndex, clock, rowLen.value);
      ghost var body := SparseBody(fin.data, fin.pos, kind, lib, rowLen.value);
      WriteBytes(head);
      o := ReadSparseBody(fin, kind, lib, rowLen.value);
      AppendAssoc(old(out), head, body.text);
    }

    /** `T_INT_ARBITRARY`: the row index, the clock and the row's own tag, then a body of that kind. */
    method ConvertArbitraryRow(fin: DataInputStream, g: DenseShape, lib: Library) returns (o: Outcome)
      requires fin.Valid()
      modifies this`out, fin
      ensures fin.Valid()
      ensures var s := ArbitraryRowAt(fin.data, old(fin.pos), g, lib);
              out == old(out) + s.text && o == s.outcome && (o == Completed ==> fin.pos == s.next)
    {
      var rowIndex := fin.ReadInt();
      if rowIndex.None? {
        return IoFailure;
      }
      var clock := fin.ReadInt();
      if clock.None? {
        return IoFailure;
      }
      var denseOrSparse := fin.ReadUTF();
      if denseOrSparse.None? {
        return IoFailure;
      }
      ArbitraryRowHeader(fin.data, old(fin.pos), g, lib, rowIndex.value, clock.value, fin.pos, denseOrSparse.value);
      o := ConvertArbitraryBody(fin, g, lib, rowIndex.value, clock.value, denseOrSparse.value);
    }

    /** The rest of a `T_INT_ARBITRARY` row, after its tag `denseOrSparse`. */
    method ConvertArbitraryBody(fin: DataInputStream, g: DenseShape, lib: Library, rowIndex: int, clock: int,
                                denseOrSparse: string) returns (o: Outcome)
      requires fin.Valid()
      modifies this`out, fin
      ensures fin.Valid()
      ensures var s := ArbitraryBodyAt(fin.data, old(fin.pos), g, lib, rowIndex, clock, denseOrSparse);
              out == old(out) + s.text && o == s.outcome && (o == Completed ==> fin.pos == s.next)
    {
      if denseOrSparse == T_INT_DENSE {
        var head := ArbitraryDenseHead(rowIndex, clock, g.rowLen, denseOrSparse);
        ghost var body := DenseBody(fin.data, fin.pos, g, IntValue, lib);
        WriteBytes(head);
        o := ReadDenseBody(fin, g, IntValue, lib);
        AppendAssoc(old(out), head, body.text);
      } else if denseOrSparse == T_INT_SPARSE {
        var nnz := fin.ReadInt();
        if nnz.None? {
          return IoFailure;
        }
        var rowLen := fin.ReadInt();
        if rowLen.None? {
          return IoFailure;
        }
        var head := ArbitrarySparseHead(rowIndex, clock, rowLen.value, denseOrSparse, nnz.value);
        ArbitrarySparseHeader(fin.data, old(fin.pos), g, lib, rowIndex, clock, nnz.value, rowLen.value);
        ghost var body := SparseBody(fin.data, fin.pos, IntValue, lib, rowLen.value);
        WriteBytes(head);
        o := ReadSparseBody(fin, IntValue, lib, rowLen.value);
        AppendAssoc(old(out), head, body.text);
      } else if FormatThrows(lib, TypeError(denseOrSparse)) {
        // the error line fails to format: an unchecked exception
        o := Crashed;
      } else {
        // only logged: the row has no body
        o := Completed;
      }
    }

    /** A dense row body: the row buffer is filled by `readFully`, then its values are printed. */
    method ReadDenseBody(fin: DataInputStream, g: DenseShape, kind: ValueKind, lib: Library) returns (o: Outcome)
      requires fin.Valid()
      modifies this`out, fin
      ensures fin.Valid()
      ensures var s := DenseBody(fin.data, old(fin.pos), g, kind, lib);
              out == old(out) + s.text && o == s.outcome && (o == Completed ==> fin.pos == s.next)
    {
      hide DenseFrom;
      var data := fin.ReadFully(g.bytes);
      if data.None? {
        return IoFailure;
      }
      o := WriteDenseEntries(data.value, g, kind, lib);
      if o == Completed {
        WriteBytes("\n");
      }
    }

    /** The loop over the values of a dense row held in `buf`, `rowLen = endCol - startCol` of them. */
    method WriteDenseEntries(buf: seq<byte>, g: DenseShape, kind: ValueKind, lib: Library) returns (o: Outcome)
      modifies this`out
      ensures var s := DenseFrom(buf, kind, lib, g, 0, 0);
              out == old(out) + s.text && o == s.outcome
    {
      var rowLen := g.rowLen;
      ghost var all := DenseFrom(buf, kind, lib, g, 0, 0);
      ghost var acc := "";
      PrefixEmpty(all);
      var k: nat, off: nat := 0, 0;
      while k < rowLen
        invariant out == old(out) + acc
        invariant all == Prefix(acc, DenseFrom(buf, kind, lib, g, k, off))
        decreases rowLen - k
      {
        if off + Width(kind) > |buf| {
          // the buffer's get() underflows
          PrefixOfEmpty(acc, off, Crashed);
          return Crashed;
        }
        // the typed buffer's get()
        var value := ValueAt(lib, kind, buf, off);
        var index := Wrap32(g.startCol + k);
        ghost var entry := DenseEntryText(index, value, k, rowLen);
        DenseFromStep(all, acc, buf, kind, lib, g, k, off);
        AppendAssoc(old(out), acc, entry);
        WriteDenseEntry(index, value, k, rowLen);
        acc := acc + entry;
        k, off := k + 1, off + Width(kind);
      }
      PrefixOfEmpty(acc, off, Completed);
      return Completed;
    }

    /** The body of the loop over a sparse row: a key, a value, and the entry they print. */
    method ReadSparseEntry(fin: DataInputStream, kind: ValueKind, lib: Library, rowLen: int, k: int) returns (ok: bool)
      requires fin.Valid()
      modifies this`out, fin
      ensures fin.Valid()
      ensures ok <==> old(fin.pos) + 4 + Width(kind) <= |fin.data|
      ensures ok ==> fin.pos == old(fin.pos) + 4 + Width(kind)
      ensures !ok ==> out == old(out)
      ensures ok ==> var p := old(fin.pos);
                     out == old(out) + SparseEntryText(Int32At(fin.data, p), ValueAt(lib, kind, fin.data, p + 4), k, rowLen)
    {
      var key := fin.ReadInt();
      if key.None? {
        return false;
      }
      var value := ReadValue(fin, kind, lib);
      if value.None? {
        return false;
      }
      WriteSparseEntry(key.value, value.value, k, rowLen);
      return true;
    }

    /** `readInt()`, `readFloat()` or `readDouble()`, as the value's kind says, and its text. */
    method ReadValue(fin: DataInputStream, kind: ValueKind, lib: Library) returns (r: Option<string>)
      requires fin.Valid()
      modifies fin
      ensures fin.Valid()
      ensures old(fin.pos) + Width(kind) <= |fin.data| ==>
                r == Some(ValueAt(lib, kind, fin.data, old(fin.pos))) && fin.pos == old(fin.pos) + Width(kind)
      ensures old(fin.pos) + Width(kind) > |fin.data| ==> r == None && fin.pos == |fin.data|
    {
      match kind {
        case IntValue =>
          var v := fin.ReadInt();
          if v.None? {
            return None;
          }
          return Some(IntToString(v.value));
        case FloatValue =>
          var w := fin.ReadFully(4);
          if w.None? {
            return None;
          }
          return Some(lib.ofFloat(w.value));
        case DoubleValue =>
          var w := fin.ReadFully(8);
          if w.None? {
            return None;
          }
          return Some(lib.ofDouble(w.value));
      }
    }

    /** A sparse row body: `rowLen` key/value pairs, then the closing newline. */
    method ReadSparseBody(fin: DataInputStream, kind: ValueKind, lib: Library, rowLen: int) returns (o: Outcome)
      requires fin.Valid()
      modifies this`out, fin
      ensures fin.Valid()
      ensures var s := SparseBody(fin.data, old(fin.pos), kind, lib, rowLen);
              out == old(out) + s.text && o == s.outcome && (o == Completed ==> fin.pos == s.next)
    {
      o := ReadSparseEntries(fin, kind, lib, rowLen);
      if o == Completed {
        WriteBytes("\n");
      }
    }

    /** The loop over the key/value pairs of a sparse row. */
    method ReadSparseEntries(fin: DataInputStream, kind: ValueKind, lib: Library, rowLen: int) returns (o: Outcome)
      requires fin.Valid()
      modifies this`out, fin
      ensures fin.Valid()
      ensures var s := SparseFrom(fin.data, old(fin.pos), kind, lib, rowLen, 0);
              out == old(out) + s.text && o == s.outcome && (o == Completed ==> fin.pos == s.next)
    {
      ghost var data := fin.data;
      ghost var all := SparseFrom(data, fin.pos, kind, lib, rowLen, 0);
      ghost var acc := "";
      PrefixEmpty(all);
      var k: nat := 0;
      while k < rowLen
        invariant fin.Valid() && fin.data == data
        invariant out == old(out) + acc
        invariant all == Prefix(acc, SparseFrom(data, fin.pos, kind, lib, rowLen, k))
        decreases rowLen - k
      {
        ghost var p := fin.pos;
        var ok := ReadSparseEntry(fin, kind, lib, rowLen, k);
        if !ok {
          PrefixOfEmpty(acc, |data|, IoFailure);
          return IoFailure;
        }
        ghost var entry := SparseEntryText(Int32At(data, p), ValueAt(lib, kind, data, p + 4), k, rowLen);
        SparseFromStep(all, acc, data, p, kind, lib, rowLen, k);
        AppendAssoc(old(out), acc, entry);
        acc := acc + entry;
        k := k + 1;
      }
      PrefixOfEmpty(acc, fin.pos, Completed);
      return Completed;
    }
  }


  /** The driver. `files` stands for what `infs.listStatus(inputPath)` lists; `outputs` for the
      files of the output directory, by name. */
  class ModelParse {
    const inputStr: Option<string>
    const outputStr: Option<string>
    const modelName: Option<string>
    const convertThreadCount: int
    const files: seq<PartFile>
    var isConverting: bool
    var outputs: map<string, OutputFile>

    constructor (inputStr: Option<string>, outputStr: Option<string>, modelName: Option<string>,
                 convertThreadCount: int, files: seq<PartFile>)
      ensures this.inputStr == inputStr && this.outputStr == outputStr && this.modelName == modelName
      ensures this.convertThreadCount == convertThreadCount && this.files == files
      ensures !isConverting && outputs == map[]
    {
      this.inputStr := inputStr;
      this.outputStr := outputStr;
      this.modelName := modelName;
      this.convertThreadCount := convertThreadCount;
      this.files := files;
      isConverting := false;
      outputs := map[];
    }

    /** `convertModel()`, task `i` taking `ms(i)` milliseconds. A second call finds `isConverting`
        set and does nothing; the flag is never cleared. `convertInit` logs the input directory
        before it checks it for `null`, and the output directory after; its exceptions, and the
        thread pool's refusal of a thread count below one, come after the flag is set. Otherwise
        file `i` is converted into the output file named `String.valueOf(i)`, and the tasks'
        reports are collected in list order. */
    method ConvertModel(lib: Library, ms: nat -> int) returns (r: Ending)
      modifies this
      ensures isConverting
      ensures old(isConverting) ==> r == AlreadyConverting && outputs == old(outputs)
      ensures !old(isConverting) ==>
                if FormatThrows(lib, ReadModelLine(inputStr)) then r == Threw(IllegalFormat) && outputs == old(outputs)
                else if inputStr.None? then r == Threw(IOException("inputStr is null")) && outputs == old(outputs)
                else if outputStr.None? then r == Threw(IOException("outputStr is null")) && outputs == old(outputs)
                else if FormatThrows(lib, OutputPathLine(outputStr.value)) then
                  r == Threw(IllegalFormat) && outputs == old(outputs)
                else if convertThreadCount <= 0 then r == Threw(IllegalArgument) && outputs == old(outputs)
                else
                  r == Collected(Reports(files, lib, ms, |files|), lib)
                  && outputs == old(outputs) + OutputFiles(files, lib, |files|)
    {
      if isConverting {
        // the debug line is a constant text
        return AlreadyConverting;
      }
      isConverting := true;
      // convertInit
      if FormatThrows(lib, ReadModelLine(inputStr)) {
        return Threw(IllegalFormat);
      }
      if inputStr.None? {
        return Threw(IOException("inputStr is null"));
      }
      if outputStr.None? {
        return Threw(IOException("outputStr is null"));
      }
      if FormatThrows(lib, OutputPathLine(outputStr.value)) {
        return Threw(IllegalFormat);
      }
      // Executors.newFixedThreadPool
      if convertThreadCount <= 0 {
        return Threw(IllegalArgument);
      }
      var tasks := StartTasks(lib, ms);
      r := Collect(tasks, lib, ms);
    }

    /** The loop that creates an output file `String.valueOf(i)` and a task per partition file;
        the pool runs each task to its end. */
    method StartTasks(lib: Library, ms: nat -> int) returns (tasks: seq<ConvertTask>)
      modifies this`outputs
      ensures |tasks| == |files|
      ensures forall i :: 0 <= i < |files| ==>
                TaskReport(tasks[i].finishFlag, tasks[i].isSuccess, tasks[i].errorLog) == ReportOf(files[i], lib, ms(i))
      ensures outputs == old(outputs) + OutputFiles(files, lib, |files|)
    {
      hide Convert, ReportOf, OutputOf;
      tasks := [];
      var i := 0;
      while i < |files|
        invariant 0 <= i <= |files| && |tasks| == i
        invariant forall k :: 0 <= k < i ==>
                    TaskReport(tasks[k].finishFlag, tasks[k].isSuccess, tasks[k].errorLog) == ReportOf(files[k], lib, ms(k))
        invariant outputs == old(outputs) + OutputFiles(files, lib, i)
      {
        var task := StartTask(i, lib, ms(i));
        MergeUpdate(old(outputs), OutputFiles(files, lib, i), IntToString(i), OutputOf(files[i], lib));
        tasks := tasks + [task];
        i := i + 1;
      }
    }

    /** One turn of that loop: the task for file `i`, run, and its output file. */
    method StartTask(i: nat, lib: Library, ms: int) returns (task: ConvertTask)
      requires i < |files|
      modifies this`outputs
      ensures fresh(task)
      ensures TaskReport(task.finishFlag, task.isSuccess, task.errorLog) == ReportOf(files[i], lib, ms)
      ensures outputs == old(outputs)[IntToString(i) := OutputOf(files[i], lib)]
    {
      hide Convert, FormatThrows, OpenLine, CostLine;
      task := new ConvertTask(files[i].status, files[i].path, files[i].bytes);
      task.Run(lib, ms);
      assert !FormatThrows(lib, OpenLine(files[i].path)) ==> task.out == Convert(files[i].bytes, lib).text;
      outputs := outputs[IntToString(i) := OutputFile(task.out, task.closed)];
    }

    /** The loop that waits for each task in list order and folds its report into the verdict.
        The wait `while (!finishFlag) sleep` never ends for a task that did not set the flag. */
    method Collect(tasks: seq<ConvertTask>, lib: Library, ms: nat -> int) returns (r: Ending)
      requires |tasks| == |files|
      requires forall i :: 0 <= i < |files| ==>
                 TaskReport(tasks[i].finishFlag, tasks[i].isSuccess, tasks[i].errorLog) == ReportOf(files[i], lib, ms(i))
      ensures r == Collected(Reports(files, lib, ms, |files|), lib)
    {
      hide Convert, ReportOf, FormatThrows;
      ghost var rs := Reports(files, lib, ms, |files|);
      var convertSuccess := true;
      var errorLog: Option<string> := None;
      var i := 0;
      while i < |tasks|
        invariant 0 <= i <= |tasks|
        invariant forall k :: 0 <= k < i ==> rs[k].finished
        invariant convertSuccess == AllSucceeded(rs[..i])
        invariant errorLog == LastFailureLog(rs[..i])
      {
        if !tasks[i].finishFlag {
          return WaitsForever(i);
        }
        assert rs[..i + 1][..i] == rs[..i];
        if !tasks[i].IsSuccess() {
          convertSuccess := false;
          errorLog := tasks[i].GetErrorLog();
        }
        i := i + 1;
      }
      assert rs[..i] == rs;
      // the cost line holds only digits; the failure line is formatted after the pool is shut down
      if !convertSuccess && FormatThrows(lib, FailedLine(errorLog)) {
        return Threw(IllegalFormat);
      }
      return Converted(convertSuccess, errorLog);
    }
  }
}
