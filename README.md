# Angel model-partition converter and byte-buffer input stream, in Dafny

This project models two sequential parts of the Angel parameter server.

**`ModelParse`** turns a saved model into text. A model directory holds one binary file per
matrix partition. The file starts with a header of big-endian ints: the matrix id, the partition
size, the start row, the start column, the end row and the end column. Then come the row type tag,
written by `writeUTF`, and the row count. After that come the rows, in the layout the row type
names:
- `T_DOUBLE_SPARSE`: clock first, then the row index.
- `T_INT_SPARSE`: the row index first, then the clock.
- `T_DOUBLE_DENSE`, `T_FLOAT_DENSE`, `T_INT_DENSE`: one value per column.
- `T_INT_ARBITRARY`: each row carries its own tag, which picks a dense or a sparse body.

A `ConvertTask` decodes one file through a `DataInputStream` and writes the text dump. It records
success, an error log and a finish flag. `convertModel` runs one task per file, writes file `i`'s
dump to an output file named `String.valueOf(i)`, and waits for the tasks in list order, folding
their reports into a verdict. An `isConverting` flag guards against re-entry.

Several log calls pass text built from the file, its path or its descriptor to `String.format`
as the format itself, with no arguments. A `%` in such a text can make the call throw an unchecked
`IllegalFormatException`. The model keeps every such call:
- the open line of a task;
- the partition range line, once it has been written;
- the error line of a `T_INT_ARBITRARY` row whose tag is neither dense nor sparse;
- the cost line in the task's `finally` block;
- the two lines `convertInit` logs;
- the failure line `convertModel` logs at the end.

Which texts the formatter rejects is a parameter, the `rejects` field of `Library`.
`FormatThrows(lib, s)` holds when `s` contains a `%` and the formatter rejects it, so a text
without `%` never throws. The lines that splice in only numbers or constants cannot throw, and are
not modelled as calls.

Layout of the project:
- `java_types.dfy`: Java bytes and 32-bit int wrap-around. Big-endian reading and writing. The
  decimal text of an int, with its parse-back partner.
- `data_input.dfy`: the `DataInputStream` cursor, with `readInt`, `readFully` and `readUTF`.
- `partition_format.dfy`: the decoder as a pure specification. `Convert` maps the bytes of a file
  to the text written and the outcome: completed, `IOException`, or an unchecked exception.
- `model_parse.dfy`: the classes `ConvertTask` and `ModelParse`. Their methods are proved against
  `Convert`, `ReportOf` and the report fold `Collected`.
- `partition_encoding.dfy`: the producer's side, as an independent reference definition.
  - A well-formed `Partition` value.
  - `Encode`: the bytes a writer lays it out as.
  - `Render`: the dump it should produce.
  - `ConvertEncode`: decoding the encoding of any well-formed partition completes, and yields
    exactly its rendering.
- `byte_buffer_input_stream.dfy`: the stream as a class. The bytes it still holds,
  `Contents()`, are the buffers' remainders concatenated.
- `results.dfy` and `sequences.dfy`: `Option` and `Result`, and three sequence lemmas.

Where the code and its informal description differ, the model follows the code:
- A row type that no `case` of the `switch` names reads no rows. It still completes
  successfully, unless its range line fails to log.
- A negative `new byte[...]` length is an unchecked exception, and so is a row buffer that is too
  short for `rowLen` values. Both can come from int overflow of `endCol - startCol` or of the
  buffer size. `catch (IOException)` does not catch them: `isSuccess` keeps its value, `errorLog`
  stays `null`, and `finally` still sets `finishFlag`.
- The exceptions of `convertInit` (a path missing, or a log line that fails to format) and of the
  thread pool (a thread count below one) are raised after `isConverting` has been set. The guard
  therefore stays on.
- A task whose open line or cost line fails to format never sets `finishFlag` (on the paths where
  `try` had not set it already). `convertModel` then polls that flag forever. The model states
  this as the verdict `WaitsForever(i)`, for the first such task `i`.

## Model

| member | source | states |
|---|---|---|
| ModelParse.ConvertTask.Run | angel-ps/mllib/src/main/java/com/tencent/angel/ml/utils/ModelParse.java:86-286 | if the open line fails to format, nothing changes; otherwise the output gains exactly the dump `Convert(input)`, and the stream is closed iff the conversion completed; `isSuccess` becomes true on completion, false on an `IOException`, and keeps its value on an unchecked exception; on an `IOException` `errorLog` becomes `"convert partFile <status> error"`, otherwise it is unchanged; `finishFlag` ends set iff it was set, or the conversion completed, or the cost line formats |
| ModelParse.ConvertTask.Decode | angel-ps/mllib/src/main/java/com/tencent/angel/ml/utils/ModelParse.java:93-96 | reads the matrix id and the partition size, writes their lines, then converts the rest; the text and outcome are exactly `Convert` of the file's bytes |
| ModelParse.ConvertTask.DecodePartition | angel-ps/mllib/src/main/java/com/tencent/angel/ml/utils/ModelParse.java:99-111 | reads startRow, startCol, endRow, endCol and rowType in that order and writes the range line; stops with an unchecked exception when the range line fails to format; otherwise reads rowNum and writes its line; an `IOException` at the first field past the end of the file; the text and outcome are exactly `PartitionAt` |
| ModelParse.ConvertTask.DecodeRows | angel-ps/mllib/src/main/java/com/tencent/angel/ml/utils/ModelParse.java:117-271 | dispatch on the row type: the dense cases allocate the row buffer first (a negative size is an unchecked exception even when there are no rows); an unknown tag reads and writes nothing and completes; the text and outcome are exactly `RowsOf` |
| ModelParse.ConvertTask.SparseRows | angel-ps/mllib/src/main/java/com/tencent/angel/ml/utils/ModelParse.java:118-136 | the loop over `rowNum` sparse rows writes exactly the rows' texts in order and stops at the first row that fails (also the `T_INT_SPARSE` loop at lines 184-202) |
| ModelParse.ConvertTask.DenseRows | angel-ps/mllib/src/main/java/com/tencent/angel/ml/utils/ModelParse.java:138-159 | the loop over `rowNum` dense rows writes exactly the rows' texts in order and stops at the first failing row (also `T_FLOAT_DENSE`, 161-182, and `T_INT_DENSE`, 204-225) |
| ModelParse.ConvertTask.ArbitraryRows | angel-ps/mllib/src/main/java/com/tencent/angel/ml/utils/ModelParse.java:227-270 | the loop over `rowNum` `T_INT_ARBITRARY` rows writes exactly the rows' texts in order and stops at the first row that fails, including one whose error line fails to format |
| ModelParse.ConvertTask.ConvertSparseRow | angel-ps/mllib/src/main/java/com/tencent/angel/ml/utils/ModelParse.java:122-133 | one sparse row: `clock` before `rowIndex` for `T_DOUBLE_SPARSE` and the other way round for `T_INT_SPARSE`, then `rowLen`, the line `rowId:<r> clock:<c> size:<rowLen>` and the body |
| ModelParse.ConvertTask.ConvertDenseRow | angel-ps/mllib/src/main/java/com/tencent/angel/ml/utils/ModelParse.java:143-156 | one dense row: `rowIndex` then `clock`, the line `rowId:<r> clock:<c> len:<rowLen>`, then the body |
| ModelParse.ConvertTask.ReadDenseBody | angel-ps/mllib/src/main/java/com/tencent/angel/ml/utils/ModelParse.java:146-156 | `readFully` of the whole row buffer (an `IOException` when the file is shorter), then the entries and the closing newline |
| ModelParse.ConvertTask.WriteDenseEntries | angel-ps/mllib/src/main/java/com/tencent/angel/ml/utils/ModelParse.java:147-155 | writes `rowLen` entries `<startCol + k>:<value k>` in ascending `k`, each followed by the soft-break test twice; an underflowing buffer is an unchecked exception |
| ModelParse.ConvertTask.ReadSparseBody | angel-ps/mllib/src/main/java/com/tencent/angel/ml/utils/ModelParse.java:126-133 | the `rowLen` key/value pairs in read order, then the closing newline |
| ModelParse.ConvertTask.ReadSparseEntries | angel-ps/mllib/src/main/java/com/tencent/angel/ml/utils/ModelParse.java:126-132 | the loop over `k < rowLen`: each pair is printed with its key as read, followed by one soft-break test; it stops with an `IOException` at the first pair past the end of the file |
| ModelParse.ConvertTask.ReadSparseEntry | angel-ps/mllib/src/main/java/com/tencent/angel/ml/utils/ModelParse.java:127-131 | one pair succeeds iff `4 + width` bytes remain (12 for a double, 8 for an int); it then advances by exactly that much and writes `key:value ` and the soft break; otherwise it writes nothing |
| ModelParse.ConvertTask.ReadValue | angel-ps/mllib/src/main/java/com/tencent/angel/ml/utils/ModelParse.java:128 | `readDouble` or `readInt`: the value's text when its word is in the file, otherwise EOF at the end of the file |
| ModelParse.ConvertTask.ConvertArbitraryRow | angel-ps/mllib/src/main/java/com/tencent/angel/ml/utils/ModelParse.java:234-236 | a `T_INT_ARBITRARY` row reads `rowIndex`, `clock` and its own tag, then the body that tag selects |
| ModelParse.ConvertTask.ConvertArbitraryBody | angel-ps/mllib/src/main/java/com/tencent/angel/ml/utils/ModelParse.java:237-267 | inner `T_INT_DENSE`: the head with ` type:T_INT_DENSE` and a dense int body; inner `T_INT_SPARSE`: `nnz` before `rowLen`, the head `size:<rowLen> type:T_INT_SPARSE nnz:<nnz>` and a sparse int body; any other tag reads and writes nothing, and is an unchecked exception exactly when its error line fails to format |
| ModelParse.ConvertTask.WriteSoftBreak | angel-ps/mllib/src/main/java/com/tencent/angel/ml/utils/ModelParse.java:130-131 | writes `"\n"` exactly when `k != 0 && k % 10 == 0 && k != rowLen - 1` |
| ModelParse.ConvertTask.WriteDenseEntry | angel-ps/mllib/src/main/java/com/tencent/angel/ml/utils/ModelParse.java:150-154 | a dense entry is its item followed by the soft-break text twice |
| ModelParse.ConvertTask.WriteSparseEntry | angel-ps/mllib/src/main/java/com/tencent/angel/ml/utils/ModelParse.java:129-131 | a sparse entry is its item followed by the soft-break text once |
| ModelParse.ModelParse.ConvertModel | angel-ps/mllib/src/main/java/com/tencent/angel/ml/utils/ModelParse.java:312-387 | with `isConverting` already set: returns at once, outputs unchanged; otherwise the flag is set and stays set, and, in the source's order, a read-model line that fails to format, a missing input path, a missing output path, an output-path line that fails to format and a thread count below one each throw with no output written; otherwise every file `i` gets the output `String.valueOf(i)` with its task's output, and the ending is `Collected` of the tasks' reports |
| ModelParse.ModelParse.StartTasks | angel-ps/mllib/src/main/java/com/tencent/angel/ml/utils/ModelParse.java:357-365 | one task per file, in order, each ending with the report `ReportOf` its own file determines; the outputs gain exactly the files `OutputFiles` |
| ModelParse.ModelParse.StartTask | angel-ps/mllib/src/main/java/com/tencent/angel/ml/utils/ModelParse.java:358-364 | the fresh task for file `i` is run, its report is `ReportOf(files[i])`, and its output is stored under the name `String.valueOf(i)` |
| ModelParse.ModelParse.Collect | angel-ps/mllib/src/main/java/com/tencent/angel/ml/utils/ModelParse.java:366-386 | waiting for the tasks in list order and folding `isSuccess()` and `getErrorLog()` ends exactly as `Collected` of their reports: forever at the first unfinished task, or with `AllSucceeded` and `LastFailureLog`, or by the failure line failing to format |
| ModelParse.ReportOf | angel-ps/mllib/src/main/java/com/tencent/angel/ml/utils/ModelParse.java:87-286 | a task succeeds iff its open line formats and its conversion completes; a successful task is finished and has no log; it has a log iff its open line formats and its conversion ends in an `IOException`, and that log is `"convert partFile <status> error"` |
| ModelParse.PlainNamesFinish | angel-ps/mllib/src/main/java/com/tencent/angel/ml/utils/ModelParse.java:282-284 | a file with no `%` in its path or its descriptor always gets its `finishFlag` set: neither its open line (line 89) nor its cost line can fail to format |
| ModelParse.PercentPathNeverFinishes | angel-ps/mllib/src/main/java/com/tencent/angel/ml/utils/ModelParse.java:89 | a path such as `/model/w/%q`, with a formatter that rejects it, leaves `finishFlag` unset |
| ModelParse.Collected | angel-ps/mllib/src/main/java/com/tencent/angel/ml/utils/ModelParse.java:366-386 | waits forever iff some task never finishes, and then on the first such task; otherwise the verdict is `AllSucceeded` with `LastFailureLog`, and it throws only when some task failed and the failure line does not format |
| ModelParse.FirstUnfinished | angel-ps/mllib/src/main/java/com/tencent/angel/ml/utils/ModelParse.java:368-376 | the task the poll loop is stuck at: every earlier task is finished, and this one is not |
| ModelParse.PlainNamesReturn | angel-ps/mllib/src/main/java/com/tencent/angel/ml/utils/ModelParse.java:366-386 | when no path or descriptor contains `%`, `convertModel` returns the verdict (every task succeeded, the last failing task's log) |
| ModelParse.AllSucceededMeansEvery | angel-ps/mllib/src/main/java/com/tencent/angel/ml/utils/ModelParse.java:366-381 | overall success holds iff every task succeeded (both directions) |
| ModelParse.LastFailureLogIsLast | angel-ps/mllib/src/main/java/com/tencent/angel/ml/utils/ModelParse.java:377-380 | the reported log is the log of the last failing task in list order |
| ModelParse.LastFailureLogFrom | angel-ps/mllib/src/main/java/com/tencent/angel/ml/utils/ModelParse.java:377-380 | a reported log is always the log of some failing task |
| ModelParse.NoFailureNoLog | angel-ps/mllib/src/main/java/com/tencent/angel/ml/utils/ModelParse.java:367-380 | when no task fails the reported log stays `null` |
| ModelParse.OutputNamesOnly | angel-ps/mllib/src/main/java/com/tencent/angel/ml/utils/ModelParse.java:357-361 | the only output names are `String.valueOf(k)` for `k` below the file count |
| ModelParse.LaterNameIsFresh | angel-ps/mllib/src/main/java/com/tencent/angel/ml/utils/ModelParse.java:361 | a later file's output name differs from every earlier one, so no output is written twice |
| ModelParse.OutputFilesContents | angel-ps/mllib/src/main/java/com/tencent/angel/ml/utils/ModelParse.java:357-364 | the new outputs are exactly the names `0..n-1`, and file `k`'s output is exactly `OutputOf` partition file `k`: the text its task wrote, and whether the task closed it |
| ModelParse.ClosedIffSucceeded | angel-ps/mllib/src/main/java/com/tencent/angel/ml/utils/ModelParse.java:273-280 | a task closes its output stream exactly when it reports success |
| PartitionFormat.Convert | angel-ps/mllib/src/main/java/com/tencent/angel/ml/utils/ModelParse.java:93-96 | a file shorter than the two leading ints is an `IOException`; only a file whose whole header is present can complete |
| PartitionFormat.PartitionAt | angel-ps/mllib/src/main/java/com/tencent/angel/ml/utils/ModelParse.java:99-117 | from offset 8, only a file whose whole header is present can complete |
| PartitionFormat.RowsOf | angel-ps/mllib/src/main/java/com/tencent/angel/ml/utils/ModelParse.java:117-271 | a dense partition crashes only when its row buffer, sized in Java int arithmetic, is not `rowLen` values wide; a sparse partition never crashes; an unknown row type reads nothing, writes nothing and completes |
| PartitionFormat.DenseFrom | angel-ps/mllib/src/main/java/com/tencent/angel/ml/utils/ModelParse.java:147-155 | the entry loop over a row buffer never fails to read; it crashes iff the buffer holds fewer values than the entries left, and otherwise ends exactly after those values |
| PartitionFormat.SparseFrom | angel-ps/mllib/src/main/java/com/tencent/angel/ml/utils/ModelParse.java:126-132 | the pair loop never crashes; it fails with an `IOException` iff the file holds fewer than the `4 + width`-byte pairs left, and otherwise ends exactly after them |
| PartitionFormat.DenseBody | angel-ps/mllib/src/main/java/com/tencent/angel/ml/utils/ModelParse.java:146-156 | an `IOException` iff the file is shorter than the row buffer; an unchecked exception iff the buffer is there but too small for `rowLen` values; otherwise it ends right after the buffer, on a newline |
| PartitionFormat.SparseBody | angel-ps/mllib/src/main/java/com/tencent/angel/ml/utils/ModelParse.java:126-133 | never crashes; an `IOException` iff the pairs are not all in the file; otherwise it ends right after them, on a newline |
| PartitionFormat.DenseRowAt | angel-ps/mllib/src/main/java/com/tencent/angel/ml/utils/ModelParse.java:143-156 | a dense row takes exactly `8 + bytes`: an `IOException` iff fewer remain, an unchecked exception iff the buffer is too small for the row, and otherwise it ends exactly that far on, on a newline |
| PartitionFormat.SparseRowAt | angel-ps/mllib/src/main/java/com/tencent/angel/ml/utils/ModelParse.java:122-133 | a sparse row never crashes; it needs its 12 header bytes; a completed row ends exactly after those 12 bytes and `rowLen` pairs of `4 + width` bytes (none when `rowLen` is not positive), on a newline |
| PartitionFormat.SparseFieldOrder | angel-ps/mllib/src/main/java/com/tencent/angel/ml/utils/ModelParse.java:122-125 | against lines 188-191: on the same bytes, `T_INT_SPARSE` and `T_DOUBLE_SPARSE` rows print the first two ints swapped as row index and clock, with the same body, end and outcome |
| PartitionFormat.ArbitraryRowAt | angel-ps/mllib/src/main/java/com/tencent/angel/ml/utils/ModelParse.java:234-236 | a `T_INT_ARBITRARY` row needs its 10 leading bytes, and a completed one ends no earlier than after its tag |
| PartitionFormat.ArbitraryBodyAt | angel-ps/mllib/src/main/java/com/tencent/angel/ml/utils/ModelParse.java:237-267 | a tag other than `T_INT_DENSE` and `T_INT_SPARSE` reads and writes nothing, and crashes iff its error line fails to format; a sparse body never crashes; a completed dense or sparse body ends on a newline |
| PartitionFormat.DenseRowsSpan | angel-ps/mllib/src/main/java/com/tencent/angel/ml/utils/ModelParse.java:142-157 | the dense row loop takes `8 + bytes` per row: completed, it ends exactly `rowNum` rows on; an `IOException` means the file is shorter than that; a crash means the buffer is too small for a row |
| PartitionFormat.SparseRowsFrom | angel-ps/mllib/src/main/java/com/tencent/angel/ml/utils/ModelParse.java:121-134 | the sparse row loop never crashes, and a completed loop consumed at least 12 bytes per row |
| PartitionFormat.ArbitraryRowsFrom | angel-ps/mllib/src/main/java/com/tencent/angel/ml/utils/ModelParse.java:233-268 | a completed `T_INT_ARBITRARY` row loop consumed at least 10 bytes per row |
| PartitionFormat.HeaderLines | angel-ps/mllib/src/main/java/com/tencent/angel/ml/utils/ModelParse.java:93-111 | the output starts with exactly `matrixId:`, `partSize:` and the range line; when the range line fails to format it stops there with an unchecked exception; otherwise, with the count present, `rowNum:` follows |
| PartitionFormat.RangeLogThrows | angel-ps/mllib/src/main/java/com/tencent/angel/ml/utils/ModelParse.java:106-108 | a range line that fails to format: the dump is the first three lines, and the task crashes |
| PartitionFormat.PlainRangeInfo | angel-ps/mllib/src/main/java/com/tencent/angel/ml/utils/ModelParse.java:104-108 | a row type without `%` gives a range line that always formats |
| PartitionFormat.UnknownRowType | angel-ps/mllib/src/main/java/com/tencent/angel/ml/utils/ModelParse.java:106-117 | a row type no case names (the `switch` ends at line 271 with no default): the output is just the four header lines and the task completes, unless the range line fails to format, when it is the first three lines and the task crashes |
| PartitionEncoding.ConvertEncode | angel-ps/mllib/src/main/java/com/tencent/angel/ml/utils/ModelParse.java:93-275 | decoding the bytes of any well-formed partition (its tags free of `%`) completes and writes exactly its rendering: the header lines, then every row with its entries |
| PartitionEncoding.ConvertFromHeader | angel-ps/mllib/src/main/java/com/tencent/angel/ml/utils/ModelParse.java:93-271 | any file whose header fields and rows hold a well-formed partition converts to that partition's rendering |
| PartitionEncoding.HeaderEncoded | angel-ps/mllib/src/main/java/com/tencent/angel/ml/utils/ModelParse.java:93-109 | the decoder finds each header field, in the order it reads them, at the offset where a writer put it |
| PartitionEncoding.RowsOfEncoded | angel-ps/mllib/src/main/java/com/tencent/angel/ml/utils/ModelParse.java:117-271 | the rows of each layout, written right after the header, decode to exactly their text |
| PartitionEncoding.DenseRowsEncoded | angel-ps/mllib/src/main/java/com/tencent/angel/ml/utils/ModelParse.java:142-157 | dense rows decode to their texts and end exactly after their bytes |
| PartitionEncoding.DenseRowEncoded | angel-ps/mllib/src/main/java/com/tencent/angel/ml/utils/ModelParse.java:143-156 | one dense row prints exactly `endCol - startCol` entries with columns `startCol, startCol+1, …` and consumes exactly 8 bytes plus the width times `endCol - startCol` |
| PartitionEncoding.DenseFromEncoded | angel-ps/mllib/src/main/java/com/tencent/angel/ml/utils/ModelParse.java:148-155 | the entry loop over a buffer of stored words prints them in order with ascending columns |
| PartitionEncoding.SparseRowsEncoded | angel-ps/mllib/src/main/java/com/tencent/angel/ml/utils/ModelParse.java:121-134 | sparse rows decode to their texts and end exactly after their bytes |
| PartitionEncoding.SparseRowEncoded | angel-ps/mllib/src/main/java/com/tencent/angel/ml/utils/ModelParse.java:122-133 | one sparse row (written with the field order its tag reads) prints exactly `rowLen` entries with the keys as written, and consumes 12 bytes plus `4 + width` per pair |
| PartitionEncoding.SparseFromEncoded | angel-ps/mllib/src/main/java/com/tencent/angel/ml/utils/ModelParse.java:126-132 | the pair loop prints each key and value in the order written |
| PartitionEncoding.MixedRowsEncoded | angel-ps/mllib/src/main/java/com/tencent/angel/ml/utils/ModelParse.java:233-268 | `T_INT_ARBITRARY` rows decode to their texts and end exactly after their bytes |
| PartitionEncoding.MixedRowEncoded | angel-ps/mllib/src/main/java/com/tencent/angel/ml/utils/ModelParse.java:234-267 | a dense, a sparse or another inner tag (one without `%`): the row decodes to its own text (none for another tag) and the next row starts right after its bytes |
| PartitionEncoding.MixedSparseBodyDecoded | angel-ps/mllib/src/main/java/com/tencent/angel/ml/utils/ModelParse.java:252-264 | an inner sparse body prints its head with `nnz` and its pairs in order |
| ByteBuffers.ByteBufferInputStream.GetBuffer | angel-ps/core/src/main/java/com/tencent/angel/utils/ByteBufferInputStream.java:93-101 | `current` moves to the first buffer at or after it with bytes left, skipping only exhausted ones; EOF exactly when no buffer is left; the stream's bytes are unchanged |
| ByteBuffers.ByteBufferInputStream.Read | angel-ps/core/src/main/java/com/tencent/angel/utils/ByteBufferInputStream.java:44-46 | EOF iff the stream is empty; otherwise a value in `0..255` that is the stream's first byte, only that buffer advances by one, and the stream loses exactly that byte |
| ByteBuffers.ByteBufferInputStream.ReadInto | angel-ps/core/src/main/java/com/tencent/angel/utils/ByteBufferInputStream.java:53-65 | `len == 0`: returns 0 and changes nothing, even at end of stream; otherwise `min(len, remaining)` of the first non-empty buffer, at least 1, copied into `b[off..]` with the rest of `b` unchanged, only that buffer advanced, and the stream loses exactly those bytes; EOF when empty; bad bounds fail |
| ByteBuffers.ByteBufferInputStream.ReadBuffer | angel-ps/core/src/main/java/com/tencent/angel/utils/ByteBufferInputStream.java:72-86 | `length == 0`: an empty buffer, nothing changed; otherwise succeeds iff `length` bytes remain, returning exactly the next `length` bytes of the stream and dropping them from it; a buffer of exactly `length` remaining bytes is handed out whole and `current` steps past it; EOF when too few remain; a negative length fails the allocation after `current` has moved to the first non-empty buffer, with no byte consumed; on every path the buffer list and every buffer's bytes stay as they were |
| ByteBuffers.ByteBufferInputStream.Fill | angel-ps/core/src/main/java/com/tencent/angel/utils/ByteBufferInputStream.java:81-85 | the copy loop `while (start < length)` ends, and fills the new array with exactly the next `length` bytes iff that many remain, leaving the stream empty otherwise; the buffer list and every buffer's bytes stay as they were |
| ByteBuffers.CopyInto | angel-ps/core/src/main/java/com/tencent/angel/utils/ByteBufferInputStream.java:59-62 | `ByteBuffer.get(b, off, n)`: `b[off..off+n]` gets the bytes in order, and the rest of `b` is unchanged |
| ByteBuffers.PendingAfterGet | angel-ps/core/src/main/java/com/tencent/angel/utils/ByteBufferInputStream.java:59-63 | conservation: taking `n` bytes from the first non-empty buffer leaves the stream with its first `n` bytes dropped |
| ByteBuffers.PendingAfterSkip | angel-ps/core/src/main/java/com/tencent/angel/utils/ByteBufferInputStream.java:76-78 | conservation on the zero-copy path: stepping past the first non-empty buffer drops exactly its remainder from the front |
| ByteBuffers.PendingSkipsEmpty | angel-ps/core/src/main/java/com/tencent/angel/utils/ByteBufferInputStream.java:94-98 | exhausted buffers contribute no bytes, so skipping them does not change what the stream holds |
| ByteBuffers.PendingEmpty | angel-ps/core/src/main/java/com/tencent/angel/utils/ByteBufferInputStream.java:94-100 | the stream is empty iff no buffer at or after `current` has bytes left (both directions) |
| DataInput.DataInputStream.ReadInt | angel-ps/mllib/src/main/java/com/tencent/angel/ml/utils/ModelParse.java:93 | `readInt` returns the big-endian two's-complement int at the cursor and advances 4, or fails at the end of the file |
| DataInput.DataInputStream.ReadUTF | angel-ps/mllib/src/main/java/com/tencent/angel/ml/utils/ModelParse.java:103 | `readUTF` reads an unsigned 16-bit length and exactly that many bytes of text, or fails at the end of the file |
| DataInput.DataInputStream.ReadFully | angel-ps/mllib/src/main/java/com/tencent/angel/ml/utils/ModelParse.java:146 | `readFully` returns exactly the next `n` bytes and advances by `n`, or fails at the end of the file |
| JavaTypes.Int32RoundTrip | angel-ps/mllib/src/main/java/com/tencent/angel/ml/utils/ModelParse.java:93 | an int written big-endian reads back as itself |
| JavaTypes.IntRoundTrip | angel-ps/mllib/src/main/java/com/tencent/angel/ml/utils/ModelParse.java:94 | the decimal text of an int, as string concatenation writes it, determines the int |
| JavaTypes.IntToStringInjective | angel-ps/mllib/src/main/java/com/tencent/angel/ml/utils/ModelParse.java:361 | distinct ints have distinct texts |
| JavaTypes.PlainInt | angel-ps/mllib/src/main/java/com/tencent/angel/ml/utils/ModelParse.java:282-283 | the decimal text of an int has no `%`, so a line that splices in only numbers formats (also lines 110 and 382) |
| JavaTypes.Wrap32 | angel-ps/mllib/src/main/java/com/tencent/angel/ml/utils/ModelParse.java:139-140 | Java int arithmetic: the result is an int congruent to the exact value modulo 2^32, and equal to it when that fits |

`isSuccess()` and `getErrorLog()` (ModelParse.java:293-304) are
`ModelParse.ConvertTask.IsSuccess` and `ModelParse.ConvertTask.GetErrorLog`, two field reads.
What they report is stated by `Run` and used by `Collect`.

## Left out

- Hadoop file-system calls (`infs.open`, `listStatus`, `mkdirs`, `outfs.create`, `Configuration`) are
  foreign I/O. A partition file is its bytes and its listed path and descriptor. An open, create or
  close that fails is not modelled.
- OutputFilesContents: an output file is what its task wrote to the stream, with a flag saying
  whether the task closed it. What a file system keeps of a stream that was never closed (lines
  273-274 are skipped on every failing path) is not modelled.
- `new Path(outputStr)` and its `toString()` normalisation are not modelled. The output-path log
  line is formed from `outputStr` as given.
- `modelName` is stored and never read by the modelled code.
- The thread pool, `ThreadFactoryBuilder` and `shutdownNow` are concurrency plumbing. Each task runs
  to its end before the driver waits for the tasks in list order. The `Thread.sleep` polling loop
  is the `WaitsForever` ending when a task never sets its flag. Its `InterruptedException` is not
  modelled.
- Elapsed times (`Time.monotonicNow`) are the `ms` parameters. The log calls themselves leave no
  trace. Only whether their text formats is modelled, and the verdict's error log, which
  `convertModel` only logs, is returned instead.
- `String.format` is not modelled beyond the fact that a text without `%` formats. Which texts with
  `%` it rejects is the `rejects` parameter of `Library`.
- `Double.toString` and `Float.toString` of the stored values are floating-point work. The
  `ofDouble` and `ofFloat` fields of `Library` are uninterpreted conversions of the 8 or 4
  stored bytes.
- ReadUTF: modified UTF-8 decoding beyond the 2-byte length prefix is not modelled. The bytes are
  read one character per byte. So a malformed sequence such as a lone `0x80`, on which Java throws
  `UTFDataFormatException` (an `IOException`), reads as a character here. An overlong pair such as
  `0xC1 0x94`, which Java decodes as `T`, gives a different tag here. The seven tags are ASCII, so
  tags written in ASCII compare the same as in Java. `Convert` inherits both differences.
- ConvertEncode: covers only partitions whose row type and inner tags have no `%`. On a tag with
  `%` the conversion may crash, as `RangeLogThrows` and `ArbitraryBodyAt` state. The reference
  writer puts each tag character in one byte. Java's `writeUTF` does so only for the characters
  `1..127`, so for other tags `Encode` is not the bytes Java writes.
- `ByteBufferInputStream.ReadBuffer`: on the zero-copy path the result is modelled as the returned
  buffer's remaining bytes. That the caller then shares the stream's own `ByteBuffer` object
  (aliasing) is not modelled.
- Memory exhaustion of the JVM on a huge `new byte[...]` is not modelled. Only a negative size
  raises an exception.
- `CorrectDirection.java` is not part of this model. It holds a floating-point sign test and empty
  stubs.
