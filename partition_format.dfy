/**
 * The text dump of one matrix partition file, as `ModelParse.ConvertTask.run` produces it, stated
 * as a function of the file's bytes. The file is a header (six ints, the row-type tag written by
 * `writeUTF`, the row count) followed by that many rows laid out according to the tag. Reading
 * stops at the first short read (an `IOException` in the source), or at an unchecked runtime
 * exception; the text written up to that point stays in the output.
 */
module PartitionFormat {
  import opened JavaTypes
  import opened Sequences

  /** How a conversion ends: normally, by an `IOException` (caught by the task), or by an unchecked
      exception (`NegativeArraySizeException`, `BufferUnderflowException`) that the task does not catch. */
  datatype Outcome = Completed | IoFailure | Crashed

  /** The result of decoding one part of the file from some position: the text it writes, where the
      next part starts (meaningful only when Completed), and how it ended. */
  datatype Step = Step(text: string, next: nat, outcome: Outcome)

  /** The text written for a whole file, and how its conversion ended. */
  datatype Conversion = Conversion(text: string, outcome: Outcome)

  function Prefix(t: string, s: Step): Step {
    s.(text := t + s.text)
  }

  lemma PrefixEmpty(s: Step)
    ensures Prefix("", s) == s
  {
    assert "" + s.text == s.text;
  }

  lemma PrefixPrefix(a: string, b: string, s: Step)
    ensures Prefix(a, Prefix(b, s)) == Prefix(a + b, s)
  {
    assert a + (b + s.text) == (a + b) + s.text;
  }

  lemma PrefixOfEmpty(t: string, next: nat, o: Outcome)
    ensures Prefix(t, Step("", next, o)) == Step(t, next, o)
  {
    assert t + "" == t;
  }

  datatype ValueKind = IntValue | FloatValue | DoubleValue

  /** Bytes per value: `readDouble` reads 8, `readInt` and floats 4. */
  function Width(kind: ValueKind): nat {
    if kind == DoubleValue then 8 else 4
  }

  /** What the conversion takes from the Java library without modelling it: how `Double.toString`
      and `Float.toString` print a value given its 8 or 4 big-endian bytes, and which texts with a
      `%` the `Formatter` rejects, which depends on what follows each `%`. */
  datatype Library = Library(ofDouble: seq<byte> -> string, ofFloat: seq<byte> -> string,
                             rejects: string -> bool)

  /** `String.format(s)` with no arguments throws an `IllegalFormatException`. A text without `%`
      has no format specifier and never throws. */
  predicate FormatThrows(lib: Library, s: string) {
    '%' in s && lib.rejects(s)
  }

  /** The text of the value stored at `pos`: `readInt` or `IntBuffer.get` and `Integer.toString`
      for an int, the conversion parameters for a float or a double. */
  function ValueAt(lib: Library, kind: ValueKind, data: seq<byte>, pos: nat): string
    requires pos + Width(kind) <= |data|
  {
    match kind
    case IntValue => IntToString(Int32At(data, pos))
    case FloatValue => lib.ofFloat(data[pos..pos + 4])
    case DoubleValue => lib.ofDouble(data[pos..pos + 8])
  }

  /** The cosmetic line break after entry `k` of a row of `rowLen` entries. */
  predicate SoftBreak(k: int, rowLen: int) {
    k != 0 && k % 10 == 0 && k != rowLen - 1
  }

  /** The text the soft-break test adds: a newline when it passes, nothing otherwise. */
  function SoftBreakText(k: int, rowLen: int): string {
    if SoftBreak(k, rowLen) then "\n" else ""
  }

  /** One printed entry: the index or key, a colon, the value's text, and a trailing space. */
  function Item(index: int, value: string): string {
    IntToString(index) + ":" + value + " "
  }

  /** A sparse entry: the item and one soft-break test. */
  function SparseEntryText(key: int, value: string, k: int, rowLen: int): string {
    Item(key, value) + SoftBreakText(k, rowLen)
  }

  /** A dense entry: the loop body repeats the soft-break test, so a break is written twice. */
  function DenseEntryText(index: int, value: string, k: int, rowLen: int): string {
    Item(index, value) + SoftBreakText(k, rowLen) + SoftBreakText(k, rowLen)
  }

  function RowHead(rowIndex: int, clock: int): string {
    "rowId:" + IntToString(rowIndex) + " clock:" + IntToString(clock)
  }

  /** The header lines written before any row is read. */
  function MatrixIdLine(matrixId: int): string {
    "matrixId:" + IntToString(matrixId) + "\n"
  }

  function PartSizeLine(partSize: int): string {
    "partSize:" + IntToString(partSize) + "\n"
  }

  /** The row type and the partition range, which are both written out and logged. */
  function RangeInfo(rowType: string, startRow: int, startCol: int, endRow: int, endCol: int): string {
    "rowType " + rowType + ", partition range is [" + IntToString(startRow) + ", " + IntToString(startCol)
    + "] to (" + IntToString(endRow) + ", " + IntToString(endCol) + ")"
  }

  function RangeLine(rowType: string, startRow: int, startCol: int, endRow: int, endCol: int): string {
    RangeInfo(rowType, startRow, startCol, endRow, endCol) + "\n"
  }

  /** The error logged for a `T_INT_ARBITRARY` row whose own tag is neither dense nor sparse. */
  function TypeError(inner: string): string {
    inner + " type error,need T_INT_ARBITRARY"
  }

  function RowNumLine(rowNum: int): string {
    "rowNum:" + IntToString(rowNum) + "\n"
  }

  /** The row layouts: the seven cases of the `switch (rowType)`; any other tag reads no rows. */
  datatype Layout =
    | Dense(kind: ValueKind)
    | Sparse(kind: ValueKind, clockFirst: bool)
    | Arbitrary
    | Unrecognised

  const T_DOUBLE_SPARSE: string := "T_DOUBLE_SPARSE"
  const T_DOUBLE_DENSE: string := "T_DOUBLE_DENSE"
  const T_FLOAT_DENSE: string := "T_FLOAT_DENSE"
  const T_INT_SPARSE: string := "T_INT_SPARSE"
  const T_INT_DENSE: string := "T_INT_DENSE"
  const T_INT_ARBITRARY: string := "T_INT_ARBITRARY"

  function LayoutOf(rowType: string): Layout {
    if rowType == T_DOUBLE_SPARSE then Sparse(DoubleValue, true)
    else if rowType == T_DOUBLE_DENSE then Dense(DoubleValue)
    else if rowType == T_FLOAT_DENSE then Dense(FloatValue)
    else if rowType == T_INT_SPARSE then Sparse(IntValue, false)
    else if rowType == T_INT_DENSE then Dense(IntValue)
    else if rowType == T_INT_ARBITRARY then Arbitrary
    else Unrecognised
  }

  /** The column range of the partition, as read from the header. */
  datatype Frame = Frame(startCol: int, endCol: int)

  /** `rowLen = endCol - startCol` of a dense row, in Java int arithmetic. */
  function RowWidth(f: Frame): int {
    Wrap32(f.endCol - f.startCol)
  }

  /** The length of `new byte[w * (endCol - startCol)]`, the buffer one dense row is read into. */
  function BufferBytes(kind: ValueKind, f: Frame): int {
    Wrap32(Width(kind) * RowWidth(f))
  }

  /** What a dense case fixes before its loop: the first column, `rowLen`, and the length of the
      row buffer, once its allocation has succeeded. */
  datatype DenseShape = DenseShape(startCol: int, rowLen: int, bytes: nat)

  function ShapeOf(kind: ValueKind, f: Frame): (g: DenseShape)
    requires BufferBytes(kind, f) >= 0
  {
    DenseShape(f.startCol, RowWidth(f), BufferBytes(kind, f))
  }

  // ---------------------------------------------------------------------------------------------
  // Row bodies

  /** The bytes `n` items of `w` bytes each take; a count below one takes none. */
  function Span(w: nat, n: int): nat {
    if n <= 0 then 0 else w * n
  }

  lemma SpanStep(w: nat, n: int)
    requires n > 0
    ensures Span(w, n) == w + Span(w, n - 1)
  {
  }

  /** The text ends with a line break: a row that completes closes its line. */
  predicate EndsLine(t: string) {
    |t| > 0 && t[|t| - 1] == '\n'
  }

  /** Entries `k` to the end of a dense row whose values were read into `buf`; entry `k`'s value
      starts at offset `off`. The typed buffer's `get` underflows exactly when `buf` holds fewer
      values than the entries left, and nothing else can fail. */
  function DenseFrom(buf: seq<byte>, kind: ValueKind, lib: Library, g: DenseShape, k: nat, off: nat): (s: Step)
    ensures s.outcome != IoFailure
    ensures s.outcome == Crashed <==> k < g.rowLen && off + Span(Width(kind), g.rowLen - k) > |buf|
    ensures s.outcome == Completed ==> s.next == off + Span(Width(kind), g.rowLen - k)
    decreases g.rowLen - k
  {
    if k >= g.rowLen then Step("", off, Completed)
    else if off + Width(kind) > |buf| then Step("", off, Crashed)
    else
      SpanStep(Width(kind), g.rowLen - k);
      Prefix(DenseEntryText(Wrap32(g.startCol + k), ValueAt(lib, kind, buf, off), k, g.rowLen),
             DenseFrom(buf, kind, lib, g, k + 1, off + Width(kind)))
  }

  /** One more entry of a dense row, as the loop that prints the row sees it. */
  lemma DenseFromStep(all: Step, acc: string, buf: seq<byte>, kind: ValueKind, lib: Library, g: DenseShape,
                      k: nat, off: nat)
    requires k < g.rowLen && off + Width(kind) <= |buf|
    requires all == Prefix(acc, DenseFrom(buf, kind, lib, g, k, off))
    ensures all == Prefix(acc + DenseEntryText(Wrap32(g.startCol + k), ValueAt(lib, kind, buf, off), k, g.rowLen),
                          DenseFrom(buf, kind, lib, g, k + 1, off + Width(kind)))
  {
    var entry := DenseEntryText(Wrap32(g.startCol + k), ValueAt(lib, kind, buf, off), k, g.rowLen);
    PrefixPrefix(acc, entry, DenseFrom(buf, kind, lib, g, k + 1, off + Width(kind)));
  }

  /** Entries `k` to `rowLen` of a sparse row, each a key int and a value, read from `pos`. It
      fails, by a short read, exactly when the file holds fewer pairs than the entries left. */
  function SparseFrom(data: seq<byte>, pos: nat, kind: ValueKind, lib: Library, rowLen: int, k: nat): (s: Step)
    requires pos <= |data|
    ensures s.next <= |data|
    ensures s.outcome != Crashed
    ensures s.outcome == IoFailure <==> pos + Span(4 + Width(kind), rowLen - k) > |data|
    ensures s.outcome == Completed ==> s.next == pos + Span(4 + Width(kind), rowLen - k)
    decreases rowLen - k
  {
    if k >= rowLen then Step("", pos, Completed)
    else if pos + 4 + Width(kind) > |data| then
      SpanStep(4 + Width(kind), rowLen - k);
      Step("", |data|, IoFailure)
    else
      SpanStep(4 + Width(kind), rowLen - k);
      Prefix(SparseEntryText(Int32At(data, pos), ValueAt(lib, kind, data, pos + 4), k, rowLen),
             SparseFrom(data, pos + 4 + Width(kind), kind, lib, rowLen, k + 1))
  }

  /** One more key/value pair of a sparse row, as the loop that prints the row sees it: the text
      `acc` already written is extended by the pair's entry. */
  lemma SparseFromStep(all: Step, acc: string, data: seq<byte>, pos: nat, kind: ValueKind, lib: Library,
                       rowLen: int, k: nat)
    requires k < rowLen && pos + 4 + Width(kind) <= |data|
    requires all == Prefix(acc, SparseFrom(data, pos, kind, lib, rowLen, k))
    ensures all == Prefix(acc + SparseEntryText(Int32At(data, pos), ValueAt(lib, kind, data, pos + 4), k, rowLen),
                          SparseFrom(data, pos + 4 + Width(kind), kind, lib, rowLen, k + 1))
  {
    var entry := SparseEntryText(Int32At(data, pos), ValueAt(lib, kind, data, pos + 4), k, rowLen);
    PrefixPrefix(acc, entry, SparseFrom(data, pos + 4 + Width(kind), kind, lib, rowLen, k + 1));
  }

  /** A row body followed by the row's closing newline, which is written only if the body completed. */
  function Closed(body: Step): Step {
    if body.outcome == Completed then body.(text := body.text + "\n") else body
  }

  /** A dense body at `pos`: `readFully` of the whole row buffer, then one entry per column. The
      read fails when the file is shorter than the buffer; printing fails when the buffer, sized
      in Java int arithmetic, holds fewer than `rowLen` values. */
  function DenseBody(data: seq<byte>, pos: nat, g: DenseShape, kind: ValueKind, lib: Library): (s: Step)
    requires pos <= |data|
    ensures s.next <= |data|
    ensures s.outcome == IoFailure <==> pos + g.bytes > |data|
    ensures s.outcome == Crashed <==> pos + g.bytes <= |data| && Span(Width(kind), g.rowLen) > g.bytes
    ensures s.outcome == Completed ==> s.next == pos + g.bytes && EndsLine(s.text)
  {
    if pos + g.bytes > |data| then Step("", |data|, IoFailure)
    else Closed(DenseFrom(data[pos..pos + g.bytes], kind, lib, g, 0, 0).(next := pos + g.bytes))
  }

  /** A sparse body at `pos`: `rowLen` key/value pairs, then the closing newline. */
  function SparseBody(data: seq<byte>, pos: nat, kind: ValueKind, lib: Library, rowLen: int): (s: Step)
    requires pos <= |data|
    ensures s.next <= |data| && s.outcome != Crashed
    ensures s.outcome == IoFailure <==> pos + Span(4 + Width(kind), rowLen) > |data|
    ensures s.outcome == Completed ==> s.next == pos + Span(4 + Width(kind), rowLen) && EndsLine(s.text)
  {
    Closed(SparseFrom(data, pos, kind, lib, rowLen, 0))
  }

  /** The line that opens a row of each layout. */
  function DenseHead(rowIndex: int, clock: int, rowLen: int): string {
    RowHead(rowIndex, clock) + " len:" + IntToString(rowLen) + "\n"
  }

  function SparseHead(rowIndex: int, clock: int, rowLen: int): string {
    RowHead(rowIndex, clock) + " size:" + IntToString(rowLen) + "\n"
  }

  function ArbitraryDenseHead(rowIndex: int, clock: int, rowLen: int, inner: string): string {
    RowHead(rowIndex, clock) + " len:" + IntToString(rowLen) + " type:" + inner + "\n"
  }

  function ArbitrarySparseHead(rowIndex: int, clock: int, rowLen: int, inner: string, nnz: int): string {
    RowHead(rowIndex, clock) + " size:" + IntToString(rowLen) + " type:" + inner + " nnz:" + IntToString(nnz) + "\n"
  }

  /** A dense row at `pos`: the row index, the clock, then the body. Every dense row takes the
      same number of bytes, eight plus the row buffer. */
  function DenseRowAt(data: seq<byte>, pos: nat, g: DenseShape, kind: ValueKind, lib: Library): (s: Step)
    requires pos <= |data|
    ensures s.next <= |data|
    ensures s.outcome == IoFailure <==> pos + 8 + g.bytes > |data|
    ensures s.outcome == Crashed <==> pos + 8 + g.bytes <= |data| && Span(Width(kind), g.rowLen) > g.bytes
    ensures s.outcome == Completed ==> s.next == pos + 8 + g.bytes && EndsLine(s.text)
  {
    if pos + 8 > |data| then Step("", |data|, IoFailure)
    else Prefix(DenseHead(Int32At(data, pos), Int32At(data, pos + 4), g.rowLen), DenseBody(data, pos + 8, g, kind, lib))
  }

  /** A dense row whose row index and clock have been read. */
  lemma DenseRowHeader(data: seq<byte>, pos: nat, g: DenseShape, kind: ValueKind, lib: Library, rowIndex: int, clock: int)
    requires pos + 8 <= |data| && rowIndex == Int32At(data, pos) && clock == Int32At(data, pos + 4)
    ensures DenseRowAt(data, pos, g, kind, lib) == Prefix(DenseHead(rowIndex, clock, g.rowLen), DenseBody(data, pos + 8, g, kind, lib))
  {
  }

  /** A sparse row at `pos`: the row index and the clock (in the order `clockFirst` says), the
      number of pairs, then the pairs. A completed row takes twelve bytes and one pair per entry. */
  function SparseRowAt(data: seq<byte>, pos: nat, kind: ValueKind, clockFirst: bool, lib: Library): (s: Step)
    requires pos <= |data|
    ensures s.next <= |data| && s.outcome != Crashed
    ensures pos + 12 > |data| ==> s.outcome == IoFailure
    ensures s.outcome == Completed ==>
              pos + 12 <= |data| && s.next == pos + 12 + Span(4 + Width(kind), Int32At(data, pos + 8)) && EndsLine(s.text)
  {
    if pos + 12 > |data| then Step("", |data|, IoFailure)
    else
      var first, second, rowLen := Int32At(data, pos), Int32At(data, pos + 4), Int32At(data, pos + 8);
      var rowIndex := if clockFirst then second else first;
      var clock := if clockFirst then first else second;
      Prefix(SparseHead(rowIndex, clock, rowLen), SparseBody(data, pos + 12, kind, lib, rowLen))
  }

  /** A sparse row whose three header ints have been read. */
  lemma SparseRowHeader(data: seq<byte>, pos: nat, kind: ValueKind, clockFirst: bool, lib: Library,
                        rowIndex: int, clock: int, rowLen: int)
    requires pos + 12 <= |data| && rowLen == Int32At(data, pos + 8)
    requires rowIndex == Int32At(data, if clockFirst then pos + 4 else pos)
    requires clock == Int32At(data, if clockFirst then pos else pos + 4)
    ensures SparseRowAt(data, pos, kind, clockFirst, lib)
            == Prefix(SparseHead(rowIndex, clock, rowLen), SparseBody(data, pos + 12, kind, lib, rowLen))
  {
  }

  /** The two sparse layouts read the same bytes the same way, except that `T_DOUBLE_SPARSE`
      takes the first int for the clock and the second for the row index, and `T_INT_SPARSE` the
      other way round: on the same bytes their rows differ only in the two numbers of the head. */
  lemma SparseFieldOrder(data: seq<byte>, pos: nat, kind: ValueKind, lib: Library)
    requires pos + 12 <= |data|
    ensures var first, second, rowLen := Int32At(data, pos), Int32At(data, pos + 4), Int32At(data, pos + 8);
            var body := SparseBody(data, pos + 12, kind, lib, rowLen);
            var rowIndexFirst, clockFirst := SparseRowAt(data, pos, kind, false, lib), SparseRowAt(data, pos, kind, true, lib);
            && rowIndexFirst.text == SparseHead(first, second, rowLen) + body.text
            && clockFirst.text == SparseHead(second, first, rowLen) + body.text
            && rowIndexFirst.next == clockFirst.next && rowIndexFirst.outcome == clockFirst.outcome
  {
  }

  /** A row of a `T_INT_ARBITRARY` partition at `pos`: the row index, the clock, the row's own tag,
      then the rest of the row. */
  function ArbitraryRowAt(data: seq<byte>, pos: nat, g: DenseShape, lib: Library): (s: Step)
    requires pos <= |data|
    ensures s.next <= |data|
    ensures pos + 10 > |data| ==> s.outcome == IoFailure
    ensures s.outcome == Completed ==> pos + 10 <= |data| && pos + 10 + U16At(data, pos + 8) <= s.next
  {
    if pos + 10 > |data| || pos + 10 + U16At(data, pos + 8) > |data| then Step("", |data|, IoFailure)
    else
      var p := pos + 10 + U16At(data, pos + 8);
      ArbitraryBodyAt(data, p, g, lib, Int32At(data, pos), Int32At(data, pos + 4), Chars(data[pos + 10..p]))
  }

  /** A `T_INT_ARBITRARY` row whose row index, clock and tag have been read. */
  lemma ArbitraryRowHeader(data: seq<byte>, pos: nat, g: DenseShape, lib: Library, rowIndex: int, clock: int,
                           p: nat, inner: string)
    requires pos + 10 <= |data| && p == pos + 10 + U16At(data, pos + 8) && p <= |data|
    requires rowIndex == Int32At(data, pos) && clock == Int32At(data, pos + 4)
    requires inner == Chars(data[pos + 10..p])
    ensures ArbitraryRowAt(data, pos, g, lib) == ArbitraryBodyAt(data, p, g, lib, rowIndex, clock, inner)
  {
    hide ArbitraryBodyAt, Chars, Int32At, U16At;
  }

  /** The rest of a `T_INT_ARBITRARY` row whose tag is `inner`, from `pos`: a dense int body, or the
      pair count, the row length and a sparse int body. A row with any other tag has no body: it
      writes nothing and reads nothing, and only the logging of its error can throw. */
  function ArbitraryBodyAt(data: seq<byte>, pos: nat, g: DenseShape, lib: Library, rowIndex: int, clock: int,
                           inner: string): (s: Step)
    requires pos <= |data|
    ensures s.next <= |data|
    ensures inner != T_INT_DENSE && inner != T_INT_SPARSE ==>
              s.text == "" && s.next == pos && (s.outcome == Crashed <==> FormatThrows(lib, TypeError(inner)))
    ensures inner == T_INT_SPARSE ==> s.outcome != Crashed
    ensures s.outcome == Completed && (inner == T_INT_DENSE || inner == T_INT_SPARSE) ==> EndsLine(s.text)
  {
    if inner == T_INT_DENSE then
      Prefix(ArbitraryDenseHead(rowIndex, clock, g.rowLen, inner), DenseBody(data, pos, g, IntValue, lib))
    else if inner == T_INT_SPARSE then
      if pos + 8 > |data| then Step("", |data|, IoFailure)
      else
        var nnz, rowLen := Int32At(data, pos), Int32At(data, pos + 4);
        Prefix(ArbitrarySparseHead(rowIndex, clock, rowLen, inner, nnz), SparseBody(data, pos + 8, IntValue, lib, rowLen))
    else if FormatThrows(lib, TypeError(inner)) then Step("", pos, Crashed)
    else Step("", pos, Completed)
  }

  /** The dense case of a `T_INT_ARBITRARY` row: the row buffer follows the tag directly. */
  lemma ArbitraryDenseHeader(data: seq<byte>, pos: nat, g: DenseShape, lib: Library, rowIndex: int, clock: int)
    requires pos <= |data|
    ensures ArbitraryBodyAt(data, pos, g, lib, rowIndex, clock, T_INT_DENSE)
            == Prefix(ArbitraryDenseHead(rowIndex, clock, g.rowLen, T_INT_DENSE), DenseBody(data, pos, g, IntValue, lib))
  {
  }

  /** The sparse case of a `T_INT_ARBITRARY` row whose pair count and row length have been read. */
  lemma ArbitrarySparseHeader(data: seq<byte>, pos: nat, g: DenseShape, lib: Library, rowIndex: int, clock: int,
                              nnz: int, rowLen: int)
    requires pos + 8 <= |data| && nnz == Int32At(data, pos) && rowLen == Int32At(data, pos + 4)
    ensures ArbitraryBodyAt(data, pos, g, lib, rowIndex, clock, T_INT_SPARSE)
            == Prefix(ArbitrarySparseHead(rowIndex, clock, rowLen, T_INT_SPARSE, nnz),
                      SparseBody(data, pos + 8, IntValue, lib, rowLen))
  {
  }

  /** Rows `j` to `rowNum` of a dense partition, from `pos`: the loop of the `T_DOUBLE_DENSE`,
      `T_FLOAT_DENSE` and `T_INT_DENSE` cases. The first row that does not complete ends it. */
  function DenseRowsFrom(data: seq<byte>, pos: nat, g: DenseShape, kind: ValueKind, lib: Library, rowNum: int, j: nat): (s: Step)
    requires pos <= |data|
    ensures s.next <= |data|
    decreases rowNum - j
  {
    if j >= rowNum then Step("", pos, Completed)
    else
      var r := DenseRowAt(data, pos, g, kind, lib);
      if r.outcome != Completed then r
      else Prefix(r.text, DenseRowsFrom(data, r.next, g, kind, lib, rowNum, j + 1))
  }

  /** The rows of a dense partition take `8 + bytes` each: reading all of them ends exactly that
      far on, a short read means the file is shorter than the rows need, and a crash means the
      row buffer is too small for a row. */
  lemma {:induction false} DenseRowsSpan(data: seq<byte>, pos: nat, g: DenseShape, kind: ValueKind, lib: Library,
                                         rowNum: int, j: nat)
    requires pos <= |data|
    ensures var s := DenseRowsFrom(data, pos, g, kind, lib, rowNum, j);
            && (s.outcome == Completed ==> s.next == pos + Span(8 + g.bytes, rowNum - j))
            && (s.outcome == IoFailure ==> pos + Span(8 + g.bytes, rowNum - j) > |data|)
            && (s.outcome == Crashed ==> Span(Width(kind), g.rowLen) > g.bytes)
    decreases rowNum - j
  {
    hide DenseRowAt;
    if j < rowNum {
      var r := DenseRowAt(data, pos, g, kind, lib);
      SpanStep(8 + g.bytes, rowNum - j);
      if r.outcome == Completed {
        DenseRowsSpan(data, r.next, g, kind, lib, rowNum, j + 1);
      }
    }
  }

  /** One more row of a dense partition, as the loop over the rows sees it. */
  lemma DenseRowsStep(all: Step, acc: string, data: seq<byte>, pos: nat, g: DenseShape, kind: ValueKind, lib: Library,
                      rowNum: int, j: nat)
    requires pos <= |data| && j < rowNum
    requires all == Prefix(acc, DenseRowsFrom(data, pos, g, kind, lib, rowNum, j))
    ensures var r := DenseRowAt(data, pos, g, kind, lib);
            if r.outcome == Completed then all == Prefix(acc + r.text, DenseRowsFrom(data, r.next, g, kind, lib, rowNum, j + 1))
            else all == Prefix(acc, r)
  {
    var r := DenseRowAt(data, pos, g, kind, lib);
    if r.outcome == Completed {
      PrefixPrefix(acc, r.text, DenseRowsFrom(data, r.next, g, kind, lib, rowNum, j + 1));
    }
  }

  /** Rows `j` to `rowNum` of a sparse partition: the loop of the `T_DOUBLE_SPARSE` and
      `T_INT_SPARSE` cases. Nothing in it crashes, and every row read takes at least twelve bytes. */
  function SparseRowsFrom(data: seq<byte>, pos: nat, kind: ValueKind, clockFirst: bool, lib: Library,
                          rowNum: int, j: nat): (s: Step)
    requires pos <= |data|
    ensures s.next <= |data| && s.outcome != Crashed
    ensures s.outcome == Completed ==> pos + Span(12, rowNum - j) <= s.next
    decreases rowNum - j
  {
    if j >= rowNum then Step("", pos, Completed)
    else
      var r := SparseRowAt(data, pos, kind, clockFirst, lib);
      SpanStep(12, rowNum - j);
      if r.outcome != Completed then r
      else Prefix(r.text, SparseRowsFrom(data, r.next, kind, clockFirst, lib, rowNum, j + 1))
  }

  lemma SparseRowsStep(all: Step, acc: string, data: seq<byte>, pos: nat, kind: ValueKind, clockFirst: bool,
                       lib: Library, rowNum: int, j: nat)
    requires pos <= |data| && j < rowNum
    requires all == Prefix(acc, SparseRowsFrom(data, pos, kind, clockFirst, lib, rowNum, j))
    ensures var r := SparseRowAt(data, pos, kind, clockFirst, lib);
            if r.outcome == Completed then all == Prefix(acc + r.text, SparseRowsFrom(data, r.next, kind, clockFirst, lib, rowNum, j + 1))
            else all == Prefix(acc, r)
  {
    var r := SparseRowAt(data, pos, kind, clockFirst, lib);
    if r.outcome == Completed {
      PrefixPrefix(acc, r.text, SparseRowsFrom(data, r.next, kind, clockFirst, lib, rowNum, j + 1));
    }
  }

  /** Rows `j` to `rowNum` of a `T_INT_ARBITRARY` partition; every row read takes at least ten
      bytes. */
  function ArbitraryRowsFrom(data: seq<byte>, pos: nat, g: DenseShape, lib: Library, rowNum: int, j: nat): (s: Step)
    requires pos <= |data|
    ensures s.next <= |data|
    ensures s.outcome == Completed ==> pos + Span(10, rowNum - j) <= s.next
    decreases rowNum - j
  {
    if j >= rowNum then Step("", pos, Completed)
    else
      var r := ArbitraryRowAt(data, pos, g, lib);
      SpanStep(10, rowNum - j);
      if r.outcome != Completed then r
      else Prefix(r.text, ArbitraryRowsFrom(data, r.next, g, lib, rowNum, j + 1))
  }

  lemma ArbitraryRowsStep(all: Step, acc: string, data: seq<byte>, pos: nat, g: DenseShape, lib: Library,
                          rowNum: int, j: nat)
    requires pos <= |data| && j < rowNum
    requires all == Prefix(acc, ArbitraryRowsFrom(data, pos, g, lib, rowNum, j))
    ensures var r := ArbitraryRowAt(data, pos, g, lib);
            if r.outcome == Completed then all == Prefix(acc + r.text, ArbitraryRowsFrom(data, r.next, g, lib, rowNum, j + 1))
            else all == Prefix(acc, r)
  {
    var r := ArbitraryRowAt(data, pos, g, lib);
    if r.outcome == Completed {
      PrefixPrefix(acc, r.text, ArbitraryRowsFrom(data, r.next, g, lib, rowNum, j + 1));
    }
  }

  // ---------------------------------------------------------------------------------------------
  // The file

  /** Offsets of the header fields. */
  const TAG_AT: nat := 24     // after matrixId, partSize, startRow, startCol, endRow, endCol

  /** The header up to and including the row-type tag is in the file. */
  predicate TagComplete(data: seq<byte>) {
    |data| >= TAG_AT + 2 && |data| >= TAG_AT + 2 + U16At(data, TAG_AT)
  }

  /** The whole header, the row count included, is in the file. */
  predicate HeaderComplete(data: seq<byte>) {
    TagComplete(data) && |data| >= TAG_AT + 2 + U16At(data, TAG_AT) + 4
  }

  function Preceded(t: string, c: Conversion): Conversion {
    c.(text := t + c.text)
  }

  /** The whole conversion of a partition file: the matrix id, the partition size, then the
      partition. Only a file with a complete header can convert completely. */
  function Convert(data: seq<byte>, lib: Library): (c: Conversion)
    ensures |data| < 8 ==> c.outcome == IoFailure
    ensures c.outcome == Completed ==> HeaderComplete(data)
  {
    if |data| < 4 then Conversion("", IoFailure)
    else if |data| < 8 then Conversion(MatrixIdLine(Int32At(data, 0)), IoFailure)
    else Preceded(MatrixIdLine(Int32At(data, 0)) + PartSizeLine(Int32At(data, 4)), PartitionAt(data, lib))
  }

  /** The partition range line's logged text, from the header fields. */
  function RangeInfoOf(data: seq<byte>): string
    requires TagComplete(data)
  {
    var rowType := Chars(data[TAG_AT + 2..TAG_AT + 2 + U16At(data, TAG_AT)]);
    RangeInfo(rowType, Int32At(data, 8), Int32At(data, 12), Int32At(data, 16), Int32At(data, 20))
  }

  /** From offset 8: the partition range and the row type, which are written and then logged,
      the row count, then the rows. */
  function PartitionAt(data: seq<byte>, lib: Library): (c: Conversion)
    requires |data| >= 8
    ensures c.outcome == Completed ==> HeaderComplete(data)
  {
    if |data| < TAG_AT + 2 || |data| < TAG_AT + 2 + U16At(data, TAG_AT) then Conversion("", IoFailure)
    else
      var rowsAt := TAG_AT + 2 + U16At(data, TAG_AT);
      var rowType := Chars(data[TAG_AT + 2..rowsAt]);
      var f := Frame(Int32At(data, 12), Int32At(data, 20));
      var info := RangeInfo(rowType, Int32At(data, 8), f.startCol, Int32At(data, 16), f.endCol);
      if FormatThrows(lib, info) then Conversion(info + "\n", Crashed)
      else if |data| < rowsAt + 4 then Conversion(info + "\n", IoFailure)
      else
        var rowNum := Int32At(data, rowsAt);
        Preceded(info + "\n" + RowNumLine(rowNum), RowsOf(data, rowsAt + 4, f, LayoutOf(rowType), lib, rowNum))
  }

  function Finished(s: Step): Conversion {
    Conversion(s.text, s.outcome)
  }

  /** The `switch (rowType)` on the rows from `pos`. A dense case allocates its row buffer before
      its loop, so a negative length fails even when there are no rows. An unknown tag matches no
      case and reads nothing. A dense partition crashes only when Java's int arithmetic gives its
      row buffer a size other than `rowLen` values; a sparse one never crashes. */
  function RowsOf(data: seq<byte>, pos: nat, f: Frame, layout: Layout, lib: Library, rowNum: int): (c: Conversion)
    requires pos <= |data|
    ensures layout.Dense? && c.outcome == Crashed ==>
              BufferBytes(layout.kind, f) != Span(Width(layout.kind), RowWidth(f))
    ensures layout.Sparse? ==> c.outcome != Crashed
    ensures layout.Unrecognised? ==> c == Conversion("", Completed)
  {
    match layout
    case Dense(kind) =>
      if BufferBytes(kind, f) < 0 then Conversion("", Crashed)
      else
        DenseRowsSpan(data, pos, ShapeOf(kind, f), kind, lib, rowNum, 0);
        Finished(DenseRowsFrom(data, pos, ShapeOf(kind, f), kind, lib, rowNum, 0))
    case Sparse(kind, clockFirst) => Finished(SparseRowsFrom(data, pos, kind, clockFirst, lib, rowNum, 0))
    case Arbitrary =>
      if BufferBytes(IntValue, f) < 0 then Conversion("", Crashed)
      else Finished(ArbitraryRowsFrom(data, pos, ShapeOf(IntValue, f), lib, rowNum, 0))
    case Unrecognised => Conversion("", Completed)
  }

  /** The first three lines of a file whose header is complete up to the row type: the matrix
      id, the partition size and the partition range. */
  function LeadText(data: seq<byte>): string
    requires TagComplete(data)
  {
    MatrixIdLine(Int32At(data, 0)) + PartSizeLine(Int32At(data, 4)) + RangeInfoOf(data) + "\n"
  }

  /** All four header lines of a file whose header is complete. */
  function HeaderText(data: seq<byte>): string
    requires HeaderComplete(data)
  {
    LeadText(data) + RowNumLine(Int32At(data, TAG_AT + 2 + U16At(data, TAG_AT)))
  }

  /** The conversion of a file with a complete header whose range line logs normally: the header
      lines, then the rows case selected by the row type. */
  lemma ConvertHeader(data: seq<byte>, lib: Library)
    requires HeaderComplete(data) && !FormatThrows(lib, RangeInfoOf(data))
    ensures var rowsAt := TAG_AT + 2 + U16At(data, TAG_AT);
            Convert(data, lib)
            == Preceded(HeaderText(data), RowsOf(data, rowsAt + 4, Frame(Int32At(data, 12), Int32At(data, 20)),
                                                 LayoutOf(Chars(data[TAG_AT + 2..rowsAt])), lib, Int32At(data, rowsAt)))
  {
    hide RowsOf, RowNumLine, MatrixIdLine, PartSizeLine, RangeInfo, Int32At, U16At, Chars, LayoutOf, FormatThrows;
    var rowsAt := TAG_AT + 2 + U16At(data, TAG_AT);
    var rowType := Chars(data[TAG_AT + 2..rowsAt]);
    var m, ps := MatrixIdLine(Int32At(data, 0)), PartSizeLine(Int32At(data, 4));
    var range := RangeInfoOf(data) + "\n";
    var n := RowNumLine(Int32At(data, rowsAt));
    var rows := RowsOf(data, rowsAt + 4, Frame(Int32At(data, 12), Int32At(data, 20)), LayoutOf(rowType), lib,
                       Int32At(data, rowsAt));
    AppendAssoc(m + ps, range + n, rows.text);
    AppendAssoc(m + ps, range, n);
  }

  /** The conversion of a file whose range line fails to log: the three lines written before the
      log call, and an unchecked exception. */
  lemma RangeLogThrows(data: seq<byte>, lib: Library)
    requires TagComplete(data) && FormatThrows(lib, RangeInfoOf(data))
    ensures Convert(data, lib) == Conversion(LeadText(data), Crashed)
  {
    AppendAssoc(MatrixIdLine(Int32At(data, 0)) + PartSizeLine(Int32At(data, 4)), RangeInfoOf(data), "\n");
  }

  /** Every dump of a file whose header is complete up to the row type starts with its first three
      header lines, whatever follows and however the conversion ends; it goes on with the row count
      line when the range line logs normally and the count is there, and stops, crashed, when it
      does not log. */
  lemma HeaderLines(data: seq<byte>, lib: Library)
    requires TagComplete(data)
    ensures var t, lead := Convert(data, lib).text, LeadText(data);
            |lead| <= |t| && t[..|lead|] == lead
    ensures FormatThrows(lib, RangeInfoOf(data)) ==> Convert(data, lib) == Conversion(LeadText(data), Crashed)
    ensures HeaderComplete(data) && !FormatThrows(lib, RangeInfoOf(data)) ==>
              var t, h := Convert(data, lib).text, HeaderText(data);
              |h| <= |t| && t[..|h|] == h
  {
    if FormatThrows(lib, RangeInfoOf(data)) {
      RangeLogThrows(data, lib);
    } else if HeaderComplete(data) {
      ConvertHeader(data, lib);
      var t := Convert(data, lib).text;
      assert t[..|HeaderText(data)|] == HeaderText(data);
      assert t[..|LeadText(data)|] == HeaderText(data)[..|LeadText(data)|];
    } else {
      var rowsAt := TAG_AT + 2 + U16At(data, TAG_AT);
      assert Convert(data, lib).text
             == MatrixIdLine(Int32At(data, 0)) + PartSizeLine(Int32At(data, 4)) + (RangeInfoOf(data) + "\n");
      AppendAssoc(MatrixIdLine(Int32At(data, 0)) + PartSizeLine(Int32At(data, 4)), RangeInfoOf(data), "\n");
    }
  }

  /** A text that contains no `%` stays so when ints are spliced into it: the range line of a
      row type without `%` always logs normally. */
  lemma PlainRangeInfo(data: seq<byte>, lib: Library)
    requires TagComplete(data)
    requires '%' !in Chars(data[TAG_AT + 2..TAG_AT + 2 + U16At(data, TAG_AT)])
    ensures !FormatThrows(lib, RangeInfoOf(data))
  {
    hide IntToString, Int32At, U16At, Chars;
    PlainInt(Int32At(data, 8));
    PlainInt(Int32At(data, 12));
    PlainInt(Int32At(data, 16));
    PlainInt(Int32At(data, 20));
  }

  /** A row type that no case of the `switch` names reads no rows and writes only the header
      lines; it completes unless its range line fails to log. */
  lemma UnknownRowType(data: seq<byte>, lib: Library)
    requires HeaderComplete(data)
    requires LayoutOf(Chars(data[TAG_AT + 2..TAG_AT + 2 + U16At(data, TAG_AT)])) == Unrecognised
    ensures Convert(data, lib)
            == if FormatThrows(lib, RangeInfoOf(data)) then Conversion(LeadText(data), Crashed)
               else Conversion(HeaderText(data), Completed)
  {
    if FormatThrows(lib, RangeInfoOf(data)) {
      RangeLogThrows(data, lib);
    } else {
      ConvertHeader(data, lib);
      assert HeaderText(data) + "" == HeaderText(data);
    }
  }
}
