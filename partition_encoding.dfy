/**
 * The producer's side of a matrix partition file: what a well-formed partition holds, the bytes a
 * writer lays it out as (`DataOutput.writeInt`, `writeUTF`, and the raw words of the values), and
 * the text dump of its contents. The round-trip theorem `ConvertEncode` says the decoder turns the
 * bytes of every well-formed partition into exactly that dump, and that the conversion completes.
 */
module PartitionEncoding {
  import opened JavaTypes
  import opened Sequences
  import opened PartitionFormat

  /** A key of a sparse row and the stored word of its value. */
  datatype Pair = Pair(key: int, value: seq<byte>)

  /** A row of a dense partition (`T_DOUBLE_DENSE`, `T_FLOAT_DENSE`, `T_INT_DENSE`): one stored
      word per column. */
  datatype DenseRow = DenseRow(rowIndex: int, clock: int, values: seq<seq<byte>>)

  /** A row of a sparse partition (`T_DOUBLE_SPARSE`, `T_INT_SPARSE`): its key/value pairs. */
  datatype SparseRow = SparseRow(rowIndex: int, clock: int, pairs: seq<Pair>)

  /** A row of a `T_INT_ARBITRARY` partition, whose own tag says how the rest of it is laid out. */
  datatype MixedRow =
    | MixedDense(rowIndex: int, clock: int, values: seq<seq<byte>>)
    | MixedSparse(rowIndex: int, clock: int, nnz: int, pairs: seq<Pair>)
    | MixedOther(rowIndex: int, clock: int, tag: string)

  /** The rows of a partition, of the kind its row type names. */
  datatype Rows =
    | DenseRows(dense: seq<DenseRow>)
    | SparseRows(sparse: seq<SparseRow>)
    | MixedRows(mixed: seq<MixedRow>)

  function Count(rows: Rows): nat {
    match rows
    case DenseRows(d) => |d|
    case SparseRows(s) => |s|
    case MixedRows(m) => |m|
  }

  datatype Partition = Partition(matrixId: int, partSize: int, startRow: int, startCol: int, endRow: int,
                                 endCol: int, rowType: string, rows: Rows)

  // ---------------------------------------------------------------------------------------------
  // Well-formedness

  /** A string `writeUTF` writes as one byte per character. */
  predicate IsTag(s: string) {
    IsByteString(s) && |s| < TWO_16
  }

  /** Every value is one stored word of `kind`. */
  predicate Words(values: seq<seq<byte>>, kind: ValueKind) {
    forall i :: 0 <= i < |values| ==> |values[i]| == Width(kind)
  }

  /** The pair count and every key are ints, and every value is one stored word of `kind`. */
  predicate PairsFit(pairs: seq<Pair>, kind: ValueKind) {
    IsInt32(|pairs|) && forall i :: 0 <= i < |pairs| ==> IsInt32(pairs[i].key) && |pairs[i].value| == Width(kind)
  }

  /** The kind of the values a layout stores. */
  function KindOf(layout: Layout): ValueKind {
    match layout
    case Dense(kind) => kind
    case Sparse(kind, _) => kind
    case _ => IntValue
  }

  function ClockFirst(layout: Layout): bool {
    layout.Sparse? && layout.clockFirst
  }

  predicate DenseFits(kind: ValueKind, width: int, r: DenseRow) {
    IsInt32(r.rowIndex) && IsInt32(r.clock) && |r.values| == width && Words(r.values, kind)
  }

  predicate SparseFits(kind: ValueKind, r: SparseRow) {
    IsInt32(r.rowIndex) && IsInt32(r.clock) && PairsFit(r.pairs, kind)
  }

  /** A `T_INT_ARBITRARY` row: a dense int row of the partition's width, a sparse int row, or a
      row whose tag is neither, which `writeUTF` writes byte for byte and which has no `%` in it,
      so that logging its error cannot throw. */
  predicate MixedFits(width: int, r: MixedRow) {
    IsInt32(r.rowIndex) && IsInt32(r.clock) &&
    match r
    case MixedDense(_, _, values) => |values| == width && Words(values, IntValue)
    case MixedSparse(_, _, nnz, pairs) => IsInt32(nnz) && PairsFit(pairs, IntValue)
    case MixedOther(_, _, tag) => IsTag(tag) && tag != T_INT_DENSE && tag != T_INT_SPARSE && '%' !in tag
  }

  predicate AllDenseFit(kind: ValueKind, width: int, rows: seq<DenseRow>) {
    forall i :: 0 <= i < |rows| ==> DenseFits(kind, width, rows[i])
  }

  predicate AllSparseFit(kind: ValueKind, rows: seq<SparseRow>) {
    forall i :: 0 <= i < |rows| ==> SparseFits(kind, rows[i])
  }

  predicate AllMixedFit(width: int, rows: seq<MixedRow>) {
    forall i :: 0 <= i < |rows| ==> MixedFits(width, rows[i])
  }

  /** The rows are of the kind `layout` reads, and every one of them is in range. The rows of a
      partition whose row type no case handles are never read, so any rows do. */
  predicate RowsFit(layout: Layout, width: int, rows: Rows) {
    match layout
    case Dense(kind) => rows.DenseRows? && AllDenseFit(kind, width, rows.dense)
    case Sparse(kind, _) => rows.SparseRows? && AllSparseFit(kind, rows.sparse)
    case Arbitrary => rows.MixedRows? && AllMixedFit(width, rows.mixed)
    case Unrecognised => true
  }

  /** A partition whose header fields are ints, whose row type has no `%` (so the logging of the
      partition range cannot throw), whose dense width `endCol - startCol` and row buffer size do
      not overflow, and whose rows all fit its layout. */
  predicate Wellformed(p: Partition) {
    var layout := LayoutOf(p.rowType);
    IsInt32(p.matrixId) && IsInt32(p.partSize) && IsInt32(p.startRow) && IsInt32(p.startCol)
    && IsInt32(p.endRow) && IsInt32(p.endCol) && IsTag(p.rowType) && '%' !in p.rowType
    && IsInt32(Count(p.rows)) && (layout.Dense? || layout.Arbitrary? ==>
          0 <= p.endCol - p.startCol && IsInt32(Width(KindOf(layout)) * (p.endCol - p.startCol)))
    && RowsFit(layout, p.endCol - p.startCol, p.rows)
  }

  // ---------------------------------------------------------------------------------------------
  // Bytes

  /** `writeUTF` of a tag: its length as an unsigned short, then its characters. */
  function UtfBytes(s: string): (bs: seq<byte>)
    ensures |bs| == 2 + |s|
  {
    U16Bytes(|s|) + BytesOf(s)
  }

  /** The words of values `k` onwards, back to back. */
  function ValueBytes(values: seq<seq<byte>>, k: nat): seq<byte>
    decreases |values| - k
  {
    if k >= |values| then [] else values[k] + ValueBytes(values, k + 1)
  }

  /** Pairs `k` onwards, each a key int followed by the value's word. */
  function PairBytes(pairs: seq<Pair>, k: nat): seq<byte>
    decreases |pairs| - k
  {
    if k >= |pairs| then [] else Int32Bytes(pairs[k].key) + pairs[k].value + PairBytes(pairs, k + 1)
  }

  /** A dense row: the row index, the clock, then the row buffer. */
  function DenseRowBytes(r: DenseRow): seq<byte> {
    Int32Bytes(r.rowIndex) + Int32Bytes(r.clock) + ValueBytes(r.values, 0)
  }

  /** A sparse row: the row index and the clock in the layout's order, the pair count, the pairs. */
  function SparseRowBytes(clockFirst: bool, r: SparseRow): seq<byte> {
    var first, second := if clockFirst then r.clock else r.rowIndex, if clockFirst then r.rowIndex else r.clock;
    Int32Bytes(first) + Int32Bytes(second) + (Int32Bytes(|r.pairs|) + PairBytes(r.pairs, 0))
  }

  /** A `T_INT_ARBITRARY` row: the row index, the clock and the row's tag, then what the tag says. */
  function MixedRowBytes(r: MixedRow): seq<byte> {
    var ri, c := Int32Bytes(r.rowIndex), Int32Bytes(r.clock);
    match r
    case MixedDense(_, _, values) => ri + c + (UtfBytes(T_INT_DENSE) + ValueBytes(values, 0))
    case MixedSparse(_, _, nnz, pairs) =>
      ri + c + (UtfBytes(T_INT_SPARSE) + (Int32Bytes(nnz) + Int32Bytes(|pairs|) + PairBytes(pairs, 0)))
    case MixedOther(_, _, tag) => ri + c + (UtfBytes(tag) + [])
  }

  function DenseRowsBytes(rows: seq<DenseRow>, j: nat): seq<byte>
    decreases |rows| - j
  {
    if j >= |rows| then [] else DenseRowBytes(rows[j]) + DenseRowsBytes(rows, j + 1)
  }

  function SparseRowsBytes(clockFirst: bool, rows: seq<SparseRow>, j: nat): seq<byte>
    decreases |rows| - j
  {
    if j >= |rows| then [] else SparseRowBytes(clockFirst, rows[j]) + SparseRowsBytes(clockFirst, rows, j + 1)
  }

  function MixedRowsBytes(rows: seq<MixedRow>, j: nat): seq<byte>
    decreases |rows| - j
  {
    if j >= |rows| then [] else MixedRowBytes(rows[j]) + MixedRowsBytes(rows, j + 1)
  }

  function RowsBytes(clockFirst: bool, rows: Rows): seq<byte> {
    match rows
    case DenseRows(d) => DenseRowsBytes(d, 0)
    case SparseRows(s) => SparseRowsBytes(clockFirst, s, 0)
    case MixedRows(m) => MixedRowsBytes(m, 0)
  }

  /** The header of a partition file, then `rows`: the six header ints, the row type, the row count. */
  function HeaderBytes(p: Partition, rows: seq<byte>): seq<byte> {
    Int32Bytes(p.matrixId) + (Int32Bytes(p.partSize) + (Int32Bytes(p.startRow) + (Int32Bytes(p.startCol)
    + (Int32Bytes(p.endRow) + (Int32Bytes(p.endCol) + (UtfBytes(p.rowType) + (Int32Bytes(Count(p.rows))
    + rows)))))))
  }

  /** The partition file: the header, then the rows. */
  function Encode(p: Partition): seq<byte> {
    HeaderBytes(p, RowsBytes(ClockFirst(LayoutOf(p.rowType)), p.rows))
  }

  // ---------------------------------------------------------------------------------------------
  // Text

  /** The entries of a dense row from column `k`: column `startCol + k` and its value. */
  function DenseEntries(values: seq<seq<byte>>, kind: ValueKind, lib: Library, startCol: int, k: nat): string
    requires Words(values, kind)
    decreases |values| - k
  {
    if k >= |values| then ""
    else DenseEntryText(startCol + k, ValueAt(lib, kind, values[k], 0), k, |values|)
         + DenseEntries(values, kind, lib, startCol, k + 1)
  }

  /** The entries of a sparse row from pair `k`: each key as stored, with its value. */
  function SparseEntries(pairs: seq<Pair>, kind: ValueKind, lib: Library, k: nat): string
    requires PairsFit(pairs, kind)
    decreases |pairs| - k
  {
    if k >= |pairs| then ""
    else SparseEntryText(pairs[k].key, ValueAt(lib, kind, pairs[k].value, 0), k, |pairs|)
         + SparseEntries(pairs, kind, lib, k + 1)
  }

  /** The dump of one row: its head line, its entries, and a closing newline. */
  function DenseRowText(kind: ValueKind, width: int, startCol: int, lib: Library, r: DenseRow): string
    requires Words(r.values, kind)
  {
    DenseHead(r.rowIndex, r.clock, width) + DenseEntries(r.values, kind, lib, startCol, 0) + "\n"
  }

  function SparseRowText(kind: ValueKind, lib: Library, r: SparseRow): string
    requires PairsFit(r.pairs, kind)
  {
    SparseHead(r.rowIndex, r.clock, |r.pairs|) + SparseEntries(r.pairs, kind, lib, 0) + "\n"
  }

  /** A `T_INT_ARBITRARY` row with any other tag has no text at all. */
  function MixedRowText(width: int, startCol: int, lib: Library, r: MixedRow): string
    requires MixedFits(width, r)
  {
    match r
    case MixedDense(ri, c, values) =>
      ArbitraryDenseHead(ri, c, width, T_INT_DENSE) + DenseEntries(values, IntValue, lib, startCol, 0) + "\n"
    case MixedSparse(ri, c, nnz, pairs) =>
      ArbitrarySparseHead(ri, c, |pairs|, T_INT_SPARSE, nnz) + SparseEntries(pairs, IntValue, lib, 0) + "\n"
    case MixedOther(_, _, _) => ""
  }

  function DenseRowsText(kind: ValueKind, width: int, startCol: int, lib: Library, rows: seq<DenseRow>, j: nat): string
    requires AllDenseFit(kind, width, rows)
    decreases |rows| - j
  {
    if j >= |rows| then ""
    else DenseRowText(kind, width, startCol, lib, rows[j]) + DenseRowsText(kind, width, startCol, lib, rows, j + 1)
  }

  function SparseRowsText(kind: ValueKind, lib: Library, rows: seq<SparseRow>, j: nat): string
    requires AllSparseFit(kind, rows)
    decreases |rows| - j
  {
    if j >= |rows| then "" else SparseRowText(kind, lib, rows[j]) + SparseRowsText(kind, lib, rows, j + 1)
  }

  function MixedRowsText(width: int, startCol: int, lib: Library, rows: seq<MixedRow>, j: nat): string
    requires AllMixedFit(width, rows)
    decreases |rows| - j
  {
    if j >= |rows| then ""
    else MixedRowText(width, startCol, lib, rows[j]) + MixedRowsText(width, startCol, lib, rows, j + 1)
  }

  /** The dump of the rows of each layout; a row type that no case of the decoder handles has none. */
  function RowsText(layout: Layout, width: int, startCol: int, lib: Library, rows: Rows): string
    requires RowsFit(layout, width, rows)
  {
    match layout
    case Dense(kind) => DenseRowsText(kind, width, startCol, lib, rows.dense, 0)
    case Sparse(kind, _) => SparseRowsText(kind, lib, rows.sparse, 0)
    case Arbitrary => MixedRowsText(width, startCol, lib, rows.mixed, 0)
    case Unrecognised => ""
  }

  /** The four header lines of a partition's dump. */
  function HeaderLinesOf(p: Partition): string {
    MatrixIdLine(p.matrixId) + PartSizeLine(p.partSize)
    + RangeLine(p.rowType, p.startRow, p.startCol, p.endRow, p.endCol) + RowNumLine(Count(p.rows))
  }

  /** The dump of a partition: the header lines, then the rows. */
  function Render(p: Partition, lib: Library): string
    requires Wellformed(p)
  {
    HeaderLinesOf(p) + RowsText(LayoutOf(p.rowType), p.endCol - p.startCol, p.startCol, lib, p.rows)
  }

  // ---------------------------------------------------------------------------------------------
  // Reading back what was written: the fields found in the bytes

  /** The bytes of `data` from `pos` begin with `e`. */
  predicate At(data: seq<byte>, pos: nat, e: seq<byte>) {
    pos + |e| <= |data| && data[pos..pos + |e|] == e
  }

  lemma AtSplit(data: seq<byte>, pos: nat, a: seq<byte>, b: seq<byte>)
    requires At(data, pos, a + b)
    ensures At(data, pos, a) && At(data, pos + |a|, b)
  {
    assert data[pos..pos + |a|] == data[pos..pos + |a + b|][..|a|];
    assert data[pos + |a|..pos + |a| + |b|] == data[pos..pos + |a + b|][|a|..];
  }

  /** An int written at `pos` reads back as itself; what follows it starts four bytes on. */
  lemma IntThen(data: seq<byte>, pos: nat, x: int, rest: seq<byte>)
    requires IsInt32(x) && At(data, pos, Int32Bytes(x) + rest)
    ensures pos + 4 <= |data| && Int32At(data, pos) == x && At(data, pos + 4, rest)
  {
    AtSplit(data, pos, Int32Bytes(x), rest);
    Int32RoundTrip(data, pos, x);
  }

  /** Two ints written one after the other, then `rest`. */
  lemma IntsThen(data: seq<byte>, pos: nat, x: int, y: int, rest: seq<byte>)
    requires IsInt32(x) && IsInt32(y) && At(data, pos, Int32Bytes(x) + Int32Bytes(y) + rest)
    ensures pos + 8 <= |data| && Int32At(data, pos) == x && Int32At(data, pos + 4) == y && At(data, pos + 8, rest)
  {
    AppendAssoc(Int32Bytes(x), Int32Bytes(y), rest);
    IntThen(data, pos, x, Int32Bytes(y) + rest);
    IntThen(data, pos + 4, y, rest);
  }

  lemma ThreeInts(data: seq<byte>, pos: nat, x: int, y: int, z: int, rest: seq<byte>)
    requires IsInt32(x) && IsInt32(y) && IsInt32(z)
    requires At(data, pos, Int32Bytes(x) + (Int32Bytes(y) + (Int32Bytes(z) + rest)))
    ensures pos + 12 <= |data| && At(data, pos + 12, rest)
    ensures Int32At(data, pos) == x && Int32At(data, pos + 4) == y && Int32At(data, pos + 8) == z
  {
    IntThen(data, pos, x, Int32Bytes(y) + (Int32Bytes(z) + rest));
    IntThen(data, pos + 4, y, Int32Bytes(z) + rest);
    IntThen(data, pos + 8, z, rest);
  }

  /** A tag written by `writeUTF` reads back by `readUTF` as itself. */
  lemma UtfThen(data: seq<byte>, pos: nat, s: string, rest: seq<byte>)
    requires IsTag(s) && At(data, pos, UtfBytes(s) + rest)
    ensures pos + 2 + |s| <= |data| && U16At(data, pos) == |s| && Chars(data[pos + 2..pos + 2 + |s|]) == s
    ensures At(data, pos + 2 + |s|, rest)
  {
    AtSplit(data, pos, UtfBytes(s), rest);
    AtSplit(data, pos, U16Bytes(|s|), BytesOf(s));
    U16RoundTrip(data, pos, |s|);
  }

  /** A stored word reads back as the value it holds. */
  lemma AtValue(data: seq<byte>, pos: nat, kind: ValueKind, lib: Library, v: seq<byte>)
    requires |v| == Width(kind) && At(data, pos, v)
    ensures pos + Width(kind) <= |data| && ValueAt(lib, kind, data, pos) == ValueAt(lib, kind, v, 0)
  {
    assert v[0..|v|] == v;
  }

  lemma TagsAreTags()
    ensures IsTag(T_INT_DENSE) && IsTag(T_INT_SPARSE)
  {
  }

  lemma {:induction false} ValueBytesLength(values: seq<seq<byte>>, kind: ValueKind, k: nat)
    requires Words(values, kind) && k <= |values|
    ensures |ValueBytes(values, k)| == Width(kind) * (|values| - k)
    decreases |values| - k
  {
    if k < |values| {
      ValueBytesLength(values, kind, k + 1);
    }
  }

  /** The fields of a `T_INT_ARBITRARY` row before its body: the row index, the clock, the tag. */
  lemma MixedHeadFields(data: seq<byte>, pos: nat, rowIndex: int, clock: int, tag: string, rest: seq<byte>)
    requires IsInt32(rowIndex) && IsInt32(clock) && IsTag(tag)
    requires At(data, pos, Int32Bytes(rowIndex) + Int32Bytes(clock) + (UtfBytes(tag) + rest))
    ensures pos + 10 + |tag| <= |data| && At(data, pos + 10 + |tag|, rest)
    ensures Int32At(data, pos) == rowIndex && Int32At(data, pos + 4) == clock
    ensures U16At(data, pos + 8) == |tag| && Chars(data[pos + 10..pos + 10 + |tag|]) == tag
  {
    IntsThen(data, pos, rowIndex, clock, UtfBytes(tag) + rest);
    UtfThen(data, pos + 8, tag, rest);
  }

  /** Row `j` of the rows from `j`, and where the next one starts. */
  lemma DenseRowsSplit(data: seq<byte>, pos: nat, rows: seq<DenseRow>, j: nat)
    requires j < |rows| && At(data, pos, DenseRowsBytes(rows, j))
    ensures At(data, pos, DenseRowBytes(rows[j])) && At(data, pos + |DenseRowBytes(rows[j])|, DenseRowsBytes(rows, j + 1))
    ensures |DenseRowsBytes(rows, j)| == |DenseRowBytes(rows[j])| + |DenseRowsBytes(rows, j + 1)|
  {
    AtSplit(data, pos, DenseRowBytes(rows[j]), DenseRowsBytes(rows, j + 1));
  }

  lemma SparseRowsSplit(data: seq<byte>, pos: nat, clockFirst: bool, rows: seq<SparseRow>, j: nat)
    requires j < |rows| && At(data, pos, SparseRowsBytes(clockFirst, rows, j))
    ensures At(data, pos, SparseRowBytes(clockFirst, rows[j]))
    ensures At(data, pos + |SparseRowBytes(clockFirst, rows[j])|, SparseRowsBytes(clockFirst, rows, j + 1))
    ensures |SparseRowsBytes(clockFirst, rows, j)|
            == |SparseRowBytes(clockFirst, rows[j])| + |SparseRowsBytes(clockFirst, rows, j + 1)|
  {
    AtSplit(data, pos, SparseRowBytes(clockFirst, rows[j]), SparseRowsBytes(clockFirst, rows, j + 1));
  }

  lemma MixedRowsSplit(data: seq<byte>, pos: nat, rows: seq<MixedRow>, j: nat)
    requires j < |rows| && At(data, pos, MixedRowsBytes(rows, j))
    ensures At(data, pos, MixedRowBytes(rows[j])) && At(data, pos + |MixedRowBytes(rows[j])|, MixedRowsBytes(rows, j + 1))
    ensures |MixedRowsBytes(rows, j)| == |MixedRowBytes(rows[j])| + |MixedRowsBytes(rows, j + 1)|
  {
    hide MixedRowBytes;
    AtSplit(data, pos, MixedRowBytes(rows[j]), MixedRowsBytes(rows, j + 1));
  }

  // ---------------------------------------------------------------------------------------------
  // Reading back what was written: the decoder on those fields

  /** The entries of a dense row read back from a buffer holding its words. */
  lemma {:induction false} DenseFromEncoded(buf: seq<byte>, kind: ValueKind, lib: Library, g: DenseShape,
                                            values: seq<seq<byte>>, k: nat, off: nat)
    requires Words(values, kind) && g.rowLen == |values| && k <= |values|
    requires IsInt32(g.startCol) && IsInt32(g.startCol + g.rowLen)
    requires At(buf, off, ValueBytes(values, k))
    ensures DenseFrom(buf, kind, lib, g, k, off)
            == Step(DenseEntries(values, kind, lib, g.startCol, k), off + |ValueBytes(values, k)|, Completed)
    decreases |values| - k
  {
    if k < |values| {
      AtSplit(buf, off, values[k], ValueBytes(values, k + 1));
      AtValue(buf, off, kind, lib, values[k]);
      DenseFromEncoded(buf, kind, lib, g, values, k + 1, off + Width(kind));
      var entry := DenseEntryText(g.startCol + k, ValueAt(lib, kind, values[k], 0), k, |values|);
      PrefixOfEmpty(entry, off + |ValueBytes(values, k)|, Completed);
      assert Wrap32(g.startCol + k) == g.startCol + k;
    }
  }

  /** The pairs of a sparse row read back from where they were written: keys as stored, in order. */
  lemma {:induction false} SparseFromEncoded(data: seq<byte>, pos: nat, kind: ValueKind, lib: Library,
                                             pairs: seq<Pair>, k: nat)
    requires PairsFit(pairs, kind) && k <= |pairs|
    requires At(data, pos, PairBytes(pairs, k))
    ensures SparseFrom(data, pos, kind, lib, |pairs|, k)
            == Step(SparseEntries(pairs, kind, lib, k), pos + |PairBytes(pairs, k)|, Completed)
    decreases |pairs| - k
  {
    if k < |pairs| {
      var rest := PairBytes(pairs, k + 1);
      AppendAssoc(Int32Bytes(pairs[k].key), pairs[k].value, rest);
      IntThen(data, pos, pairs[k].key, pairs[k].value + rest);
      AtSplit(data, pos + 4, pairs[k].value, rest);
      AtValue(data, pos + 4, kind, lib, pairs[k].value);
      SparseFromEncoded(data, pos + 4 + Width(kind), kind, lib, pairs, k + 1);
      var entry := SparseEntryText(pairs[k].key, ValueAt(lib, kind, pairs[k].value, 0), k, |pairs|);
      PrefixOfEmpty(entry, pos + |PairBytes(pairs, k)|, Completed);
    }
  }

  /** The shape of the dense rows of a well-formed partition. */
  function Shape(kind: ValueKind, startCol: int, width: int): DenseShape
    requires 0 <= width && IsInt32(Width(kind) * width)
  {
    DenseShape(startCol, width, Width(kind) * width)
  }

  lemma ShapeOfWellformed(kind: ValueKind, f: Frame)
    requires IsInt32(f.startCol) && IsInt32(f.endCol)
    requires 0 <= f.endCol - f.startCol && IsInt32(Width(kind) * (f.endCol - f.startCol))
    ensures BufferBytes(kind, f) >= 0
    ensures ShapeOf(kind, f) == Shape(kind, f.startCol, f.endCol - f.startCol)
  {
  }

  lemma DenseBodyEncoded(data: seq<byte>, pos: nat, kind: ValueKind, lib: Library, g: DenseShape,
                         values: seq<seq<byte>>)
    requires Words(values, kind) && g.rowLen == |values| && g.bytes == Width(kind) * |values|
    requires IsInt32(g.startCol) && IsInt32(g.startCol + g.rowLen)
    requires At(data, pos, ValueBytes(values, 0))
    ensures DenseBody(data, pos, g, kind, lib)
            == Step(DenseEntries(values, kind, lib, g.startCol, 0) + "\n", pos + |ValueBytes(values, 0)|, Completed)
  {
    ValueBytesLength(values, kind, 0);
    var buf := data[pos..pos + g.bytes];
    assert At(buf, 0, ValueBytes(values, 0));
    DenseFromEncoded(buf, kind, lib, g, values, 0, 0);
  }

  lemma SparseBodyEncoded(data: seq<byte>, pos: nat, kind: ValueKind, lib: Library, pairs: seq<Pair>)
    requires PairsFit(pairs, kind) && At(data, pos, PairBytes(pairs, 0))
    ensures SparseBody(data, pos, kind, lib, |pairs|)
            == Step(SparseEntries(pairs, kind, lib, 0) + "\n", pos + |PairBytes(pairs, 0)|, Completed)
  {
    SparseFromEncoded(data, pos, kind, lib, pairs, 0);
  }

  /** Head text followed by a completed body is one completed step. */
  lemma PrefixBody(head: string, body: string, next: nat)
    ensures Prefix(head, Step(body + "\n", next, Completed)) == Step(head + body + "\n", next, Completed)
  {
    AppendAssoc(head, body, "\n");
  }

  lemma DenseRowDecoded(data: seq<byte>, pos: nat, g: DenseShape, kind: ValueKind, lib: Library,
                        rowIndex: int, clock: int, values: seq<seq<byte>>)
    requires pos + 8 <= |data| && Int32At(data, pos) == rowIndex && Int32At(data, pos + 4) == clock
    requires Words(values, kind) && g.rowLen == |values| && g.bytes == Width(kind) * |values|
    requires IsInt32(g.startCol) && IsInt32(g.startCol + g.rowLen)
    requires At(data, pos + 8, ValueBytes(values, 0))
    ensures DenseRowAt(data, pos, g, kind, lib)
            == Step(DenseHead(rowIndex, clock, g.rowLen) + DenseEntries(values, kind, lib, g.startCol, 0) + "\n",
                    pos + 8 + |ValueBytes(values, 0)|, Completed)
  {
    DenseRowHeader(data, pos, g, kind, lib, rowIndex, clock);
    DenseBodyEncoded(data, pos + 8, kind, lib, g, values);
    PrefixBody(DenseHead(rowIndex, clock, g.rowLen), DenseEntries(values, kind, lib, g.startCol, 0),
               pos + 8 + |ValueBytes(values, 0)|);
  }

  /** A row of a dense partition read back from where it was written. */
  lemma DenseRowEncoded(data: seq<byte>, pos: nat, kind: ValueKind, lib: Library, startCol: int, width: int,
                        r: DenseRow)
    requires DenseFits(kind, width, r) && IsInt32(startCol) && IsInt32(startCol + width)
    requires 0 <= width && IsInt32(Width(kind) * width)
    requires At(data, pos, DenseRowBytes(r))
    ensures DenseRowAt(data, pos, Shape(kind, startCol, width), kind, lib)
            == Step(DenseRowText(kind, width, startCol, lib, r), pos + |DenseRowBytes(r)|, Completed)
  {
    IntsThen(data, pos, r.rowIndex, r.clock, ValueBytes(r.values, 0));
    DenseRowDecoded(data, pos, Shape(kind, startCol, width), kind, lib, r.rowIndex, r.clock, r.values);
  }

  lemma SparseRowDecoded(data: seq<byte>, pos: nat, kind: ValueKind, clockFirst: bool, lib: Library,
                         rowIndex: int, clock: int, pairs: seq<Pair>)
    requires pos + 12 <= |data| && Int32At(data, pos + 8) == |pairs|
    requires Int32At(data, if clockFirst then pos + 4 else pos) == rowIndex
    requires Int32At(data, if clockFirst then pos else pos + 4) == clock
    requires PairsFit(pairs, kind) && At(data, pos + 12, PairBytes(pairs, 0))
    ensures SparseRowAt(data, pos, kind, clockFirst, lib)
            == Step(SparseHead(rowIndex, clock, |pairs|) + SparseEntries(pairs, kind, lib, 0) + "\n",
                    pos + 12 + |PairBytes(pairs, 0)|, Completed)
  {
    SparseRowHeader(data, pos, kind, clockFirst, lib, rowIndex, clock, |pairs|);
    SparseBodyEncoded(data, pos + 12, kind, lib, pairs);
    PrefixBody(SparseHead(rowIndex, clock, |pairs|), SparseEntries(pairs, kind, lib, 0), pos + 12 + |PairBytes(pairs, 0)|);
  }

  /** A row of a sparse partition read back from where it was written, in its layout's field order. */
  lemma SparseRowEncoded(data: seq<byte>, pos: nat, kind: ValueKind, clockFirst: bool, lib: Library, r: SparseRow)
    requires SparseFits(kind, r) && At(data, pos, SparseRowBytes(clockFirst, r))
    ensures SparseRowAt(data, pos, kind, clockFirst, lib)
            == Step(SparseRowText(kind, lib, r), pos + |SparseRowBytes(clockFirst, r)|, Completed)
  {
    var first, second := if clockFirst then r.clock else r.rowIndex, if clockFirst then r.rowIndex else r.clock;
    var body := PairBytes(r.pairs, 0);
    IntsThen(data, pos, first, second, Int32Bytes(|r.pairs|) + body);
    IntThen(data, pos + 8, |r.pairs|, body);
    SparseRowDecoded(data, pos, kind, clockFirst, lib, r.rowIndex, r.clock, r.pairs);
  }

  lemma MixedHeadDecoded(data: seq<byte>, pos: nat, lib: Library, g: DenseShape, rowIndex: int, clock: int,
                         tag: string)
    requires pos + 10 + |tag| <= |data|
    requires Int32At(data, pos) == rowIndex && Int32At(data, pos + 4) == clock
    requires U16At(data, pos + 8) == |tag| && Chars(data[pos + 10..pos + 10 + |tag|]) == tag
    ensures ArbitraryRowAt(data, pos, g, lib) == ArbitraryBodyAt(data, pos + 10 + |tag|, g, lib, rowIndex, clock, tag)
  {
    hide ArbitraryRowAt, ArbitraryBodyAt, Chars;
    ArbitraryRowHeader(data, pos, g, lib, rowIndex, clock, pos + 10 + |tag|, tag);
  }

  /** The part of a `T_INT_ARBITRARY` row before its body: the row index, the clock and the tag. */
  lemma MixedHeadEncoded(data: seq<byte>, pos: nat, lib: Library, g: DenseShape, rowIndex: int, clock: int,
                         tag: string, rest: seq<byte>)
    requires IsInt32(rowIndex) && IsInt32(clock) && IsTag(tag)
    requires At(data, pos, Int32Bytes(rowIndex) + Int32Bytes(clock) + (UtfBytes(tag) + rest))
    ensures pos + 10 + |tag| <= |data| && At(data, pos + 10 + |tag|, rest)
    ensures ArbitraryRowAt(data, pos, g, lib) == ArbitraryBodyAt(data, pos + 10 + |tag|, g, lib, rowIndex, clock, tag)
  {
    MixedHeadFields(data, pos, rowIndex, clock, tag, rest);
    MixedHeadDecoded(data, pos, lib, g, rowIndex, clock, tag);
  }

  lemma MixedDenseRowEncoded(data: seq<byte>, pos: nat, lib: Library, g: DenseShape, rowIndex: int, clock: int,
                             values: seq<seq<byte>>)
    requires IsInt32(rowIndex) && IsInt32(clock) && Words(values, IntValue)
    requires g.rowLen == |values| && g.bytes == 4 * |values| && IsInt32(g.startCol) && IsInt32(g.startCol + g.rowLen)
    requires At(data, pos, Int32Bytes(rowIndex) + Int32Bytes(clock) + (UtfBytes(T_INT_DENSE) + ValueBytes(values, 0)))
    ensures ArbitraryRowAt(data, pos, g, lib)
            == Step(ArbitraryDenseHead(rowIndex, clock, g.rowLen, T_INT_DENSE)
                    + DenseEntries(values, IntValue, lib, g.startCol, 0) + "\n",
                    pos + 10 + |T_INT_DENSE| + |ValueBytes(values, 0)|, Completed)
  {
    hide ArbitraryRowAt, ArbitraryBodyAt, DenseBody, DenseEntries, ValueBytes, Int32Bytes, UtfBytes, Words,
         ArbitraryDenseHead, Prefix, At;
    TagsAreTags();
    var p := pos + 10 + |T_INT_DENSE|;
    MixedHeadEncoded(data, pos, lib, g, rowIndex, clock, T_INT_DENSE, ValueBytes(values, 0));
    ArbitraryDenseHeader(data, p, g, lib, rowIndex, clock);
    DenseBodyEncoded(data, p, IntValue, lib, g, values);
    PrefixBody(ArbitraryDenseHead(rowIndex, clock, g.rowLen, T_INT_DENSE),
               DenseEntries(values, IntValue, lib, g.startCol, 0), p + |ValueBytes(values, 0)|);
  }

  /** The sparse body of a `T_INT_ARBITRARY` row: `nnz`, then the row length, then the pairs. */
  lemma MixedSparseBodyEncoded(data: seq<byte>, p: nat, lib: Library, g: DenseShape, rowIndex: int, clock: int,
                               nnz: int, pairs: seq<Pair>)
    requires IsInt32(nnz) && PairsFit(pairs, IntValue)
    requires At(data, p, Int32Bytes(nnz) + Int32Bytes(|pairs|) + PairBytes(pairs, 0))
    ensures ArbitraryBodyAt(data, p, g, lib, rowIndex, clock, T_INT_SPARSE)
            == Step(ArbitrarySparseHead(rowIndex, clock, |pairs|, T_INT_SPARSE, nnz)
                    + SparseEntries(pairs, IntValue, lib, 0) + "\n", p + 8 + |PairBytes(pairs, 0)|, Completed)
  {
    IntsThen(data, p, nnz, |pairs|, PairBytes(pairs, 0));
    MixedSparseBodyDecoded(data, p, lib, g, rowIndex, clock, nnz, pairs);
  }

  lemma MixedSparseBodyDecoded(data: seq<byte>, p: nat, lib: Library, g: DenseShape, rowIndex: int, clock: int,
                               nnz: int, pairs: seq<Pair>)
    requires p + 8 <= |data| && Int32At(data, p) == nnz && Int32At(data, p + 4) == |pairs|
    requires PairsFit(pairs, IntValue) && At(data, p + 8, PairBytes(pairs, 0))
    ensures ArbitraryBodyAt(data, p, g, lib, rowIndex, clock, T_INT_SPARSE)
            == Step(ArbitrarySparseHead(rowIndex, clock, |pairs|, T_INT_SPARSE, nnz)
                    + SparseEntries(pairs, IntValue, lib, 0) + "\n", p + 8 + |PairBytes(pairs, 0)|, Completed)
  {
    ArbitrarySparseHeader(data, p, g, lib, rowIndex, clock, nnz, |pairs|);
    SparseBodyEncoded(data, p + 8, IntValue, lib, pairs);
    PrefixBody(ArbitrarySparseHead(rowIndex, clock, |pairs|, T_INT_SPARSE, nnz), SparseEntries(pairs, IntValue, lib, 0),
               p + 8 + |PairBytes(pairs, 0)|);
  }

  lemma MixedSparseRowEncoded(data: seq<byte>, pos: nat, lib: Library, g: DenseShape, rowIndex: int, clock: int,
                              nnz: int, pairs: seq<Pair>)
    requires IsInt32(rowIndex) && IsInt32(clock) && IsInt32(nnz) && PairsFit(pairs, IntValue)
    requires At(data, pos, Int32Bytes(rowIndex) + Int32Bytes(clock)
                           + (UtfBytes(T_INT_SPARSE) + (Int32Bytes(nnz) + Int32Bytes(|pairs|) + PairBytes(pairs, 0))))
    ensures ArbitraryRowAt(data, pos, g, lib)
            == Step(ArbitrarySparseHead(rowIndex, clock, |pairs|, T_INT_SPARSE, nnz)
                    + SparseEntries(pairs, IntValue, lib, 0) + "\n",
                    pos + 10 + |T_INT_SPARSE| + 8 + |PairBytes(pairs, 0)|, Completed)
  {
    TagsAreTags();
    var rest := Int32Bytes(nnz) + Int32Bytes(|pairs|) + PairBytes(pairs, 0);
    MixedHeadEncoded(data, pos, lib, g, rowIndex, clock, T_INT_SPARSE, rest);
    MixedSparseBodyEncoded(data, pos + 10 + |T_INT_SPARSE|, lib, g, rowIndex, clock, nnz, pairs);
  }

  /** A row of a `T_INT_ARBITRARY` partition read back from where it was written. A row with
      any tag other than the two the decoder knows is its head alone. */
  lemma MixedRowEncoded(data: seq<byte>, pos: nat, lib: Library, startCol: int, width: int, r: MixedRow)
    requires MixedFits(width, r) && IsInt32(startCol) && IsInt32(startCol + width)
    requires 0 <= width && IsInt32(4 * width)
    requires At(data, pos, MixedRowBytes(r))
    ensures ArbitraryRowAt(data, pos, Shape(IntValue, startCol, width), lib)
            == Step(MixedRowText(width, startCol, lib, r), pos + |MixedRowBytes(r)|, Completed)
  {
    hide ArbitraryRowAt, DenseEntries, SparseEntries, ValueBytes, PairBytes, UtfBytes, Int32Bytes;
    var g := Shape(IntValue, startCol, width);
    match r
    case MixedDense(ri, c, values) =>
      MixedDenseRowEncoded(data, pos, lib, g, ri, c, values);
    case MixedSparse(ri, c, nnz, pairs) =>
      MixedSparseRowEncoded(data, pos, lib, g, ri, c, nnz, pairs);
    case MixedOther(ri, c, tag) =>
      MixedHeadEncoded(data, pos, lib, g, ri, c, tag, []);
      assert '%' !in TypeError(tag);
  }

  // ---------------------------------------------------------------------------------------------
  // Reading back what was written: the loops over the rows

  lemma DenseRowsNext(data: seq<byte>, pos: nat, g: DenseShape, kind: ValueKind, lib: Library, rowNum: int, j: nat,
                      text: string, next: nat, restText: string, restNext: nat)
    requires pos <= next <= |data| && j < rowNum
    requires DenseRowAt(data, pos, g, kind, lib) == Step(text, next, Completed)
    requires DenseRowsFrom(data, next, g, kind, lib, rowNum, j + 1) == Step(restText, restNext, Completed)
    ensures DenseRowsFrom(data, pos, g, kind, lib, rowNum, j) == Step(text + restText, restNext, Completed)
  {
  }

  lemma SparseRowsNext(data: seq<byte>, pos: nat, kind: ValueKind, clockFirst: bool, lib: Library, rowNum: int,
                       j: nat, text: string, next: nat, restText: string, restNext: nat)
    requires pos <= next <= |data| && j < rowNum
    requires SparseRowAt(data, pos, kind, clockFirst, lib) == Step(text, next, Completed)
    requires SparseRowsFrom(data, next, kind, clockFirst, lib, rowNum, j + 1) == Step(restText, restNext, Completed)
    ensures SparseRowsFrom(data, pos, kind, clockFirst, lib, rowNum, j) == Step(text + restText, restNext, Completed)
  {
  }

  lemma ArbitraryRowsNext(data: seq<byte>, pos: nat, g: DenseShape, lib: Library, rowNum: int, j: nat,
                          text: string, next: nat, restText: string, restNext: nat)
    requires pos <= next <= |data| && j < rowNum
    requires ArbitraryRowAt(data, pos, g, lib) == Step(text, next, Completed)
    requires ArbitraryRowsFrom(data, next, g, lib, rowNum, j + 1) == Step(restText, restNext, Completed)
    ensures ArbitraryRowsFrom(data, pos, g, lib, rowNum, j) == Step(text + restText, restNext, Completed)
  {
  }

  /** Rows `j` onwards of a dense partition read back from where they were written. */
  lemma {:induction false} DenseRowsEncoded(data: seq<byte>, pos: nat, kind: ValueKind, lib: Library, startCol: int,
                                            width: int, rows: seq<DenseRow>, j: nat)
    requires AllDenseFit(kind, width, rows)
    requires IsInt32(startCol) && IsInt32(startCol + width) && 0 <= width && IsInt32(Width(kind) * width)
    requires j <= |rows| && At(data, pos, DenseRowsBytes(rows, j))
    ensures DenseRowsFrom(data, pos, Shape(kind, startCol, width), kind, lib, |rows|, j)
            == Step(DenseRowsText(kind, width, startCol, lib, rows, j), pos + |DenseRowsBytes(rows, j)|, Completed)
    decreases |rows| - j
  {
    if j < |rows| {
      var next := pos + |DenseRowBytes(rows[j])|;
      DenseRowsSplit(data, pos, rows, j);
      DenseRowEncoded(data, pos, kind, lib, startCol, width, rows[j]);
      DenseRowsEncoded(data, next, kind, lib, startCol, width, rows, j + 1);
      DenseRowsNext(data, pos, Shape(kind, startCol, width), kind, lib, |rows|, j,
                    DenseRowText(kind, width, startCol, lib, rows[j]), next,
                    DenseRowsText(kind, width, startCol, lib, rows, j + 1), next + |DenseRowsBytes(rows, j + 1)|);
    }
  }

  /** Rows `j` onwards of a sparse partition read back from where they were written. */
  lemma {:induction false} SparseRowsEncoded(data: seq<byte>, pos: nat, kind: ValueKind, clockFirst: bool,
                                             lib: Library, rows: seq<SparseRow>, j: nat)
    requires AllSparseFit(kind, rows)
    requires j <= |rows| && At(data, pos, SparseRowsBytes(clockFirst, rows, j))
    ensures SparseRowsFrom(data, pos, kind, clockFirst, lib, |rows|, j)
            == Step(SparseRowsText(kind, lib, rows, j), pos + |SparseRowsBytes(clockFirst, rows, j)|, Completed)
    decreases |rows| - j
  {
    if j < |rows| {
      var next := pos + |SparseRowBytes(clockFirst, rows[j])|;
      SparseRowsSplit(data, pos, clockFirst, rows, j);
      SparseRowEncoded(data, pos, kind, clockFirst, lib, rows[j]);
      SparseRowsEncoded(data, next, kind, clockFirst, lib, rows, j + 1);
      SparseRowsNext(data, pos, kind, clockFirst, lib, |rows|, j, SparseRowText(kind, lib, rows[j]), next,
                     SparseRowsText(kind, lib, rows, j + 1), next + |SparseRowsBytes(clockFirst, rows, j + 1)|);
    }
  }

  /** Rows `j` onwards of a `T_INT_ARBITRARY` partition read back from where they were written. */
  lemma {:induction false} MixedRowsEncoded(data: seq<byte>, pos: nat, lib: Library, startCol: int, width: int,
                                            rows: seq<MixedRow>, j: nat)
    requires AllMixedFit(width, rows)
    requires IsInt32(startCol) && IsInt32(startCol + width) && 0 <= width && IsInt32(4 * width)
    requires j <= |rows| && At(data, pos, MixedRowsBytes(rows, j))
    ensures ArbitraryRowsFrom(data, pos, Shape(IntValue, startCol, width), lib, |rows|, j)
            == Step(MixedRowsText(width, startCol, lib, rows, j), pos + |MixedRowsBytes(rows, j)|, Completed)
    decreases |rows| - j
  {
    hide MixedRowBytes, MixedRowText, MixedFits, ArbitraryRowAt;
    if j < |rows| {
      var next := pos + |MixedRowBytes(rows[j])|;
      MixedRowsSplit(data, pos, rows, j);
      MixedRowEncoded(data, pos, lib, startCol, width, rows[j]);
      MixedRowsEncoded(data, next, lib, startCol, width, rows, j + 1);
      ArbitraryRowsNext(data, pos, Shape(IntValue, startCol, width), lib, |rows|, j,
                        MixedRowText(width, startCol, lib, rows[j]), next,
                        MixedRowsText(width, startCol, lib, rows, j + 1), next + |MixedRowsBytes(rows, j + 1)|);
    }
  }

  /** The columns and the row buffer size of a partition whose dense rows have `width` columns. */
  predicate FrameFits(kind: ValueKind, f: Frame) {
    IsInt32(f.startCol) && IsInt32(f.endCol)
    && 0 <= f.endCol - f.startCol && IsInt32(Width(kind) * (f.endCol - f.startCol))
  }

  lemma DenseRowsOf(data: seq<byte>, pos: nat, kind: ValueKind, lib: Library, f: Frame, rows: Rows)
    requires FrameFits(kind, f) && RowsFit(Dense(kind), f.endCol - f.startCol, rows)
    requires At(data, pos, RowsBytes(false, rows))
    ensures RowsOf(data, pos, f, Dense(kind), lib, Count(rows))
            == Conversion(RowsText(Dense(kind), f.endCol - f.startCol, f.startCol, lib, rows), Completed)
  {
    ShapeOfWellformed(kind, f);
    DenseRowsEncoded(data, pos, kind, lib, f.startCol, f.endCol - f.startCol, rows.dense, 0);
  }

  lemma SparseRowsOf(data: seq<byte>, pos: nat, kind: ValueKind, clockFirst: bool, lib: Library, f: Frame,
                     rows: Rows)
    requires RowsFit(Sparse(kind, clockFirst), f.endCol - f.startCol, rows)
    requires At(data, pos, RowsBytes(clockFirst, rows))
    ensures RowsOf(data, pos, f, Sparse(kind, clockFirst), lib, Count(rows))
            == Conversion(RowsText(Sparse(kind, clockFirst), f.endCol - f.startCol, f.startCol, lib, rows), Completed)
  {
    SparseRowsEncoded(data, pos, kind, clockFirst, lib, rows.sparse, 0);
  }

  lemma MixedRowsOf(data: seq<byte>, pos: nat, lib: Library, f: Frame, rows: Rows)
    requires FrameFits(IntValue, f) && RowsFit(Arbitrary, f.endCol - f.startCol, rows)
    requires At(data, pos, RowsBytes(false, rows))
    ensures RowsOf(data, pos, f, Arbitrary, lib, Count(rows))
            == Conversion(RowsText(Arbitrary, f.endCol - f.startCol, f.startCol, lib, rows), Completed)
  {
    hide ArbitraryRowsFrom, MixedRowsText, MixedRowsBytes, AllMixedFit, ShapeOf, BufferBytes;
    ShapeOfWellformed(IntValue, f);
    MixedRowsEncoded(data, pos, lib, f.startCol, f.endCol - f.startCol, rows.mixed, 0);
  }

  /** The `switch (rowType)` on the rows of an encoded partition: every case reads back all the
      rows that were written, and a row type no case handles reads none. */
  lemma RowsOfEncoded(data: seq<byte>, pos: nat, layout: Layout, f: Frame, lib: Library, rows: Rows)
    requires layout.Dense? || layout.Arbitrary? ==> FrameFits(KindOf(layout), f)
    requires RowsFit(layout, f.endCol - f.startCol, rows) && At(data, pos, RowsBytes(ClockFirst(layout), rows))
    ensures Conversion(RowsText(layout, f.endCol - f.startCol, f.startCol, lib, rows), Completed)
            == RowsOf(data, pos, f, layout, lib, Count(rows))
  {
    match layout
    case Dense(kind) => DenseRowsOf(data, pos, kind, lib, f, rows);
    case Sparse(kind, clockFirst) => SparseRowsOf(data, pos, kind, clockFirst, lib, f, rows);
    case Arbitrary => MixedRowsOf(data, pos, lib, f, rows);
    case Unrecognised =>
  }

  // ---------------------------------------------------------------------------------------------
  // The round trip

  /** The header of a partition file read back as the fields of `p`, with `rows` behind it. */
  predicate HeaderHolds(data: seq<byte>, p: Partition, rows: seq<byte>) {
    var n := |p.rowType|;
    30 + n <= |data|
    && Int32At(data, 0) == p.matrixId && Int32At(data, 4) == p.partSize
    && Int32At(data, 8) == p.startRow && Int32At(data, 12) == p.startCol
    && Int32At(data, 16) == p.endRow && Int32At(data, 20) == p.endCol
    && U16At(data, TAG_AT) == n && Chars(data[TAG_AT + 2..TAG_AT + 2 + n]) == p.rowType
    && Int32At(data, 26 + n) == Count(p.rows)
    && At(data, 30 + n, rows)
  }

  /** The header fields, read back in the order they were written. */
  lemma HeaderEncoded(p: Partition, rows: seq<byte>)
    requires IsInt32(p.matrixId) && IsInt32(p.partSize) && IsInt32(p.startRow) && IsInt32(p.startCol)
    requires IsInt32(p.endRow) && IsInt32(p.endCol) && IsTag(p.rowType) && IsInt32(Count(p.rows))
    ensures HeaderHolds(HeaderBytes(p, rows), p, rows)
  {
    hide Int32Bytes, UtfBytes, Int32At, U16At, Chars;
    var data := HeaderBytes(p, rows);
    var r7 := Int32Bytes(Count(p.rows)) + rows;
    var r6 := UtfBytes(p.rowType) + r7;
    var r3 := Int32Bytes(p.startCol) + (Int32Bytes(p.endRow) + (Int32Bytes(p.endCol) + r6));
    assert data[0..|data|] == data;
    ThreeInts(data, 0, p.matrixId, p.partSize, p.startRow, r3);
    ThreeInts(data, 12, p.startCol, p.endRow, p.endCol, r6);
    UtfThen(data, 24, p.rowType, r7);
    IntThen(data, 26 + |p.rowType|, Count(p.rows), rows);
  }

  /** The header lines the decoder writes are those of the partition whose header it read. */
  lemma HeaderTextOf(data: seq<byte>, p: Partition, rows: seq<byte>)
    requires HeaderHolds(data, p, rows)
    ensures HeaderComplete(data) && RangeInfoOf(data) == RangeInfo(p.rowType, p.startRow, p.startCol, p.endRow, p.endCol)
    ensures HeaderText(data) == HeaderLinesOf(p)
  {
    var m, ps := MatrixIdLine(p.matrixId), PartSizeLine(p.partSize);
    AppendAssoc(m + ps, RangeInfo(p.rowType, p.startRow, p.startCol, p.endRow, p.endCol), "\n");
  }

  /** The conversion of a file whose header reads back as the fields of `p`: the header lines of
      `p`, then the rows case `p`'s row type selects, from just past the header. */
  lemma ConvertOfHeader(data: seq<byte>, p: Partition, rows: seq<byte>, lib: Library)
    requires HeaderHolds(data, p, rows) && '%' !in p.rowType
    ensures Convert(data, lib)
            == Preceded(HeaderLinesOf(p), RowsOf(data, 30 + |p.rowType|, Frame(p.startCol, p.endCol),
                                                 LayoutOf(p.rowType), lib, Count(p.rows)))
  {
    HeaderTextOf(data, p, rows);
    PlainRangeInfo(data, lib);
    ConvertHeader(data, lib);
  }

  /** What a well-formed partition promises the case its row type selects. */
  lemma WellformedRows(p: Partition)
    requires Wellformed(p)
    ensures '%' !in p.rowType
    ensures var layout := LayoutOf(p.rowType);
            && (layout.Dense? || layout.Arbitrary? ==> FrameFits(KindOf(layout), Frame(p.startCol, p.endCol)))
            && RowsFit(layout, p.endCol - p.startCol, p.rows)
  {
  }

  /** A file whose header reads back as a well-formed partition's, with that partition's rows
      behind it, converts to the partition's dump. */
  lemma ConvertFromHeader(data: seq<byte>, p: Partition, lib: Library)
    requires Wellformed(p) && HeaderHolds(data, p, RowsBytes(ClockFirst(LayoutOf(p.rowType)), p.rows))
    ensures Convert(data, lib) == Conversion(Render(p, lib), Completed)
  {
    hide Convert, RowsOf, RowsText, Wellformed, LayoutOf, RowsBytes, FrameFits, RowsFit;
    WellformedRows(p);
    ConvertOfHeader(data, p, RowsBytes(ClockFirst(LayoutOf(p.rowType)), p.rows), lib);
    RowsOfEncoded(data, 30 + |p.rowType|, LayoutOf(p.rowType), Frame(p.startCol, p.endCol), lib, p.rows);
  }

  /** The round trip: the decoder reads the bytes of any well-formed partition into exactly the
      dump of its contents, and the conversion completes (so the task reports success). */
  lemma ConvertEncode(p: Partition, lib: Library)
    requires Wellformed(p)
    ensures Convert(Encode(p), lib) == Conversion(Render(p, lib), Completed)
  {
    HeaderEncoded(p, RowsBytes(ClockFirst(LayoutOf(p.rowType)), p.rows));
    ConvertFromHeader(Encode(p), p, lib);
  }
}
