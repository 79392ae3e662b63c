/**
 * `ByteBufferInputStream`: an input stream over a list of byte buffers. Each buffer has the bytes
 * up to its limit and its own read position; the stream reads from the first buffer, at or after
 * `current`, that still has bytes left, and never reads across a buffer boundary in one call.
 */
module ByteBuffers {
  import opened JavaTypes
  import opened Results
  import opened Sequences

  /** The state of one `java.nio.ByteBuffer`: its bytes up to the limit and its position. */
  datatype ByteBuffer = ByteBuffer(data: seq<byte>, position: nat)

  type Buffer = b: ByteBuffer | b.position <= |b.data| witness ByteBuffer([], 0)

  /** The exceptions the stream's methods throw. */
  datatype StreamError =
    | EOF               // java.io.EOFException
    | IndexOutOfBounds  // from ByteBuffer.get(byte[], int, int)
    | IllegalArgument   // from ByteBuffer.allocate with a negative capacity

  function Remaining(b: Buffer): nat {
    |b.data| - b.position
  }

  /** The bytes `get` would still return from `b`. */
  function Rest(b: Buffer): (r: seq<byte>)
    ensures |r| == Remaining(b)
  {
    b.data[b.position..]
  }

  /** `b` after `get` of `n` bytes. */
  function Advance(b: Buffer, n: nat): (r: Buffer)
    requires n <= Remaining(b)
    ensures r.data == b.data && Remaining(r) == Remaining(b) - n
  {
    ByteBuffer(b.data, b.position + n)
  }

  /** The bytes the stream still holds from buffer `i` on: the remainders, concatenated in list order. */
  function Pending(bufs: seq<Buffer>, i: nat): seq<byte>
    decreases |bufs| - i
  {
    if i >= |bufs| then [] else Rest(bufs[i]) + Pending(bufs, i + 1)
  }

  /** The index of the first buffer at or after `i` with bytes left, or `|bufs|` if there is none. */
  function FirstNonEmpty(bufs: seq<Buffer>, i: nat): (r: nat)
    requires i <= |bufs|
    ensures i <= r <= |bufs|
    ensures forall k :: i <= k < r ==> Remaining(bufs[k]) == 0
    ensures r < |bufs| ==> Remaining(bufs[r]) > 0
    decreases |bufs| - i
  {
    if i == |bufs| || Remaining(bufs[i]) > 0 then i else FirstNonEmpty(bufs, i + 1)
  }

  /** Exhausted buffers contribute nothing: the stream's bytes start at the first non-empty one. */
  lemma {:induction false} PendingSkipsEmpty(bufs: seq<Buffer>, i: nat)
    requires i <= |bufs|
    ensures Pending(bufs, i) == Pending(bufs, FirstNonEmpty(bufs, i))
    decreases |bufs| - i
  {
    if i < |bufs| && Remaining(bufs[i]) == 0 {
      PendingSkipsEmpty(bufs, i + 1);
    }
  }

  /** The stream is exhausted exactly when every buffer from `i` on is. */
  lemma PendingEmpty(bufs: seq<Buffer>, i: nat)
    requires i <= |bufs|
    ensures Pending(bufs, i) == [] <==> FirstNonEmpty(bufs, i) == |bufs|
  {
    PendingSkipsEmpty(bufs, i);
  }

  /** Changing buffer `i` leaves the bytes pending after it alone. */
  lemma {:induction false} PendingAfterUpdate(bufs: seq<Buffer>, i: nat, b: Buffer, j: nat)
    requires i < |bufs| && i < j
    ensures Pending(bufs[i := b], j) == Pending(bufs, j)
    decreases |bufs| - j
  {
    if j < |bufs| {
      PendingAfterUpdate(bufs, i, b, j + 1);
    }
  }

  /** Conservation: a `get` of `n` bytes from the first non-empty buffer takes exactly the first
      `n` bytes of the stream, and the stream holds the rest. */
  lemma PendingAfterGet(bufs: seq<Buffer>, i: nat, n: nat)
    requires i <= |bufs|
    requires FirstNonEmpty(bufs, i) < |bufs|
    requires n <= Remaining(bufs[FirstNonEmpty(bufs, i)])
    ensures var f := FirstNonEmpty(bufs, i);
            Pending(bufs, i) == Rest(bufs[f])[..n] + Pending(bufs[f := Advance(bufs[f], n)], f)
  {
    var f := FirstNonEmpty(bufs, i);
    var b := Advance(bufs[f], n);
    var after := bufs[f := b];
    var rest := Rest(bufs[f]);
    PendingSkipsEmpty(bufs, i);
    assert Pending(bufs, f) == rest + Pending(bufs, f + 1);
    assert Pending(after, f) == Rest(b) + Pending(after, f + 1);
    PendingAfterUpdate(bufs, f, b, f + 1);
    assert Rest(b) == rest[n..];
    SplitAt(rest, n);
    AppendAssoc(rest[..n], rest[n..], Pending(bufs, f + 1));
  }

  /** Conservation for the zero-copy path of `readBuffer`: stepping past the first non-empty
      buffer drops its remainder from the front of the stream. */
  lemma PendingAfterSkip(bufs: seq<Buffer>, i: nat)
    requires i <= |bufs|
    requires FirstNonEmpty(bufs, i) < |bufs|
    ensures var f := FirstNonEmpty(bufs, i);
            Pending(bufs, i) == Rest(bufs[f]) + Pending(bufs, f + 1)
  {
    PendingSkipsEmpty(bufs, i);
  }

  /** `b` holds the same buffers as `a`, in the same order, each with the same bytes: reading
      moves positions and nothing else. */
  ghost predicate SameBuffers(a: seq<Buffer>, b: seq<Buffer>) {
    |a| == |b| && forall k :: 0 <= k < |a| ==> a[k].data == b[k].data
  }

  class ByteBufferInputStream {
    var buffers: seq<Buffer>
    var current: nat

    ghost predicate Valid()
      reads this
    {
      current <= |buffers|
    }

    /** Every byte the stream can still deliver, in order. */
    ghost function Contents(): seq<byte>
      reads this
    {
      Pending(buffers, current)
    }

    constructor (buffers: seq<Buffer>)
      ensures Valid()
      ensures this.buffers == buffers && current == 0
    {
      this.buffers := buffers;
      current := 0;
    }

    /** `getBuffer()`: moves `current` past exhausted buffers and returns the index of the first
        buffer with bytes left, or EOF when none is left. */
    method GetBuffer() returns (r: Result<nat, StreamError>)
      requires Valid()
      modifies this`current
      ensures Valid()
      ensures current == FirstNonEmpty(buffers, old(current))
      ensures r == if current < |buffers| then Success(current) else Failure(EOF)
      ensures Contents() == old(Contents())
    {
      while current < |buffers|
        invariant old(current) <= current <= |buffers|
        invariant FirstNonEmpty(buffers, current) == FirstNonEmpty(buffers, old(current))
        decreases |buffers| - current
      {
        if Remaining(buffers[current]) > 0 {
          PendingSkipsEmpty(buffers, old(current));
          return Success(current);
        }
        current := current + 1;
      }
      PendingSkipsEmpty(buffers, old(current));
      return Failure(EOF);
    }

    /** `read()`: the next byte as an unsigned value (`get() & 0xff`), or EOF. */
    method Read() returns (r: Result<int, StreamError>)
      requires Valid()
      modifies this
      ensures Valid()
      ensures current == FirstNonEmpty(old(buffers), old(current))
      ensures old(Contents()) == [] <==> r == Failure(EOF)
      ensures r.Failure? ==> buffers == old(buffers) && Contents() == []
      ensures r.Success? ==>
                current < |old(buffers)| &&
                0 <= r.value <= 255 &&
                r.value == old(Contents())[0] as int &&
                buffers == old(buffers)[current := Advance(old(buffers)[current], 1)] &&
                Contents() == old(Contents())[1..]
    {
      PendingEmpty(buffers, current);
      var g := GetBuffer();
      if g.Failure? {
        return Failure(EOF);
      }
      var i := g.value;
      PendingAfterGet(buffers, old(current), 1);
      PendingEmpty(buffers, old(current));
      r := Success(Rest(buffers[i])[0] as int);
      buffers := buffers[i := Advance(buffers[i], 1)];
    }

    /** `read(b, off, len)`: copies at most `len` bytes, all from one buffer, into `b[off..]`;
        returns how many. A zero `len` reads nothing, even at end of stream. */
    method ReadInto(b: array<byte>, off: int, len: int) returns (r: Result<int, StreamError>)
      requires Valid()
      modifies this, b
      ensures Valid()
      ensures len == 0 ==> r == Success(0) && buffers == old(buffers) && current == old(current) && b[..] == old(b[..])
      ensures len != 0 ==> current == FirstNonEmpty(old(buffers), old(current))
      ensures len != 0 && old(Contents()) == [] ==> r == Failure(EOF)
      ensures r.Failure? ==> buffers == old(buffers) && b[..] == old(b[..])
      ensures r == Failure(EOF) ==> Contents() == []
      ensures len != 0 && old(Contents()) != [] ==>
                current < |old(buffers)| &&
                var n := if len > Remaining(old(buffers)[current]) then Remaining(old(buffers)[current]) else len;
                if off < 0 || n < 0 || off + n > b.Length then r == Failure(IndexOutOfBounds)
                else
                  var got := Rest(old(buffers)[current])[..n];
                  r == Success(n) && (len > 0 ==> 1 <= n <= len) &&
                  buffers == old(buffers)[current := Advance(old(buffers)[current], n)] &&
                  b[..] == old(b[..off]) + got + old(b[off + n..]) &&
                  old(Contents()) == got + Contents()
    {
      if len == 0 {
        return Success(0);
      }
      PendingEmpty(buffers, current);
      var g := GetBuffer();
      if g.Failure? {
        return Failure(EOF);
      }
      var i := g.value;
      PendingEmpty(buffers, old(current));
      var remaining := Remaining(buffers[i]);
      var n := if len > remaining then remaining else len;
      if off < 0 || n < 0 || off + n > b.Length {
        return Failure(IndexOutOfBounds);
      }
      PendingAfterGet(buffers, old(current), n);
      CopyInto(b, off, Rest(buffers[i])[..n]);
      buffers := buffers[i := Advance(buffers[i], n)];
      return Success(n);
    }

    /** `readBuffer(length)`: the next `length` bytes of the stream. When the first non-empty buffer
        holds exactly `length` bytes it is handed out whole and `current` moves past it; otherwise
        the bytes are copied, one `read` at a time, into a new buffer. */
    method ReadBuffer(length: int) returns (r: Result<seq<byte>, StreamError>)
      requires Valid()
      modifies this
      ensures Valid()
      ensures length == 0 ==> r == Success([]) && buffers == old(buffers) && current == old(current)
      ensures length != 0 && old(Contents()) == [] ==> r == Failure(EOF)
      ensures length < 0 && old(Contents()) != [] ==> r == Failure(IllegalArgument)
      ensures r == Failure(IllegalArgument) ==>
                buffers == old(buffers) && current == FirstNonEmpty(old(buffers), old(current))
                && Contents() == old(Contents())
      ensures SameBuffers(old(buffers), buffers)
      ensures length > 0 ==> (r.Success? <==> length <= |old(Contents())|)
      ensures length > 0 && r.Success? ==>
                r.value == old(Contents())[..length] && Contents() == old(Contents())[length..]
      ensures length > 0 && r.Failure? ==> r == Failure(EOF) && Contents() == []
      ensures length != 0 ==>
              var f := FirstNonEmpty(old(buffers), old(current));
              f < |old(buffers)| && Remaining(old(buffers)[f]) == length ==>
                current == f + 1 && buffers == old(buffers)
    {
      if length == 0 {
        return Success([]);
      }
      PendingEmpty(buffers, current);
      var g := GetBuffer();
      if g.Failure? {
        return Failure(EOF);
      }
      var i := g.value;
      if Remaining(buffers[i]) == length {
        PendingAfterSkip(buffers, old(current));
        current := current + 1;
        return Success(Rest(buffers[i]));
      }
      if length < 0 {
        PendingSkipsEmpty(buffers, old(current));
        return Failure(IllegalArgument);
      }
      var result := new byte[length];
      var ok := Fill(result);
      if !ok {
        return Failure(EOF);
      }
      return Success(result[..]);
    }

    /** The copying loop of `readBuffer`: `read` into `dst` until it is full. It fails, with EOF,
        only when the stream runs dry first. */
    method Fill(dst: array<byte>) returns (ok: bool)
      requires Valid()
      modifies this, dst
      ensures Valid()
      ensures ok <==> dst.Length <= |old(Contents())|
      ensures ok ==> dst[..] == old(Contents())[..dst.Length] && Contents() == old(Contents())[dst.Length..]
      ensures !ok ==> Contents() == []
      ensures SameBuffers(old(buffers), buffers)
    {
      ghost var all := Contents();
      var start := 0;
      while start < dst.Length
        invariant Valid()
        invariant 0 <= start <= dst.Length
        invariant start <= |all|
        invariant dst[..start] == all[..start]
        invariant Contents() == all[start..]
        invariant SameBuffers(old(buffers), buffers)
        decreases dst.Length - start
      {
        var n := ReadInto(dst, start, dst.Length - start);
        if n.Failure? {
          return false;
        }
        SplitAt(all[start..], n.value);
        assert all[start..][n.value..] == all[start + n.value..];
        start := start + n.value;
      }
      assert dst[..] == dst[..start];
      return true;
    }
  }

  /** `ByteBuffer.get(dst, off, n)`: the bulk copy of `src` into `dst` at `off`. */
  method CopyInto(dst: array<byte>, off: nat, src: seq<byte>)
    requires off + |src| <= dst.Length
    modifies dst
    ensures dst[..] == old(dst[..off]) + src + old(dst[off + |src|..])
  {
    var k := 0;
    while k < |src|
      invariant 0 <= k <= |src|
      invariant forall j :: 0 <= j < off ==> dst[j] == old(dst[j])
      invariant forall j :: 0 <= j < k ==> dst[off + j] == src[j]
      invariant forall j :: off + k <= j < dst.Length ==> dst[j] == old(dst[j])
    {
      dst[off + k] := src[k];
      k := k + 1;
    }
    ghost var want := old(dst[..off]) + src + old(dst[off + |src|..]);
    forall j | 0 <= j < dst.Length
      ensures dst[j] == want[j]
    {
      if off <= j < off + |src| {
        assert dst[off + (j - off)] == src[j - off];
      }
    }
  }
}
