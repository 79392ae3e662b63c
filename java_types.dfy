/**
 * Java's primitive data as the two core classes use it: bytes, 32-bit two's-complement ints with
 * wrap-around, the big-endian layout `java.io.DataInput` reads, and the decimal text that string
 * concatenation (`"rowNum:" + rowNum`) and `String.valueOf(int)` produce.
 */
module JavaTypes {

  newtype byte = b: int | 0 <= b < 0x100

  const TWO_8: int := 0x100
  const TWO_16: int := 0x1_0000
  const TWO_24: int := 0x100_0000
  const TWO_31: int := 0x8000_0000
  const TWO_32: int := 0x1_0000_0000

  predicate IsInt32(x: int) {
    -TWO_31 <= x < TWO_31
  }

  /** The value Java's `int` arithmetic yields for the mathematical result `x`. */
  function Wrap32(x: int): (r: int)
    ensures IsInt32(r)
    ensures (x - r) % TWO_32 == 0
    ensures IsInt32(x) ==> r == x
  {
    (x + TWO_31) % TWO_32 - TWO_31
  }

  function Pow256(n: nat): (p: nat)
    ensures p > 0
  {
    if n == 0 then 1 else Pow256(n - 1) * TWO_8
  }

  /** The unsigned value of a big-endian byte string. */
  function Unsigned(bs: seq<byte>): (u: nat)
    ensures u < Pow256(|bs|)
  {
    if bs == [] then 0 else Unsigned(bs[..|bs| - 1]) * TWO_8 + bs[|bs| - 1] as int
  }

  lemma UnsignedSnoc(bs: seq<byte>, b: byte)
    ensures Unsigned(bs + [b]) == Unsigned(bs) * TWO_8 + b as int
  {
    assert (bs + [b])[..|bs|] == bs;
  }

  /** `DataInput.readInt`: four bytes, most significant first, two's complement. */
  function Int32At(data: seq<byte>, pos: nat): (v: int)
    requires pos + 4 <= |data|
    ensures IsInt32(v)
  {
    var u := Unsigned(data[pos..pos + 4]);
    assert Pow256(4) == TWO_32;
    if u >= TWO_31 then u - TWO_32 else u
  }

  /** `DataInput.readUnsignedShort`, the length prefix of `readUTF`. */
  function U16At(data: seq<byte>, pos: nat): (v: nat)
    requires pos + 2 <= |data|
    ensures v < TWO_16
  {
    assert Pow256(2) == TWO_16;
    Unsigned(data[pos..pos + 2])
  }

  /** The low `n` bytes of `u`, most significant first: what `DataOutput` writes. */
  function BigEndian(u: nat, n: nat): (bs: seq<byte>)
    ensures |bs| == n
  {
    if n == 0 then [] else BigEndian(u / TWO_8, n - 1) + [(u % TWO_8) as byte]
  }

  /** `DataOutput.writeInt`: the low 32 bits of `x`. */
  function Int32Bytes(x: int): (bs: seq<byte>)
    ensures |bs| == 4
  {
    BigEndian(x % TWO_32, 4)
  }

  /** `DataOutput.writeShort`: the low 16 bits of `n`. */
  function U16Bytes(n: nat): (bs: seq<byte>)
    ensures |bs| == 2
  {
    BigEndian(n, 2)
  }

  /** Reading back `n` bytes written for a value that fits in them yields the value. */
  lemma {:induction false} BigEndianRoundTrip(u: nat, n: nat)
    requires u < Pow256(n)
    ensures Unsigned(BigEndian(u, n)) == u
  {
    if n > 0 {
      var q, r := u / TWO_8, u % TWO_8;
      assert q < Pow256(n - 1);
      BigEndianRoundTrip(q, n - 1);
      UnsignedSnoc(BigEndian(q, n - 1), r as byte);
    }
  }

  /** Reading an int back at the place it was written yields it. */
  lemma Int32RoundTrip(data: seq<byte>, pos: nat, x: int)
    requires IsInt32(x)
    requires pos + 4 <= |data| && data[pos..pos + 4] == Int32Bytes(x)
    ensures Int32At(data, pos) == x
  {
    BigEndianRoundTrip(x % TWO_32, 4);
    assert Pow256(4) == TWO_32;
  }

  lemma U16RoundTrip(data: seq<byte>, pos: nat, n: nat)
    requires n < TWO_16
    requires pos + 2 <= |data| && data[pos..pos + 2] == U16Bytes(n)
    ensures U16At(data, pos) == n
  {
    BigEndianRoundTrip(n, 2);
    assert Pow256(2) == TWO_16;
  }

  /** The characters a byte string stands for, one per byte (a tag spelled in ASCII). */
  function Chars(bs: seq<byte>): (s: string)
    ensures |s| == |bs|
    ensures forall i :: 0 <= i < |bs| ==> s[i] as int == bs[i] as int
  {
    if bs == [] then [] else [bs[0] as int as char] + Chars(bs[1..])
  }

  predicate IsByteString(s: string) {
    forall i :: 0 <= i < |s| ==> s[i] as int < TWO_8
  }

  /** The bytes a producer writes for a tag, one per character (its low eight bits). */
  function BytesOf(s: string): (bs: seq<byte>)
    ensures |bs| == |s|
    ensures IsByteString(s) ==> Chars(bs) == s
  {
    if s == [] then []
    else
      var bs := [(s[0] as int % TWO_8) as byte] + BytesOf(s[1..]);
      assert bs[1..] == BytesOf(s[1..]);
      assert IsByteString(s) ==> IsByteString(s[1..]) && s[0] as int < TWO_8;
      bs
  }

  // ---------------------------------------------------------------------------------------------
  // Decimal text of an int, as Java's Integer.toString writes it

  function DigitChar(d: nat): (c: char)
    requires d < 10
    ensures '0' <= c <= '9' && c as int - '0' as int == d
  {
    (d + '0' as int) as char
  }

  /** `Integer.toString(i)`: a minus sign for a negative value, then the digits, most
      significant first, without leading zeros. */
  function IntToString(i: int): string
    decreases if i < 0 then 1 - i else i
  {
    if i < 0 then "-" + IntToString(-i)
    else if i < 10 then [DigitChar(i)]
    else IntToString(i / 10) + [DigitChar(i % 10)]
  }

  /** Reads a string of decimal digits back to its value: the partner of `IntToString` on naturals. */
  function ParseNat(s: string): nat
    decreases |s|
  {
    if s == [] then 0
    else
      var d := s[|s| - 1] as int - '0' as int;
      ParseNat(s[..|s| - 1]) * 10 + (if 0 <= d then d else 0)
  }

  function ParseInt(s: string): int {
    if |s| > 0 && s[0] == '-' then 0 - ParseNat(s[1..]) as int else ParseNat(s)
  }

  /** The text of a non-negative value is a non-empty run of digits. */
  lemma {:induction false} DigitsOnly(n: nat)
    ensures |IntToString(n)| >= 1
    ensures forall i :: 0 <= i < |IntToString(n)| ==> '0' <= IntToString(n)[i] <= '9'
    decreases n
  {
    if n >= 10 {
      DigitsOnly(n / 10);
    }
  }

  /** The text of an int is a minus sign and digits: it has no `%` in it. */
  lemma PlainInt(i: int)
    ensures '%' !in IntToString(i)
  {
    var n := if i < 0 then -i else i;
    DigitsOnly(n);
    if i < 0 {
      assert IntToString(i) == "-" + IntToString(n);
    }
  }

  lemma {:induction false} NatRoundTrip(n: nat)
    ensures ParseNat(IntToString(n)) == n
    decreases n
  {
    if n >= 10 {
      var s := IntToString(n);
      assert s[..|s| - 1] == IntToString(n / 10);
      NatRoundTrip(n / 10);
    }
  }

  /** Java's decimal text determines the int it was made from. */
  lemma IntRoundTrip(i: int)
    ensures ParseInt(IntToString(i)) == i
  {
    if i < 0 {
      DigitsOnly(-i);
      assert IntToString(i)[1..] == IntToString(-i);
      NatRoundTrip(-i);
    } else {
      DigitsOnly(i);
      NatRoundTrip(i);
    }
  }

  /** Distinct ints have distinct texts: the output files `String.valueOf(i)` never collide. */
  lemma IntToStringInjective(a: int, b: int)
    requires a != b
    ensures IntToString(a) != IntToString(b)
  {
    IntRoundTrip(a);
    IntRoundTrip(b);
  }
}
