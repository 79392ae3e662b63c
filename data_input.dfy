/**
 * The `FSDataInputStream` a conversion task reads its partition file through: a cursor over the
 * file's bytes with the `java.io.DataInput` readers the task uses. A read past the end of the file
 * fails (an `EOFException`) after consuming what was left.
 */
module DataInput {
  import opened JavaTypes
  import opened Results

  class DataInputStream {
    const data: seq<byte>
    var pos: nat

    ghost predicate Valid()
      reads this
    {
      pos <= |data|
    }

    constructor (data: seq<byte>)
      ensures Valid() && this.data == data && pos == 0
    {
      this.data := data;
      pos := 0;
    }

    /** `readInt()`. */
    method ReadInt() returns (r: Option<int>)
      requires Valid()
      modifies this
      ensures Valid()
      ensures old(pos) + 4 <= |data| ==> r == Some(Int32At(data, old(pos))) && pos == old(pos) + 4
      ensures old(pos) + 4 > |data| ==> r == None && pos == |data|
    {
      if pos + 4 > |data| {
        pos := |data|;
        return None;
      }
      r := Some(Int32At(data, pos));
      pos := pos + 4;
    }

    /** `readFully(b, 0, n)`; also `readDouble()` (n = 8), whose bytes are kept as they are. */
    method ReadFully(n: nat) returns (r: Option<seq<byte>>)
      requires Valid()
      modifies this
      ensures Valid()
      ensures old(pos) + n <= |data| ==> r == Some(data[old(pos)..old(pos) + n]) && pos == old(pos) + n
      ensures old(pos) + n > |data| ==> r == None && pos == |data|
    {
      if pos + n > |data| {
        pos := |data|;
        return None;
      }
      r := Some(data[pos..pos + n]);
      pos := pos + n;
    }

    /** `readUTF()`: an unsigned 16-bit length, then that many bytes of text. */
    method ReadUTF() returns (r: Option<string>)
      requires Valid()
      modifies this
      ensures Valid()
      ensures old(pos) + 2 <= |data| && old(pos) + 2 + U16At(data, old(pos)) <= |data| ==>
                r == Some(Chars(data[old(pos) + 2..old(pos) + 2 + U16At(data, old(pos))])) &&
                pos == old(pos) + 2 + U16At(data, old(pos))
      ensures old(pos) + 2 > |data| || old(pos) + 2 + U16At(data, old(pos)) > |data| ==>
                r == None && pos == |data|
    {
      if pos + 2 > |data| {
        pos := |data|;
        return None;
      }
      var length := U16At(data, pos);
      pos := pos + 2;
      var payload := ReadFully(length);
      if payload.None? {
        return None;
      }
      r := Some(Chars(payload.value));
    }
  }
}
