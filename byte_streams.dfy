/** The random-access byte stream the trimmer reads through: a source with a start
    offset, an end offset and a read cursor that Seek moves and reads advance.
    The stream's implementation lives in a library that is not part of this model;
    this class states the behaviour the core relies on.

    `content` holds the bytes really present. `end` is the end offset the stream
    reports. For a file opened normally the two agree; a file cut short behind
    the reader's back has `end > |content|`, and reads then come back short. */
module ByteStreams {
  import opened ZipFormat

  class RandomInputStream {
    const content: seq<byte>
    const start: nat
    const end: nat
    var position: nat

    constructor (content: seq<byte>, start: nat, end: nat)
      requires start <= end
      ensures this.content == content && this.start == start && this.end == end
      ensures position == start
    {
      this.content := content;
      this.start := start;
      this.end := end;
      position := start;
    }

    /** How many of `count` bytes a read at `at` can deliver. */
    function Readable(at: nat, count: nat): (n: nat)
      ensures n <= count
      ensures n > 0 ==> at + n <= |content|
      ensures n == count <==> count == 0 || at + count <= |content|
    {
      if at >= |content| then 0 else Min(count, |content| - at)
    }

    method Seek(at: nat)
      modifies this
      ensures position == at
    {
      position := at;
    }

    /** Fills buffer[0 .. got) from the cursor and advances the cursor by got. */
    method Read(buffer: array<byte>, count: nat) returns (got: nat)
      requires count <= buffer.Length
      modifies this, buffer
      ensures got == Readable(old(position), count)
      ensures position == old(position) + got
      ensures forall i :: 0 <= i < got ==> buffer[i] == content[old(position) + i]
      ensures forall i :: got <= i < buffer.Length ==> buffer[i] == old(buffer[i])
    {
      got := Readable(position, count);
      var i := 0;
      while i < got
        invariant 0 <= i <= got
        invariant position == old(position)
        invariant forall k :: 0 <= k < i ==> buffer[k] == content[position + k]
        invariant forall k :: i <= k < buffer.Length ==> buffer[k] == old(buffer[k])
      {
        buffer[i] := content[position + i];
        i := i + 1;
      }
      position := position + got;
    }

    /** Reads up to `count` bytes from the cursor into a fresh block. */
    method ReadBytes(count: nat) returns (bytes: seq<byte>)
      modifies this
      ensures |bytes| == Readable(old(position), count)
      ensures forall i :: 0 <= i < |bytes| ==> bytes[i] == content[old(position) + i]
      ensures position == old(position) + |bytes|
    {
      var n := Readable(position, count);
      bytes := if n == 0 then [] else content[position .. position + n];
      position := position + n;
    }
  }
}
