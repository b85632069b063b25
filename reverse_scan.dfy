/** The reverse byte enumerator of TrimZip.CUI/IOExtensions.cs: a lazy,
    forward-only sequence of (position, byte) pairs running from the byte just
    before the stream's end offset down to the byte at its start offset.

    The bytes are read window by window into one reused buffer of 8 KiB; each
    window is re-seeked before it is read, so whatever else moves the stream's
    cursor between two steps does not disturb the enumeration (Valid() below
    does not depend on the cursor). */
module ReverseScan {
  import opened ZipFormat
  import opened ByteStreams

  /** Capacity of the reused read buffer. */
  const MaxBufferSize: nat := 8 * 1024

  /** One step of the enumeration. ShortRead is the assertion fault raised when
      a window could not be read in full. */
  datatype Step = Item(position: nat, value: byte) | Done | ShortRead

  /** Reference order of the enumeration: the pairs for positions hi - 1 down to lo. */
  function ReverseItems(content: seq<byte>, lo: nat, hi: nat): seq<(nat, byte)>
    requires lo <= hi && (lo < hi ==> hi <= |content|)
    decreases hi - lo
  {
    if lo == hi then [] else ReverseItems(content, lo + 1, hi) + [(lo, content[lo])]
  }

  /** The k-th pair of the enumeration is the byte at position hi - 1 - k: every
      position of [lo, hi) appears once, in descending order. */
  lemma {:induction false} ReverseItemsAt(content: seq<byte>, lo: nat, hi: nat, k: nat)
    requires lo <= hi && (lo < hi ==> hi <= |content|)
    ensures |ReverseItems(content, lo, hi)| == hi - lo
    ensures k < hi - lo ==> ReverseItems(content, lo, hi)[k] == (hi - 1 - k, content[hi - 1 - k])
    decreases hi - lo
  {
    if lo < hi {
      ReverseItemsAt(content, lo + 1, hi, k);
    }
  }

  /** Number of windows read when the cursor starts at pos: each window takes
      min(pos - start, 8 KiB) bytes off the cursor. */
  function WindowCount(start: nat, pos: nat): nat
    requires start <= pos
    decreases pos - start
  {
    if pos == start then 0 else 1 + WindowCount(start, pos - Min(pos - start, MaxBufferSize))
  }

  /** The loop runs ceil((pos - start) / 8 KiB) rounds. */
  lemma {:induction false} WindowCountIsCeiling(start: nat, pos: nat)
    requires start <= pos
    ensures WindowCount(start, pos) == (pos - start + MaxBufferSize - 1) / MaxBufferSize
    decreases pos - start
  {
    if pos - start > MaxBufferSize {
      WindowCountIsCeiling(start, pos - MaxBufferSize);
    }
  }

  class ReverseByteEnumerator {
    const source: RandomInputStream
    const buffer: array<byte>
    /** Cursor: the end of the window being consumed, or of the next one. */
    var pos: nat
    /** First position of the current window. */
    var startPos: nat
    /** Size of the current window. */
    var size: nat
    /** Buffer index of the next byte of the current window; -1 when it is used up. */
    var index: int

    /** Everything yielded so far. */
    ghost var Yielded: seq<(nat, byte)>
    /** Windows read so far. */
    ghost var Rounds: nat

    /** The position the next step yields (start - 1 once the enumeration is over). */
    ghost function Next(): int
      reads this
    {
      startPos + index
    }

    ghost predicate Valid()
      reads this, buffer
    {
      && source.start <= startPos <= pos <= source.end
      && buffer.Length == MaxBufferSize
      && size <= MaxBufferSize
      && -1 <= index < size
      && (index == -1 ==> pos == startPos)
      && (index >= 0 ==>
            && pos == startPos + size
            && size == Min(pos - source.start, MaxBufferSize)
            && pos <= |source.content|
            && forall i :: 0 <= i <= index ==> buffer[i] == source.content[startPos + i])
      && (pos < source.end ==> source.end <= |source.content|)
      && Yielded == ReverseItems(source.content, Next() + 1, source.end)
      && Rounds + WindowCount(source.start, startPos) == WindowCount(source.start, source.end)
    }

    constructor (source: RandomInputStream)
      requires source.start <= source.end
      ensures this.source == source && fresh(buffer)
      ensures Valid() && Next() == source.end - 1 && Yielded == [] && Rounds == 0
    {
      this.source := source;
      buffer := new byte[MaxBufferSize];
      pos := source.end;
      startPos := source.end;
      size := 0;
      index := -1;
      Yielded := [];
      Rounds := 0;
    }

    /** Advances the enumeration by one byte. */
    method MoveNext() returns (r: Step)
      requires Valid()
      modifies this, buffer, source
      ensures var p := old(Next());
        if p < source.start then r == Done
        else if p >= |source.content| then r == ShortRead
        else r == Item(p, source.content[p])
      ensures !r.ShortRead? ==> Valid()
      ensures r.Item? ==> Next() == old(Next()) - 1 && Yielded == old(Yielded) + [(r.position, r.value)]
      ensures r.Done? ==> Next() == old(Next()) && Yielded == old(Yielded)
      ensures r.Done? ==> Yielded == ReverseItems(source.content, source.start, source.end)
      ensures r.Done? ==> Rounds == WindowCount(source.start, source.end)
    {
      if index < 0 {
        if pos <= source.start {
          return Done;
        }
        var ok := FillWindow();
        if !ok {
          return ShortRead;
        }
      }
      r := TakeByte();
    }

    /** Reads the window below the cursor: min(pos - start, 8 KiB) bytes, re-seeking first. */
    method FillWindow() returns (ok: bool)
      requires Valid() && index == -1 && source.start < pos
      modifies this, buffer, source
      ensures ok <==> old(pos) <= |source.content|
      ensures ok ==> Valid() && index >= 0 && Next() == old(Next())
      ensures ok ==> Yielded == old(Yielded) && Rounds == old(Rounds) + 1
    {
      size := Min(pos - source.start, MaxBufferSize);
      startPos := pos - size;
      source.Seek(startPos);
      var got := source.Read(buffer, size);
      ok := got == size;
      if ok {
        index := size - 1;
        Rounds := Rounds + 1;
      }
    }

    /** Yields the next byte of the current window. */
    method TakeByte() returns (r: Step)
      requires Valid() && index >= 0
      modifies this
      ensures Valid() && source.start <= old(Next()) < |source.content|
      ensures r == Item(old(Next()), source.content[old(Next())])
      ensures Next() == old(Next()) - 1 && Yielded == old(Yielded) + [(r.position, r.value)]
      ensures Rounds == old(Rounds)
    {
      r := Item(startPos + index, buffer[index]);
      Yielded := Yielded + [(startPos + index, buffer[index])];
      index := index - 1;
      if index < 0 {
        pos := pos - size;
      }
    }
  }
}
