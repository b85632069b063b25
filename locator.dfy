/** EnumerateLengthOfZipFile and CheckSignature of TrimZip/TrimZipApplication.cs:
    the backward search for the End of Central Directory Record, driven by the
    reverse byte enumerator, with the 4-slot window shifted in place. */
module EocdrLocator {
  import opened ZipFormat
  import opened ByteStreams
  import opened ReverseScan
  import opened Eocdr

  /** The signature test on the window: slot 3 holds the newest byte, at the lowest
      offset, so the slots read 06 05 4B 50 from oldest to newest. */
  function CheckSignature(window: seq<(nat, byte)>): bool
    requires |window| == 4
  {
    window[0].1 == 0x06 && window[1].1 == 0x05 && window[2].1 == 0x4B && window[3].1 == 0x50
  }

  /** The window after the bytes at positions p + 3, p + 2, p + 1 and p were pulled. */
  predicate IsWindowAt(f: seq<byte>, window: seq<(nat, byte)>, p: nat)
  {
    |window| == 4 && p + 4 <= |f| && forall k :: 0 <= k < 4 ==> window[k] == (p + 3 - k, f[p + 3 - k])
  }

  /** The window matches exactly when the signature starts at the position in slot 3. */
  lemma WindowMatchIsSignature(f: seq<byte>, window: seq<(nat, byte)>, p: nat)
    requires IsWindowAt(f, window, p)
    ensures CheckSignature(window) <==> SignatureAt(f, p)
  {
    assert window[0] == (p + 3, f[p + 3]) && window[1] == (p + 2, f[p + 2]);
    assert window[2] == (p + 1, f[p + 1]) && window[3] == (p, f[p]);
  }

  /** The guard of the leading-zero skip, as written: it tests slot 0 against both 0
      and 3, so it never holds and the skip loop behind it never runs. */
  function LeadingZeroGuard(window: seq<(nat, byte)>): (r: bool)
    requires |window| == 4
    ensures !r
  {
    window[0].1 == 0 && window[1].1 == 0 && window[2].1 == 0 && window[0].1 == 3
  }

  /** The allZero loop: no byte of the trailer from `from` to its end is non-zero. */
  method AllZeroFrom(trailer: seq<byte>, from: nat) returns (allZero: bool)
    ensures allZero <==> forall i :: from <= i < |trailer| ==> trailer[i] == 0
  {
    allZero := true;
    var index := from;
    while index < |trailer|
      invariant allZero <==> forall i :: from <= i < index && i < |trailer| ==> trailer[i] == 0
    {
      if trailer[index] != 0 {
        allZero := false;
      }
      index := index + 1;
    }
  }

  /** Reads the bytes from a matched signature to the end of the file and validates them. */
  method ValidateCandidate(stream: RandomInputStream, positionOfEocdr: nat) returns (v: TrailerVerdict)
    requires stream.end == |stream.content| && positionOfEocdr + 4 <= stream.end
    requires SignatureAt(stream.content, positionOfEocdr)
    modifies stream
    ensures v == ValidateTrailer(stream.content[positionOfEocdr..])
  {
    stream.Seek(positionOfEocdr);
    var eocdrBufferLength := stream.end - positionOfEocdr;
    var eocdrBuffer := stream.ReadBytes(stream.end - positionOfEocdr);
    assert eocdrBuffer == stream.content[positionOfEocdr..];
    // the length and signature assertions of the source always hold here
    assert |eocdrBuffer| == eocdrBufferLength;
    assert eocdrBuffer[0] == 0x50 && eocdrBuffer[1] == 0x4B && eocdrBuffer[2] == 0x05 && eocdrBuffer[3] == 0x06;
    if |eocdrBuffer| < FixedEocdrLength {
      return TooShort;
    }
    var commentLength := U16LE(eocdrBuffer, 20);
    var lengthOfEocdr := FixedEocdrLength + commentLength;
    var allZero := AllZeroFrom(eocdrBuffer, lengthOfEocdr);
    if allZero {
      return Accepted(lengthOfEocdr);
    }
    return Rejected;
  }

  /** The locator over a file image: yields the logical length of the archive, nothing,
      or the fault raised by a candidate too close to the end. */
  method EnumerateLengthOfZipFile(file: seq<byte>) returns (r: Located)
    ensures r == Locate(file)
  {
    var inStream := new RandomInputStream(file, 0, |file|);
    var signatureBuffer := new (nat, byte)[4];
    var enumerator := new ReverseByteEnumerator(inStream);
    var full := FillWindowSlots(file, enumerator, signatureBuffer);
    if !full {
      // fewer than 4 bytes: too short to be a ZIP file
      return NotFound;
    }
    if LeadingZeroGuard(signatureBuffer[..]) {
      // the skip of leading zeros is unreachable as written
      assert false;
    }
    r := SearchSignature(file, enumerator, signatureBuffer);
  }

  /** Pulls the last four bytes of the file into the window, newest last. */
  method FillWindowSlots(file: seq<byte>, enumerator: ReverseByteEnumerator, signatureBuffer: array<(nat, byte)>)
    returns (full: bool)
    requires signatureBuffer.Length == 4
    requires enumerator.Valid() && enumerator.Next() == |file| - 1
    requires enumerator.source.content == file && enumerator.source.start == 0 && enumerator.source.end == |file|
    modifies enumerator, enumerator.buffer, enumerator.source, signatureBuffer
    ensures full <==> |file| >= 4
    ensures full ==> enumerator.Valid() && enumerator.Next() == |file| - 5
    ensures full ==> IsWindowAt(file, signatureBuffer[..], |file| - 4)
  {
    var n := |file|;
    var index := 0;
    while index < 4
      invariant 0 <= index <= 4 && index <= n
      invariant enumerator.Valid() && enumerator.Next() == n - 1 - index
      invariant forall k :: 0 <= k < index ==> signatureBuffer[k] == (n - 1 - k, file[n - 1 - k])
    {
      var step := enumerator.MoveNext();
      if step.Done? {
        return false;
      }
      signatureBuffer[index] := (step.position, step.value);
      index := index + 1;
    }
    return true;
  }

  /** The bounded backward search: at most 22 + 65535 further bytes are pulled, and
      every match of the window is validated; a rejected match does not stop it. */
  method SearchSignature(file: seq<byte>, enumerator: ReverseByteEnumerator, signatureBuffer: array<(nat, byte)>)
    returns (r: Located)
    requires |file| >= 4 && signatureBuffer.Length == 4
    requires enumerator.Valid() && enumerator.Next() == |file| - 5
    requires enumerator.source.content == file && enumerator.source.start == 0 && enumerator.source.end == |file|
    requires IsWindowAt(file, signatureBuffer[..], |file| - 4)
    modifies enumerator, enumerator.buffer, enumerator.source, signatureBuffer
    ensures r == Locate(file)
  {
    var n := |file|;
    var count := 0;
    while count < MaxEocdrLength
      invariant 0 <= count <= MaxEocdrLength
      invariant enumerator.Valid() && enumerator.Next() == n - 5 - count
      invariant IsWindowAt(file, signatureBuffer[..], n - 4 - count)
      invariant Locate(file) == ScanFrom(file, n - 5 - count, MaxEocdrLength - count)
    {
      var step := enumerator.MoveNext();
      if step.Done? {
        break;
      }
      var p := n - 5 - count;
      ShiftIn(file, signatureBuffer, step.position, step.value, p);
      var located, decided := ExamineWindow(file, enumerator.source, signatureBuffer, p);
      ScanFromStep(file, p, MaxEocdrLength - count);
      if decided {
        return located;
      }
      count := count + 1;
    }
    return NotFound;
  }

  /** One candidate: the window is checked for the signature, and a match is validated. */
  method ExamineWindow(file: seq<byte>, stream: RandomInputStream, signatureBuffer: array<(nat, byte)>, ghost p: nat)
    returns (r: Located, decided: bool)
    requires stream.content == file && stream.end == |file|
    requires signatureBuffer.Length == 4 && IsWindowAt(file, signatureBuffer[..], p)
    modifies stream
    ensures decided <==> Decisive(file, p)
    ensures decided ==> r == Verdict(file, p)
  {
    WindowMatchIsSignature(file, signatureBuffer[..], p);
    if !CheckSignature(signatureBuffer[..]) {
      return NotFound, false;
    }
    var positionOfEocdr := signatureBuffer[3].0;
    var verdict := ValidateCandidate(stream, positionOfEocdr);
    match verdict {
      case TooShort =>
        return TrailerFault, true;
      case Accepted(lengthOfEocdr) =>
        return Found(positionOfEocdr + lengthOfEocdr), true;
      case Rejected =>
        return NotFound, false;
    }
  }

  /** Shifts the window by one slot and puts the newly pulled byte in slot 3. */
  method ShiftIn(ghost file: seq<byte>, signatureBuffer: array<(nat, byte)>, position: nat, value: byte, ghost p: nat)
    requires signatureBuffer.Length == 4 && IsWindowAt(file, signatureBuffer[..], p + 1)
    requires position == p && value == file[p]
    modifies signatureBuffer
    ensures signatureBuffer[..] == old(signatureBuffer[1..]) + [(position, value)]
    ensures IsWindowAt(file, signatureBuffer[..], p)
  {
    signatureBuffer[0] := signatureBuffer[1];
    signatureBuffer[1] := signatureBuffer[2];
    signatureBuffer[2] := signatureBuffer[3];
    signatureBuffer[3] := (position, value);
  }
}
