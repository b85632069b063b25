/** What the End of Central Directory Record locator computes (section 4.3.16 of
    PKWARE's APPNOTE.TXT), stated on the file image alone.

    The scan tests candidate positions p = |f| - 5, |f| - 6, ... for the bytes
    50 4B 05 06, at most 22 + 65535 of them. A candidate with fewer than 22 bytes
    before the end of the file is an assertion fault; otherwise it is accepted
    when every byte from p + 22 + comment length onward is zero, and the logical
    length p + 22 + comment length is the result. A rejected candidate does not
    stop the scan. */
module Eocdr {
  import opened ZipFormat

  /** Size of the record without its comment. */
  const FixedEocdrLength: nat := 22
  /** Largest record: the fixed part and a comment of 65535 bytes. */
  const MaxEocdrLength: nat := 22 + 0xFFFF

  /** The record's signature, 0x06054b50 stored little-endian. */
  predicate SignatureAt(f: seq<byte>, p: int)
  {
    0 <= p && p + 4 <= |f| && f[p] == 0x50 && f[p + 1] == 0x4B && f[p + 2] == 0x05 && f[p + 3] == 0x06
  }

  /** Every byte of s from offset `from` on is zero. */
  predicate ZeroFrom(s: seq<byte>, from: nat)
  {
    forall i :: from <= i < |s| ==> s[i] == 0
  }

  /** The verdict on the bytes from a candidate signature to the end of the file. */
  datatype TrailerVerdict = TooShort | Rejected | Accepted(length: nat)

  /** Comment length field, at offset 20 of the record. */
  function CommentLength(trailer: seq<byte>): nat
    requires |trailer| >= FixedEocdrLength
  {
    U16LE(trailer, 20)
  }

  function ValidateTrailer(trailer: seq<byte>): TrailerVerdict
  {
    if |trailer| < FixedEocdrLength then TooShort
    else if ZeroFrom(trailer, FixedEocdrLength + CommentLength(trailer)) then Accepted(FixedEocdrLength + CommentLength(trailer))
    else Rejected
  }

  /** The outcome of the locator: the logical length, no length at all, or the
      assertion fault raised on a candidate too close to the end. */
  datatype Located = Found(length: nat) | NotFound | TrailerFault

  /** Scans candidates p, p - 1, ... for at most `steps` of them. */
  function ScanFrom(f: seq<byte>, p: int, steps: nat): Located
    decreases steps
  {
    if steps == 0 || p < 0 then NotFound
    else if !SignatureAt(f, p) then ScanFrom(f, p - 1, steps - 1)
    else match ValidateTrailer(f[p..])
      case TooShort => TrailerFault
      case Accepted(length) => Found(p + length)
      case Rejected => ScanFrom(f, p - 1, steps - 1)
  }

  /** The locator on a whole file: nothing for fewer than 4 bytes; otherwise the
      first candidate is four bytes before the last window position. */
  function Locate(f: seq<byte>): Located
  {
    if |f| < 4 then NotFound else ScanFrom(f, |f| - 5, MaxEocdrLength)
  }

  // ---------------------------------------------------------------------------
  // A reference description of the scan: the highest "decisive" candidate wins.

  /** A candidate that ends the scan: a signature that is either too short or accepted. */
  predicate Decisive(f: seq<byte>, p: int)
  {
    SignatureAt(f, p) && !ValidateTrailer(f[p..]).Rejected?
  }

  /** What a decisive candidate makes the scan return. */
  function Verdict(f: seq<byte>, p: int): Located
    requires Decisive(f, p)
  {
    match ValidateTrailer(f[p..])
    case TooShort => TrailerFault
    case Accepted(length) => Found(p + length)
  }

  /** Lowest candidate position the bounded scan reaches. */
  function LowestCandidate(n: nat): int
  {
    n - 5 - MaxEocdrLength + 1
  }

  predicate InScanRange(n: nat, p: int)
  {
    0 <= p && LowestCandidate(n) <= p <= n - 5
  }

  lemma {:induction false} ScanFromNone(f: seq<byte>, p: int, steps: nat)
    requires forall q :: p - steps < q <= p ==> !Decisive(f, q)
    ensures ScanFrom(f, p, steps) == NotFound
    decreases steps
  {
    if steps > 0 && p >= 0 {
      assert !Decisive(f, p);
      ScanFromNone(f, p - 1, steps - 1);
    }
  }

  lemma {:induction false} ScanFromFirst(f: seq<byte>, p: int, steps: nat, q0: int)
    requires p - steps < q0 <= p && Decisive(f, q0)
    requires forall q :: q0 < q <= p ==> !Decisive(f, q)
    ensures ScanFrom(f, p, steps) == Verdict(f, q0)
    decreases steps
  {
    if p != q0 {
      assert !Decisive(f, p);
      ScanFromFirst(f, p - 1, steps - 1, q0);
    }
  }

  lemma {:induction false} ScanFromSome(f: seq<byte>, p: int, steps: nat)
    requires ScanFrom(f, p, steps) != NotFound
    ensures exists q0 :: p - steps < q0 <= p && Decisive(f, q0) && ScanFrom(f, p, steps) == Verdict(f, q0)
                         && forall q :: q0 < q <= p ==> !Decisive(f, q)
    decreases steps
  {
    if Decisive(f, p) {
      assert p - steps < p <= p && ScanFrom(f, p, steps) == Verdict(f, p);
    } else {
      ScanFromSome(f, p - 1, steps - 1);
      var q0 :| p - 1 - (steps - 1) < q0 <= p - 1 && Decisive(f, q0) && ScanFrom(f, p - 1, steps - 1) == Verdict(f, q0)
                && forall q :: q0 < q <= p - 1 ==> !Decisive(f, q);
      assert forall q :: q0 < q <= p ==> !Decisive(f, q);
    }
  }

  /** One step of the scan: a decisive candidate ends it, any other is passed over. */
  lemma ScanFromStep(f: seq<byte>, p: int, steps: nat)
    requires steps > 0 && p >= 0
    ensures ScanFrom(f, p, steps) == if Decisive(f, p) then Verdict(f, p) else ScanFrom(f, p - 1, steps - 1)
  {
  }

  /** The locator finds nothing exactly when no candidate within the bound is decisive. */
  lemma LocateNotFound(f: seq<byte>)
    ensures Locate(f) == NotFound <==> forall q :: InScanRange(|f|, q) ==> !Decisive(f, q)
  {
    if |f| >= 4 {
      var top, steps := |f| - 5, MaxEocdrLength;
      if forall q :: InScanRange(|f|, q) ==> !Decisive(f, q) {
        assert forall q :: top - steps < q <= top ==> !Decisive(f, q) by {
          forall q | top - steps < q <= top && 0 <= q ensures !Decisive(f, q) {
            assert InScanRange(|f|, q);
          }
        }
        ScanFromNone(f, top, steps);
      } else {
        var q :| InScanRange(|f|, q) && Decisive(f, q);
        if Locate(f) == NotFound {
          FirstDecisiveExists(f, q);
          var q0 :| InScanRange(|f|, q0) && Decisive(f, q0) && forall q' :: q0 < q' <= top ==> !Decisive(f, q');
          ScanFromFirst(f, top, steps, q0);
        }
      }
    }
  }

  /** Above any decisive candidate in range there is a highest one. */
  lemma {:induction false} FirstDecisiveExists(f: seq<byte>, q: int)
    requires InScanRange(|f|, q) && Decisive(f, q)
    ensures exists q0 :: InScanRange(|f|, q0) && Decisive(f, q0) && forall q' :: q0 < q' <= |f| - 5 ==> !Decisive(f, q')
    decreases |f| - q
  {
    if forall q' :: q < q' <= |f| - 5 ==> !Decisive(f, q') {
    } else {
      var q' :| q < q' <= |f| - 5 && Decisive(f, q');
      assert InScanRange(|f|, q');
      FirstDecisiveExists(f, q');
    }
  }

  /** When the locator returns something, it is the verdict on the highest decisive
      candidate within the bound. */
  lemma LocateIsHighestDecisive(f: seq<byte>)
    requires Locate(f) != NotFound
    ensures exists q0 :: InScanRange(|f|, q0) && Decisive(f, q0) && Locate(f) == Verdict(f, q0)
                         && forall q :: q0 < q <= |f| - 5 ==> !Decisive(f, q)
  {
    ScanFromSome(f, |f| - 5, MaxEocdrLength);
    var q0 :| |f| - 5 - MaxEocdrLength < q0 <= |f| - 5 && Decisive(f, q0) && Locate(f) == Verdict(f, q0)
              && forall q :: q0 < q <= |f| - 5 ==> !Decisive(f, q);
    assert InScanRange(|f|, q0);
  }

  /** Conversely, the highest decisive candidate within the bound decides the locator. */
  lemma LocateFromHighestDecisive(f: seq<byte>, q0: int)
    requires InScanRange(|f|, q0) && Decisive(f, q0)
    requires forall q :: q0 < q <= |f| - 5 ==> !Decisive(f, q)
    ensures Locate(f) == Verdict(f, q0)
  {
    ScanFromFirst(f, |f| - 5, MaxEocdrLength, q0);
  }

  /** What a found length means on the file: a signature p within the bound, at least
      22 bytes before the end of the file, the length is p + 22 + its comment length,
      and every byte from the length on is zero. The length is never below 22. */
  lemma FoundLengthMeaning(f: seq<byte>, length: nat)
    requires Locate(f) == Found(length)
    ensures exists p :: InScanRange(|f|, p) && SignatureAt(f, p) && |f| - p >= FixedEocdrLength
                        && length == p + FixedEocdrLength + U16LE(f, p + 20)
                        && ZeroFrom(f, length)
    ensures length >= FixedEocdrLength
  {
    LocateIsHighestDecisive(f);
    var p :| InScanRange(|f|, p) && Decisive(f, p) && Locate(f) == Verdict(f, p)
             && forall q :: p < q <= |f| - 5 ==> !Decisive(f, q);
    var t := f[p..];
    assert U16LE(t, 20) == U16LE(f, p + 20);
    assert ZeroFrom(f, length) by {
      forall i | length <= i < |f| ensures f[i] == 0 {
        assert t[i - p] == f[i];
      }
    }
  }

  // ---------------------------------------------------------------------------
  // The behaviours of the scan as written.

  /** A file shorter than 4 bytes yields nothing. */
  lemma ShortFileIsNotFound(f: seq<byte>)
    requires |f| < 4
    ensures Locate(f) == NotFound
  {
  }

  /** A signature with fewer than 22 bytes after its start is not skipped: the
      locator faults, whatever lies further back. */
  lemma {:induction false} ShortCandidateFaults(f: seq<byte>, p: int)
    requires |f| - FixedEocdrLength < p <= |f| - 5 && SignatureAt(f, p)
    ensures Locate(f) == TrailerFault
  {
    ShortCandidateFaultsFrom(f, p, |f| - 5, MaxEocdrLength);
  }

  lemma {:induction false} ShortCandidateFaultsFrom(f: seq<byte>, p0: int, p: int, steps: nat)
    requires p - steps < p0 <= p && SignatureAt(f, p0) && |f| - FixedEocdrLength < p0
    ensures ScanFrom(f, p, steps) == TrailerFault
    decreases steps
  {
    if !SignatureAt(f, p) {
      ShortCandidateFaultsFrom(f, p0, p - 1, steps - 1);
    }
  }

  /** A comment length that runs past the end of the file leaves nothing to check:
      such a candidate is accepted, with a length beyond the file's. */
  lemma CommentPastEndIsAccepted(f: seq<byte>, p: int)
    requires InScanRange(|f|, p) && SignatureAt(f, p) && |f| - p >= FixedEocdrLength
    requires p + FixedEocdrLength + U16LE(f, p + 20) > |f|
    requires forall q :: p < q <= |f| - 5 ==> !Decisive(f, q)
    ensures Locate(f) == Found(p + FixedEocdrLength + U16LE(f, p + 20))
    ensures Locate(f).length > |f|
  {
    assert U16LE(f[p..], 20) == U16LE(f, p + 20);
    LocateFromHighestDecisive(f, p);
  }

  /** A record whose signature sits in the last four bytes is never tested. */
  lemma LastFourBytesNeverTested()
    ensures Locate([0x50, 0x4B, 0x05, 0x06]) == NotFound
  {
  }

  // ---------------------------------------------------------------------------
  // The record as a writer lays it out (section 4.3.16), and the validator on it.

  datatype EndOfCentralDirectory = EndOfCentralDirectory(
    diskNumber: nat,
    centralDirectoryDisk: nat,
    entriesOnDisk: nat,
    totalEntries: nat,
    centralDirectorySize: nat,
    centralDirectoryOffset: nat,
    comment: seq<byte>)

  predicate WellFormed(r: EndOfCentralDirectory)
  {
    && r.diskNumber < 0x1_0000 && r.centralDirectoryDisk < 0x1_0000
    && r.entriesOnDisk < 0x1_0000 && r.totalEntries < 0x1_0000
    && r.centralDirectorySize < 0x1_0000_0000 && r.centralDirectoryOffset < 0x1_0000_0000
    && |r.comment| < 0x1_0000
  }

  function EncodeEocdr(r: EndOfCentralDirectory): (e: seq<byte>)
    requires WellFormed(r)
    ensures |e| == FixedEocdrLength + |r.comment| && SignatureAt(e, 0)
    ensures U16LE(e, 20) == |r.comment| && e[FixedEocdrLength..] == r.comment
  {
    var fixed := [0x50, 0x4B, 0x05, 0x06] + LE16(r.diskNumber) + LE16(r.centralDirectoryDisk)
      + LE16(r.entriesOnDisk) + LE16(r.totalEntries) + LE32(r.centralDirectorySize)
      + LE32(r.centralDirectoryOffset) + LE16(|r.comment|);
    assert fixed[20..] == LE16(|r.comment|);
    assert U16LE(fixed, 20) == U16LE(fixed[20..], 0);
    fixed + r.comment
  }

  /** A well-formed record followed by any number of zero bytes validates, and its
      logical length is exactly the record's length. */
  lemma ValidateEncoded(r: EndOfCentralDirectory, n: nat)
    requires WellFormed(r)
    ensures ValidateTrailer(EncodeEocdr(r) + Zeros(n)) == Accepted(|EncodeEocdr(r)|)
  {
    var e := EncodeEocdr(r);
    var t := e + Zeros(n);
    assert U16LE(t, 20) == U16LE(e, 20);
    assert ZeroFrom(t, |e|) by {
      forall i | |e| <= i < |t| ensures t[i] == 0 {
        assert t[i] == Zeros(n)[i - |e|];
      }
    }
  }

  /** An archive ending with a well-formed record and n bytes of zero padding is
      located at the record's end, provided no signature occurs after the record's
      start and the record starts within the bounded search. */
  lemma PaddedArchiveLocated(prefix: seq<byte>, r: EndOfCentralDirectory, n: nat)
    requires WellFormed(r)
    requires |EncodeEocdr(r)| + n <= MaxEocdrLength + 4
    requires forall q :: |prefix| < q ==> !SignatureAt(prefix + EncodeEocdr(r) + Zeros(n), q)
    ensures Locate(prefix + EncodeEocdr(r) + Zeros(n)) == Found(|prefix| + |EncodeEocdr(r)|)
  {
    var e := EncodeEocdr(r);
    var f := prefix + e + Zeros(n);
    var p := |prefix|;
    assert f[p..] == e + Zeros(n);
    assert SignatureAt(f, p) by {
      assert f[p..][0..4] == e[0..4];
    }
    ValidateEncoded(r, n);
    assert InScanRange(|f|, p);
    LocateFromHighestDecisive(f, p);
  }
}
