/** The trim decision of TrimZip (TrimZip/TrimZipApplication.cs): locate the logical
    length, refuse a file without one, copy only the prefix when the file is longer,
    and copy the whole file otherwise. */
module Trimming {
  import opened ZipFormat
  import opened Eocdr
  import opened EocdrLocator

  /** NotZipFormat is the "not a ZIP format file" exception; Faulted is the assertion
      fault of the locator; Copied carries the returned length and the bytes written. */
  datatype TrimOutcome = NotZipFormat | Faulted | Copied(length: nat, output: seq<byte>)

  function TrimResult(source: seq<byte>): TrimOutcome
  {
    match Locate(source)
    case NotFound => NotZipFormat
    case TrailerFault => Faulted
    case Found(actualLength) =>
      Copied(actualLength, if |source| > actualLength then source[..actualLength] else source)
  }

  method TrimZip(source: seq<byte>) returns (r: TrimOutcome)
    ensures r == TrimResult(source)
  {
    var located := EnumerateLengthOfZipFile(source);
    if !located.Found? {
      // an empty enumeration is "not a ZIP format file"; a fault propagates
      return if located.NotFound? then NotZipFormat else Faulted;
    }
    var actualLength := located.length;
    if |source| > actualLength {
      r := Copied(actualLength, source[..actualLength]);
    } else {
      r := Copied(actualLength, source);
    }
  }

  /** A file of fewer than 4 bytes is not a ZIP file, and nothing is written. */
  lemma ShortFileIsRefused(source: seq<byte>)
    requires |source| < 4
    ensures TrimResult(source) == NotZipFormat
  {
  }

  /** The output is a prefix of the source, as long as the shorter of the source and
      the returned length, and every byte cut off is zero: trimming never discards
      anything but zero padding. */
  lemma TrimKeepsPrefix(source: seq<byte>)
    requires TrimResult(source).Copied?
    ensures var out := TrimResult(source).output;
      && |out| == Min(|source|, TrimResult(source).length)
      && out == source[..|out|]
      && ZeroFrom(source, |out|)
  {
    FoundLengthMeaning(source, Locate(source).length);
  }

  /** The bytes from an accepted candidate's logical length on are all zero. */
  lemma AcceptedTailIsZero(f: seq<byte>, p: int)
    requires Decisive(f, p) && Verdict(f, p).Found?
    ensures ZeroFrom(f, Verdict(f, p).length)
  {
    var t := f[p..];
    forall i | Verdict(f, p).length <= i < |f| ensures f[i] == 0 {
      assert t[i - p] == f[i];
    }
  }

  /** A candidate rejected in f is still rejected once f is cut at L, when every
      byte from L on is zero. */
  lemma RejectedStaysRejected(f: seq<byte>, L: nat, q: int)
    requires L <= |f| && ZeroFrom(f, L)
    requires SignatureAt(f, q) && q + 4 <= L && ValidateTrailer(f[q..]).Rejected?
    ensures ValidateTrailer(f[..L][q..]).Rejected?
  {
    var t, u := f[q..], f[..L][q..];
    var i :| FixedEocdrLength + CommentLength(t) <= i < |t| && t[i] != 0;
    assert f[q + i] != 0;
    assert q + i < L;
    assert |u| == L - q >= FixedEocdrLength;
    assert u[20] == t[20] && u[21] == t[21];
    assert u[i] == t[i];
  }

  /** Trimming is idempotent: trimming the output again returns the same length and
      writes the same bytes, and the second run has nothing to cut. */
  lemma TrimIsIdempotent(source: seq<byte>)
    requires TrimResult(source).Copied?
    ensures |TrimResult(source).output| <= TrimResult(source).length
    ensures TrimResult(TrimResult(source).output) == TrimResult(source)
  {
    var L := Locate(source).length;
    if |source| > L {
      var out := source[..L];
      LocateIsHighestDecisive(source);
      var q0 :| InScanRange(|source|, q0) && Decisive(source, q0) && Locate(source) == Verdict(source, q0)
                && forall q :: q0 < q <= |source| - 5 ==> !Decisive(source, q);
      AcceptedTailIsZero(source, q0);
      var t, u := source[q0..], out[q0..];
      assert |u| == L - q0 >= FixedEocdrLength;
      assert u[20] == t[20] && u[21] == t[21];
      assert ValidateTrailer(u) == Accepted(L - q0);
      assert SignatureAt(out, q0) by {
        assert out[q0] == source[q0] && out[q0 + 1] == source[q0 + 1];
        assert out[q0 + 2] == source[q0 + 2] && out[q0 + 3] == source[q0 + 3];
      }
      assert InScanRange(|out|, q0);
      forall q | q0 < q <= |out| - 5 ensures !Decisive(out, q) {
        if SignatureAt(out, q) {
          assert out[q] == source[q] && out[q + 1] == source[q + 1];
          assert out[q + 2] == source[q + 2] && out[q + 3] == source[q + 3];
          assert !Decisive(source, q);
          RejectedStaysRejected(source, L, q);
        }
      }
      LocateFromHighestDecisive(out, q0);
    }
  }

  // ---------------------------------------------------------------------------
  // Worked cases.

  /** An empty archive: the 22-byte record with no entries and no comment. */
  function EmptyArchive(): (e: seq<byte>)
    ensures e == [0x50, 0x4B, 0x05, 0x06] + Zeros(18)
  {
    var e := EncodeEocdr(EndOfCentralDirectory(0, 0, 0, 0, 0, 0, []));
    assert e[4..] == Zeros(18);
    e
  }

  /** An empty archive followed by 5000 zero bytes trims to the 22-byte record. */
  lemma PaddedEmptyArchive()
    ensures TrimResult(EmptyArchive() + Zeros(5000)) == Copied(22, EmptyArchive())
  {
    var e, f := EmptyArchive(), EmptyArchive() + Zeros(5000);
    assert forall q :: 0 < q < |f| ==> f[q] != 0x50;
    PaddedArchiveLocated([], EndOfCentralDirectory(0, 0, 0, 0, 0, 0, []), 5000);
    assert [] + e + Zeros(5000) == f;
    assert f[..22] == e;
  }

  /** The same record after 65540 bytes of zero padding lies beyond the bounded
      search, since the padding is not skipped: the file is refused. */
  lemma OverPaddedEmptyArchive()
    ensures TrimResult(EmptyArchive() + Zeros(65540)) == NotZipFormat
  {
    var f := EmptyArchive() + Zeros(65540);
    assert forall q :: 0 < q < |f| ==> f[q] != 0x50;
    assert forall q :: InScanRange(|f|, q) ==> q > 0;
    LocateNotFound(f);
  }

  /** A record whose 5-byte comment ends the file: nothing to cut. */
  lemma CommentedArchiveIsKept(comment: seq<byte>)
    requires |comment| == 5 && forall i :: 0 <= i < 5 ==> comment[i] != 0x50
    ensures var e := EncodeEocdr(EndOfCentralDirectory(0, 0, 0, 0, 0, 0, comment));
      TrimResult(e) == Copied(|e|, e)
  {
    var r := EndOfCentralDirectory(0, 0, 0, 0, 0, 0, comment);
    var e := EncodeEocdr(r);
    assert e[..22] == EmptyArchive()[..20] + [5, 0] by {
      assert e[4..20] == Zeros(16);
    }
    assert forall q :: 0 < q < |e| ==> e[q] != 0x50 by {
      forall q | 0 < q < |e| ensures e[q] != 0x50 {
        if q >= 22 {
          assert e[q] == comment[q - 22];
        } else {
          assert e[q] == e[..22][q];
        }
      }
    }
    assert [] + e + Zeros(0) == e;
    PaddedArchiveLocated([], r, 0);
  }

  /** A record declaring a 3-byte comment followed by two non-zero bytes past it is
      rejected, and with no other signature the file is refused. */
  lemma GarbageAfterCommentIsRefused()
    ensures var e := EncodeEocdr(EndOfCentralDirectory(0, 0, 0, 0, 0, 0, [1, 2, 3]));
      TrimResult(e + [7, 7]) == NotZipFormat
  {
    var e := EncodeEocdr(EndOfCentralDirectory(0, 0, 0, 0, 0, 0, [1, 2, 3]));
    var f := e + [7, 7];
    assert e[..22] == EmptyArchive()[..20] + [3, 0] by {
      assert e[4..20] == Zeros(16);
    }
    assert f[..25] == e;
    assert forall q :: 0 < q < |f| ==> f[q] != 0x50 by {
      forall q | 0 < q < |f| ensures f[q] != 0x50 {
        if q < 22 {
          assert f[q] == e[..22][q];
        }
      }
    }
    assert f[0..] == f;
    assert ValidateTrailer(f).Rejected? by {
      assert f[25] == 7;
    }
    LocateNotFound(f);
  }

  /** A record whose comment length runs 10 bytes past the end of the file is
      accepted: the returned length exceeds the file, and the whole file is copied. */
  lemma CommentPastEndCopiesWholeFile()
    ensures var f := [0x50, 0x4B, 0x05, 0x06] + Zeros(16) + [10, 0];
      TrimResult(f) == Copied(32, f)
  {
    var f := [0x50, 0x4B, 0x05, 0x06] + Zeros(16) + [10, 0];
    assert forall q :: 0 < q < |f| ==> f[q] != 0x50;
    assert U16LE(f, 20) == 10;
    CommentPastEndIsAccepted(f, 0);
  }

  /** A file that ends with a signature and one more byte makes the locator fault
      instead of skipping the candidate. */
  lemma ShortCandidateIsFault()
    ensures TrimResult([0x50, 0x4B, 0x05, 0x06, 0]) == Faulted
  {
    ShortCandidateFaults([0x50, 0x4B, 0x05, 0x06, 0], 0);
  }
}
