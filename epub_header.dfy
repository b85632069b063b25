/** IsEpubFile of TrimZip/TrimZipApplication.cs: the first local file header of an
    EPUB container must store an uncompressed entry named "mimetype" (section 4.3.7
    of PKWARE's APPNOTE.TXT for the header layout, section 4.4.4 for the flags and
    section 4.4.5 for the compression method). */
module EpubHeader {
  import opened ZipFormat

  /** 0x04034b50, the local file header signature. */
  const LocalFileHeaderSignature: nat := 0x0403_4B50
  /** General purpose bit 11: file name and comment are UTF-8 (EFS). */
  const EfsFlag: nat := 0x800
  /** The compression method "stored". */
  const StoredMethod: nat := 0
  /** "mimetype" in ASCII. */
  const MimetypeName: seq<byte> := [0x6D, 0x69, 0x6D, 0x65, 0x74, 0x79, 0x70, 0x65]
  /** The fixed part of the header and the expected name. */
  const HeaderLength: nat := 30 + 8

  /** The flags with bit 11 cleared. */
  function WithoutEfs(flags: nat): nat
  {
    if flags / EfsFlag % 2 == 1 then flags - EfsFlag else flags
  }

  /** Only bit 11 may be set: clearing it leaves nothing exactly for 0 and 0x800. */
  lemma OnlyEfsIsAllowed(flags: nat)
    requires flags < 0x1_0000
    ensures WithoutEfs(flags) == 0 <==> flags == 0 || flags == EfsFlag
  {
  }

  /** The verdict on the first bytes of a file. A read fills at most 38 bytes, and
      fewer than 38 fail at once; then each field test may reject in turn. */
  function IsEpubHeader(file: seq<byte>): (r: bool)
    ensures r ==> |file| >= HeaderLength && file[30..HeaderLength] == MimetypeName
  {
    var buffer := file[..Min(|file|, HeaderLength)];
    if |buffer| != HeaderLength then false
    else if U32LE(buffer, 0) != LocalFileHeaderSignature then false
    else if WithoutEfs(U16LE(buffer, 6)) != 0 then false
    else if U16LE(buffer, 8) != StoredMethod then false
    else if U16LE(buffer, 26) != |MimetypeName| then false
    else buffer[30..HeaderLength] == MimetypeName
  }

  /** A 16-bit field holds x exactly when its low byte is x mod 256 and its high byte x div 256. */
  lemma U16LEIs(b: seq<byte>, i: nat, x: nat)
    requires i + 2 <= |b| && x < 0x1_0000
    ensures U16LE(b, i) == x <==> b[i] as nat == x % 0x100 && b[i + 1] as nat == x / 0x100
  {
  }

  /** The verdict byte by byte: the signature 50 4B 03 04, a flags field of 00 00 or
      00 08, method 00 00, a name length of 08 00, and the eight letters of "mimetype";
      the version, times, checksum, sizes and extra length are not looked at. */
  lemma IsEpubHeaderBytes(file: seq<byte>)
    ensures IsEpubHeader(file) <==>
      && |file| >= HeaderLength
      && file[0] == 0x50 && file[1] == 0x4B && file[2] == 0x03 && file[3] == 0x04
      && file[6] == 0 && (file[7] == 0 || file[7] == 0x08)
      && file[8] == 0 && file[9] == 0
      && file[26] == 8 && file[27] == 0
      && file[30..HeaderLength] == MimetypeName
  {
    if |file| >= HeaderLength {
      var b := file[..HeaderLength];
      U16LEIs(b, 0, 0x4B50);
      U16LEIs(b, 2, 0x0403);
      U16LEIs(b, 8, 0);
      U16LEIs(b, 26, 8);
      OnlyEfsIsAllowed(U16LE(b, 6));
      U16LEIs(b, 6, 0);
      U16LEIs(b, 6, EfsFlag);
      assert b[30..HeaderLength] == file[30..HeaderLength];
    }
  }

  // ---------------------------------------------------------------------------
  // The header as a writer lays it out, and the check on it.

  datatype LocalFileHeader = LocalFileHeader(
    versionNeeded: nat,
    flags: nat,
    compressionMethod: nat,
    lastModTime: nat,
    lastModDate: nat,
    crc32: nat,
    compressedSize: nat,
    uncompressedSize: nat,
    fileName: seq<byte>,
    extraField: seq<byte>)

  predicate WellFormed(h: LocalFileHeader)
  {
    && h.versionNeeded < 0x1_0000 && h.flags < 0x1_0000 && h.compressionMethod < 0x1_0000
    && h.lastModTime < 0x1_0000 && h.lastModDate < 0x1_0000
    && h.crc32 < 0x1_0000_0000 && h.compressedSize < 0x1_0000_0000 && h.uncompressedSize < 0x1_0000_0000
    && |h.fileName| < 0x1_0000 && |h.extraField| < 0x1_0000
  }

  /** The fixed 30 bytes of the header. */
  function EncodeFixedPart(h: LocalFileHeader): (e: seq<byte>)
    requires WellFormed(h)
    ensures |e| == 30
    ensures U32LE(e, 0) == LocalFileHeaderSignature && U16LE(e, 6) == h.flags
    ensures U16LE(e, 8) == h.compressionMethod && U16LE(e, 26) == |h.fileName|
  {
    var e := LE32(LocalFileHeaderSignature) + LE16(h.versionNeeded) + LE16(h.flags)
      + LE16(h.compressionMethod) + LE16(h.lastModTime) + LE16(h.lastModDate)
      + LE32(h.crc32) + LE32(h.compressedSize) + LE32(h.uncompressedSize)
      + LE16(|h.fileName|) + LE16(|h.extraField|);
    assert e[..4] == LE32(LocalFileHeaderSignature);
    assert U32LE(e, 0) == U32LE(e[..4], 0);
    assert e[6..8] == LE16(h.flags);
    assert U16LE(e, 6) == U16LE(e[6..8], 0);
    assert e[8..10] == LE16(h.compressionMethod);
    assert U16LE(e, 8) == U16LE(e[8..10], 0);
    assert e[26..28] == LE16(|h.fileName|);
    assert U16LE(e, 26) == U16LE(e[26..28], 0);
    e
  }

  function EncodeLocalFileHeader(h: LocalFileHeader): (e: seq<byte>)
    requires WellFormed(h)
    ensures |e| == 30 + |h.fileName| + |h.extraField|
    ensures e[30..30 + |h.fileName|] == h.fileName
  {
    var e := EncodeFixedPart(h) + h.fileName + h.extraField;
    assert e[30..30 + |h.fileName|] == h.fileName;
    e
  }

  /** A file starting with a written header passes exactly when that header stores
      ("stored" method), carries no flag but EFS, and names "mimetype". */
  lemma EncodedHeaderIsEpub(h: LocalFileHeader, rest: seq<byte>)
    requires WellFormed(h)
    ensures IsEpubHeader(EncodeLocalFileHeader(h) + rest) <==>
      (h.flags == 0 || h.flags == EfsFlag) && h.compressionMethod == StoredMethod && h.fileName == MimetypeName
  {
    var fixed := EncodeFixedPart(h);
    var file := EncodeLocalFileHeader(h) + rest;
    assert file[..30] == fixed;
    var b := file[..Min(|file|, HeaderLength)];
    OnlyEfsIsAllowed(h.flags);
    if |file| >= HeaderLength {
      assert b[..30] == fixed;
      assert U32LE(b, 0) == U32LE(fixed, 0);
      assert U16LE(b, 6) == U16LE(fixed, 6);
      assert U16LE(b, 8) == U16LE(fixed, 8);
      assert U16LE(b, 26) == U16LE(fixed, 26);
      if |h.fileName| == 8 {
        assert b[30..HeaderLength] == h.fileName;
      }
    } else {
      assert |h.fileName| != 8;
    }
  }
}
