# TrimZip core, modelled in Dafny

TrimZip cuts trailing garbage off ZIP (EPUB) files. It finds the End of Central
Directory Record (EOCDR, section 4.3.16 of PKWARE's APPNOTE.TXT) by scanning the
file backwards. From the record and its comment length it computes the logical
length of the archive. If the file is longer than that, it copies only the prefix.
Before renaming a book after its title, it checks that the first local file header
(section 4.3.7) stores an entry named `mimetype`. It maps full-width characters of
the title to ASCII and finds a free `name__N.ext` when the name is already taken.

The model works on a file image, a `seq<byte>`. It has these modules:

- `Wrappers`: the `Option` type shared by the path and index modules.
- `ZipFormat`: the `byte` type and little-endian 16/32-bit fields with their encoders.
- `ByteStreams`: the random-access input stream the scan reads through. Its cursor is
  moved by `Seek` and by reads. `end` is the end offset the stream reports; when a file
  is cut short it lies beyond the bytes really present, and reads come back short.
  Only the reverse enumerator is proved on such a stream; the locator and the trimmer
  take a file that does not change while it is read (see "Left out").
- `ReverseScan`: `EnumerateBytesInReverseOrder` (TrimZip.CUI/IOExtensions.cs), a class
  with `MoveNext`. It reads windows of at most 8 KiB into one reused buffer and re-seeks
  before each window. It is proved against `ReverseItems`, the pairs for positions
  `end-1` down to `start`. Its invariant does not depend on the stream cursor, so the
  locator's own `Seek`/`ReadBytes` between two steps cannot disturb it.
- `Eocdr`: what the locator computes, stated on the file image.
  - `ScanFrom`/`Locate` is the bounded backward scan. The first candidate is `|f|-5`,
    and at most 22 + 65535 candidates are tested.
  - `Decisive`/`Verdict` is a reference description: the highest candidate within the
    bound that is too short or accepted wins.
  - `EncodeEocdr` is a record encoder used to state the round trips.
- `EocdrLocator`: `EnumerateLengthOfZipFile` as written. It shifts a 4-slot array
  window, drives the enumerator, reads each matching trailer through the stream and
  runs the `allZero` loop. It is proved equal to `Locate`.
- `Trimming`: the `TrimZip` decision, with idempotence, prefix and zero-only-discard
  lemmas, and worked cases.
- `EpubHeader`: `IsEpubFile`'s field tests, a byte-level characterization, and a
  header encoder with an if-and-only-if lemma.
- `PathFilter`: `CheckIfValidFilePath`/`CheckIfValidDirectoryPath`, proved against the
  list of names from a directory up to its root.
- `Renaming`: the full-width map, decimal formatting with its parser, .NET-style
  extension splitting and the `__N` collision loop.
- `ZipEntryIndex`: the `IndexedZipEntries` disposal state machine and its construction
  from an entry list.

Behaviours of the code as written that the model keeps and proves:

- **Dead zero-skip branch.** The guard meant to skip trailing zero bytes compares slot 0
  with both 0 and 3, so it never holds (`LeadingZeroGuard`). Zero padding after the
  record therefore counts against the 65557-step bound. An empty archive followed by
  65540 zero bytes is refused (`OverPaddedEmptyArchive`).
- **Short candidate is a fault.** A signature with fewer than 22 bytes to the end of the
  file faults instead of being skipped (`ShortCandidateFaults`).
- **Comment past the end is accepted.** A comment length running past the end of the
  file is accepted, with a logical length beyond the file's. The whole file is then
  copied and that length returned (`CommentPastEndIsAccepted`,
  `CommentPastEndCopiesWholeFile`).
- **The last four bytes are never tested.** A signature in them is never looked at
  (`LastFourBytesNeverTested`).

## Model

| member | source | states |
|---|---|---|
| ZipFormat.U16LE | TrimZip/TrimZipApplication.cs:224 | a little-endian 16-bit field is below 2^16 |
| ZipFormat.U32LE | TrimZip/TrimZipApplication.cs:358 | a little-endian 32-bit field is below 2^32 |
| ZipFormat.LE16 | TrimZip/TrimZipApplication.cs:224 | encoding x in two bytes and reading the field back gives x |
| ZipFormat.LE32 | TrimZip/TrimZipApplication.cs:358 | encoding x in four bytes and reading the field back gives x |
| ByteStreams.RandomInputStream.constructor | TrimZip/TrimZipApplication.cs:166 | an opened stream has its start, end and content, with the cursor at the start |
| ByteStreams.RandomInputStream.Readable | TrimZip.CUI/IOExtensions.cs:23 | a read delivers all requested bytes exactly when they are present, and never more than requested |
| ByteStreams.RandomInputStream.Seek | TrimZip.CUI/IOExtensions.cs:22 | the cursor moves to the given position |
| ByteStreams.RandomInputStream.Read | TrimZip.CUI/IOExtensions.cs:23 | the buffer's first `got` slots hold the content from the cursor, the rest of the buffer is unchanged, and the cursor advances by `got` |
| ByteStreams.RandomInputStream.ReadBytes | TrimZip/TrimZipApplication.cs:215-216 | the returned block is the content from the cursor, as many bytes as are readable, and the cursor advances past it |
| ReverseScan.ReverseItemsAt | TrimZip.CUI/IOExtensions.cs:17-29 | the enumeration has end-start items; item k is position end-1-k with the byte stored there, so every position appears once, in descending order |
| ReverseScan.WindowCountIsCeiling | TrimZip.CUI/IOExtensions.cs:18-29 | the loop reads ceil((end-start)/8192) windows |
| ReverseScan.ReverseByteEnumerator.constructor | TrimZip.CUI/IOExtensions.cs:16-17 | the enumeration starts at end-1 with nothing yielded and no window read |
| ReverseScan.ReverseByteEnumerator.MoveNext | TrimZip.CUI/IOExtensions.cs:17-29 | each step yields the next lower position with its byte, faults on a short read, and reports the end below start; at the end everything yielded is exactly the reverse enumeration and ceil((end-start)/8192) windows were read; the cursor arithmetic never goes below start |
| ReverseScan.ReverseByteEnumerator.FillWindow | TrimZip.CUI/IOExtensions.cs:20-23 | a window of min(pos-start, 8192) bytes below the cursor is re-seeked and read, and the read is complete exactly when those bytes are present |
| ReverseScan.ReverseByteEnumerator.TakeByte | TrimZip.CUI/IOExtensions.cs:24-29 | the buffered byte at the next position is yielded, and the cursor drops by the window size once the window is used up |
| Eocdr.ScanFromNone | TrimZip/TrimZipApplication.cs:198-242 | with no decisive candidate among the next `steps` positions, the scan yields nothing |
| Eocdr.ScanFromFirst | TrimZip/TrimZipApplication.cs:198-242 | the first decisive candidate met decides the scan |
| Eocdr.ScanFromSome | TrimZip/TrimZipApplication.cs:198-242 | a scan that yields something was decided by a decisive candidate with none above it |
| Eocdr.ScanFromStep | TrimZip/TrimZipApplication.cs:198-242 | a decisive candidate ends the scan with its verdict, and any other candidate is passed over |
| Eocdr.LocateNotFound | TrimZip/TrimZipApplication.cs:164-243 | the locator yields nothing if and only if no candidate within the 22+65535-step bound is decisive |
| Eocdr.FirstDecisiveExists | TrimZip/TrimZipApplication.cs:198-242 | above any decisive candidate in range there is a highest one |
| Eocdr.LocateIsHighestDecisive | TrimZip/TrimZipApplication.cs:227-241 | a rejected candidate does not stop the scan: the result is the verdict on the highest decisive candidate within the bound |
| Eocdr.LocateFromHighestDecisive | TrimZip/TrimZipApplication.cs:227-241 | conversely, the highest decisive candidate in range decides the result |
| Eocdr.FoundLengthMeaning | TrimZip/TrimZipApplication.cs:220-237 | a found length is p+22+C, for a signature at p in range with at least 22 bytes after it and C the 16-bit field at p+20; every byte from the length on is zero, and the length is at least 22 |
| Eocdr.ShortFileIsNotFound | TrimZip/TrimZipApplication.cs:169-177 | a file shorter than 4 bytes yields nothing |
| Eocdr.ShortCandidateFaults | TrimZip/TrimZipApplication.cs:215-218 | a signature at p with \|f\|-22 < p <= \|f\|-5 makes the locator fault |
| Eocdr.ShortCandidateFaultsFrom | TrimZip/TrimZipApplication.cs:198-218 | a scan that reaches such a signature faults there |
| Eocdr.CommentPastEndIsAccepted | TrimZip/TrimZipApplication.cs:228-236 | a highest candidate whose comment runs past the end is accepted, with a length beyond the file's |
| Eocdr.LastFourBytesNeverTested | TrimZip/TrimZipApplication.cs:169-207 | a file made of the signature alone yields nothing |
| Eocdr.EncodeEocdr | TrimZip/TrimZipApplication.cs:211-222 | the encoded record has 22+\|comment\| bytes, starts with the signature, holds the comment length at offset 20 and ends with the comment |
| Eocdr.ValidateEncoded | TrimZip/TrimZipApplication.cs:220-237 | an encoded record followed by any number of zero bytes validates, with the record's own length |
| Eocdr.PaddedArchiveLocated | TrimZip/TrimZipApplication.cs:198-242 | a prefix, a record and n zero bytes within the bound are located at the record's end, when no signature follows the record's start |
| EocdrLocator.WindowMatchIsSignature | TrimZip/TrimZipApplication.cs:245-249 | the window matches exactly when the file holds 50 4B 05 06 at the position in slot 3 |
| EocdrLocator.LeadingZeroGuard | TrimZip/TrimZipApplication.cs:182-196 | the zero-skip guard is never true |
| EocdrLocator.AllZeroFrom | TrimZip/TrimZipApplication.cs:227-232 | the flag stays set exactly when no byte from the record's end to the end of the file is non-zero |
| EocdrLocator.ValidateCandidate | TrimZip/TrimZipApplication.cs:211-237 | reading and checking the trailer gives the trailer verdict on the bytes from the signature to the end of the file |
| EocdrLocator.EnumerateLengthOfZipFile | TrimZip/TrimZipApplication.cs:164-243 | the locator as written returns exactly `Locate` of the file |
| EocdrLocator.FillWindowSlots | TrimZip/TrimZipApplication.cs:169-180 | the window is filled with the last four bytes exactly when the file has four, and the next position is \|f\|-5 |
| EocdrLocator.SearchSignature | TrimZip/TrimZipApplication.cs:198-242 | the bounded search loop returns `Locate` of the file |
| EocdrLocator.ExamineWindow | TrimZip/TrimZipApplication.cs:208-237 | one candidate ends the search exactly when it is decisive (a signature whose trailer is too short or accepted), with that candidate's verdict |
| EocdrLocator.ShiftIn | TrimZip/TrimZipApplication.cs:204-207 | the window moves down one slot and takes the new byte in slot 3, so it again holds the four bytes from the new position |
| Trimming.TrimZip | TrimZip/TrimZipApplication.cs:144-162 | the trimmer refuses a file with no length, propagates the fault, copies only the prefix when the file is longer, and otherwise the whole file |
| Trimming.ShortFileIsRefused | TrimZip/TrimZipApplication.cs:144-148 | a file shorter than 4 bytes is "not a ZIP format file" |
| Trimming.TrimKeepsPrefix | TrimZip/TrimZipApplication.cs:149-159 | the output is the source's prefix of length min(\|source\|, result), and only zero bytes are cut off |
| Trimming.AcceptedTailIsZero | TrimZip/TrimZipApplication.cs:224-237 | every byte after an accepted candidate's length is zero |
| Trimming.RejectedStaysRejected | TrimZip/TrimZipApplication.cs:224-241 | a candidate rejected in a file stays rejected once only zero bytes are cut off behind it |
| Trimming.TrimIsIdempotent | TrimZip/TrimZipApplication.cs:144-162 | trimming the output again returns the same length and the same bytes, and cuts nothing more |
| Trimming.PaddedEmptyArchive | TrimZip/TrimZipApplication.cs:144-162 | an empty archive followed by 5000 zero bytes trims to the 22-byte record |
| Trimming.OverPaddedEmptyArchive | TrimZip/TrimZipApplication.cs:182-201 | an empty archive followed by 65540 zero bytes is refused: the padding is not skipped |
| Trimming.CommentedArchiveIsKept | TrimZip/TrimZipApplication.cs:149-159 | a record whose 5-byte comment holds no 0x50 byte and ends the file is copied whole (a comment holding the signature 50 4B 05 06 would put a too-short candidate first and fault) |
| Trimming.GarbageAfterCommentIsRefused | TrimZip/TrimZipApplication.cs:224-241 | non-zero bytes after the comment reject the record, and the file is refused |
| Trimming.CommentPastEndCopiesWholeFile | TrimZip/TrimZipApplication.cs:150-161 | a comment running 10 bytes past the end gives length 32 for a 22-byte file, which is copied whole |
| Trimming.ShortCandidateIsFault | TrimZip/TrimZipApplication.cs:215-218 | a signature followed by one byte faults |
| EpubHeader.OnlyEfsIsAllowed | TrimZip/TrimZipApplication.cs:362-364 | clearing bit 11 leaves no bit exactly for the flags 0 and 0x800 |
| EpubHeader.IsEpubHeader | TrimZip/TrimZipApplication.cs:349-405 | an accepted file has at least 38 bytes, and its bytes 30..37 spell "mimetype" |
| EpubHeader.IsEpubHeaderBytes | TrimZip/TrimZipApplication.cs:352-404 | the check passes if and only if 38 bytes are read, the signature is 50 4B 03 04, the flags are 00 00 or 00 08, the method is 0, the name length is 8 and the name is "mimetype" |
| EpubHeader.EncodeFixedPart | TrimZip/TrimZipApplication.cs:358-382 | the 30 encoded header bytes carry the signature, flags, method and name length at the offsets the check reads |
| EpubHeader.EncodeLocalFileHeader | TrimZip/TrimZipApplication.cs:386 | the name follows the fixed part at offset 30 |
| EpubHeader.EncodedHeaderIsEpub | TrimZip/TrimZipApplication.cs:349-405 | a file starting with an encoded header passes if and only if the flags are 0 or EFS, the method is stored and the name is "mimetype"; version, times, checksum, sizes and extra field do not matter |
| PathFilter.CheckIfValidDirectoryPath | TrimZip/TrimZipApplication.cs:255-264 | the parent walk is valid exactly when no name from the directory up to its root starts with '.' |
| PathFilter.CheckIfValidFilePath | TrimZip/TrimZipApplication.cs:251-253 | a file is valid exactly when neither its name nor any directory above it starts with '.' |
| PathFilter.HiddenAncestorHidesAll | TrimZip/TrimZipApplication.cs:255-264 | a hidden name on the path of d makes d invalid, and with it every directory directly inside d and every directory below d at any depth |
| PathFilter.HiddenBelow | TrimZip/TrimZipApplication.cs:255-264 | every directory below an invalid directory, at any depth, is invalid |
| PathFilter.ValidDirectoryHasValidParent | TrimZip/TrimZipApplication.cs:257 | the parent of a valid directory is valid |
| Renaming.FullWidthFormsShiftDown | TrimZip/TrimZipApplication.cs:296-326 | in U+FF01..U+FF5E every form but twelve (" ' - / : < > ? \ ` \| ~) becomes the ASCII character 0xFEE0 below it, and those twelve are kept |
| Renaming.OtherCharactersAreKept | TrimZip/TrimZipApplication.cs:301-325 | outside that block only U+3000, U+2019, U+2018 and U+2010 change, to ' ', '\'', '`' and '-' |
| Renaming.ToHalfWidthIsIdempotent | TrimZip/TrimZipApplication.cs:296-326 | mapping a mapped character again changes nothing |
| Renaming.ReservedCharactersAreNotProduced | TrimZip/TrimZipApplication.cs:296-326 | the map never produces \ / : ? " < > \| from another character, and produces '*' only from U+FF0A |
| Renaming.ToHalfWidthIsNormal | TrimZip/TrimZipApplication.cs:296-326 | every mapped character is in normal form: no full-width form outside the twelve kept ones, no U+3000, U+2010, U+2018 or U+2019 |
| Renaming.NormalizeWidth | TrimZip/TrimZipApplication.cs:294-328 | the name keeps its length, and the result holds no full-width form outside the twelve kept ones and none of U+3000, U+2010, U+2018, U+2019 |
| Renaming.NormalNameIsKept | TrimZip/TrimZipApplication.cs:294-328 | a name already in normal form is left unchanged |
| Renaming.NormalizeWidthIsIdempotent | TrimZip/TrimZipApplication.cs:294-328 | normalizing a normalized name changes nothing, since its result is in normal form |
| Renaming.DecimalString | TrimZip/TrimZipApplication.cs:339 | the counter is written with digits only and no leading zero |
| Renaming.ParseDecimalString | TrimZip/TrimZipApplication.cs:339 | reading the written counter back gives the counter |
| Renaming.DecimalStringIsInjective | TrimZip/TrimZipApplication.cs:339 | distinct counters are written differently |
| Renaming.SplitRebuildsName | TrimZip/TrimZipApplication.cs:339 | stem and extension of a plain file name rebuild the name, except that a final dot is dropped |
| Renaming.CollisionNameIsInjective | TrimZip/TrimZipApplication.cs:337-346 | distinct counters give distinct candidate names, so no name is tried twice |
| Renaming.ChooseDestinationName | TrimZip/TrimZipApplication.cs:330-346 | the chosen name is free; it is the name itself when that is free, and otherwise name__N.ext for the least N >= 2 that is free |
| ZipEntryIndex.EntryMapKeys | TrimZip.CUI/IndexedZipEntries.cs:50 | the dictionary's keys are exactly the entries' full names |
| ZipEntryIndex.EntryMapOfDistinct | TrimZip.CUI/IndexedZipEntries.cs:50 | with distinct full names, each entry is found under its name and the count equals the number of entries |
| ZipEntryIndex.ZipArchiveReader.Dispose | TrimZip.CUI/IndexedZipEntries.cs:66 | each disposal of the reader is counted |
| ZipEntryIndex.IndexedZipEntries.constructor | TrimZip.CUI/IndexedZipEntries.cs:18-23 | a new index is not disposed and holds exactly the given reader and map |
| ZipEntryIndex.IndexedZipEntries.Count | TrimZip.CUI/IndexedZipEntries.cs:25-34 | the number of keys while not disposed, and ObjectDisposed exactly once disposed |
| ZipEntryIndex.IndexedZipEntries.Get | TrimZip.CUI/IndexedZipEntries.cs:36-45 | the entry stored under the name, or none when the name is absent, and ObjectDisposed exactly once disposed |
| ZipEntryIndex.IndexedZipEntries.Dispose | TrimZip.CUI/IndexedZipEntries.cs:54-71 | afterwards the index is disposed; the reader is disposed by the first call only, so it is disposed at most once |
| ZipEntryIndex.CreateInstance | TrimZip.CUI/IndexedZipEntries.cs:47-52 | construction fails exactly when two entries share a full name, naming one; otherwise the fresh, undisposed index holds the dictionary of the entries |

## Left out

- The batch loop in `Main` (TrimZip/TrimZipApplication.cs:76-132) and `Finish`. They are file-system work, console output, cancellation and a floating-point progress ratio.
- The output file is not written. `Trimming.TrimZip` returns the bytes it would write. Copying, `WithPartial` and `CopyTo` live in a library that is not part of this model.
- Opening the archive (`OpenAsZipFile`), the codec plugin registration and `WindowsFileNameEncoding`. These live in libraries that are not part of this model.
- `ParseContainerXml`, `ParsePackageDocument` and the rest of `RenameZipFile`. That covers the `mimetype` content check, the container lookup and the `[creators] title.ext` composition. They parse XML and dates through library code. Only the character map and the collision loop of `RenameZipFile` are modelled.
- TrimZip.CUI/EpubPackageDocumentSummary.cs and the launchers in both Program.cs files. They hold data or start the application and have no behaviour of their own.
- The loop body behind the zero-skip guard (TrimZip/TrimZipApplication.cs:186-195). The guard is proved never true, so that body cannot run.
- Positions and lengths are unbounded naturals. The source's `ulong` positions and its checked additions overflow only for files near 2^64 bytes. The checked `int` conversions of the trailer length cannot overflow, since every candidate lies within 65561 bytes of the end.
- The reverse enumeration is a method-driven object rather than a lazy `IEnumerable`. `ToArray` in `TrimZip` is modelled by running the locator to its single result. Disposal of the enumerator and the streams is not modelled.
- ReverseScan.ReverseByteEnumerator.TakeByte: the cursor drops by the window size right after the last byte of a window is yielded. The source does it on the next call. Nothing can observe the difference.
- ReverseScan.ReverseByteEnumerator.MoveNext: after a short-read fault, nothing is promised about the enumerator. The source's assertion throws, and no caller uses it afterwards.
- EpubHeader.IsEpubHeader: a single read is taken to return min(38, file length) bytes. A stream may legally return fewer, which the source would treat as "not EPUB".
- Renaming.GetExtension: the splitting follows .NET with '\' and '/' as separators. It does not model the volume separator ':' or path roots.
- Renaming.ChooseDestinationName: the counter is an unbounded natural. The source's `int` counter (TrimZip/TrimZipApplication.cs:337) would overflow after int.MaxValue taken names; the model does not capture that limit.
- EocdrLocator.EnumerateLengthOfZipFile: the locator and `Trimming.TrimZip` run on a file that does not change while it is read, so the stream's end equals the bytes present. The short-read assertions at TrimZip/TrimZipApplication.cs:217 and TrimZip.CUI/IOExtensions.cs:23, which throw when the file shrinks under the reader, never fire there, and that I/O fault is not an outcome of `Located` or `TrimOutcome`. Only `ReverseScan.ReverseByteEnumerator` is proved on a cut-short stream.
- ZipEntryIndex.IndexedZipEntries.Dispose: `GC.SuppressFinalize` and the `disposing == false` path are not modelled, since the class has no finalizer.
