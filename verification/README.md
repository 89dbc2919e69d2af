# Verified model of the DAR reader

This project models the behaviour of `dar-core` (the archive reader and its mounted view) and of the
auditing and timeline parts of `dar-forensic`, and proves what they are relied on for: that a catalogue as
written is read back exactly, that it is found wherever a marker or a trailer puts it, that slicing cannot
be seen, that extraction hands over the declared bytes or fails, and that the derived tree, the bodyfile
and the audit say what the catalogue says.

`dafny verify dfyconfig.toml` checks everything.

## How it is built

A byte is an `int` below 256. A reader (`Stream.Source`) is a file or buffer, with fixed bytes and a cursor,
whose single `read` may always come back short, or the slice reader over several such files. Each read of the
program appears twice: as a function of the bytes and the cursor, and as a method that moves the cursor and is
proved to return that function's value. The theorems are about the functions; the methods carry them to the
program's own loops, buffers and state. What a function is proved against is written without it: the catalogue
grammar, header and settings writers, frames, letters and bounds are defined on their own, with literal bytes and
numbers, so that a theorem fails when the function and its method go wrong together.

| file | part |
|---|---|
| `Bytes`, `Wire`, `Stream` | results, big-endian numbers, the infinint code, primitive reads, the seekable reader |
| `Catalogue` | the parser: reads behind one entry, the walk with its depth counter and directory stack |
| `Grammar`, `Roundtrip`, `Soundness`, `Truncation`, `Interrupted`, `Depth` | catalogues as trees and bytes; parsing inverts writing, accepts nothing else, never contradicts itself on cut input, and keeps what it read of a catalogue that breaks off; depth against stack |
| `Locate`, `Terminateur` | the chunked marker scan with tail window and fallback; the backward trailer |
| `Slices`, `Header`, `Volumes` | files, the slice reader, slice headers; sliced archives opened and read |
| `Decode`, `Framing`, `Crc` | capped sink, block framing, checksum |
| `Reader`, `Fields`, `EndToEnd`, `Kept` | open, extract, verify; the header fields as written; from whole archives to listings and files; files kept as they are |
| `Tree`, `Recovery`, `Vfs`, `Mounted` | the derived directory tree, lookups, the content cache; a written archive mounted and read |
| `Bodyfile`, `Audit` | timeline lines, findings and their order |
| `Examples` | bytes and what is read from them: the vectors of the program's own tests, and one whole archive |

Main results, by what they answer:

- *Does parsing invert writing?* `Roundtrip.ParserInvertsWriter`: in every edition, for every tree, with
  either width of every number and anything after it, **exactly when** no directory below the top is named
  `<ROOT>`. Such a directory is not pushed but its end mark still pops, and it is never listed;
  `Roundtrip.WalkNode` gives what the walk does with it.
- *Can a listing be falsely complete?* `Soundness.CompleteIffCatalogue`: `complete` holds **if and only if** a
  whole catalogue of the grammar stands there (entries outside any directory, then a bracketed top directory
  or a lone end mark) and was consumed to its last byte. `Truncation.CutCatalogueIsIncomplete` and
  `Truncation.PartAgreesWithWhole` treat cut input, the latter for arbitrary bytes.
  `Interrupted.InterruptedKeepsAll`, `CutEntryFails` and `GarbledEntryFails` tell the listing that is kept from the
  error that is raised.
- *Do depth and directory stack stay together?* `Depth.StackNeverExceedsDepth` on any bytes; they differ by one at
  most exactly when one directory at most is named `<ROOT>` (`Depth.TracksIff`, `Depth.TreeTracksIff`).
- *Does the scan depend on read sizes?* `Locate.ScanWindow` answers for the reads it made, which went on until
  the marker answered was in view or the input ended. `Locate.ChunkingMattersIff` says exactly when two such
  runs can answer differently: the label must end before the escape does, near enough for one read to reach
  past both (`Locate.RacingExample`). Otherwise the marker that ends first is the answer (`Locate.ScanSettles`).
  `Locate.TailFirstIff`: a marker in the last bytes of the file is preferred to any before them.
- *Does opening recover what was written?* `EndToEnd.WrittenTaggedOpens`, with the block size and the catalogue
  coded or not, provided that every search finds the catalogue's marker, which `Locate.DecisiveIff` characterises;
  `EndToEnd.WrittenLegacyOpens` and `EndToEnd.CodedLegacyOpens`. `EndToEnd.OpensWhatStands` and
  `EndToEnd.OpensWhatIsAddressed` say what opening makes of anything else that stands there. Then for the files:
  data kept as they are come out as they are, under every codec by which the archive opens, **exactly when** the
  format is 8 or later or the archive is not compressed (`Kept.KeptFileExtractsIff`, with the bytes of a failing
  archive in `Kept.KeptFileExample`); a compressed file comes out **exactly when** its codec makes bytes of the
  declared size of just the bytes at its place, by blocks or as one stream (`EndToEnd.ExtractsIff`).
- *Is extraction exact or loud?* `EndToEnd.ExactOrLoud`: for compressed entries as long as the declared size and
  one write of the codec stay within 64 bits together, which with writes below 2^63 bytes is every declared size
  up to 2^63. `Decode.BoundHoldsIff`: beyond that the 64-bit count can wrap and let more pass.
- *Is slicing invisible?* `Volumes.SlicingIsInvisible` for the bytes; `Volumes.OpenSliced` and
  `Volumes.ExtractSliced` run the archive reader over the slice reader, up to 2^63 bytes, where a forward skip
  cannot wrap its cursor; `Volumes.SlicesReadAlike` and `EndToEnd.SlicedArchiveExtracts` say that the outcome is
  that of the uncut archive.
- *Does the cache of the mounted view show?* `Vfs.DarVfs.ServeAll`: in any run of reads each answer is that of
  its own request. `Vfs.DarVfs.ReadToEnd`: reading forward gives the extracted bytes, which are those of the
  node's own entry exactly when the first entry of its path gives the same (`Vfs.DarVfs.ReadsOwnIff`).
  `Mounted.ReadMounted`: mounting a written archive, walking down a file's components and reading on gives the
  file's own bytes.
- *Is the derived tree a tree, and the right one?* `Tree.EveryNodeReachable` for any paths at all,
  `Recovery.TreeRecovered` and `Vfs.LookupReachesEveryEntry` for trees with sound names; `Vfs.LookupReachesIff`
  says for any paths which nodes lookups reach.
- *Does the audit say what the entries show?* `Audit.AuditReports`: how often each finding on a path and a time is
  reported, from the path's own bytes; `Audit.AuditIsExact` and `Audit.AuditOrder` for severities and order.
- *Can names forge timeline lines?* `Bodyfile.LineParsesBack`: no line or field. But a link's name and target are
  told apart only where no arrow begins inside the name (`Bodyfile.LinkReadsOffIff`, `Bodyfile.ArrowExample`).

Where documentation and code differ, the code is followed: `docs/implementation-notes.md` (section 4) lists an
inode's times as change, modification, access, while the code (and section 11) reads access, modification,
change; the comment above `read_timestamp` names only nanoseconds as carrying a fraction, while the code also
reads one after `'u'`; section 12 calls data of stored size 0 in formats up to 7 uncompressed, raw file content,
while the code takes over the size but keeps the archive's codec and decodes them.

## Model

| member | source | states |
|---|---|---|
| Wire.InfReads | core/src/lib.rs:1513-1540 | an infinint written in either width is read back, and the cursor stops right behind it |
| Wire.InfSound | core/src/lib.rs:1513-1540 | whatever is accepted as an infinint is one of the two encodings of the value returned |
| Wire.InfStable | core/src/lib.rs:1513-1540 | on cut input the read either fails for want of bytes or answers as on the whole |
| Wire.InfParts | core/src/lib.rs:1513-1540 | by its first byte, 0x80 or 0x40, an infinint is the next four or eight bytes; any other is corrupt, and missing bytes are an I/O error |
| Wire.NulFromReads | core/src/lib.rs:1556-1571 | a NUL-free name of at most 64 KiB and its NUL are read back |
| Wire.NulFromSound | core/src/lib.rs:1556-1571 | whatever is accepted is such a name |
| Wire.NulFromFails | core/src/lib.rs:1551-1571 | without a NUL in 64 KiB and one byte more the read is corrupt there, and without one to the end of the input it is an I/O error |
| Wire.SkipNulAgrees | core/src/lib.rs:1574-1587 | skipping a string succeeds, fails and stops exactly where reading it does |
| Stream.Source.ReadInfinint | core/src/lib.rs:1513-1540 | the shifting loop computes the big-endian value without leaving 64 bits, or fails as specified |
| Stream.Source.ReadNulBytes | core/src/lib.rs:1556-1571 | the collecting loop, with the cursor also on failure |
| Stream.Source.SkipNulString | core/src/lib.rs:1574-1587 | the counting loop |
| Stream.Source.SkipBytes | core/src/lib.rs:1590-1600 | a forward seek that may pass the end and refuses lengths from 2^63 |
| Stream.Source.Take | core/src/lib.rs:557-564 | a buffer of a length that the input declares is allocated only where that many bytes remain |
| Catalogue.ReadTimestamp | core/src/lib.rs:1607-1621 | seconds as a signed 64-bit number, in the layout of the edition |
| Roundtrip.StampEnds | core/src/lib.rs:1607-1621 | from edition 9 a time ends behind two numbers if and only if its unit byte is `u` or `n`, and behind one otherwise |
| Catalogue.ReadInode | core/src/lib.rs:1646-1680 | the inode fields of every edition |
| Catalogue.ReadNameAndInode | core/src/lib.rs:1286-1291 | name, inode and skipped attribute block |
| Catalogue.ReadFile | core/src/lib.rs:1386-1436 | the file fields of every edition, checksum included |
| Catalogue.Join | core/src/lib.rs:1463-1471 | the path built in the loop is every directory and the name, separated by slashes |
| Catalogue.ParseCatalog | core/src/lib.rs:1254-1369 | the loop over depth and stack yields the walk's entries, completeness and cursor |
| Roundtrip.InodeReads | core/src/lib.rs:1646-1680 | an inode as any edition writes it is read back, and nothing behind it is touched |
| Roundtrip.HeadReads | core/src/lib.rs:1286-1291 | the same for name, inode and attribute block together |
| Roundtrip.BodyReads | core/src/lib.rs:1386-1418 | the same for the file fields, with the zero stored size of old editions standing for the size |
| Roundtrip.WalkNode | core/src/lib.rs:1266-1366 | what the walk emits for any tree below the top, and the stack it leaves, reserved names included |
| Roundtrip.RootWalk | core/src/lib.rs:1266-1366 | any top directory is walked to just past its end mark, complete, whatever follows |
| Roundtrip.ParserInvertsWriter | core/src/lib.rs:1254-1369 | parsing a written tree returns its pre-order listing, complete, if and only if no directory below the top is named `<ROOT>` |
| Roundtrip.NestedRootIsLost | core/src/lib.rs:1277-1304 | a valid tree with such a directory, whose one entry is not listed although the walk is complete |
| Roundtrip.CatalogWalk | core/src/lib.rs:1260-1369 | every catalogue of the grammar is consumed whole and reported complete |
| Soundness.TopSound | core/src/lib.rs:1260-1369 | from a complete walk the catalogue it read can be rebuilt |
| Soundness.CompleteIffCatalogue | core/src/lib.rs:1260-1369 | complete if and only if a whole catalogue of the grammar stands at the cursor; the walk ends at its end and reports the entries before its top directory and those of it |
| Truncation.PartAgreesWithWhole | core/src/lib.rs:1266-1369 | for arbitrary bytes: a complete or corrupt part is the whole's verdict, otherwise its entries open the whole listing |
| Truncation.CutCatalogueIsIncomplete | core/src/lib.rs:1266-1369 | a catalogue cut before its last byte gives an I/O error or an incomplete prefix of the listing |
| Interrupted.InterruptedKeepsAll | core/src/lib.rs:1266-1369 | where a catalogue breaks off between entries at any depth, or meets an unknown kind, every entry read is listed with its path, without an error and incomplete |
| Interrupted.CutEntryFails | core/src/lib.rs:1286-1291 | cut inside an entry, before any payload at its end, the walk is an I/O error |
| Interrupted.GarbledEntryFails | core/src/lib.rs:1286-1360 | a known letter that no entry follows, however the input went on, makes the walk fail |
| Depth.StackNeverExceedsDepth | core/src/lib.rs:1266-1320 | on any bytes, at every turn, the stack is at most as high as the depth, and lower by no more than the reserved names met |
| Depth.TracksIff | core/src/lib.rs:1266-1320 | depth equals stack height or one more at every turn if and only if one directory of the reserved name at most is opened |
| Depth.TreeTracksIff | core/src/lib.rs:1266-1320 | on a written tree, if and only if it has one such directory at most, so always when none is below the top |
| Locate.WindowSearch | core/src/lib.rs:616-640 | the nine carried bytes suffice: searching the buffer finds the leftmost occurrence in everything read so far |
| Locate.ScanWindow | core/src/lib.rs:602-644 | for every choice of short reads that went on until the answer was in view or the input ended: nothing, the leftmost escape or the leftmost label, as the reads decide, the reader just past it |
| Locate.ScanSettles | core/src/lib.rs:620-637 | a scan whose markers do not race answers the marker that ends first, the escape on a tie |
| Locate.ChunkingMattersIff | core/src/lib.rs:620-637 | two scans can answer differently exactly when the label ends first and one read can reach past both ends |
| Locate.RunExtends | core/src/lib.rs:609-643 | reading on to the end of the input would not change what a scan answers |
| Locate.RacingExample | core/src/lib.rs:620-637 | a label with the escape right behind it, where two runs do answer differently |
| Locate.FindCatalogueWithin | core/src/lib.rs:672-705 | tail window, then the whole, then an error, each scan reading until it could answer; the reader just past the marker |
| Locate.DecisiveIff | core/src/lib.rs:672-705 | every search finds a given marker, whatever the sizes of its reads, if and only if it ends first without a race in the tail window or, where that holds no marker, in the whole |
| Locate.LocateSettles | core/src/lib.rs:672-705 | without a race in the window that decides, every two searches answer the same |
| Locate.LocateComplete | core/src/lib.rs:672-705 | the search fails if and only if no enabled marker stands anywhere after the origin, across the tail boundary too |
| Locate.LocateSound | core/src/lib.rs:672-705 | what is found is the first of its kind in the window that found it, and lies before the tail window exactly when the tail holds no marker |
| Locate.TailFirstIff | core/src/lib.rs:687-705 | the hit lies in the last bytes of the file, as many as the tail has, if and only if some enabled marker does |
| Locate.TailAgreesWithFull | core/src/lib.rs:691-705 | with every marker inside the tail, the answer is one a scan of the whole could give, and the one that every such scan gives unless both kinds are there and race |
| Terminateur.ReadTerminateur | core/src/lib.rs:1206-1248 | the backward loops compute the trailer's offset, ending on every input |
| Terminateur.RunLengthExact | core/src/lib.rs:1229-1241 | the bytes accepted are exactly those whose set bits are their leading bits |
| Terminateur.TrailerExact | core/src/lib.rs:1206-1248 | an offset is returned if and only if a trailer of the format carrying it ends the input |
| Terminateur.TrailerRoundTrip | core/src/lib.rs:1206-1248 | every offset in either width, with any padding to n blocks, n not a multiple of 8 and at most 512 padding bytes, is recovered |
| Examples.TrailerVector | core/src/lib.rs:2003-2008 | the trailer of the program's own test gives offset 24 |
| Header.ReadArchiveHeader | core/src/lib.rs:281-329 | label, extension, last data name and origin, with the errors in the program's order |
| Header.SliceHeaderLen | core/src/lib.rs:712-741 | the length skimmed over |
| Header.HeadersAgree | core/src/lib.rs:712-741 | `open` and the slice reader end a header at the same byte, each succeeding within the input exactly when the other does |
| Header.HeaderReads | core/src/lib.rs:281-329 | every written header, of the three kinds, is read back by both |
| Header.HeaderIff | core/src/lib.rs:281-329 | a header is read within the input if and only if one stands there; without the magic number it is no archive, and an unknown extension is corrupt |
| Slices.SliceReader.Read | core/src/lib.rs:816-850 | exactly the bytes available up to the buffer's size, equal to the joined archive at the cursor, whatever the short reads and empty slices |
| Slices.SliceReader.Seek | core/src/lib.rs:852-868 | a seek before the start is refused and moves nothing; any other lands on the target modulo 2^64 |
| Slices.Run | core/src/lib.rs:816-868 | any interleaving of reads and seeks shows what a flat cursor over the archive shows |
| Volumes.OpenSlices | core/src/lib.rs:770-814 | the spans built in the loop lie end to end and join to the unwrapped archive, over files of its own, or the same error is reported |
| Volumes.SlicingIsInvisible | core/src/lib.rs:770-814 | however an archive is cut and each piece wrapped in a valid header and flag, the pieces are put together again |
| Volumes.BadSliceFails | core/src/lib.rs:712-814 | behind good slices the first bad one decides: no magic number is no archive, an unknown extension or no room for header and flag is corrupt |
| Volumes.OpenSliced | core/src/lib.rs:870-908 | opening slice files is opening the joined archive |
| Volumes.ExtractSliced | core/src/lib.rs:870-908 | extracting from slice files is extracting from the joined archive |
| Volumes.SlicesReadAlike | core/src/lib.rs:870-908 | for any cutting and wrapping, opening and extraction have the outcome they have on the uncut archive, whatever the reads of either, if its markers do not race |
| Decode.CapWriter.Write | core/src/lib.rs:1141-1149 | a chunk is passed on whole or refused, by the wrapping 64-bit count |
| Decode.DeliverBounded | core/src/lib.rs:1135-1154 | while bound and longest chunk stay within 64 bits together, never more than the bound passes, and all chunks pass exactly when their total fits |
| Decode.BoundHoldsIff | core/src/lib.rs:1141-1149 | the bound holds for all chunks up to a length if and only if bound and length stay within 64 bits together |
| Decode.WrapExample | core/src/lib.rs:1143 | the largest bound and a chunk of five bytes past it, accepted |
| Decode.DecodeStream | core/src/lib.rs:1160-1195 | the codec's chunks go through the cap; an unknown codec fails |
| Decode.DecodeRawBlock | core/src/lib.rs:1113-1130 | only the decoded front of the reused buffer is written, whatever stale bytes it held |
| Decode.DecodeBlocks | core/src/lib.rs:1037-1108 | the framing loop pours the blocks one after another, stopping at the first failure or refusal |
| Decode.DecodeData | core/src/lib.rs:1011-1023 | block framing or a single stream, by block size and codec |
| Decode.PourThen | core/src/lib.rs:1064-1107 | pouring one decoder after another is pouring both |
| Framing.FrameDecodes | core/src/lib.rs:1064-1107 | framed blocks with anything after them decode to the blocks' outputs in order, the loop ending at the end marker |
| Framing.WellEndedIsFramed | core/src/lib.rs:1064-1107 | a run ends well only on a whole frame all of whose blocks decode |
| Framing.CutFrameFails | core/src/lib.rs:1064-1107 | every strict prefix of a framed stream fails |
| Framing.BlockHeadErrors | core/src/lib.rs:1064-1100 | how the head of a block can be wrong, and with which error |
| Framing.DataFails | core/src/lib.rs:1011-1107 | on a whole frame, and on a single stream, decoding fails only as corrupt |
| Framing.CodecLetters | core/src/lib.rs:984-990 | the letters of the codecs that know raw blocks and of those that are streamed, in either case |
| Framing.YieldsIff | core/src/lib.rs:1011-1023 | decoding ends well with given bytes if and only if the codec makes them of the input, by the frame it begins with or as one stream |
| Crc.DarCrc | core/src/lib.rs:1441-1447 | slot j of the in-place fold is the exclusive or of the bytes at positions j modulo the width |
| Crc.XorBitAt | core/src/lib.rs:1444 | a bit of the exclusive or is set exactly where one of the two has it |
| Crc.ChecksumOfConcat | core/src/lib.rs:1438-1447 | the checksum of two parts is the first's, with the second's rotated by the first's length folded in |
| Crc.ChecksumSeesOneByte | core/src/lib.rs:1438-1447 | changing any one byte changes the checksum |
| Crc.ToHexInjective | core/src/lib.rs:1450-1460 | different bytes have different hexadecimal texts |
| Crc.HexReadsBack | core/src/lib.rs:1450-1460 | two lower-case digits a byte, the higher first, in the order of the bytes |
| Reader.ReadHeaderFlags | core/src/lib.rs:927-939 | the flag loop, with its bound on the value |
| Reader.ReadBlockSizeField | core/src/lib.rs:952-976 | the block size behind command line, flags and initial offset, or 0 |
| Fields.FlagsReadBack | core/src/lib.rs:927-939 | a flag field is read back exactly when its value fits 64 bits, however many empty bytes lead it; otherwise it is corrupt |
| Fields.SettingsReadBack | core/src/lib.rs:952-976 | of command line, flags, initial offset and block size as written, the block size is read back, or 0 exactly when it is absent, past 256 MiB or among unknown fields, or the edition is 1 |
| Fields.VersionReadsBack | core/src/lib.rs:909-922 | two and three digit versions are read back, low bytes counting as 0, and none at all as newer than any |
| Examples.BlockSizeVector | core/src/lib.rs:2155-2163 | an initial offset is stepped over before the block size |
| Reader.InflateCatalogue | core/src/lib.rs:995-1004 | the decoded catalogue under its bound |
| EndToEnd.InflatesIff | core/src/lib.rs:995-1004 | a catalogue inflates to given bytes if and only if its codec makes them and they are 1 GiB at most |
| Reader.ParseTagged | core/src/lib.rs:340-375 | entries behind the marker, inflated or not, past label and in-place path |
| Reader.ParseLegacy | core/src/lib.rs:389-414 | entries where the trailer points, inflated or not |
| Reader.Open | core/src/lib.rs:281-429 | the whole of opening, as a function of the bytes and of where the reads of scans that went on until they could answer ended |
| Reader.NoArchiveIff | core/src/lib.rs:281-290 | opening says that input is no archive if and only if it does not begin with the magic number |
| Reader.OpensAlike | core/src/lib.rs:281-429 | two openings of an archive whose markers do not race have the same outcome |
| Reader.DarReader.ExtractTo | core/src/lib.rs:498-574 | what is appended and returned, decided by archive, catalogue and path alone, whatever ran before |
| Reader.DarReader.Extract | core/src/lib.rs:578-582 | the same bytes in one buffer, or the error |
| Reader.DarReader.Verify | core/src/lib.rs:469-492 | the status of the first entry of the path |
| EndToEnd.OpensTagged | core/src/lib.rs:329-375 | opening recovers origin and listing behind a tape mark, stored or compressed, or behind a bare label, if every search finds that marker |
| EndToEnd.OpensLegacy | core/src/lib.rs:376-414 | the same where the trailer addresses the catalogue |
| EndToEnd.WrittenTaggedOpens | core/src/lib.rs:281-429 | opening a written archive, its catalogue coded or not, returns its listing, origin, format and block size if every search finds its catalogue's marker |
| EndToEnd.WrittenLegacyOpens | core/src/lib.rs:281-429 | opening a written legacy archive returns its listing whatever its data hold |
| EndToEnd.CodedLegacyOpens | core/src/lib.rs:376-414 | the same when the catalogue is coded and inflated together with the trailer behind it |
| EndToEnd.OpensWhatStands | core/src/lib.rs:329-375 | whatever stands behind the marker every search finds, opening gives what reading it gives, inflated only behind the tape mark of a compressed archive, with every error |
| EndToEnd.OpensWhatIsAddressed | core/src/lib.rs:376-414 | the same where the trailer addresses the catalogue, which must begin inside the archive |
| Examples.ArchiveReads | core/src/lib.rs:281-582 | an archive given byte by byte opens to its one entry, whatever the sizes of the reads; the file comes out and its checksum matches |
| EndToEnd.TreeExtracts | core/src/lib.rs:498-542 | every entry of a tree with sound names whose codec byte names no codec comes out as the bytes at origin plus offset, stored size of them |
| EndToEnd.UnknownPath | core/src/lib.rs:498-510 | a path that no entry has is not found |
| EndToEnd.ExtractsIff | core/src/lib.rs:515-574 | a compressed entry comes out as given bytes of the declared size if and only if its codec makes them of the stored bytes at its place, or in format 1 of all from there on; outside the archive, or of another size, it fails with the error told |
| Kept.KeptFileExtractsIff | core/src/lib.rs:1393-1410 | a file that its edition keeps as it is comes out so, under every codec by which the archive opens, exactly when the format is 8 or later or the archive is not compressed |
| Kept.KeptFileExample | core/src/lib.rs:1407-1410 | the bytes of a compressed one-file archive of format 7 that opens to its whole listing and then refuses the file |
| EndToEnd.FramedFileExtracts | core/src/lib.rs:543-574 | a file archived as framed blocks comes out as what the blocks decode to, in order |
| EndToEnd.StreamedFileExtracts | core/src/lib.rs:556-574 | a file archived as one stream comes out as what the codec makes of just its stored bytes |
| EndToEnd.FirstFormatExtracts | core/src/lib.rs:544-555 | in format 1 the codec is given everything from the offset to the end |
| EndToEnd.ExtractFails | core/src/lib.rs:515-574 | a compressed extraction fails as corrupt, or by an I/O error only where a raw block writes past the declared size or the stored blocks are no whole frame |
| EndToEnd.SlicedArchiveExtracts | core/src/lib.rs:870-908 | a written archive, cut and wrapped in any way, opens by its slices to its listing and yields its files |
| EndToEnd.ExactOrLoud | core/src/lib.rs:515-574 | success means exactly the declared bytes and no outcome means more, while declared size and one write of the codec stay within 64 bits together; a stored extraction fails exactly when it reaches outside the archive, as corrupt, and writes nothing |
| EndToEnd.CappedBounds | core/src/lib.rs:544-573 | under the same condition, a compressed extraction succeeds exactly when the decoder ends well with the declared number of bytes, and these come out |
| EndToEnd.VerifyIsExact | core/src/lib.rs:469-492 | a match exactly when the extracted bytes fold to the stored checksum; a mismatch shows the stored text and the different computed one; an error is that of the extraction or an unknown path |
| Tree.BuildTree | core/src/vfs.rs:217-273 | the node table built by the two loops, later duplicates taking over a path |
| Tree.ChildrenPartition | core/src/vfs.rs:257-271 | for any paths: every entry is the child of exactly one node, the top or one with a strictly shorter path; children are ids of entries in catalogue order, without repeats |
| Tree.EveryNodeReachable | core/src/vfs.rs:217-273 | for any paths: child links lead from the top to every node |
| Tree.ParentIff | core/src/vfs.rs:197-271 | for any paths: an entry hangs under the last entry whose path, a slash and a slash-free name make up its own; its name is what follows its last slash |
| Tree.NodeKinds | core/src/vfs.rs:187-253 | for any entries: a nameless top directory, then a node each with path, size and kind, only directories and links told from files |
| Recovery.TreeRecovered | core/src/vfs.rs:217-273 | the table built from a parsed listing is the archived tree, names, kinds and children in order, whether or not the top was named |
| Recovery.MetadataRecovered | core/src/vfs.rs:239-253 | every node carries size, owner, mode, times and link target of its archived node, owners past 32 bits as the largest |
| Vfs.Lookup | core/src/vfs.rs:342-360 | the first child of the name, or loud errors for bad ids and non-directories |
| Vfs.LookupAnswers | core/src/vfs.rs:342-360 | a bad id is not supported, a non-directory a decoding fault; in a directory either a child of the name is found or there is none |
| Vfs.LookupReachesEveryEntry | core/src/vfs.rs:342-360 | looking up the components of an entry's path, the top's own name left off, reaches that entry's node |
| Vfs.LookupReachesIff | core/src/vfs.rs:342-360 | for any paths: lookups reach a node if and only if neither it nor a node above it is shadowed by an earlier sibling of its name, and every node above is a directory; and by one sequence of names only |
| Vfs.ShadowedExample | core/src/vfs.rs:239-271 | a child that hangs under the second of two like paths, where no lookup comes |
| Vfs.DarVfs.ReadsOwnIff | core/src/vfs.rs:387-415 | reading a node gives its own entry's bytes if and only if the first entry of its path gives the same; so always without an earlier one |
| Vfs.Mount | core/src/vfs.rs:95-107 | a mounted archive reads the archive it was given, starting with the built tree and an empty, coherent cache |
| Vfs.BootstrapIff | core/src/vfs.rs:167-185 | mounting fails at the bootstrap stage exactly on input without the magic number, and with an I/O fault exactly on an I/O error |
| Vfs.DarVfs.Content | core/src/vfs.rs:129-138 | cached or not, the answer is what extracting that node's path gives; a failure leaves the cache as it was |
| Vfs.DarVfs.ReadAt | core/src/vfs.rs:387-415 | the part of that content at the offset, the rest of the buffer untouched, the cache still coherent and changed by nothing but this content |
| Vfs.DarVfs.ReadAnswers | core/src/vfs.rs:387-415 | what a read answers for bad ids, for nodes that are no files, for failed extractions, and how many of the extracted bytes otherwise |
| Vfs.DarVfs.ServeAll | core/src/vfs.rs:387-415 | in any run of reads, each answer is that of its own request, and the cache holds just what the successful ones left |
| Vfs.DarVfs.ReadForward | core/src/vfs.rs:387-415 | reads that each start where the last one ended collect the successive parts of the content |
| Vfs.DarVfs.ReadToEnd | core/src/vfs.rs:387-415 | reading forward with buffers of any non-zero sizes until a read is empty gives exactly the extracted bytes |
| Mounted.ReadMounted | core/src/vfs.rs:95-415 | mounting a written archive, looking up a stored file's components and reading to the end gives the bytes at the file's place |
| Vfs.ForwardReassembles | core/src/vfs.rs:387-415 | what a forward run collects opens the content, is all of it exactly when the next read is empty, and gets there |
| Bodyfile.Permissions | forensic/src/bodyfile.rs:30-51 | the nine letters, special bits overwritten in place |
| Bodyfile.PermissionsReadBack | forensic/src/bodyfile.rs:30-51 | all twelve mode bits can be read off the letters, each told by its own, and dashes stand where none is set |
| Bodyfile.KindReadsBack | forensic/src/bodyfile.rs:13-25 | the mode field names the kind twice, and every kind is read off its letter, hard links as files and unknown ones as a dash |
| Bodyfile.EscapeName | forensic/src/bodyfile.rs:57-77 | the escaped name built in the loop |
| Bodyfile.EscapeRoundTrip | forensic/src/bodyfile.rs:57-77 | unescaping inverts escaping for every string |
| Bodyfile.EscapeIsClosed | forensic/src/bodyfile.rs:57-77 | no raw control character and no unescaped delimiter survives |
| Bodyfile.Line | forensic/src/bodyfile.rs:80-101 | the eleven fields joined |
| Bodyfile.LineParsesBack | forensic/src/bodyfile.rs:80-101 | any line splits into its eleven fields, and these give back mode, all numbers, and name and target as joined by the arrow |
| Bodyfile.LinkReadsOffIff | forensic/src/bodyfile.rs:84-88 | name and target are read off at the first arrow if and only if no arrow begins inside the name |
| Bodyfile.LinkIsUniqueIff | forensic/src/bodyfile.rs:84-88 | the joined text belongs to one name and target only if and only if it holds one arrow only |
| Bodyfile.ArrowExample | forensic/src/bodyfile.rs:84-88 | two links that leave the same line |
| Bodyfile.WriteBodyfile | forensic/src/lib.rs:139-144 | one terminated line an entry |
| Bodyfile.BodyfileReadsBack | forensic/src/lib.rs:139-144 | splitting the text at line ends gives exactly those lines |
| Audit.Examine | forensic/src/lib.rs:98-127 | the checks of one entry in order |
| Audit.RunAudit | forensic/src/lib.rs:87-137 | the findings collected with the two path sets, then sorted |
| Audit.ComponentsRejoin | forensic/src/lib.rs:106 | the components tested for `..` are the path cut at every slash |
| Audit.DuplicatesReportedOnce | forensic/src/lib.rs:128-131 | a path has one duplicate finding if it occurs at least twice, and none otherwise |
| Audit.SortedIsStable | forensic/src/lib.rs:134-135 | the sort keeps every finding, orders by decreasing severity, and keeps catalogue order within each |
| Audit.AnyStableSortAgrees | forensic/src/lib.rs:134-135 | a list is a stable sort of the findings if and only if it is this one |
| Audit.AuditIsExact | forensic/src/lib.rs:87-137 | the audited list as a whole has these properties, reports an incomplete catalogue exactly once when it is, and gives each kind its severity |
| Audit.AuditReports | forensic/src/lib.rs:98-127 | absolute path, bounded `..`, control characters and a time past 2099 are each reported once for every entry, and field, that has them, and never otherwise |
| Audit.RawInOrder | forensic/src/lib.rs:87-132 | before the sort, the findings of each entry follow those of the entries before it, each kind in its turn |
| Audit.AuditOrder | forensic/src/findings.rs:97-110 | the incomplete catalogue comes first, then paths that lead elsewhere, then the rest |

## Left out

- The codecs: each is a function from bytes to the chunks it writes and whether it ends well; a raw block decoder returns at most the buffer's size. Partial output before a failure is modelled, the formats themselves are not.
- Error messages: an error is its kind.
- Operating-system errors, file paths and the probing for slice files: a slice is a byte string with short reads, and the caller's writer never fails.
- SkipBytes: a forward seek in a single file reaches any position; the I/O error for positions that a file system or a cursor refuses is not modelled.
- OpenSliced: and what is said of sliced archives through it, is for up to 2^63 bytes; beyond, a forward skip may wrap the slice reader's cursor.
- Take: buffers of constant bound (a checksum of at most 64 KiB, the raw block buffer of at most 256 MiB) are not measured against the bytes that remain.
- WalkFrom: does not model the 32-bit width of the depth counter, which needs 2^32 nested directories to matter; depth is unbounded.
- OpensTagged: is about a catalogue stored as it is where the marker is a bare label, behind which the program never inflates; what it makes of a compressed one there is told by `OpensWhatStands`.
- TreeExtracts: is about entries whose codec byte names no codec; files kept as they are in a compressed archive of formats 2 to 7 are the subject of `KeptFileExtractsIff`, compressed ones of `ExtractsIff`.
- ReadToEnd: is for content shorter than 2^64 bytes, as far as offsets reach.
- KeptFileExtractsIff: does not speak of a file whose first coded input is also one of the catalogue's, since the codec must decode that one for the archive to open.
- Extended attributes, hard links and devices, which the parser stops at, are not in the grammar.
- The window and chunk sizes of the scan are parameters; the nine carried bytes and both markers are the program's.
- Text: the lossy projection of paths is any function, severities and evidence stand for the findings, and codes, notes and serialisation are absent.
- The rest of the mounted view: directory streams, metadata copies, extents, times, named streams; the mutex is modelled as atomic calls.
- The sort of the audit is an insertion sort; `AnyStableSortAgrees` carries its result to any other stable sort.
