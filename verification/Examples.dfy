/** Bytes and what is read from them: the vectors of the program's own tests, and one whole archive. */
module Examples {
  import opened Bytes
  import opened Wire
  import opened Catalogue
  import opened Grammar
  import opened Decode
  import opened Reader
  import opened Terminateur
  import opened Fields
  import opened EndToEnd
  import Header
  import Locate
  import Framing
  import Crc

  // ---- Numbers ----

  lemma {:induction false} ShortNumber(v: nat)
    requires v < 0x1_0000
    ensures EncodeBigEndian(v, 2) == [v / 0x100, v % 0x100]
    ensures EncodeInfinint(Infinint(v, false)) == [0x80, 0, 0, v / 0x100, v % 0x100]
  {
    assert v / 0x100 / 0x100 == 0 && v / 0x100 % 0x100 == v / 0x100;
    assert EncodeBigEndian(0, 2) == [0, 0];
    assert EncodeBigEndian(v / 0x100, 3) == [0, 0, v / 0x100];
    assert EncodeBigEndian(v, 4) == [0, 0, v / 0x100, v % 0x100];
  }

  lemma {:induction false} NumberVectors()
    ensures Inf([0x80, 0x00, 0x00, 0x00, 0x0D], 0) == Done(13, 5)
    ensures Inf([0x40, 0x00, 0x00, 0x00, 0x00, 0x5D, 0x15, 0x93, 0x31], 0) == Done(0x5D15_9331, 9)
    ensures Inf([0x03, 0x00, 0x00, 0x00, 0x00], 0) == Fail(Corrupt, 1)
    ensures Inf([0x80, 0x00], 0) == Fail(Io, 2)
  {
    var short: seq<byte> := [0x80, 0x00, 0x00, 0x00, 0x0D];
    var long: seq<byte> := [0x40, 0x00, 0x00, 0x00, 0x00, 0x5D, 0x15, 0x93, 0x31];
    ShortNumber(13);
    SliceAt(short, 0, EncodeInfinint(Infinint(13, false)));
    InfReads(short, 0, Infinint(13, false));
    LongNumber();
    SliceAt(long, 0, EncodeInfinint(Infinint(0x5D15_9331, true)));
    InfReads(long, 0, Infinint(0x5D15_9331, true));
    InfParts([0x03, 0x00, 0x00, 0x00, 0x00], 0);
    InfParts([0x80, 0x00], 0);
  }

  lemma {:induction false} LongNumber()
    ensures EncodeInfinint(Infinint(0x5D15_9331, true)) == [0x40, 0x00, 0x00, 0x00, 0x00, 0x5D, 0x15, 0x93, 0x31]
  {
    assert EncodeBigEndian(0, 2) == [0, 0];
    assert EncodeBigEndian(0, 4) == [0, 0, 0, 0];
    assert EncodeBigEndian(0x5D15, 6) == [0, 0, 0, 0, 0x5D, 0x15];
    assert EncodeBigEndian(0x5D15_9331, 8) == [0, 0, 0, 0, 0x5D, 0x15, 0x93, 0x31];
  }

  /** The offset 24 in five bytes, three of padding, and two leading ones: eight bytes back. */
  lemma {:induction false} TrailerVector()
    ensures TrailerOffset([0x80, 0x00, 0x00, 0x00, 0x18, 0x00, 0x00, 0x00, 0xC0]) == Ok(24)
  {
    hide TrailerOffset;
    var d: seq<byte> := [0x80, 0x00, 0x00, 0x00, 0x18, 0x00, 0x00, 0x00, 0xC0];
    ShortNumber(24);
    HighBitsTable();
    SliceAt(d, 0, EncodeInfinint(Infinint(24, false)));
    TrailerReads(d, 0, 2, Infinint(24, false));
  }

  lemma {:induction false} FlagVector()
    ensures EncodeFlagField([0x08, 0x08]) == [0x09, 0x08] && Accumulated(0, [0x08, 0x08]) == 0x0808
  {
    assert [0x08, 0x08][1..] == [0x08] && [0x08][1..] == [];
    assert Accumulated(8, [0x08]) == 0x0808;
  }

  /** Empty command line, flags 0x0808, an initial offset to step over, and the block size 42. */
  lemma {:induction false} BlockSizeVector()
    ensures BlockSize([0x00, 0x09, 0x08, 0x80, 0, 0, 0, 0, 0x80, 0, 0, 0, 42], 0, 11) == 42
  {
    hide BlockSize, EncodeInfinint, EncodeFlagField, Accumulated;
    var d: seq<byte> := [0x00, 0x09, 0x08, 0x80, 0, 0, 0, 0, 0x80, 0, 0, 0, 42];
    var s := Settings.Settings([], [0x08, 0x08], ZERO, Infinint(42, false));
    ShortNumber(0);
    ShortNumber(42);
    FlagVector();
    assert s.Value() == 2056;
    assert s.Bytes(11) == d;
    SliceAt(d, 0, d);
    SettingsReadBack(d, 0, 11, s);
  }

  // ---- One archive, byte for byte ----

  /** Slice header: magic number, ten zeros for a label, flag and extension 'T', no items. */
  const SLICE: seq<byte> := [0x00, 0x00, 0x00, 0x7B, 0, 0, 0, 0, 0, 0, 0, 0, 0, 0, 0x54, 0x54, 0x80, 0, 0, 0, 0]

  /** Archive header: version 11.1, codec 'n', no command line, no flags; then the file's two bytes, "hi". */
  const VOLUME: seq<byte> := [0x30, 0x3B, 0x31, 0x00, 0x6E, 0x00, 0x00, 0x68, 0x69]

  /** Tape mark, the catalogue's own label, and an empty in-place path. */
  const MARK: seq<byte> := [0xAD, 0xFD, 0xEA, 0x77, 0x21, 0x43, 1, 2, 3, 4, 5, 6, 7, 8, 9, 10, 0x00]

  /** Flags, owner 1000, group 100, mode 0755; access in seconds, modification in micro-, change in nanoseconds. */
  const INODE: seq<byte> :=
    [0x00, 0x80, 0, 0, 0x03, 0xE8, 0x80, 0, 0, 0, 0x64, 0x01, 0xED,
     0x73, 0x80, 0, 0, 0, 1, 0x75, 0x80, 0, 0, 0, 2, 0x80, 0, 0, 0, 9, 0x6E, 0x80, 0, 0, 0, 3, 0x80, 0, 0, 0, 9]

  /** `d<ROOT>` and `fa`, as saved. */
  const TOP_NAME: seq<byte> := [0x64, 0x3C, 0x52, 0x4F, 0x4F, 0x54, 0x3E, 0x00]
  const FILE_NAME: seq<byte> := [0x66, 0x61, 0x00]

  /** Size 2 at offset 7, 2 bytes stored, status, codec 'n', and a checksum of two bytes. */
  const FILE_BODY: seq<byte> :=
    [0x80, 0, 0, 0, 2, 0x80, 0, 0, 0, 7, 0x80, 0, 0, 0, 2, 0x00, 0x6E, 0x80, 0, 0, 0, 2, 0x68, 0x69]

  const ARCHIVE: seq<byte> := SLICE + VOLUME + MARK + (TOP_NAME + INODE) + (FILE_NAME + INODE) + FILE_BODY + [0x7A]

  const EXAMPLE_INODE := RawInode(0, Infinint(1000, false), Infinint(100, false), 493,
                                  Whole('s' as int, Infinint(1, false)),
                                  Micro(Infinint(2, false), Infinint(9, false)),
                                  Nano(Infinint(3, false), Infinint(9, false)), ZERO, ZERO)
  const TOP_HEAD := Grammar.Head('d' as int, [0x3C, 0x52, 0x4F, 0x4F, 0x54, 0x3E], EXAMPLE_INODE, NO_FSA)
  const FILE_HEAD := Grammar.Head('f' as int, [0x61], EXAMPLE_INODE, NO_FSA)
  const FILE := Reg(FILE_HEAD, FileBody(Infinint(2, false), Infinint(7, false), Infinint(2, false), 0, 'n' as int,
                                        Infinint(2, false), [0x68, 0x69]))
  const TREE := Dir(TOP_HEAD, [FILE], 'z' as int)

  const PLAN := Tagged(Header.Head([0, 0, 0, 0, 0, 0, 0, 0, 0, 0], 'T' as int, Header.TlvList(ZERO, [])),
                       [0x30, 0x3B, 0x31], 'n' as int, Settings.Settings([], [0x00], ZERO, ZERO), [0x68, 0x69], true,
                       [1, 2, 3, 4, 5, 6, 7, 8, 9, 10], [], TREE, [], [])

  /** What is read of it. */
  const ENTRY := EntryRef([0x61], File, Inode(0, 1000, 100, 493, 1, 2, Some(3)), None,
                          FileFields(2, 7, 2, 'n' as int, Some([0x68, 0x69])))

  lemma {:induction false} OwnerBytes()
    ensures EncodeOwner(11, EXAMPLE_INODE) == [0x00, 0x80, 0, 0, 0x03, 0xE8, 0x80, 0, 0, 0, 0x64, 0x01, 0xED]
  {
    hide EncodeInfinint, EncodeBigEndian;
    ShortNumber(1000);
    ShortNumber(100);
    ShortNumber(493);
  }

  lemma {:induction false} StampBytes()
    ensures EncodeStamp(11, EXAMPLE_INODE.atime) == [0x73, 0x80, 0, 0, 0, 1]
    ensures EncodeStamp(11, EXAMPLE_INODE.mtime) == [0x75, 0x80, 0, 0, 0, 2, 0x80, 0, 0, 0, 9]
    ensures EncodeStamp(11, EXAMPLE_INODE.ctime) == [0x6E, 0x80, 0, 0, 0, 3, 0x80, 0, 0, 0, 9]
  {
    hide EncodeInfinint, EncodeBigEndian;
    ShortNumber(1);
    ShortNumber(2);
    ShortNumber(3);
    ShortNumber(9);
  }

  lemma {:induction false} InodeBytes()
    ensures EncodeInode(11, EXAMPLE_INODE) == INODE
  {
    hide EncodeOwner, EncodeStamp;
    OwnerBytes();
    StampBytes();
    assert !Attributed(11, EXAMPLE_INODE.flags);
  }

  lemma {:induction false} HeadBytes()
    ensures EncodeHead(11, TOP_HEAD) == TOP_NAME + INODE && EncodeHead(11, FILE_HEAD) == FILE_NAME + INODE
  {
    hide EncodeInode;
    InodeBytes();
    assert INODE + [] == INODE;
  }

  lemma {:induction false} BodyBytes()
    ensures EncodeBody(11, FILE.body) == FILE_BODY
  {
    hide EncodeInfinint;
    ShortNumber(2);
    ShortNumber(7);
  }

  lemma {:induction false} TreeBytes()
    ensures Encode(11, TREE) == (TOP_NAME + INODE) + (FILE_NAME + INODE) + FILE_BODY + [0x7A]
  {
    hide EncodeHead, EncodeBody;
    HeadBytes();
    BodyBytes();
    var kids := TREE.kids;
    assert kids[1..] == [] && EncodeAll(11, kids[1..]) == [];
    assert EncodeAll(11, kids) == Encode(11, FILE);
  }

  lemma {:induction false} SliceBytes()
    ensures Header.EncodeHead(PLAN.head) == SLICE && Origin(PLAN.head) == 21
  {
    hide EncodeInfinint;
    ShortNumber(0);
  }

  lemma {:induction false} SettingsBytes()
    ensures PLAN.settings.Valid() && PLAN.settings.Bytes(11) == [0x00, 0x00] && PLAN.settings.BlockSize(11) == 0
  {
    assert [0x00][1..] == [] && Accumulated(0, []) == 0;
    assert PLAN.settings.Value() == 0;
  }

  lemma {:induction false} VersionIs()
    ensures Format(PLAN.version) == 11 && VersionValue(PLAN.version) == 2817
  {
    assert [0x30, 0x3B, 0x31] + [] == [0x30, 0x3B, 0x31];
    VersionReadsBack(0, 11, 1, []);
  }

  lemma {:induction false} ForeBytes()
    ensures AllEven(PLAN.settings.flags) && PLAN.Fore() == SLICE + VOLUME && |PLAN.Fore()| == 30
  {
    hide Header.EncodeHead, Settings.Bytes, VersionValue;
    SliceBytes();
    SettingsBytes();
    VersionIs();
  }

  /** The parts written one inside the other are the parts one after another. */
  lemma Regrouped(fore: seq<byte>, mark: seq<byte>, own: seq<byte>, path: seq<byte>,
                  top: seq<byte>, name: seq<byte>, body: seq<byte>, eod: seq<byte>)
    ensures fore + (mark + ((own + (path + (top + name + body + eod))) + []))
            == fore + (mark + own + path) + top + name + body + eod
  {
  }

  lemma {:induction false} CatalogueBytes()
    ensures PLAN.Plain() == PLAN.own + ([0x00] + Encode(11, TREE)) && !PLAN.IsCoded()
  {
    hide Encode, VersionValue;
    VersionIs();
    assert [] + [0x00] == [0x00];
  }

  lemma {:induction false} ArchiveBytes()
    ensures AllEven(PLAN.settings.flags) && !PLAN.IsCoded() && PLAN.Bytes() == ARCHIVE
    ensures |PLAN.Fore()| == 30 && Origin(PLAN.head) == 21
  {
    hide Encode, VersionValue, Tagged.Fore, Tagged.Plain, Tagged.IsCoded, Header.EncodeHead, Origin, OwnLabel;
    SliceBytes();
    ForeBytes();
    CatalogueBytes();
    TreeBytes();
    Regrouped(SLICE + VOLUME, Locate.ESCAPE, PLAN.own, [0x00], TOP_NAME + INODE, FILE_NAME + INODE, FILE_BODY, [0x7A]);
    assert Locate.ESCAPE + PLAN.own + [0x00] == MARK;
  }

  lemma {:induction false} TreeIsSound()
    ensures Valid(11, TREE) && !HasReserved(TREE.kids) && RootListing(11, 'n' as int, TREE) == [ENTRY]
  {
    var kids := TREE.kids;
    assert kids[1..] == [] && AllValid(11, kids[1..]) && Valid(11, FILE);
    assert AllValid(11, kids);
    assert ListAll(11, 'n' as int, [], kids[1..]) == [];
    assert EntryOf(11, 'n' as int, [], FILE) == ENTRY;
    assert Listing(11, 'n' as int, [], FILE) == [ENTRY];
  }

  lemma FirstDiffers(d: seq<byte>, p: nat, pat: seq<byte>)
    requires p < |d| && pat != [] && d[p] != pat[0]
    ensures !At(d, p, pat)
  {
    if p + |pat| <= |d| {
      assert d[p..p + |pat|][0] == d[p];
    }
  }

  lemma OthersAvoid()
    ensures 0xAD !in SLICE && 0xAD !in VOLUME && 0xAD !in MARK[1..]
    ensures 0xAD !in TOP_NAME && 0xAD !in INODE && 0xAD !in FILE_NAME && 0xAD !in FILE_BODY
  {
  }

  lemma {:induction false} NamesAvoid(top: seq<byte>, name: seq<byte>, inode: seq<byte>, body: seq<byte>)
    requires 0xAD !in top && 0xAD !in name && 0xAD !in inode && 0xAD !in body
    ensures 0xAD !in (top + inode) + (name + inode) + body + [0x7A]
  {
  }

  lemma Grouped(a: seq<byte>, b: seq<byte>, mark: seq<byte>, c: seq<byte>, e: seq<byte>, f: seq<byte>, g: seq<byte>)
    ensures a + b + mark + c + e + f + g == a + b + mark + (c + e + f + g)
  {
  }

  /** The tape mark's first byte stands nowhere else. */
  lemma {:induction false} LoneMark(j: nat)
    requires j < |ARCHIVE| && j != 30
    ensures ARCHIVE[j] != 0xAD && ARCHIVE[30..36] == Locate.ESCAPE
  {
    OthersAvoid();
    NamesAvoid(TOP_NAME, FILE_NAME, INODE, FILE_BODY);
    Grouped(SLICE, VOLUME, MARK, TOP_NAME + INODE, FILE_NAME + INODE, FILE_BODY, [0x7A]);
    Between(SLICE + VOLUME, (TOP_NAME + INODE) + (FILE_NAME + INODE) + FILE_BODY + [0x7A], j);
  }

  lemma Between(fore: seq<byte>, names: seq<byte>, j: nat)
    requires |fore| == 30 && 0xAD !in fore && 0xAD !in names && 0xAD !in MARK[1..]
    requires j < |fore + MARK + names| && j != 30
    ensures (fore + MARK + names)[j] != 0xAD && (fore + MARK + names)[30..36] == Locate.ESCAPE
  {
    var d := fore + MARK + names;
    assert d[j] == if j < 30 then fore[j] else if j < 47 then MARK[1..][j - 31] else names[j - 47];
  }

  lemma {:induction false} MarkLeftmost(from: nat)
    ensures Locate.Leftmost(ARCHIVE, from, Locate.ESCAPE) == if from <= 30 then Some(30) else None
    ensures forall j :: j > 30 ==> !At(ARCHIVE, j, Locate.ESCAPE)
  {
    hide Locate.FirstIn, Locate.Leftmost;
    LoneMark(0);
    forall j: nat | j != 30
      ensures !At(ARCHIVE, j, Locate.ESCAPE)
    {
      if j < |ARCHIVE| {
        LoneMark(j);
        FirstDiffers(ARCHIVE, j, Locate.ESCAPE);
      }
    }
    if from <= 30 {
      Locate.LeftmostIs(ARCHIVE, from, Locate.ESCAPE, 30);
    } else {
      Locate.LeftmostFinds(ARCHIVE, from, Locate.ESCAPE);
    }
  }

  lemma {:induction false} MarkIsFound(tailScan: nat, chunk: nat)
    ensures PLAN.settings.Valid() && PLAN.Found(tailScan, chunk)
  {
    hide Encode, Locate.Leftmost, Tagged.Bytes, Tagged.Fore, Origin;
    ArchiveBytes();
    SettingsBytes();
    var start := Locate.TailStart(21, |ARCHIVE|, tailScan);
    MarkLeftmost(start);
    MarkLeftmost(21);
    assert PLAN.head.name == [0, 0, 0, 0, 0, 0, 0, 0, 0, 0] && OwnLabel(PLAN.head) == PLAN.head.name;
    Locate.UsableIff(OwnLabel(PLAN.head));
  }

  lemma {:induction false} FileComesOut(c: Codec)
    ensures Extraction(ARCHIVE, Opened(21, 11, true, 0, [ENTRY]), c, [0x61]) == Extracted([0x68, 0x69], Ok(2))
    ensures Verification(ARCHIVE, Opened(21, 11, true, 0, [ENTRY]), c, [0x61]) == Ok(Match)
  {
    assert ARCHIVE[28..30] == [0x68, 0x69];
    assert FindEntry([ENTRY], [0x61]) == Some(ENTRY);
    FoldOfTwo();
  }

  /**
   * The archive opens, whatever the sizes of the reads and of the tail, to its one entry; the file comes out, and
   * its checksum matches.
   */
  lemma {:induction false} ArchiveReads(c: Codec, tailScan: nat, chunk: nat, tail: seq<nat>, full: seq<nat>)
    ensures OpenRun(ARCHIVE, tailScan, chunk, tail, full)
            ==> OpenResult(ARCHIVE, c, tailScan, tail, full) == Ok(Opened(21, 11, true, 0, [ENTRY]))
    ensures Extraction(ARCHIVE, Opened(21, 11, true, 0, [ENTRY]), c, [0x61]) == Extracted([0x68, 0x69], Ok(2))
    ensures Verification(ARCHIVE, Opened(21, 11, true, 0, [ENTRY]), c, [0x61]) == Ok(Match)
  {
    hide Encode, Tagged.Bytes, Tagged.Fore, Tagged.Found, Origin, OpenRun, OpenResult, Valid, HasReserved, RootListing,
         VersionValue, Extraction, Verification;
    ArchiveBytes();
    VersionIs();
    SettingsBytes();
    TreeIsSound();
    MarkIsFound(tailScan, chunk);
    if OpenRun(ARCHIVE, tailScan, chunk, tail, full) {
      WrittenTaggedOpens(PLAN, c, tailScan, chunk, tail, full);
    }
    FileComesOut(c);
  }

  lemma {:induction false} FoldOfTwo()
    ensures Crc.Checksum([0x68, 0x69], 2) == [0x68, 0x69]
  {
    hide Crc.Xor;
    Crc.XorLaws(0x68, 0, 0);
    Crc.XorLaws(0x69, 0, 0);
    var two: seq<byte> := [0x68, 0x69];
    assert two[..1] == [0x68] && two[..1][..0] == [];
    assert Crc.Slot([0x68], 0, 2, 0) == 0x68 && Crc.Slot([0x68], 0, 2, 1) == 0;
  }
}
