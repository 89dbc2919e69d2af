/** From the bytes of a whole archive to its listing and its files. */
module EndToEnd {
  import opened Bytes
  import opened Wire
  import opened Catalogue
  import opened Grammar
  import opened Roundtrip
  import opened Decode
  import opened Reader
  import opened Terminateur
  import Header
  import Locate
  import Crc
  import opened Fields
  import Framing
  import Recovery
  import Volumes

  // ---- What an archive looks like ----

  /** The archive header: version string and global codec, right behind the slice header. */
  ghost predicate Headed(d: seq<byte>, head: Header.Head, version: seq<byte>, comp: byte) {
    && head.Valid() && At(d, 0, Header.EncodeHead(head))
    && ValidName(version) && |version| >= 2 && At(d, Origin(head), (version + [0]) + [comp])
  }

  function Origin(head: Header.Head): nat { |Header.EncodeHead(head)| }

  function Format(version: seq<byte>): nat { VersionValue(version) / 0x100 }

  /** The in-place path that formats from 11.1 put before the first entry. */
  function InPlace(version: seq<byte>, path: seq<byte>): seq<byte> {
    if VersionValue(version) >= 11 * 256 + 1 then path + [0] else []
  }

  /** The label that an archive's catalogue bears: its data name, or else the slice's own label. */
  function OwnLabel(head: Header.Head): seq<byte> {
    var name := if head.ext.TlvList? then Header.LastDataName(head.ext.items, None) else None;
    if name.Some? then name.value else head.name
  }

  lemma MarkIsOwnLabel(head: Header.Head)
    ensures Mark(Header.PreambleOf(head)) == OwnLabel(head)
  {
  }

  /** In-place path and entries, as they stand in a catalogue stored as it is or inflated. */
  function Body(version: seq<byte>, path: seq<byte>, root: Node): seq<byte> {
    InPlace(version, path) + Encode(Format(version), root)
  }

  ghost predicate SoundBody(version: seq<byte>, path: seq<byte>, root: Node) {
    ValidName(path) && root.Dir? && Valid(Format(version), root)
  }

  /**
   * A catalogue behind its tape mark, stored or compressed as one stream with its label, or behind the
   * bare label when tape marks are off.
   */
  ghost predicate CatalogueAt(d: seq<byte>, c: Codec, hit: Locate.Hit, comp: byte, blockSize: nat, own: seq<byte>,
                              body: seq<byte>) {
    if !hit.escape then At(d, hit.Past(), body)
    else
      && |own| == LABEL_SIZE
      && if IsCompressed(comp) then
           var plain := Inflate(c, TailSpan(d, hit.Past()), comp, blockSize);
           plain.Ok? && At(plain.value, 0, own + body)
         else At(d, hit.Past(), own + body)
  }

  /** The block size that `open` reads for itself behind the global codec byte. */
  function BlockSizeOf(d: seq<byte>, head: Header.Head, version: seq<byte>): nat {
    BlockSize(d, Origin(head) + |version| + 2, Format(version))
  }

  // ---- Opening ----

  lemma {:induction false} HeadedReads(d: seq<byte>, head: Header.Head, version: seq<byte>, comp: byte)
    requires Headed(d, head, version, comp)
    ensures Header.ArchiveHeader(d) == Done(Header.PreambleOf(head), Origin(head))
    ensures FormatValue(d, Origin(head)) == VersionValue(version) && GlobalCodec(d, Origin(head)) == comp
    ensures U8(d, NulBytes(d, Origin(head)).next).next == Origin(head) + |version| + 2
  {
    hide At, Header.ArchiveHeader, Header.EncodeHead, NulFrom;
    Header.HeaderReads(d, head);
    var p := Origin(head);
    AtConcat(d, p, version + [0], [comp]);
    NulFromReads(d, p, [], version);
    assert [] + version == version;
    AtOne(d, p + |version| + 1, comp);
  }

  lemma {:induction false} EntriesRead(d: seq<byte>, p: nat, version: seq<byte>, comp: byte, path: seq<byte>,
                                       root: Node)
    requires SoundBody(version, path, root) && !HasReserved(root.kids) && At(d, p, Body(version, path, root))
    ensures EntriesBehindPath(d, p, VersionValue(version), comp) == Ok((RootListing(Format(version), comp, root), true))
  {
    hide At, SkipNulFrom, NulFrom, Encode, WalkFrom, ListAll, HasReserved, VersionValue, Valid;
    AtConcat(d, p, InPlace(version, path), Encode(Format(version), root));
    if VersionValue(version) >= FORMAT_11_1 {
      NulFromReads(d, p, [], path);
      SkipNulAgrees(d, p, []);
    }
    ParserInvertsWriter(d, p + |InPlace(version, path)|, Format(version), comp, root);
  }

  lemma {:induction false} TaggedRead(d: seq<byte>, c: Codec, hit: Locate.Hit, version: seq<byte>, comp: byte,
                                      blockSize: nat,
                                      own: seq<byte>, path: seq<byte>, root: Node)
    requires CatalogueAt(d, c, hit, comp, blockSize, own, Body(version, path, root))
    requires SoundBody(version, path, root) && !HasReserved(root.kids)
    ensures TaggedEntries(d, hit, VersionValue(version), comp, blockSize, c)
            == Ok((RootListing(Format(version), comp, root), true))
  {
    hide At, EntriesBehindPath, Inflate, TailSpan, Body, ListAll, HasReserved, VersionValue, SoundBody;
    var body := Body(version, path, root);
    if hit.escape && IsCompressed(comp) {
      var plain := Inflate(c, TailSpan(d, hit.Past()), comp, blockSize).value;
      AtConcat(plain, 0, own, body);
      EntriesRead(plain, LABEL_SIZE, version, comp, path, root);
    } else if hit.escape {
      AtConcat(d, hit.Past(), own, body);
      EntriesRead(d, hit.Past() + LABEL_SIZE, version, comp, path, root);
    } else {
      EntriesRead(d, hit.Past(), version, comp, path, root);
    }
  }

  /**
   * Opening an archive of format 8 or later, found by its tape mark or by its label, if that is what every
   * search of the archive finds: the origin and the whole listing come back, complete.
   */
  lemma {:induction false} OpensTagged(d: seq<byte>, c: Codec, tailScan: nat, chunk: nat, tail: seq<nat>,
                                       full: seq<nat>,
                                       head: Header.Head, version: seq<byte>, comp: byte, hit: Locate.Hit,
                                       own: seq<byte>, path: seq<byte>, root: Node)
    requires Headed(d, head, version, comp) && head.ext.TlvList?
    requires OpenRun(d, tailScan, chunk, tail, full)
    requires Locate.Decisive(d, Origin(head), tailScan, Mark(Header.PreambleOf(head)), chunk, hit)
    requires CatalogueAt(d, c, hit, comp, BlockSizeOf(d, head, version), own, Body(version, path, root))
    requires SoundBody(version, path, root) && !HasReserved(root.kids)
    ensures OpenResult(d, c, tailScan, tail, full)
            == Ok(Opened(Origin(head), Format(version), true, BlockSizeOf(d, head, version),
                      RootListing(Format(version), comp, root)))
  {
    hide At, Header.ArchiveHeader, Header.EncodeHead, Header.PreambleOf, FormatValue, GlobalCodec, BlockSize,
         CatalogueAt,
         Locate.LocateResult, TaggedEntries, Body, ListAll, HasReserved, Locate.Decisive, Locate.LocateRun,
         VersionValue, SoundBody;
    HeadedReads(d, head, version, comp);
    ExtensionOf(head);
    HeaderLabels(d);
    Locate.DecisiveIsFound(d, Origin(head), tailScan, Mark(Header.PreambleOf(head)), chunk, hit, tail, full);
    TaggedRead(d, c, hit, version, comp, BlockSizeOf(d, head, version), own, path, root);
  }

  lemma ExtensionOf(head: Header.Head)
    ensures Header.PreambleOf(head).extension == Header.EXT_TLV <==> head.ext.TlvList?
  {
  }

  /** The same for formats up to 7, whose trailer addresses the catalogue. */
  lemma {:induction false} OpensLegacy(d: seq<byte>, c: Codec, tailScan: nat, tail: seq<nat>, full: seq<nat>,
                                       head: Header.Head, version: seq<byte>, comp: byte,
                                       k: nat, j: nat, offset: Infinint, root: Node)
    requires Headed(d, head, version, comp) && !head.ext.TlvList?
    requires Trailer(d, k, j, offset) && Origin(head) + offset.v < TWO_64 && Origin(head) + offset.v < |d|
    requires root.Dir? && Valid(Format(version), root) && !HasReserved(root.kids)
    requires if IsCompressed(comp) then
               var plain := Inflate(c, TailSpan(d, Origin(head) + offset.v), comp, 0);
               plain.Ok? && At(plain.value, 0, Encode(Format(version), root))
             else At(d, Origin(head) + offset.v, Encode(Format(version), root))
    ensures OpenResult(d, c, tailScan, tail, full)
            == Ok(Opened(Origin(head), Format(version), true, 0, RootListing(Format(version), comp, root)))
  {
    hide At, Header.ArchiveHeader, Header.EncodeHead, Header.PreambleOf, FormatValue, GlobalCodec, Inflate, TailSpan,
         TrailerOffset, Trailer, Encode, ListAll, WalkFrom, HasReserved, Valid, VersionValue;
    HeadedReads(d, head, version, comp);
    ExtensionOf(head);
    TrailerReads(d, k, j, offset);
    if IsCompressed(comp) {
      ParserInvertsWriter(Inflate(c, TailSpan(d, Origin(head) + offset.v), comp, 0).value, 0,
                          Format(version), comp, root);
    } else {
      ParserInvertsWriter(d, Origin(head) + offset.v, Format(version), comp, root);
    }
  }

  /** As much as is handed to the codec of a catalogue and what follows it: 512 MiB. */
  function Handed(rest: seq<byte>): seq<byte> { if |rest| <= 0x2000_0000 then rest else rest[..0x2000_0000] }

  /** The letters that name a codec. */
  predicate Coding(comp: byte) { comp as char in Framing.RAW_LETTERS || comp as char in Framing.STREAM_LETTERS }

  /** What opening makes of entries at `p`: an error, or a listing, complete or interrupted. */
  function Listed(d: seq<byte>, p: nat, head: Header.Head, version: seq<byte>, comp: byte,
                  blockSize: nat): Result<Opened> {
    match ParsedCatalogue(d, p, Format(version), comp)
    case Aborted(e, _) => Err(e)
    case Walked(entries, complete, _) => Ok(Opened(Origin(head), Format(version), complete, blockSize, entries))
  }

  /** The same where the in-place path may stand before the entries. */
  function Standing(d: seq<byte>, p: nat, head: Header.Head, version: seq<byte>, comp: byte,
                    blockSize: nat): Result<Opened> {
    var path := if VersionValue(version) >= 11 * 256 + 1 then NulBytes(d, p) else Done([], p);
    if path.Fail? then Err(path.error) else Listed(d, path.next, head, version, comp, blockSize)
  }

  /**
   * Whatever stands behind the marker that every search finds, whole or broken: opening gives what reading it
   * gives, behind the label that a tape mark has, an unreadable path, a failing codec and a failing entry as
   * errors. It is inflated behind the tape mark of a compressed archive, and never behind a bare label.
   */
  lemma {:induction false} OpensWhatStands(d: seq<byte>, c: Codec, tailScan: nat, chunk: nat, tail: seq<nat>,
                                           full: seq<nat>,
                                           head: Header.Head, version: seq<byte>, comp: byte, hit: Locate.Hit)
    requires Headed(d, head, version, comp) && head.ext.TlvList?
    requires OpenRun(d, tailScan, chunk, tail, full)
    requires Locate.Decisive(d, Origin(head), tailScan, OwnLabel(head), chunk, hit)
    ensures hit.Past() <= |d|
    ensures var blockSize := BlockSizeOf(d, head, version);
            OpenResult(d, c, tailScan, tail, full)
            == if !hit.escape then Standing(d, hit.Past(), head, version, comp, blockSize)
               else if !Coding(comp) then Standing(d, hit.Past() + 10, head, version, comp, blockSize)
               else match Inflate(c, Handed(d[hit.Past()..]), comp, blockSize)
                 case Err(e) => Err(e)
                 case Ok(plain) => Standing(plain, 10, head, version, comp, blockSize)
  {
    hide At, Header.ArchiveHeader, Header.EncodeHead, Header.PreambleOf, FormatValue, GlobalCodec, BlockSize, Inflate,
         IsCompressed, Locate.LocateResult, Locate.Decisive, Locate.LocateRun, OwnLabel, Standing, EntriesBehindPath,
         VersionValue;
    HeadedReads(d, head, version, comp);
    ExtensionOf(head);
    HeaderLabels(d);
    MarkIsOwnLabel(head);
    Framing.CodecLetters(comp);
    var mark := Mark(Header.PreambleOf(head));
    Locate.DecisiveIsFound(d, Origin(head), tailScan, mark, chunk, hit, tail, full);
    Locate.HitWithin(d, Origin(head), tailScan, mark, tail, full);
    assert TailSpan(d, hit.Past()) == Handed(d[hit.Past()..]);
    forall e: seq<byte>, p: nat
      ensures StandsFor(EntriesBehindPath(e, p, VersionValue(version), comp), head, version,
                        BlockSizeOf(d, head, version))
              == Standing(e, p, head, version, comp, BlockSizeOf(d, head, version))
    {
      BehindPath(e, p, head, version, comp, BlockSizeOf(d, head, version));
    }
  }

  function StandsFor(listing: Result<(seq<EntryRef>, bool)>, head: Header.Head, version: seq<byte>,
                     blockSize: nat): Result<Opened> {
    match listing
    case Err(e) => Err(e)
    case Ok(l) => Ok(Opened(Origin(head), Format(version), l.1, blockSize, l.0))
  }

  lemma {:induction false} BehindPath(d: seq<byte>, p: nat, head: Header.Head, version: seq<byte>, comp: byte,
                                      blockSize: nat)
    ensures StandsFor(EntriesBehindPath(d, p, VersionValue(version), comp), head, version, blockSize)
            == Standing(d, p, head, version, comp, blockSize)
  {
    hide WalkFrom, NulFrom, SkipNulFrom, VersionValue;
    SkipNulAgrees(d, p, []);
  }

  /** The same where the trailer addresses the catalogue, which must begin inside the archive. */
  lemma {:induction false} OpensWhatIsAddressed(d: seq<byte>, c: Codec, tailScan: nat, tail: seq<nat>, full: seq<nat>,
                                                head: Header.Head, version: seq<byte>, comp: byte)
    requires Headed(d, head, version, comp) && !head.ext.TlvList?
    ensures OpenResult(d, c, tailScan, tail, full)
            == match TrailerOffset(d)
               case Err(e) => Err(e)
               case Ok(offset) =>
                 var p := Origin(head) + offset;
                 if p >= |d| || p >= 0x1_0000_0000_0000_0000 then Err(Corrupt)
                 else if !Coding(comp) then Listed(d, p, head, version, comp, 0)
                 else match Inflate(c, Handed(d[p..]), comp, 0)
                   case Err(e) => Err(e)
                   case Ok(plain) => Listed(plain, 0, head, version, comp, 0)
  {
    hide At, Header.ArchiveHeader, Header.EncodeHead, Header.PreambleOf, FormatValue, GlobalCodec, IsCompressed,
         VersionValue, WalkFrom, TrailerOffset, Inflate;
    HeadedReads(d, head, version, comp);
    ExtensionOf(head);
    Framing.CodecLetters(comp);
    if TrailerOffset(d).Ok? && Origin(head) + TrailerOffset(d).value < |d| {
      var p := Origin(head) + TrailerOffset(d).value;
      assert TailSpan(d, p) == Handed(d[p..]);
    }
  }

  // ---- Archives as written ----

  /** Slice header, archive header and whatever lies before the catalogue. */
  function Front(head: Header.Head, version: seq<byte>, comp: byte, data: seq<byte>): seq<byte> {
    Header.EncodeHead(head) + (((version + [0]) + [comp]) + data)
  }

  lemma {:induction false} FrontIsHeaded(d: seq<byte>, head: Header.Head, version: seq<byte>, comp: byte,
                                         data: seq<byte>)
    requires head.Valid() && ValidName(version) && |version| >= 2 && At(d, 0, Front(head, version, comp, data))
    ensures Headed(d, head, version, comp)
  {
    hide At, Header.EncodeHead;
    AtConcat(d, 0, Header.EncodeHead(head), ((version + [0]) + [comp]) + data);
    AtConcat(d, Origin(head), (version + [0]) + [comp], data);
  }

  /** The codec makes `plain`, and perhaps more behind it, of a coded catalogue and what follows; 1 GiB in all. */
  ghost predicate Codes(c: Codec, comp: byte, blockSize: nat, rest: seq<byte>, plain: seq<byte>) {
    exists more :: Framing.Yields(c, comp, blockSize, Handed(rest), plain + more) && |plain + more| <= 0x4000_0000
  }

  /**
   * An archive of format 8 or later. Its catalogue stands behind a tape mark with a label of its own, coded if
   * the archive is compressed, or, when tape marks are off, behind the archive's label.
   */
  datatype Tagged = Tagged(head: Header.Head, version: seq<byte>, comp: byte, settings: Settings, data: seq<byte>,
                           escape: bool, own: seq<byte>, path: seq<byte>, root: Node, coded: seq<byte>,
                           trailing: seq<byte>) {
    function Fore(): seq<byte>
      requires AllEven(settings.flags)
    {
      Front(head, version, comp, settings.Bytes(Format(version)) + data)
    }

    /** Label, in-place path and entries. */
    function Plain(): seq<byte> { (if escape then own else []) + Body(version, path, root) }

    predicate IsCoded() { Coding(comp) }

    function Bytes(): seq<byte>
      requires AllEven(settings.flags)
    {
      var mark, catalogue := if escape then Locate.ESCAPE else OwnLabel(head), if IsCoded() then coded else Plain();
      Fore() + (mark + (catalogue + trailing))
    }

    ghost predicate Sound(c: Codec) {
      && head.Valid() && head.ext.TlvList? && ValidName(version) && |version| >= 2 && |own| == 10 && settings.Valid()
      && SoundBody(version, path, root) && !HasReserved(root.kids)
      && (IsCoded() ==> escape && Codes(c, comp, settings.BlockSize(Format(version)), coded + trailing, Plain()))
    }

    /** Every search of the archive finds its catalogue's marker, whatever the sizes of its reads. */
    ghost predicate Found(tailScan: nat, chunk: nat)
      requires AllEven(settings.flags)
    {
      Locate.Decisive(Bytes(), Origin(head), tailScan, OwnLabel(head), chunk, Locate.Hit(escape, |Fore()|))
    }

    function Listing(): seq<EntryRef> {
      if root.Dir? then RootListing(Format(version), comp, root) else []
    }

    function State(): Opened {
      Opened(Origin(head), Format(version), true, settings.BlockSize(Format(version)), Listing())
    }
  }

  lemma {:induction false} InflatesTo(c: Codec, input: seq<byte>, algo: byte, blockSize: nat, plain: seq<byte>)
    requires Framing.Yields(c, algo, blockSize, input, plain) && |plain| <= 0x4000_0000
    ensures Inflate(c, input, algo, blockSize) == Ok(plain)
  {
    hide DataTrace, Deliver, Framing.Yields;
    Framing.YieldsIff(c, algo, blockSize, input, plain);
    var t := DataTrace(c, input, algo, blockSize);
    DeliverCounted(MAX_CATALOGUE_INFLATED, [], t.chunks);
    assert [] + plain == plain;
  }

  /** A catalogue is inflated to what it codes if that is 1 GiB at most, and refused, with the error told, if more. */
  lemma {:induction false} InflatesIff(c: Codec, input: seq<byte>, algo: byte, blockSize: nat, plain: seq<byte>)
    requires |plain| < TWO_64
    ensures Inflate(c, input, algo, blockSize) == Ok(plain)
            <==> Framing.Yields(c, algo, blockSize, input, plain) && |plain| <= 0x4000_0000
    ensures Framing.Yields(c, algo, blockSize, input, plain) && |plain| > 0x4000_0000
            ==> Inflate(c, input, algo, blockSize) == Err(if algo as char in Framing.RAW_LETTERS then Io else Corrupt)
  {
    hide DataTrace, Deliver, Framing.Yields, IsRawBlock;
    Framing.CodecLetters(algo);
    Framing.YieldsIff(c, algo, blockSize, input, plain);
    var t := DataTrace(c, input, algo, blockSize);
    DeliverCounted(MAX_CATALOGUE_INFLATED, [], t.chunks);
    assert [] + Flat(t.chunks) == Flat(t.chunks);
  }

  /** A coded catalogue that ends the archive is inflated to what it codes. */
  lemma {:induction false} CodedReads(d: seq<byte>, p: nat, c: Codec, comp: byte, blockSize: nat, rest: seq<byte>,
                                      plain: seq<byte>)
    requires p <= |d| && d[p..] == rest && Codes(c, comp, blockSize, rest, plain)
    ensures var inflated := Inflate(c, TailSpan(d, p), comp, blockSize); inflated.Ok? && At(inflated.value, 0, plain)
  {
    hide Inflate, Framing.Yields;
    var more :| Framing.Yields(c, comp, blockSize, Handed(rest), plain + more) && |plain + more| <= 0x4000_0000;
    assert TailSpan(d, p) == Handed(rest);
    InflatesTo(c, Handed(rest), comp, blockSize, plain + more);
    SliceAt(plain + more, 0, plain);
  }

  lemma {:induction false} SettingsRead(a: Tagged)
    requires a.settings.Valid() && At(a.Bytes(), 0, a.Fore())
    ensures BlockSizeOf(a.Bytes(), a.head, a.version) == a.settings.BlockSize(Format(a.version))
  {
    hide At, Header.EncodeHead, BlockSize, Tagged.Bytes, VersionValue, Settings.Bytes, Settings.BlockSize;
    var d, s := a.Bytes(), a.settings.Bytes(Format(a.version));
    var mid := (a.version + [0]) + [a.comp];
    AtConcat(d, 0, Header.EncodeHead(a.head), mid + (s + a.data));
    AtConcat(d, Origin(a.head), mid, s + a.data);
    AtConcat(d, Origin(a.head) + |mid|, s, a.data);
    SettingsReadBack(d, Origin(a.head) + |mid|, Format(a.version), a.settings);
  }

  /** The parts of a written archive, each at its place. */
  lemma {:induction false} TaggedParts(a: Tagged)
    requires AllEven(a.settings.flags)
    ensures var d, front, mark := a.Bytes(), |a.Fore()|, if a.escape then Locate.ESCAPE else OwnLabel(a.head);
            && At(d, 0, a.Fore()) && At(d, front, mark)
            && (if a.IsCoded() then d[front + |mark|..] == a.coded + a.trailing else At(d, front + |mark|, a.Plain()))
            && front + |mark| <= |d|
  {
    hide At, Tagged.Fore, Tagged.Plain, OwnLabel, Tagged.IsCoded;
    var d, front, mark := a.Bytes(), a.Fore(), if a.escape then Locate.ESCAPE else OwnLabel(a.head);
    var catalogue := if a.IsCoded() then a.coded else a.Plain();
    SliceAt(d, 0, d);
    AtConcat(d, 0, front, mark + (catalogue + a.trailing));
    AtConcat(d, |front|, mark, catalogue + a.trailing);
    AtConcat(d, |front| + |mark|, catalogue, a.trailing);
    assert d[|front| + |mark|..] == catalogue + a.trailing;
  }

  /**
   * Writing and then opening gives the listing and the block size back, provided only that every search finds
   * the catalogue's marker and that no directory below the top has the reserved name.
   */
  lemma {:induction false} WrittenTaggedOpens(a: Tagged, c: Codec, tailScan: nat, chunk: nat, tail: seq<nat>,
                                              full: seq<nat>)
    requires a.Sound(c) && a.Found(tailScan, chunk) && OpenRun(a.Bytes(), tailScan, chunk, tail, full)
    ensures OpenResult(a.Bytes(), c, tailScan, tail, full) == Ok(a.State())
  {
    hide At, Front, Body, Locate.Decisive, Headed, OpenRun, OpenResult, HasReserved, SoundBody, BlockSizeOf,
         RootListing, Header.EncodeHead, Header.PreambleOf, VersionValue, Codes, IsCompressed, Tagged.Bytes, OwnLabel,
         Settings.Bytes, Settings.BlockSize, Inflate, TailSpan;
    var d, front, body := a.Bytes(), |a.Fore()|, Body(a.version, a.path, a.root);
    TaggedParts(a);
    SettingsRead(a);
    FrontIsHeaded(d, a.head, a.version, a.comp, a.settings.Bytes(Format(a.version)) + a.data);
    MarkIsOwnLabel(a.head);
    MarkLength(a.head);
    Framing.CodecLetters(a.comp);
    var hit := Locate.Hit(a.escape, front);
    assert a.escape ==> a.Plain() == a.own + body;
    assert !a.escape ==> a.Plain() == body;
    if a.IsCoded() {
      CodedReads(d, hit.Past(), c, a.comp, a.settings.BlockSize(Format(a.version)), a.coded + a.trailing, a.Plain());
    }
    OpensTagged(d, c, tailScan, chunk, tail, full, a.head, a.version, a.comp, hit, a.own, a.path, a.root);
    assert a.root.Dir? by { BodyIsDir(a.version, a.path, a.root); }
  }

  lemma BodyIsDir(version: seq<byte>, path: seq<byte>, root: Node)
    requires SoundBody(version, path, root)
    ensures root.Dir?
  {
  }

  lemma {:induction false} MarkLength(head: Header.Head)
    requires head.Valid()
    ensures |Mark(Header.PreambleOf(head))| == LABEL_SIZE
  {
    hide Header.ArchiveHeader, Header.EncodeHead, Header.PreambleOf;
    var d := Header.EncodeHead(head);
    SliceAt(d, 0, d);
    Header.HeaderReads(d, head);
    HeaderLabels(d);
  }

  lemma HeaderLabels(d: seq<byte>)
    requires Header.ArchiveHeader(d).Done?
    ensures |Mark(Header.ArchiveHeader(d).value)| == LABEL_SIZE
  {
  }

  /** An archive of format 7 or earlier, its catalogue stored as it is and addressed by its trailer. */
  function LegacyArchive(head: Header.Head, version: seq<byte>, comp: byte, data: seq<byte>, root: Node, gap: seq<byte>,
                         offset: Infinint, padding: seq<byte>, n: nat): seq<byte>
    requires n % 8 != 0
  {
    Front(head, version, comp, data) + Encode(Format(version), root) + gap + EncodeTrailer(offset, padding, n)
  }

  /** The same round trip without tape marks: the trailer alone finds the catalogue, whatever the data hold. */
  lemma {:induction false} WrittenLegacyOpens(head: Header.Head, version: seq<byte>, comp: byte, data: seq<byte>,
                                              root: Node, gap: seq<byte>,
                                              offset: Infinint, padding: seq<byte>, n: nat,
                                              c: Codec, tailScan: nat, tail: seq<nat>, full: seq<nat>)
    requires head.Valid() && !head.ext.TlvList? && ValidName(version) && |version| >= 2
    requires !IsCompressed(comp) && root.Dir? && Valid(Format(version), root) && !HasReserved(root.kids)
    requires offset.Valid() && n % 8 != 0 && n / 8 <= 512 && |EncodeInfinint(offset) + padding| == n * BLOCK_SIZE
    requires Origin(head) + offset.v == |Front(head, version, comp, data)| < TWO_64
    ensures OpenResult(LegacyArchive(head, version, comp, data, root, gap, offset, padding, n), c, tailScan, tail, full)
            == Ok(Opened(Origin(head), Format(version), true, 0, RootListing(Format(version), comp, root)))
  {
    hide At, Front, Headed, OpenResult, HasReserved, RootListing, Header.EncodeHead, VersionValue, Valid, Encode,
         EncodeTrailer, EncodeInfinint, TrailerOffset, Trailer;
    var d := LegacyArchive(head, version, comp, data, root, gap, offset, padding, n);
    var front, entries := Front(head, version, comp, data), Encode(Format(version), root);
    SliceAt(d, 0, d);
    AtConcat(d, 0, front + entries + gap, EncodeTrailer(offset, padding, n));
    AtConcat(d, 0, front + entries, gap);
    AtConcat(d, 0, front, entries);
    FrontIsHeaded(d, head, version, comp, data);
    TrailerRoundTrip(front + entries + gap, offset, padding, n);
    var k, j, found := TrailerSound(d);
    NonEmpty(d, |front|, Format(version), root);
    OpensLegacy(d, c, tailScan, tail, full, head, version, comp, k, j, found, root);
  }

  /** And when that catalogue is coded, as in a compressed archive: it is inflated, trailer and all behind it. */
  lemma {:induction false} CodedLegacyOpens(head: Header.Head, version: seq<byte>, comp: byte, data: seq<byte>,
                                            root: Node, coded: seq<byte>,
                                            offset: Infinint, padding: seq<byte>, n: nat,
                                            c: Codec, tailScan: nat, tail: seq<nat>, full: seq<nat>)
    requires head.Valid() && !head.ext.TlvList? && ValidName(version) && |version| >= 2
    requires Coding(comp)
    requires root.Dir? && Valid(Format(version), root) && !HasReserved(root.kids)
    requires offset.Valid() && n % 8 != 0 && n / 8 <= 512 && |EncodeInfinint(offset) + padding| == n * BLOCK_SIZE
    requires Origin(head) + offset.v == |Front(head, version, comp, data)| < TWO_64
    requires Codes(c, comp, 0, coded + EncodeTrailer(offset, padding, n), Encode(Format(version), root))
    ensures OpenResult(Front(head, version, comp, data) + (coded + EncodeTrailer(offset, padding, n)),
                       c, tailScan, tail, full)
            == Ok(Opened(Origin(head), Format(version), true, 0, RootListing(Format(version), comp, root)))
  {
    hide At, Front, Headed, OpenResult, HasReserved, RootListing, Header.EncodeHead, VersionValue, Valid, Encode,
         EncodeTrailer, EncodeInfinint, TrailerOffset, Trailer, Codes, IsCompressed, Inflate, TailSpan;
    var front, rest := Front(head, version, comp, data), coded + EncodeTrailer(offset, padding, n);
    var d := front + rest;
    SliceAt(d, 0, d);
    AtConcat(d, 0, front, rest);
    FrontIsHeaded(d, head, version, comp, data);
    assert d == front + coded + EncodeTrailer(offset, padding, n);
    TrailerRoundTrip(front + coded, offset, padding, n);
    var k, j, found := TrailerSound(d);
    assert d[|front|..] == rest;
    CodedReads(d, |front|, c, comp, 0, rest, Encode(Format(version), root));
    Framing.CodecLetters(comp);
    TrailerIsLong(offset, padding, n);
    OpensLegacy(d, c, tailScan, tail, full, head, version, comp, k, j, found, root);
  }

  lemma TrailerIsLong(offset: Infinint, padding: seq<byte>, n: nat)
    requires n % 8 != 0
    ensures |EncodeTrailer(offset, padding, n)| > 0
  {
  }

  lemma {:induction false} NonEmpty(d: seq<byte>, p: nat, fmt: nat, root: Node)
    requires root.Dir? && At(d, p, Encode(fmt, root))
    ensures p < |d|
  {
    hide EncodeHead, EncodeAll;
  }

  // ---- Extracting ----

  /** The first entry of its path, kept as it is and inside the archive, comes out byte for byte. */
  lemma {:induction false} ExtractsStored(d: seq<byte>, o: Opened, c: Codec, i: nat)
    requires i < |o.entries| && (forall j :: 0 <= j < i ==> o.entries[j].path != o.entries[i].path)
    requires var f := o.entries[i].fields;
             !IsCompressed(f.compression) && o.origin + f.offset + f.stored <= |d| && o.origin + f.offset < TWO_64
    ensures var f := o.entries[i].fields;
            Extraction(d, o, c, o.entries[i].path)
            == Extracted(d[o.origin + f.offset..o.origin + f.offset + f.stored], Ok(f.stored))
  {
    FirstIsFound(o.entries, i);
  }

  /** Every entry of an archived tree with sound names that the reader takes for stored comes out byte for byte. */
  lemma {:induction false} TreeExtracts(d: seq<byte>, o: Opened, c: Codec, comp: byte, root: Node, i: nat)
    requires root.Dir? && Recovery.Plain(root.kids) && o.entries == RootListing(o.fmt, comp, root) && i < |o.entries|
    requires var f := o.entries[i].fields;
             !IsCompressed(f.compression) && o.origin + f.offset + f.stored <= |d| && o.origin + f.offset < TWO_64
    ensures var f := o.entries[i].fields;
            Extraction(d, o, c, o.entries[i].path)
            == Extracted(d[o.origin + f.offset..o.origin + f.offset + f.stored], Ok(f.stored))
  {
    hide Recovery.Plain, ListAll, Extraction;
    Recovery.AllDistinct(o.fmt, comp, RootStack(root), root.kids);
    ExtractsStored(d, o, c, i);
  }

  /** A path that no entry has is not found. */
  lemma UnknownPath(d: seq<byte>, o: Opened, c: Codec, path: seq<byte>)
    requires forall e :: e in o.entries ==> e.path != path
    ensures Extraction(d, o, c, path) == Extracted([], Err(EntryNotFound))
  {
    forall i | 0 <= i < |o.entries|
      ensures o.entries[i].path != path
    {
      assert o.entries[i] in o.entries;
    }
  }

  lemma FoundIsExtracted(d: seq<byte>, o: Opened, c: Codec, i: nat)
    requires i < |o.entries| && FindEntry(o.entries, o.entries[i].path) == Some(o.entries[i])
    ensures Extraction(d, o, c, o.entries[i].path) == EntryExtraction(d, o, c, o.entries[i])
  {
    hide FindEntry, EntryExtraction;
  }

  /**
   * Exact or loud: a success hands over exactly what the catalogue declares, and no outcome hands over more.
   * For compressed entries this is as long as declared size and one write of the codec together stay within
   * 64 bits; in any case the length is right as the 64-bit count has it.
   */
  lemma {:induction false} ExactOrLoud(d: seq<byte>, o: Opened, c: Codec, e: EntryRef, most: nat)
    ensures var x, f, start := EntryExtraction(d, o, c, e), e.fields, o.origin + e.fields.offset;
            if IsCompressed(f.compression) then
              && (x.result.Ok? ==> x.result.value == f.size == |x.out| % TWO_64)
              && (|x.out| < TWO_64 ==> |x.out| <= f.size)
              && (WritesUpTo(c, most) && f.size + most < TWO_64
                  ==> |x.out| <= f.size && (x.result.Ok? ==> |x.out| == f.size))
            else
              && (x.result.Err? ==> x == Extracted([], Err(Corrupt)))
              && (x.result.Err? <==> start >= TWO_64 || start + f.stored > |d|)
              && (x.result.Ok? ==> x.result.value == |x.out| == f.stored && start + f.stored <= |d|
                                   && x.out == d[start..start + f.stored])
  {
    hide DataTrace, StreamTrace, Capped, Refusal;
    if IsCompressed(e.fields.compression) {
      var f, start := e.fields, o.origin + e.fields.offset;
      if start <= |d| {
        CappedTwice(c, d[start..], f.size, f.compression, o.blockSize, most);
      }
      if start + f.stored <= |d| {
        CappedTwice(c, d[start..start + f.stored], f.size, f.compression, o.blockSize, most);
      }
    }
  }

  /** Both ways of decoding `data` under the cap. */
  lemma {:induction false} CappedTwice(c: Codec, data: seq<byte>, size: u64, algo: byte, blockSize: nat, most: nat)
    ensures forall x :: x == Capped(size, StreamTrace(c, algo, data), Corrupt)
                        || x == Capped(size, DataTrace(c, data, algo, blockSize), Refusal(algo))
              ==> && (x.result.Ok? ==> x.result.value == size == |x.out| % TWO_64)
                  && (|x.out| < TWO_64 ==> |x.out| <= size)
                  && (WritesUpTo(c, most) && size + most < TWO_64
                      ==> |x.out| <= size && (x.result.Ok? ==> |x.out| == size))
  {
    hide DataTrace, StreamTrace, Capped, Refusal, WritesUpTo;
    var stream, whole := StreamTrace(c, algo, data), DataTrace(c, data, algo, blockSize);
    CappedCounted(size, stream, Corrupt);
    CappedCounted(size, whole, Refusal(algo));
    if WritesUpTo(c, most) && size + most < TWO_64 {
      TracesWithin(c, data, algo, blockSize, most);
      CappedBounds(size, stream, Corrupt, most);
      CappedBounds(size, whole, Refusal(algo), most);
    }
  }

  /** A decoder that ends well with exactly the declared bytes is passed through whole, and only such a one. */
  lemma {:induction false} CappedBounds(size: u64, t: Trace, refusal: Error, most: nat)
    requires Within(t.chunks, most) && size + most < TWO_64
    ensures var x := Capped(size, t, refusal);
            && |x.out| <= size
            && (x.result.Ok? <==> t.ok && |Flat(t.chunks)| == size)
            && (x.result.Ok? ==> x.result.value == size && x.out == Flat(t.chunks))
  {
    hide Deliver;
    DeliverBounded(size, most, [], t.chunks);
    assert [] + Flat(t.chunks) == Flat(t.chunks);
  }

  /** The same for chunks of any length, as far as the 64-bit count goes. */
  lemma {:induction false} CappedCounted(size: u64, t: Trace, refusal: Error)
    ensures var x := Capped(size, t, refusal);
            && (|x.out| < TWO_64 ==> |x.out| <= size)
            && (x.result.Ok? ==> t.ok && x.out == Flat(t.chunks) && x.result.value == size == |x.out| % TWO_64)
            && (|Flat(t.chunks)| < TWO_64 ==> (x.result.Ok? <==> t.ok && |Flat(t.chunks)| == size))
  {
    hide Deliver;
    DeliverCounted(size, [], t.chunks);
    assert [] + Flat(t.chunks) == Flat(t.chunks);
  }

  /** The bytes that a compressed entry hands to the codec: from format 2 on the stored ones, before all that follow. */
  function CodedInput(d: seq<byte>, o: Opened, e: EntryRef): seq<byte>
    requires o.origin + e.fields.offset <= |d|
    requires o.fmt != 1 ==> o.origin + e.fields.offset + e.fields.stored <= |d|
  {
    var start := o.origin + e.fields.offset;
    if o.fmt == 1 then d[start..] else d[start..start + e.fields.stored]
  }

  /** Its codec makes `plain` of them; in format 1, which knows no blocks, as one stream. */
  ghost predicate EntryYields(d: seq<byte>, o: Opened, c: Codec, e: EntryRef, plain: seq<byte>)
    requires o.origin + e.fields.offset <= |d|
    requires o.fmt != 1 ==> o.origin + e.fields.offset + e.fields.stored <= |d|
  {
    if o.fmt == 1 then
      e.fields.compression as char !in Framing.RAW_LETTERS
      && Framing.BlockYields(c, e.fields.compression, 0, CodedInput(d, o, e), plain)
    else Framing.Yields(c, e.fields.compression, o.blockSize, CodedInput(d, o, e), plain)
  }

  /**
   * A compressed entry comes out as `plain`, of the declared size, exactly when its codec makes `plain` of its
   * bytes. Bytes outside the archive are refused; and a well-decoded file of another size is, by an I/O error
   * when a raw block writes past the declared size and as corrupt otherwise.
   */
  lemma {:induction false} ExtractsIff(d: seq<byte>, o: Opened, c: Codec, e: EntryRef, plain: seq<byte>)
    requires Coding(e.fields.compression)
    ensures var f, start := e.fields, o.origin + e.fields.offset;
            if start >= TWO_64 || start > |d| || (o.fmt != 1 && start + f.stored > |d|)
            then EntryExtraction(d, o, c, e) == Extracted([], Err(Corrupt))
            else
              && (|plain| == f.size ==>
                    (EntryExtraction(d, o, c, e) == Extracted(plain, Ok(f.size)) <==> EntryYields(d, o, c, e, plain)))
              && (EntryYields(d, o, c, e, plain) && f.size != |plain| < TWO_64 ==>
                    EntryExtraction(d, o, c, e).result
                    == Err(if |plain| > f.size && f.compression as char in Framing.RAW_LETTERS then Io else Corrupt))
  {
    hide IsCompressed, IsRawBlock, IsStreamed, Framing.Yields, Framing.BlockYields, DataTrace, StreamTrace, Capped;
    var f, start := e.fields, o.origin + e.fields.offset;
    Framing.CodecLetters(f.compression);
    if start <= |d| && o.fmt == 1 {
      if !IsRawBlock(f.compression) {
        Framing.BlockYieldsIff(c, f.compression, 0, d[start..], plain);
      } else {
        NoRawStream(c, f.compression, d[start..]);
      }
      CappedIff(f.size, StreamTrace(c, f.compression, d[start..]), Corrupt, plain);
    } else if start + f.stored <= |d| {
      var data := d[start..start + f.stored];
      Framing.YieldsIff(c, f.compression, o.blockSize, data, plain);
      CappedIff(f.size, DataTrace(c, data, f.compression, o.blockSize), Refusal(f.compression), plain);
    }
  }

  /**
   * How decoding fails: a codec that is not content, like output short of the declared size, is corruption. An
   * I/O error is only told when a raw block writes past that size, or where the blocks are no whole frame.
   */
  lemma {:induction false} ExtractFails(d: seq<byte>, o: Opened, c: Codec, e: EntryRef)
    requires Coding(e.fields.compression) && EntryExtraction(d, o, c, e).result.Err?
    ensures EntryExtraction(d, o, c, e).result.error in {Io, Corrupt}
    ensures EntryExtraction(d, o, c, e).result.error == Io ==>
              && o.fmt != 1 && o.origin + e.fields.offset + e.fields.stored <= |d|
              && var input := CodedInput(d, o, e);
                 if Framing.Framed(input) then
                   e.fields.compression as char in Framing.RAW_LETTERS
                   && |Flat(DataTrace(c, input, e.fields.compression, o.blockSize).chunks)| > e.fields.size
                 else o.blockSize > 0 || e.fields.compression as char in Framing.RAW_LETTERS
  {
    hide IsCompressed, IsRawBlock, IsStreamed, DataTrace, StreamTrace, Capped, Framing.Framed;
    var f, start := e.fields, o.origin + e.fields.offset;
    Framing.CodecLetters(f.compression);
    if start <= |d| && o.fmt == 1 {
      Framing.StreamFails(c, f.compression, d[start..]);
      CappedFails(f.size, StreamTrace(c, f.compression, d[start..]), Corrupt);
    } else if start + f.stored <= |d| {
      var data := d[start..start + f.stored];
      Framing.DataFails(c, f.compression, o.blockSize, data);
      CappedFails(f.size, DataTrace(c, data, f.compression, o.blockSize), Refusal(f.compression));
    }
  }

  lemma {:induction false} CappedFails(size: u64, t: Trace, refusal: Error)
    ensures var x := Capped(size, t, refusal).result;
            x.Err? ==> || x.error == Corrupt || (x == Err(refusal) && |Flat(t.chunks)| > size)
                       || t.end == Err(x.error)
  {
    hide Deliver;
    DeliverCounted(size, [], t.chunks);
  }

  lemma NoRawStream(c: Codec, algo: byte, data: seq<byte>)
    requires IsRawBlock(algo)
    ensures StreamTrace(c, algo, data) == CORRUPT
  {
  }

  lemma {:induction false} CappedIff(size: u64, t: Trace, refusal: Error, plain: seq<byte>)
    ensures |plain| == size ==>
              (Capped(size, t, refusal) == Extracted(plain, Ok(size)) <==> t.ok && Flat(t.chunks) == plain)
    ensures t.ok && Flat(t.chunks) == plain && size != |plain| < TWO_64
            ==> Capped(size, t, refusal).result == Err(if |plain| > size then refusal else Corrupt)
  {
    hide Deliver;
    DeliverCounted(size, [], t.chunks);
    assert [] + Flat(t.chunks) == Flat(t.chunks);
  }

  /** A file archived as framed blocks comes out as what the blocks decode to, one after another. */
  lemma {:induction false} FramedFileExtracts(d: seq<byte>, o: Opened, c: Codec, e: EntryRef,
                                              blocks: seq<Framing.Block>, end: Infinint, rest: seq<byte>,
                                              plains: seq<seq<byte>>)
    requires o.fmt != 1 && (o.blockSize > 0 || e.fields.compression as char in Framing.RAW_LETTERS)
    requires Coding(e.fields.compression)
    requires Framing.AllValid(blocks, end) && e.fields.stored == |Framing.Frame(blocks, end) + rest|
    requires o.origin + e.fields.offset < TWO_64 && At(d, o.origin + e.fields.offset, Framing.Frame(blocks, end) + rest)
    requires Framing.Decoded(c, e.fields.compression, o.blockSize, blocks, plains) && |Flat(plains)| == e.fields.size
    ensures EntryExtraction(d, o, c, e) == Extracted(Flat(plains), Ok(e.fields.size))
  {
    hide Framing.Frame, Framing.Decoded, EntryExtraction, Framing.AllValid;
    var start, data := o.origin + e.fields.offset, Framing.Frame(blocks, end) + rest;
    AtWithin(d, start, data);
    SliceAt(data, 0, data);
    AtConcat(data, 0, Framing.Frame(blocks, end), rest);
    ExtractsIff(d, o, c, e, Flat(plains));
  }

  /** A file archived as one stream comes out as what the codec makes of just its stored bytes. */
  lemma {:induction false} StreamedFileExtracts(d: seq<byte>, o: Opened, c: Codec, e: EntryRef, coded: seq<byte>)
    requires o.fmt != 1 && o.blockSize == 0 && e.fields.compression as char in Framing.STREAM_LETTERS
    requires o.origin + e.fields.offset < TWO_64 && At(d, o.origin + e.fields.offset, coded)
    requires |coded| == e.fields.stored
    requires var w := c.stream(e.fields.compression, coded); w.ok && |Flat(w.chunks)| == e.fields.size
    ensures EntryExtraction(d, o, c, e)
            == Extracted(Flat(c.stream(e.fields.compression, coded).chunks), Ok(e.fields.size))
  {
    hide EntryExtraction;
    AtWithin(d, o.origin + e.fields.offset, coded);
    LettersDiffer(e.fields.compression);
    ExtractsIff(d, o, c, e, Flat(c.stream(e.fields.compression, coded).chunks));
  }

  /** In format 1 it is all that the codec makes of the bytes from the offset to the end of the archive. */
  lemma {:induction false} FirstFormatExtracts(d: seq<byte>, o: Opened, c: Codec, e: EntryRef)
    requires o.fmt == 1 && e.fields.compression as char in Framing.STREAM_LETTERS
    requires o.origin + e.fields.offset < TWO_64 && o.origin + e.fields.offset <= |d|
    requires var w := c.stream(e.fields.compression, d[o.origin + e.fields.offset..]);
             w.ok && |Flat(w.chunks)| == e.fields.size
    ensures var w := c.stream(e.fields.compression, d[o.origin + e.fields.offset..]);
            EntryExtraction(d, o, c, e) == Extracted(Flat(w.chunks), Ok(e.fields.size))
  {
    hide EntryExtraction;
    LettersDiffer(e.fields.compression);
    ExtractsIff(d, o, c, e, Flat(c.stream(e.fields.compression, d[o.origin + e.fields.offset..]).chunks));
  }

  lemma LettersDiffer(algo: byte)
    requires algo as char in Framing.STREAM_LETTERS
    ensures algo as char !in Framing.RAW_LETTERS
  {
    Framing.CodecLetters(algo);
  }

  // ---- Through slices ----

  /** Entry `i` of a written archive is one that the reader takes for stored, inside the archive. */
  ghost predicate StoredInside(a: Tagged, i: nat)
    requires AllEven(a.settings.flags)
  {
    && i < |a.Listing()|
    && var f := a.Listing()[i].fields;
       && !IsCompressed(f.compression) && Origin(a.head) + f.offset < TWO_64
       && Origin(a.head) + f.offset + f.stored <= |a.Bytes()|
  }

  /** The bytes at the entry's place. */
  function StoredBytes(a: Tagged, i: nat): seq<byte>
    requires AllEven(a.settings.flags) && StoredInside(a, i)
  {
    var f := a.Listing()[i].fields;
    a.Bytes()[Origin(a.head) + f.offset..Origin(a.head) + f.offset + f.stored]
  }

  /**
   * An archive written, cut anywhere and wrapped in slice files: the slices open to its whole listing, and
   * each file that the reader takes for stored comes out as the bytes at its place in the uncut archive.
   */
  lemma {:induction false} SlicedArchiveExtracts(
      files: seq<seq<byte>>, pieces: seq<seq<byte>>, heads: seq<Header.Head>, flags: seq<byte>,
      a: Tagged, c: Codec, tailScan: nat, chunk: nat, tail: seq<nat>, full: seq<nat>, i: nat)
    requires Volumes.Wraps(files, pieces, heads, flags) && files != []
    requires a.Sound(c) && a.Found(tailScan, chunk) && Recovery.Plain(a.root.kids) && StoredInside(a, i)
    requires Volumes.Concat(pieces) == a.Bytes() && |a.Bytes()| <= TWO_63
    requires OpenRun(a.Bytes(), tailScan, chunk, tail, full)
    ensures Volumes.Deslice(files).Ok?
    ensures OpenResult(Volumes.Deslice(files).value, c, tailScan, tail, full) == Ok(a.State())
    ensures Volumes.Extracting(Volumes.Deslice(files).value, c, tailScan, tail, full, a.Listing()[i].path)
            == Ok(StoredBytes(a, i))
  {
    hide OpenResult, OpenRun, Extraction, Volumes.Wraps, Volumes.Deslice, Volumes.Concat, Tagged.Bytes, Tagged.Found,
         HasReserved, Valid, Recovery.Plain, RootListing, Origin, IsCompressed;
    Volumes.SlicingIsInvisible(files, pieces, heads, flags);
    WrittenTaggedOpens(a, c, tailScan, chunk, tail, full);
    TreeExtracts(a.Bytes(), a.State(), c, a.comp, a.root, i);
  }

  // ---- Verifying ----

  /**
   * A match exactly when the bytes extraction hands over fold to the stored checksum; a mismatch shows two
   * different strings.
   */
  lemma {:induction false} VerifyIsExact(d: seq<byte>, o: Opened, c: Codec, path: seq<byte>)
    requires Checkable(o.entries)
    ensures var v, found, x := Verification(d, o, c, path), FindEntry(o.entries, path), Extraction(d, o, c, path);
            && (v.Err? <==> found.None? || (found.value.fields.crc.Some? && x.result.Err?))
            && (v.Err? ==> v.error == if found.None? then EntryNotFound else x.result.error)
            && (v == Ok(NotStored) <==> found.Some? && found.value.fields.crc.None?)
            && (v == Ok(Match) <==> found.Some? && found.value.fields.crc.Some? && x.result.Ok?
                                    && Crc.Checksum(x.out, |found.value.fields.crc.value|)
                                       == found.value.fields.crc.value)
            && (v.Ok? && v.value.Mismatch? ==>
                  && found.Some? && found.value.fields.crc.Some? && v.value.stored != v.value.computed
                  && v.value.stored == Crc.ToHex(found.value.fields.crc.value)
                  && v.value.computed == Crc.ToHex(Crc.Checksum(x.out, |found.value.fields.crc.value|)))
  {
    hide Extraction, Crc.Checksum, Crc.ToHex, FindEntry;
    var v, found, x := Verification(d, o, c, path), FindEntry(o.entries, path), Extraction(d, o, c, path);
    if v.Ok? && v.value.Mismatch? && v.value.stored == v.value.computed {
      var stored := found.value.fields.crc.value;
      Crc.ToHexInjective(stored, Crc.Checksum(x.out, |stored|));
    }
  }
}
