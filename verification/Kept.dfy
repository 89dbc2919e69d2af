/** Files that an archive keeps as they are: when the reader hands them over so. */
module Kept {
  import opened Bytes
  import opened Wire
  import opened Catalogue
  import opened Grammar
  import opened Decode
  import opened Reader
  import opened Terminateur
  import opened Fields
  import opened EndToEnd
  import Roundtrip
  import Header
  import Locate
  import Recovery

  /** The file's data stand in the archive as they are, by the rule of the edition that wrote it. */
  predicate KeptAsIs(fmt: nat, comp: byte, b: FileBody) {
    if fmt >= 8 then !IsCompressed(b.codec) else !IsCompressed(comp) || (fmt >= 2 && b.stored.v == 0)
  }

  // ---- What a codec is asked for ----

  /** The inputs of the blocks that the framing loop takes from `p` on. */
  function BlocksAsked(d: seq<byte>, p: nat): set<seq<byte>>
    decreases |d| - p
  {
    var size := Inf(d, p + 1);
    if p < |d| && d[p] == H_DATA && size.Done? && size.value > 0 && size.next + size.value <= |d|
    then {d[size.next..size.next + size.value]} + BlocksAsked(d, size.next + size.value)
    else {}
  }

  /** The inputs that decoding `data` gives to the codec. */
  function Asked(data: seq<byte>, algo: byte, blockSize: nat): set<seq<byte>> {
    if blockSize > 0 || IsRawBlock(algo) then BlocksAsked(data, 0) else {data}
  }

  /** The first of them. */
  function FirstAsked(data: seq<byte>, algo: byte, blockSize: nat): Option<seq<byte>> {
    if blockSize > 0 || IsRawBlock(algo) then
      var size := Inf(data, 1);
      if data != [] && data[0] == H_DATA && size.Done? && size.value > 0 && size.next + size.value <= |data|
      then Some(data[size.next..size.next + size.value]) else None
    else Some(data)
  }

  /** The codec that rejects `x` and else does what `c` does. */
  function Rejecting(c: Codec, x: seq<byte>): Codec {
    Codec((algo: byte, input: seq<byte>) => if input == x then Output([], false) else c.stream(algo, input),
          (algo: byte, block: seq<byte>, capacity: nat) => if block == x then None else c.raw(algo, block, capacity))
  }

  lemma OneBlock(c: Codec, x: seq<byte>, algo: byte, block: seq<byte>, capacity: nat)
    ensures BlockTrace(Rejecting(c, x), algo, block, capacity)
            == if block == x then CORRUPT else BlockTrace(c, algo, block, capacity)
    ensures StreamTrace(Rejecting(c, x), algo, block) == if block == x then CORRUPT else StreamTrace(c, algo, block)
  {
  }

  lemma {:induction false} BlocksUnchanged(c: Codec, x: seq<byte>, d: seq<byte>, p: nat, algo: byte, capacity: nat)
    requires x !in BlocksAsked(d, p)
    ensures BlocksFrom(Rejecting(c, x), d, p, algo, capacity) == BlocksFrom(c, d, p, algo, capacity)
    decreases |d| - p
  {
    hide Inf, BlockTrace, Rejecting;
    var size := Inf(d, p + 1);
    if p < |d| && d[p] == H_DATA && size.Done? && size.value > 0 && size.next + size.value <= |d| {
      var e := size.next + size.value;
      OneBlock(c, x, algo, d[size.next..e], capacity);
      BlocksUnchanged(c, x, d, e, algo, capacity);
    }
  }

  /** What was not asked for can be rejected without notice. */
  lemma {:induction false} RejectionUnnoticed(c: Codec, x: seq<byte>, data: seq<byte>, algo: byte, blockSize: nat)
    requires x !in Asked(data, algo, blockSize)
    ensures DataTrace(Rejecting(c, x), data, algo, blockSize) == DataTrace(c, data, algo, blockSize)
  {
    hide BlocksFrom, StreamTrace, Rejecting;
    if blockSize > 0 || IsRawBlock(algo) {
      BlocksUnchanged(c, x, data, 0, algo, Capacity(algo, blockSize));
    } else {
      OneBlock(c, x, algo, data, 0);
    }
  }

  /** `c`, made to reject the first input that decoding `data` gives it, if there is any. */
  function Spoilt(c: Codec, data: seq<byte>, algo: byte, blockSize: nat): Codec {
    match FirstAsked(data, algo, blockSize) case Some(x) => Rejecting(c, x) case None => c
  }

  /** Then nothing is written, and decoding does not end well unless there were bytes. */
  lemma {:induction false} SpoiltFails(c: Codec, data: seq<byte>, algo: byte, blockSize: nat)
    ensures var t := DataTrace(Spoilt(c, data, algo, blockSize), data, algo, blockSize);
            t.chunks == [] && (t.ok ==> data != [])
  {
    hide StreamTrace, BlockTrace, Rejecting, Inf;
    var first := FirstAsked(data, algo, blockSize);
    if first.Some? {
      OneBlock(c, first.value, algo, first.value, Capacity(algo, blockSize));
    }
  }

  // ---- Codecs under which an archive opens alike ----

  /** The archive's codec byte. */
  function ArchiveCodec(d: seq<byte>): byte { GlobalCodec(d, Header.ArchiveHeader(d).next) }

  /** The coded catalogue that opening a compressed archive hands to the codec. */
  ghost function CatalogueSpan(d: seq<byte>, tailScan: nat, tail: seq<nat>, full: seq<nat>): Option<seq<byte>> {
    match Header.ArchiveHeader(d)
    case Fail(_, _) => None
    case Done(pre, origin) =>
      if !IsCompressed(ArchiveCodec(d)) then None
      else if pre.extension == Header.EXT_TLV then
        match Locate.LocateResult(d, origin, tailScan, Mark(pre), tail, full)
        case Ok(hit) => if hit.escape then Some(TailSpan(d, hit.Past())) else None
        case Err(_) => None
      else
        match TrailerOffset(d) case Ok(offset) => Some(TailSpan(d, origin + offset)) case Err(_) => None
  }

  lemma {:induction false} OpensBy(d: seq<byte>, c: Codec, c': Codec, tailScan: nat, tail: seq<nat>, full: seq<nat>)
    requires OpenResult(d, c, tailScan, tail, full).Ok?
    requires var span, o := CatalogueSpan(d, tailScan, tail, full), OpenResult(d, c, tailScan, tail, full).value;
             span.Some? ==> DataTrace(c', span.value, ArchiveCodec(d), o.blockSize)
                            == DataTrace(c, span.value, ArchiveCodec(d), o.blockSize)
    ensures OpenResult(d, c', tailScan, tail, full) == OpenResult(d, c, tailScan, tail, full)
  {
    hide Header.ArchiveHeader, FormatValue, GlobalCodec, BlockSize, Locate.LocateResult, TrailerOffset, WalkFrom,
         EntriesBehindPath, TailSpan, DataTrace, Deliver, Refusal, IsCompressed;
  }

  // ---- Main result ----

  /** The bytes at an entry's place. */
  function PlaceOf(d: seq<byte>, o: Opened, e: EntryRef): seq<byte>
    requires o.origin + e.fields.offset + e.fields.stored <= |d|
  {
    d[o.origin + e.fields.offset..o.origin + e.fields.offset + e.fields.stored]
  }

  /** Every codec under which the archive opens to `o` has the entry come out as the bytes at its place. */
  ghost predicate ComesOutAsItIs(d: seq<byte>, o: Opened, e: EntryRef, tailScan: nat, tail: seq<nat>, full: seq<nat>)
    requires o.origin + e.fields.offset + e.fields.stored <= |d|
  {
    forall c: Codec :: OpenResult(d, c, tailScan, tail, full) == Ok(o)
                       ==> Extraction(d, o, c, e.path) == Extracted(PlaceOf(d, o, e), Ok(e.fields.stored))
  }

  /**
   * Data kept as they are come out as they are, under every codec by which the archive opens, exactly when the
   * archive is of format 8 or later or not compressed. Editions 2 to 7 can keep a file as it is in a compressed
   * archive, and the reader then decodes bytes that were never encoded. The file must not share its first coded
   * input with the catalogue, which the codec has to decode for the archive to open.
   */
  lemma {:induction false} KeptFileExtractsIff(d: seq<byte>, o: Opened, c: Codec,
                                               tailScan: nat, tail: seq<nat>, full: seq<nat>, root: Node, i: nat)
    requires OpenResult(d, c, tailScan, tail, full) == Ok(o)
    requires root.Dir? && Recovery.Plain(root.kids) && o.entries == RootListing(o.fmt, ArchiveCodec(d), root)
    requires i < Recovery.SizeAll(root.kids) == |o.entries| && Recovery.NodeAt(root.kids, i).Reg?
    requires KeptAsIs(o.fmt, ArchiveCodec(d), Recovery.NodeAt(root.kids, i).body)
    requires var f := o.entries[i].fields; o.origin + f.offset + f.stored <= |d| && o.origin + f.offset < TWO_64
    requires var first, span := FirstAsked(PlaceOf(d, o, o.entries[i]), ArchiveCodec(d), o.blockSize),
                                CatalogueSpan(d, tailScan, tail, full);
             first.Some? && span.Some? ==> first.value !in Asked(span.value, ArchiveCodec(d), o.blockSize)
    ensures ComesOutAsItIs(d, o, o.entries[i], tailScan, tail, full)
            <==> (o.fmt >= 8 || !IsCompressed(ArchiveCodec(d)))
  {
    hide Recovery.Plain, ListAll, Extraction, IsCompressed, OpenResult, CatalogueSpan, Asked, FirstAsked, ArchiveCodec,
         Rejecting;
    var comp, e := ArchiveCodec(d), o.entries[i];
    var above := Recovery.EntryAt(o.fmt, comp, RootStack(root), root.kids, i);
    if o.fmt >= 8 || !IsCompressed(comp) {
      forall c': Codec
        ensures Extraction(d, o, c', e.path) == Extracted(PlaceOf(d, o, e), Ok(e.fields.stored))
      {
        TreeExtracts(d, o, c', comp, root, i);
      }
    } else {
      SameCatalogue(d, o, c, tailScan, tail, full, PlaceOf(d, o, e));
      Recovery.AllDistinct(o.fmt, comp, RootStack(root), root.kids);
      FirstIsFound(o.entries, i);
      FoundIsExtracted(d, o, Spoilt(c, PlaceOf(d, o, e), comp, o.blockSize), i);
      KeptIsRejected(d, o, c, e);
    }
  }

  lemma {:induction false} SameCatalogue(d: seq<byte>, o: Opened, c: Codec, tailScan: nat, tail: seq<nat>,
                                         full: seq<nat>,
                                         data: seq<byte>)
    requires OpenResult(d, c, tailScan, tail, full) == Ok(o)
    requires var first, span := FirstAsked(data, ArchiveCodec(d), o.blockSize), CatalogueSpan(d, tailScan, tail, full);
             first.Some? && span.Some? ==> first.value !in Asked(span.value, ArchiveCodec(d), o.blockSize)
    ensures OpenResult(d, Spoilt(c, data, ArchiveCodec(d), o.blockSize), tailScan, tail, full) == Ok(o)
  {
    hide OpenResult, CatalogueSpan, Asked, ArchiveCodec, Rejecting, DataTrace, FirstAsked;
    var first, span := FirstAsked(data, ArchiveCodec(d), o.blockSize), CatalogueSpan(d, tailScan, tail, full);
    if first.Some? {
      if span.Some? {
        RejectionUnnoticed(c, first.value, span.value, ArchiveCodec(d), o.blockSize);
      }
      OpensBy(d, c, Rejecting(c, first.value), tailScan, tail, full);
    }
  }

  lemma {:induction false} KeptIsRejected(d: seq<byte>, o: Opened, c: Codec, e: EntryRef)
    requires IsCompressed(e.fields.compression) && o.fmt != 1 && e.fields.stored == e.fields.size
    requires o.origin + e.fields.offset + e.fields.stored <= |d|
    ensures EntryExtraction(d, o, Spoilt(c, PlaceOf(d, o, e), e.fields.compression, o.blockSize), e).result.Err?
  {
    hide DataTrace, Spoilt, IsCompressed, Refusal;
    SpoiltFails(c, PlaceOf(d, o, e), e.fields.compression, o.blockSize);
  }

  // ---- An archive for which it fails ----

  const EXAMPLE_HEAD := Header.Head([1, 2, 3, 4, 5, 6, 7, 8, 9, 10], 0, Header.Extension.Plain)

  /** One file "a" of one byte, kept as it is at offset 4. */
  const EXAMPLE_FILE := Reg(Grammar.Head(TYPE_FILE, [0x61], PLAIN_INODE, NO_FSA),
                            FileBody(Infinint(1, false), Infinint(4, false), ZERO, 0, STORED, ZERO, [0, 0]))
  const EXAMPLE_TREE := Dir(Grammar.Head(TYPE_DIR, ROOT_NAME, PLAIN_INODE, NO_FSA), [EXAMPLE_FILE], TYPE_EOD)

  const CODED: byte := 0x78
  const GZIP: byte := 0x7A
  const SEVEN: seq<byte> := [0x30, 0x37]

  /** A codec whose streams begin with 0x78, as zlib's do, and whose one stream is the tree's catalogue. */
  const EXAMPLE_CODEC := Codec(
    (algo: byte, input: seq<byte>) =>
      if input != [] && input[0] == CODED then Output([Encode(7, EXAMPLE_TREE)], true) else Output([], false),
    (algo: byte, block: seq<byte>, capacity: nat) => None)

  /** A gzip-compressed archive of format 7: headers, the file's byte, the coded catalogue, the trailer. */
  function ExampleArchive(data: byte): seq<byte> {
    Front(EXAMPLE_HEAD, SEVEN, GZIP, [data]) + ([CODED] + EncodeTrailer(Infinint(5, false), [0, 0, 0], 2))
  }

  function ExampleState(): Opened {
    Opened(16, 7, true, 0, RootListing(7, GZIP, EXAMPLE_TREE))
  }

  lemma {:induction false} ExampleTree()
    ensures Valid(7, EXAMPLE_TREE) && !HasReserved(EXAMPLE_TREE.kids) && |Encode(7, EXAMPLE_TREE)| < 0x100
    ensures RootListing(7, GZIP, EXAMPLE_TREE) == [EntryOf(7, GZIP, [], EXAMPLE_FILE)]
    ensures KeptAsIs(7, GZIP, EXAMPLE_FILE.body)
  {
    hide Encode, EncodeAll, EntryOf;
    var kids := EXAMPLE_TREE.kids;
    assert kids[1..] == [] && AllValid(7, kids[1..]) && Valid(7, EXAMPLE_FILE);
    assert AllValid(7, kids);
    assert ListAll(7, GZIP, [], kids[1..]) == [];
    assert Listing(7, GZIP, [], EXAMPLE_FILE) == [EntryOf(7, GZIP, [], EXAMPLE_FILE)];
    ExampleSize();
  }

  lemma {:induction false} ExampleSize()
    ensures |Encode(7, EXAMPLE_TREE)| < 0x100
  {
    hide EncodeHead, EncodeBody;
    var kids := EXAMPLE_TREE.kids;
    HeadLength(EXAMPLE_TREE.head);
    HeadLength(EXAMPLE_FILE.head);
    BodyLength();
    assert kids[1..] == [] && EncodeAll(7, kids[1..]) == [];
    assert |EncodeAll(7, kids)| == |Encode(7, EXAMPLE_FILE)|;
  }

  lemma BodyLength()
    ensures |EncodeBody(7, EXAMPLE_FILE.body)| == 17
  {
  }

  lemma HeadLength(h: Grammar.Head)
    requires h.inode == PLAIN_INODE && h.fsa == NO_FSA
    ensures |EncodeHead(7, h)| == 19 + |h.name|
  {
  }

  /** It opens to its whole listing, and the file, though kept as it is, is refused unless its byte is 0x78. */
  lemma {:induction false} KeptFileExample(data: byte, tailScan: nat, tail: seq<nat>, full: seq<nat>)
    requires data != CODED
    ensures OpenResult(ExampleArchive(data), EXAMPLE_CODEC, tailScan, tail, full) == Ok(ExampleState())
    ensures ExampleState().entries == [EntryOf(7, GZIP, [], EXAMPLE_FILE)] && KeptAsIs(7, GZIP, EXAMPLE_FILE.body)
    ensures ExampleArchive(data)[20] == data
    ensures Extraction(ExampleArchive(data), ExampleState(), EXAMPLE_CODEC, [0x61]) == Extracted([], Err(Corrupt))
  {
    hide Valid, HasReserved, RootListing, OpenResult, Extraction, Encode;
    ExampleTree();
    ExampleOpens(data, tailScan, tail, full);
    ExampleRefused(data);
  }

  lemma {:induction false} ExampleLayout(data: byte)
    ensures var d := ExampleArchive(data);
            && |d| == 31 && d[20] == data && Origin(EXAMPLE_HEAD) == 16
            && Headed(d, EXAMPLE_HEAD, SEVEN, GZIP) && TailSpan(d, 21) == d[21..] && d[21..][0] == CODED
    ensures TrailerOffset(ExampleArchive(data)) == Ok(5)
  {
    hide TrailerOffset, Headed;
    var d, front := ExampleArchive(data), Front(EXAMPLE_HEAD, SEVEN, GZIP, [data]);
    var trailer := EncodeTrailer(Infinint(5, false), [0, 0, 0], 2);
    assert |front| == 21 && front[20] == data;
    assert |trailer| == 9;
    SliceAt(d, 0, d);
    AtConcat(d, 0, front, [CODED] + trailer);
    FrontIsHeaded(d, EXAMPLE_HEAD, SEVEN, GZIP, [data]);
    TrailerRoundTrip(front + [CODED], Infinint(5, false), [0, 0, 0], 2);
    assert front + [CODED] + trailer == d;
  }

  lemma {:induction false} ExampleOpens(data: byte, tailScan: nat, tail: seq<nat>, full: seq<nat>)
    ensures OpenResult(ExampleArchive(data), EXAMPLE_CODEC, tailScan, tail, full) == Ok(ExampleState())
  {
    hide Valid, HasReserved, RootListing, OpenResult, Encode, Headed, TrailerOffset, Trailer, TailSpan, Origin,
         ExampleArchive,
         VersionValue, Inflate;
    var d := ExampleArchive(data);
    ExampleLayout(data);
    ExampleTree();
    VersionReadsBack(0, 7, 0, []);
    var k, j, offset := TrailerSound(d);
    ExampleInflates(d[21..]);
    SliceAt(Encode(7, EXAMPLE_TREE), 0, Encode(7, EXAMPLE_TREE));
    OpensLegacy(d, EXAMPLE_CODEC, tailScan, tail, full, EXAMPLE_HEAD, SEVEN, GZIP, k, j, offset, EXAMPLE_TREE);
  }

  lemma {:induction false} ExampleInflates(span: seq<byte>)
    requires span != [] && span[0] == CODED
    ensures Inflate(EXAMPLE_CODEC, span, GZIP, 0) == Ok(Encode(7, EXAMPLE_TREE))
  {
    hide Encode, Valid, HasReserved, RootListing;
    ExampleTree();
    var plain := Encode(7, EXAMPLE_TREE);
    assert DataTrace(EXAMPLE_CODEC, span, GZIP, 0) == Trace([plain], Ok(()));
    LoneChunk(MAX_CATALOGUE_INFLATED, plain);
  }

  lemma LoneChunk(max: u64, chunk: seq<byte>)
    requires |chunk| <= max
    ensures Deliver(max, [], [chunk]) == Delivery(chunk, true)
  {
    assert [] + chunk == chunk;
    var rest: seq<seq<byte>> := [chunk][1..];
    assert Deliver(max, chunk, rest) == Delivery(chunk, true);
  }

  lemma {:induction false} ExampleRefused(data: byte)
    requires data != CODED
    ensures Extraction(ExampleArchive(data), ExampleState(), EXAMPLE_CODEC, [0x61]) == Extracted([], Err(Corrupt))
  {
    hide Valid, HasReserved, RootListing, Encode, ExampleArchive, Headed, TailSpan, TrailerOffset;
    var d, e := ExampleArchive(data), EntryOf(7, GZIP, [], EXAMPLE_FILE);
    ExampleLayout(data);
    ExampleTree();
    assert d[20..21] == [data];
    assert FindEntry([e], [0x61]) == Some(e);
  }
}
