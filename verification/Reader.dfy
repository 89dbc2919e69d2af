/** The archive reader: opening, extracting and verifying. */
module Reader {
  import opened Bytes
  import opened Wire
  import opened Stream
  import opened Catalogue
  import opened Decode
  import opened Terminateur
  import Header
  import Locate
  import Crc

  const MAX_CATALOGUE_COMPRESSED := 0x2000_0000
  const READ_SIZE := 0x2000
  const MAX_CATALOGUE_INFLATED := 0x4000_0000
  const FORMAT_11_1 := 11 * 0x100 + 1
  const UNREADABLE := 0xFFFF_FFFF

  // ---- The archive header behind the slice header ----

  /** Version digits are bytes above '0'; lower bytes count as 0. */
  function Digit(b: byte): nat { if b >= 48 then b - 48 else 0 }

  function VersionValue(b: seq<byte>): nat {
    if |b| < 2 then UNREADABLE
    else (Digit(b[0]) * 0x100 + Digit(b[1])) * 0x100 + if |b| >= 3 then Digit(b[2]) else 0
  }

  /** Best effort: an unreadable version string counts as the newest format. */
  function FormatValue(d: seq<byte>, p: nat): nat {
    match NulBytes(d, p) case Done(b, _) => VersionValue(b) case Fail(_, _) => UNREADABLE
  }

  function GlobalCodec(d: seq<byte>, p: nat): byte {
    match U8(d, NulBytes(d, p).next) case Done(b, _) => b case Fail(_, _) => STORED
  }

  const INITIAL_OFFSET := 0x08
  const HAS_COMPRESS_BS := 0x800

  predicate IsSet(flags: nat, bit: nat)
    requires bit > 0
  {
    flags / bit % 2 == 1
  }

  /** Scrambled, crypted key, reference slicing or key derivation: fields this reader does not parse. */
  predicate IsComplex(flags: nat) {
    IsSet(flags, 0x20) || IsSet(flags, 0x04) || IsSet(flags, 0x02) || IsSet(flags, 0x400)
  }

  /** Seven value bits a byte, the low bit saying that another follows. */
  function HeaderFlags(d: seq<byte>, p: nat, bits: u64): (r: Parsed<u64>)
    requires bits % 2 == 0
    ensures r.next >= p
    decreases |d| - p
  {
    var (a, q) :- U8(d, p);
    if bits >= 0x100_0000_0000_0000 then Fail(Corrupt, q)
    else
      var bits' := bits * 0x100 + (a - a % 2);
      if a % 2 == 0 then Done(bits', q) else HeaderFlags(d, q, bits')
  }

  /** Block size behind command line and flags; 0 when there is none this reader can use. */
  function BlockSizeField(d: seq<byte>, p: nat, fmt: nat): Parsed<u64> {
    var (_, q) :- SkipNul(d, p);
    if fmt < 2 then Done(0, q)
    else
      var (flags, q) :- HeaderFlags(d, q, 0);
      if IsComplex(flags) || !IsSet(flags, HAS_COMPRESS_BS) then Done(0, q)
      else
        var (_, q) :- if IsSet(flags, INITIAL_OFFSET) then Inf(d, q) else Done(0, q);
        var (bs, q) :- Inf(d, q);
        Done(if bs > MAX_BLOCK_SIZE then 0 else bs, q)
  }

  function BlockSize(d: seq<byte>, p: nat, fmt: nat): nat {
    match BlockSizeField(d, p, fmt) case Done(bs, _) => bs case Fail(_, _) => 0
  }

  // ---- Opening ----

  datatype Opened = Opened(origin: nat, fmt: nat, complete: bool, blockSize: nat, entries: seq<EntryRef>)

  function Inflate(c: Codec, compressed: seq<byte>, algo: byte, blockSize: nat): Result<seq<byte>> {
    var p := Pour(MAX_CATALOGUE_INFLATED, [], DataTrace(c, compressed, algo, blockSize), Refusal(algo));
    if p.ok then Ok(p.sent) else Err(p.end.error)
  }

  /** The bytes from `p` on, at most the bound on a compressed catalogue. */
  function TailSpan(d: seq<byte>, p: nat): seq<byte> {
    if p >= |d| then []
    else if |d| - p <= MAX_CATALOGUE_COMPRESSED then d[p..] else d[p..p + MAX_CATALOGUE_COMPRESSED]
  }

  /** Entries behind the in-place path, which formats from 11.1 on record. */
  function EntriesBehindPath(d: seq<byte>, p: nat, version: nat, comp: byte): Result<(seq<EntryRef>, bool)> {
    if version >= FORMAT_11_1 then
      match SkipNul(d, p)
      case Fail(e, _) => Err(e)
      case Done(_, q) => ParsedCatalogue(d, q, version / 0x100, comp).ToResult()
    else ParsedCatalogue(d, p, version / 0x100, comp).ToResult()
  }

  /** Formats from 8 on, once the marker is found. */
  function TaggedEntries(d: seq<byte>, hit: Locate.Hit, version: nat, comp: byte, blockSize: nat,
                         c: Codec): Result<(seq<EntryRef>, bool)> {
    if hit.escape && IsCompressed(comp) then
      var inflated :- Inflate(c, TailSpan(d, hit.Past()), comp, blockSize);
      EntriesBehindPath(inflated, LABEL_SIZE, version, comp)
    else EntriesBehindPath(d, if hit.escape then hit.Past() + LABEL_SIZE else hit.Past(), version, comp)
  }

  /** Formats up to 7: the trailer addresses the catalogue, which opens with its first entry. */
  function LegacyEntries(d: seq<byte>, origin: nat, version: nat, comp: byte, c: Codec): Result<(seq<EntryRef>, bool)> {
    var offset :- TrailerOffset(d);
    if origin + offset >= TWO_64 || origin + offset >= |d| then Err(Corrupt)
    else if IsCompressed(comp) then
      var inflated :- Inflate(c, TailSpan(d, origin + offset), comp, 0);
      ParsedCatalogue(inflated, 0, version / 0x100, comp).ToResult()
    else ParsedCatalogue(d, origin + offset, version / 0x100, comp).ToResult()
  }

  /** The catalogue's own label: the archive's data name, or else the slice's. */
  function Mark(pre: Header.Preamble): seq<byte> {
    match pre.dataName case Some(dn) => dn case None => pre.name
  }

  /** What opening `d` yields, given where the reads of the marker scans ended. */
  ghost function OpenResult(d: seq<byte>, c: Codec, tailScan: nat, tail: seq<nat>, full: seq<nat>): Result<Opened> {
    match Header.ArchiveHeader(d)
    case Fail(e, _) => Err(e)
    case Done(pre, origin) =>
      var version, comp := FormatValue(d, origin), GlobalCodec(d, origin);
      if pre.extension == Header.EXT_TLV then
        var blockSize := BlockSize(d, U8(d, NulBytes(d, origin).next).next, version / 0x100);
        var hit :- Locate.LocateResult(d, origin, tailScan, Mark(pre), tail, full);
        var listing :- TaggedEntries(d, hit, version, comp, blockSize, c);
        Ok(Opened(origin, version / 0x100, listing.1, blockSize, listing.0))
      else
        var listing :- LegacyEntries(d, origin, version, comp, c);
        Ok(Opened(origin, version / 0x100, listing.1, 0, listing.0))
  }

  lemma {:induction false} InflateNeverDenies(c: Codec, compressed: seq<byte>, algo: byte, blockSize: nat)
    ensures Inflate(c, compressed, algo, blockSize).Err? ==> Inflate(c, compressed, algo, blockSize).error != NotADar
  {
    hide Deliver, BlocksFrom;
  }

  /** Input is called no archive exactly when it does not begin with the magic number. */
  lemma {:induction false} NoArchiveIff(d: seq<byte>, c: Codec, tailScan: nat, tail: seq<nat>, full: seq<nat>)
    ensures OpenResult(d, c, tailScan, tail, full) == Err(NotADar) <==> !At(d, 0, [0x00, 0x00, 0x00, 0x7B])
  {
    hide At, Header.ArchiveHeader, Inflate, WalkFrom, SkipNulFrom, TrailerOffset, Locate.ScanResult, FormatValue,
         BlockSize, GlobalCodec, TailSpan, Mark;
    Header.HeaderErrors(d);
    TrailerNeverDenies(d);
    forall compressed: seq<byte>, algo: byte, blockSize: nat
      ensures Inflate(c, compressed, algo, blockSize).Err? ==> Inflate(c, compressed, algo, blockSize).error != NotADar
    {
      InflateNeverDenies(c, compressed, algo, blockSize);
    }
  }

  lemma TrailerNeverDenies(d: seq<byte>)
    ensures TrailerOffset(d).Err? ==> TrailerOffset(d).error != NotADar
  {
    hide Inf, BackFrom;
  }

  // ---- Extracting ----

  function FindEntry(entries: seq<EntryRef>, path: seq<byte>): (r: Option<EntryRef>)
    ensures r.Some? ==> exists i :: 0 <= i < |entries| && entries[i] == r.value && r.value.path == path
                                    && forall j :: 0 <= j < i ==> entries[j].path != path
    ensures r.None? ==> forall i :: 0 <= i < |entries| ==> entries[i].path != path
  {
    if entries == [] then None
    else if entries[0].path == path then Some(entries[0])
    else
      var r := FindEntry(entries[1..], path);
      assert r.Some? ==> forall i :: 0 <= i < |entries[1..]| ==> entries[1..][i] == entries[i + 1];
      r
  }

  lemma {:induction false} FirstIsFound(entries: seq<EntryRef>, i: nat)
    requires i < |entries| && forall j :: 0 <= j < i ==> entries[j].path != entries[i].path
    ensures FindEntry(entries, entries[i].path) == Some(entries[i])
  {
    var r := FindEntry(entries, entries[i].path);
    assert r.Some?;
    var k :| 0 <= k < |entries| && entries[k] == r.value && r.value.path == entries[i].path
             && forall j :: 0 <= j < k ==> entries[j].path != entries[i].path;
    assert k == i;
  }

  /** What an extraction appends to its output, and what it returns. */
  datatype Extracted = Extracted(out: seq<byte>, result: Result<u64>)

  function Extraction(d: seq<byte>, o: Opened, c: Codec, path: seq<byte>): Extracted {
    match FindEntry(o.entries, path)
    case None => Extracted([], Err(EntryNotFound))
    case Some(e) => EntryExtraction(d, o, c, e)
  }

  function EntryExtraction(d: seq<byte>, o: Opened, c: Codec, e: EntryRef): Extracted {
    var f, start := e.fields, o.origin + e.fields.offset;
    if start >= TWO_64 || start > |d| then Extracted([], Err(Corrupt))
    else if !IsCompressed(f.compression) then
      if f.stored > |d| - start then Extracted([], Err(Corrupt))
      else Extracted(d[start..start + f.stored], Ok(f.stored))
    else if o.fmt == 1 then
      Capped(f.size, StreamTrace(c, f.compression, d[start..]), Corrupt)
    else if f.stored > |d| - start then Extracted([], Err(Corrupt))
    else Capped(f.size, DataTrace(c, d[start..start + f.stored], f.compression, o.blockSize), Refusal(f.compression))
  }

  /** A decoder's output under the cap of the declared size, which it must meet. */
  function Capped(size: u64, t: Trace, refusal: Error): Extracted {
    var p := Pour(size, [], t, refusal);
    Extracted(p.sent, if !p.ok then Err(p.end.error)
                      else if |p.sent| % TWO_64 != size then Err(Corrupt)
                      else Ok(size))
  }

  datatype CrcStatus = Match | Mismatch(stored: string, computed: string) | NotStored

  /** No stored checksum is empty: a zero width is read as none. */
  predicate Checkable(entries: seq<EntryRef>) {
    forall e :: e in entries ==> e.fields.crc != Some([])
  }

  function Verification(d: seq<byte>, o: Opened, c: Codec, path: seq<byte>): Result<CrcStatus>
    requires Checkable(o.entries)
  {
    match FindEntry(o.entries, path)
    case None => Err(EntryNotFound)
    case Some(e) =>
      match e.fields.crc
      case None => Ok(NotStored)
      case Some(stored) =>
        var x := Extraction(d, o, c, path);
        if x.result.Err? then Err(x.result.error)
        else
          var computed := Crc.Checksum(x.out, |stored|);
          Ok(if computed == stored then Match else Mismatch(Crc.ToHex(stored), Crc.ToHex(computed)))
  }

  lemma {:induction false} WalkCheckable(d: seq<byte>, p: nat, fmt: nat, comp: byte, stack: seq<seq<byte>>, depth: nat)
    ensures var w := WalkFrom(d, p, fmt, comp, stack, depth);
            w.Walked? ==> Checkable(w.entries)
    decreases if p < |d| then |d| - p else 0
  {
    hide ReadHead, Inf, JoinPath;
    var move := Step(d, p, fmt, comp, stack, depth);
    if move.Go? {
      assert Checkable(move.out) by { StepCheckable(d, p, fmt, comp, stack, depth); }
      hide Step;
      WalkCheckable(d, move.next, fmt, comp, move.stack, move.depth);
    }
  }

  lemma {:induction false} StepCheckable(d: seq<byte>, p: nat, fmt: nat, comp: byte, stack: seq<seq<byte>>, depth: nat)
    requires Step(d, p, fmt, comp, stack, depth).Go?
    ensures Checkable(Step(d, p, fmt, comp, stack, depth).out)
  {
    hide ReadHead, Inf, JoinPath, NulFrom;
  }

  // ---- As the program does it ----

  method ReadFormatValue(r: Source) returns (version: nat)
    modifies r.Repr()
    ensures version == FormatValue(r.Data(), old(r.Pos())) && r.Pos() == NulBytes(r.Data(), old(r.Pos())).next
  {
    var b := r.ReadNulBytes();
    version := if b.Ok? then VersionValue(b.value) else UNREADABLE;
  }

  method ReadHeaderFlags(r: Source) returns (flags: Result<u64>)
    modifies r.Repr()
    ensures flags == HeaderFlags(r.Data(), old(r.Pos()), 0).ToResult()
            && r.Pos() == HeaderFlags(r.Data(), old(r.Pos()), 0).next
  {
    hide Source.Data, Source.Repr;
    var bits: u64 := 0;
    while true
      invariant bits % 2 == 0 && HeaderFlags(r.Data(), r.Pos(), bits) == HeaderFlags(r.Data(), old(r.Pos()), 0)
      decreases |r.Data()| - r.Pos()
    {
      var a :- r.ReadU8();
      if bits >= 0x100_0000_0000_0000 {
        return Err(Corrupt);
      }
      bits := bits * 0x100 + (a - a % 2);
      if a % 2 == 0 {
        return Ok(bits);
      }
    }
  }

  method ReadBlockSizeField(r: Source, fmt: nat) returns (bs: Result<u64>)
    modifies r.Repr()
    ensures bs == BlockSizeField(r.Data(), old(r.Pos()), fmt).ToResult()
  {
    var _ :- r.SkipNulString();
    if fmt < 2 {
      return Ok(0);
    }
    var flags :- ReadHeaderFlags(r);
    if IsComplex(flags) || !IsSet(flags, HAS_COMPRESS_BS) {
      return Ok(0);
    }
    if IsSet(flags, INITIAL_OFFSET) {
      var _ :- r.ReadInfinint();
    }
    var size :- r.ReadInfinint();
    bs := Ok(if size > MAX_BLOCK_SIZE then 0 else size);
  }

  /** Best effort: whatever cannot be read counts as no block size. */
  method ReadBlockSize(r: Source, fmt: nat) returns (bs: nat)
    modifies r.Repr()
    ensures bs == BlockSize(r.Data(), old(r.Pos()), fmt)
  {
    var field := ReadBlockSizeField(r, fmt);
    bs := if field.Ok? then field.value else 0;
  }

  /** Version string and global codec. */
  method ReadFormat(r: Source) returns (version: nat, comp: byte)
    modifies r.Repr()
    ensures version == FormatValue(r.Data(), old(r.Pos())) && comp == GlobalCodec(r.Data(), old(r.Pos()))
    ensures r.Pos() == U8(r.Data(), NulBytes(r.Data(), old(r.Pos())).next).next
  {
    version := ReadFormatValue(r);
    var codec := r.ReadU8();
    comp := if codec.Ok? then codec.value else STORED;
  }

  method InflateCatalogue(c: Codec, compressed: seq<byte>, algo: byte, blockSize: nat) returns (r: Result<seq<byte>>)
    ensures r == Inflate(c, compressed, algo, blockSize)
  {
    var out := new Sink();
    var cap := new CapWriter(out, MAX_CATALOGUE_INFLATED);
    assert cap.base == [];
    var _ :- DecodeData(c, compressed, algo, blockSize, cap);
    assert [] + cap.sent == cap.sent;
    r := Ok(out.bytes);
  }

  /** Reads on to the end of the input or the bound on a compressed catalogue. */
  method ReadSpan(r: Source) returns (bytes: seq<byte>)
    modifies r.Repr()
    ensures bytes == TailSpan(r.Data(), old(r.Pos()))
  {
    hide Source.Data, Source.Repr, TailSpan;
    var buf := new byte[READ_SIZE](_ => 0);
    ghost var d, from := r.Data(), r.Pos();
    bytes := [];
    while |bytes| < MAX_CATALOGUE_COMPRESSED
      invariant r.Data() == d && r.Pos() == from + |bytes| && |bytes| <= MAX_CATALOGUE_COMPRESSED
      invariant bytes != [] ==> from + |bytes| <= |d| && bytes == d[from..from + |bytes|]
      decreases MAX_CATALOGUE_COMPRESSED - |bytes|
    {
      var left := MAX_CATALOGUE_COMPRESSED - |bytes|;
      var n := r.Read(buf, 0, if left < READ_SIZE then left else READ_SIZE);
      if n == 0 {
        SpanIs(d, from, |bytes|);
        return;
      }
      assert buf[..n] == d[from + |bytes|..from + |bytes| + n];
      bytes := bytes + buf[..n];
      assert bytes == d[from..from + |bytes|];
    }
    SpanIs(d, from, |bytes|);
  }

  lemma SpanIs(d: seq<byte>, from: nat, n: nat)
    requires n <= MAX_CATALOGUE_COMPRESSED && (n > 0 ==> from + n <= |d|)
    requires n == MAX_CATALOGUE_COMPRESSED || from + n >= |d|
    ensures TailSpan(d, from) == if n == 0 then [] else d[from..from + n]
  {
  }

  method ParseBehindPath(r: Source, version: nat, comp: byte) returns (listing: Result<(seq<EntryRef>, bool)>)
    requires r.Fits()
    modifies r.Repr()
    ensures listing == EntriesBehindPath(r.Data(), old(r.Pos()), version, comp)
  {
    if version >= FORMAT_11_1 {
      var _ :- r.SkipNulString();
    }
    listing := ParseCatalog(r, version / 0x100, comp);
  }

  method ParseTagged(r: Source, viaEscape: bool, version: nat, comp: byte, blockSize: nat, c: Codec, ghost at: nat)
    returns (listing: Result<(seq<EntryRef>, bool)>)
    requires r.Fits() && r.Pos() == Locate.Hit(viaEscape, at).Past() <= |r.Data()|
    modifies r.Repr()
    ensures listing == TaggedEntries(r.Data(), Locate.Hit(viaEscape, at), version, comp, blockSize, c)
  {
    hide Source.Data, EntriesBehindPath, Inflate, TailSpan, IsCompressed;
    if viaEscape && IsCompressed(comp) {
      var compressed := ReadSpan(r);
      var inflated :- InflateCatalogue(c, compressed, comp, blockSize);
      var cur := Buffered(inflated);
      var _ := cur.SkipBytes(LABEL_SIZE);
      listing := ParseBehindPath(cur, version, comp);
    } else {
      if viaEscape {
        var _ := r.SkipBytes(LABEL_SIZE);
      }
      listing := ParseBehindPath(r, version, comp);
    }
  }

  method ParseLegacy(r: Source, origin: nat, version: nat, comp: byte, c: Codec)
    returns (listing: Result<(seq<EntryRef>, bool)>)
    requires r.Fits()
    modifies r.Repr()
    ensures listing == LegacyEntries(r.Data(), origin, version, comp, c)
  {
    hide Source.Data, WalkFrom, Inflate, TailSpan, TrailerOffset, IsCompressed;
    var offset :- ReadTerminateur(r);
    if origin + offset >= TWO_64 {
      return Err(Corrupt);
    }
    var end := r.SeekEnd();
    if origin + offset >= end {
      return Err(Corrupt);
    }
    r.SeekTo(origin + offset);
    if IsCompressed(comp) {
      var compressed := ReadSpan(r);
      var inflated :- InflateCatalogue(c, compressed, comp, 0);
      var cur := Buffered(inflated);
      listing := ParseCatalog(cur, version / 0x100, comp);
    } else {
      listing := ParseCatalog(r, version / 0x100, comp);
    }
  }

  class DarReader {
    const inner: Source
    const codec: Codec
    const state: Opened

    ghost predicate Valid() { Checkable(state.entries) }

    constructor (inner: Source, codec: Codec, state: Opened)
      requires Checkable(state.entries)
      ensures Valid() && this.inner == inner && this.codec == codec && this.state == state
    {
      this.inner := inner;
      this.codec := codec;
      this.state := state;
    }

    /** Streams an entry's bytes to `out`; nothing but the archive, its state and the path decides them. */
    method ExtractTo(path: seq<byte>, out: Sink) returns (r: Result<u64>)
      modifies inner.Repr(), out
      ensures var x := Extraction(inner.Data(), state, codec, path);
              r == x.result && out.bytes == old(out.bytes) + x.out
    {
      hide Source.Data, FindEntry, Deliver, StreamTrace, DataTrace, IsCompressed;
      var found := FindEntry(state.entries, path);
      assert out.bytes + [] == out.bytes;
      if found.None? {
        return Err(EntryNotFound);
      }
      var e := found.value;
      var start := state.origin + e.fields.offset;
      if start >= TWO_64 {
        return Err(Corrupt);
      }
      var end := inner.SeekEnd();
      if start > end {
        return Err(Corrupt);
      }
      var available := end - start;
      inner.SeekTo(start);
      if !IsCompressed(e.fields.compression) {
        if e.fields.stored > available {
          return Err(Corrupt);
        }
        var bytes := inner.Take(e.fields.stored);
        out.bytes := out.bytes + bytes;
        return Ok(e.fields.stored);
      }
      var cap := new CapWriter(out, e.fields.size);
      if state.fmt == 1 {
        var rest := inner.Take(available);
        assert inner.Data()[start..end] == inner.Data()[start..];
        var _ :- DecodeStream(codec, e.fields.compression, rest, cap);
      } else {
        if e.fields.stored > available {
          return Err(Corrupt);
        }
        var data := inner.Take(e.fields.stored);
        var _ :- DecodeData(codec, data, e.fields.compression, state.blockSize, cap);
      }
      if cap.written != e.fields.size {
        return Err(Corrupt);
      }
      r := Ok(cap.written);
    }

    method Extract(path: seq<byte>) returns (r: Result<seq<byte>>)
      modifies inner.Repr()
      ensures var x := Extraction(inner.Data(), state, codec, path);
              r == if x.result.Ok? then Ok(x.out) else Err(x.result.error)
    {
      var buf := new Sink();
      ghost var x := Extraction(inner.Data(), state, codec, path);
      assert [] + x.out == x.out;
      var _ :- ExtractTo(path, buf);
      r := Ok(buf.bytes);
    }

    method Verify(path: seq<byte>) returns (r: Result<CrcStatus>)
      requires Valid()
      modifies inner.Repr()
      ensures r == Verification(inner.Data(), state, codec, path)
    {
      var found := FindEntry(state.entries, path);
      if found.None? {
        return Err(EntryNotFound);
      }
      if found.value.fields.crc.None? {
        return Ok(NotStored);
      }
      var stored := found.value.fields.crc.value;
      var data :- Extract(path);
      assert found.value in state.entries;
      var computed := Crc.DarCrc(data, |stored|);
      if computed == stored {
        return Ok(Match);
      }
      var a := Crc.WriteHex(stored);
      var b := Crc.WriteHex(computed);
      r := Ok(Mismatch(a, b));
    }
  }

  /** The reads behind an opening: only archives with a TLV list are searched for their catalogue. */
  ghost predicate OpenRun(d: seq<byte>, tailScan: nat, chunk: nat, tail: seq<nat>, full: seq<nat>) {
    match Header.ArchiveHeader(d)
    case Fail(_, _) => true
    case Done(pre, origin) =>
      pre.extension == Header.EXT_TLV ==> Locate.LocateRun(d, origin, tailScan, Mark(pre), chunk, tail, full)
  }

  /** Opens the archive that a reader at its start shows. */
  method Open(inner: Source, codec: Codec, tailScan: nat, chunk: nat)
    returns (r: Result<DarReader>, ghost tail: seq<nat>, ghost full: seq<nat>)
    requires inner.Pos() == 0 && inner.Fits() && chunk > 0
    modifies inner.Repr()
    ensures var result := OpenResult(inner.Data(), codec, tailScan, tail, full);
            if r.Ok? then r.value.Valid() && r.value.inner == inner && r.value.codec == codec
                          && result == Ok(r.value.state)
            else result == Err(r.error)
    ensures r.Ok? ==> fresh(r.value)
    ensures OpenRun(inner.Data(), tailScan, chunk, tail, full)
  {
    hide Source.Data, FormatValue, GlobalCodec, BlockSize, TaggedEntries, LegacyEntries, Locate.LocateResult,
         Locate.LocateRun,
         Header.ArchiveHeader, Checkable;
    tail, full := [], [];
    var pre := Header.ReadArchiveHeader(inner);
    if pre.Err? {
      return Err(pre.error), tail, full;
    }
    var origin := inner.Pos();
    var version, comp := ReadFormat(inner);
    var blockSize, listing := 0, Err(Corrupt);
    if pre.value.extension == Header.EXT_TLV {
      blockSize := ReadBlockSize(inner, version / 0x100);
      inner.SeekTo(origin);
      var via;
      via, tail, full := Locate.FindCatalogueWithin(inner, Mark(pre.value), tailScan, chunk);
      if via.Err? {
        return Err(via.error), tail, full;
      }
      Locate.HitWithin(inner.Data(), origin, tailScan, Mark(pre.value), tail, full);
      ghost var hit := Locate.LocateResult(inner.Data(), origin, tailScan, Mark(pre.value), tail, full).value;
      listing := ParseTagged(inner, via.value, version, comp, blockSize, codec, hit.at);
    } else {
      listing := ParseLegacy(inner, origin, version, comp, codec);
    }
    if listing.Err? {
      return Err(listing.error), tail, full;
    }
    EntriesCheckable(inner.Data(), codec, tailScan, tail, full);
    var reader := new DarReader(inner, codec,
                               Opened(origin, version / 0x100, listing.value.1, blockSize, listing.value.0));
    r := Ok(reader);
  }

  lemma {:induction false} EntriesCheckable(d: seq<byte>, c: Codec, tailScan: nat, tail: seq<nat>, full: seq<nat>)
    requires OpenResult(d, c, tailScan, tail, full).Ok?
    ensures Checkable(OpenResult(d, c, tailScan, tail, full).value.entries)
  {
    hide WalkFrom, Inf, NulFrom, SkipNulFrom, Inflate, TrailerOffset, Locate.LocateResult, Header.ArchiveHeader,
         FormatValue, BlockSize;
    forall e: seq<byte>, p: nat, fmt: nat, comp: byte
      ensures WalkFrom(e, p, fmt, comp, [], 0).Walked? ==> Checkable(WalkFrom(e, p, fmt, comp, [], 0).entries)
    {
      WalkCheckable(e, p, fmt, comp, [], 0);
    }
  }

  /** The archive needs no search for its catalogue, or one whose answer the sizes of the reads cannot change. */
  ghost predicate Settled(d: seq<byte>, tailScan: nat, chunk: nat) {
    match Header.ArchiveHeader(d)
    case Fail(_, _) => true
    case Done(pre, origin) => pre.extension == Header.EXT_TLV ==> Locate.RaceFree(d, origin, tailScan, Mark(pre), chunk)
  }

  /** Two openings of a settled archive have the same outcome. */
  lemma {:induction false} OpensAlike(d: seq<byte>, c: Codec, tailScan: nat, chunk: nat,
                                      tail: seq<nat>, full: seq<nat>, tail': seq<nat>, full': seq<nat>)
    requires OpenRun(d, tailScan, chunk, tail, full) && OpenRun(d, tailScan, chunk, tail', full')
    requires Settled(d, tailScan, chunk)
    ensures OpenResult(d, c, tailScan, tail, full) == OpenResult(d, c, tailScan, tail', full')
  {
    hide Header.ArchiveHeader, Locate.LocateResult, Locate.LocateRun, Locate.RaceFree, TaggedEntries, LegacyEntries,
         FormatValue, GlobalCodec, BlockSize;
    var h := Header.ArchiveHeader(d);
    if h.Done? && h.value.extension == Header.EXT_TLV {
      Locate.LocateSettles(d, h.next, tailScan, Mark(h.value), chunk, tail, full, tail', full');
    }
  }
}
