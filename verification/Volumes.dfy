/** Slice files in their envelopes, opened as one archive. */
module Volumes {
  import opened Bytes
  import opened Slices
  import opened Stream
  import opened Decode
  import opened Reader
  import Header

  // ---- What the slices amount to ----

  /** The logical archive: slice 1 with its header, every other without; no flag but the last. */
  function DesliceFrom(files: seq<seq<byte>>, i: nat, got: seq<byte>): Result<seq<byte>>
    requires i <= |files|
    decreases |files| - i
  {
    if i == |files| then Ok(got)
    else
      var start :- DataStart(files[i], i);
      var trailer := if i + 1 < |files| then 1 else 0;
      if |files[i]| < start + trailer then Err(Corrupt)
      else
        var piece := files[i][start..|files[i]| - trailer];
        if |got| + |piece| >= TWO_64 then Err(Corrupt) else DesliceFrom(files, i + 1, got + piece)
  }

  function DataStart(file: seq<byte>, i: nat): Result<nat> {
    if i == 0 then Ok(0)
    else match Header.SliceHeader(file) case Done(_, q) => Ok(q) case Fail(e, _) => Err(e)
  }

  function Deslice(files: seq<seq<byte>>): Result<seq<byte>> {
    if files == [] then Err(Corrupt) else DesliceFrom(files, 0, [])
  }

  /** Opens slice `i` of `count`, whose bytes come after `logicalStart` others: its header and flag are left out. */
  method OpenSpan(bytes: seq<byte>, i: nat, count: nat, logicalStart: nat) returns (r: Result<Span>)
    ensures var start, trailer := DataStart(bytes, i), if i + 1 < count then 1 else 0;
            if start.Ok? && |bytes| >= start.value + trailer then
              && r.Ok? && r.value.Fits() && fresh(r.value.file) && r.value.logicalStart == logicalStart
              && r.value.Piece() == bytes[start.value..|bytes| - trailer]
            else r == Err(if start.Ok? then Corrupt else start.error)
  {
    hide Header.SliceHeader;
    var file := new Handle(bytes);
    var source := Plain(file);
    var len := source.SeekEnd();
    source.SeekTo(0);
    var start := 0;
    if i != 0 {
      start :- Header.SliceHeaderLen(source);
    }
    var trailer := if i + 1 < count then 1 else 0;
    if len < start + trailer {
      return Err(Corrupt);
    }
    r := Ok(Span(file, start, logicalStart, len - start - trailer));
  }

  method OpenSlices(files: seq<seq<byte>>) returns (r: Result<SliceReader>)
    ensures r.Ok? <==> Deslice(files).Ok?
    ensures r.Ok? ==> r.value.Archive() == Deslice(files).value && r.value.pos == 0
    ensures r.Ok? ==> fresh(r.value) && fresh(r.value.Files())
    ensures r.Err? ==> Deslice(files).error == r.error
  {
    if files == [] {
      return Err(Corrupt);
    }
    hide Laid, Joined, DataStart, Span.Piece;
    var spans: seq<Span> := [];
    NothingLaid();
    var logicalStart: u64 := 0;
    for i := 0 to |files|
      invariant Laid(spans) && logicalStart == |Joined(spans)|
      invariant DesliceFrom(files, i, Joined(spans)) == Deslice(files)
      invariant forall s :: s in spans ==> fresh(s.file)
    {
      var span :- OpenSpan(files[i], i, |files|, logicalStart);
      LaidAppend(spans, span);
      spans := spans + [span];
      if logicalStart + span.logicalLen >= TWO_64 {
        return Err(Corrupt);
      }
      logicalStart := logicalStart + span.logicalLen;
    }
    var reader := new SliceReader(spans);
    r := Ok(reader);
  }

  // ---- Slicing is invisible ----

  /** A piece as a slice file: headers on all but the first, a flag byte on all but the last. */
  function SliceFile(piece: seq<byte>, head: Header.Head, flag: byte, i: nat, count: nat): seq<byte> {
    (if i == 0 then [] else Header.EncodeHead(head)) + piece + (if i + 1 < count then [flag] else [])
  }

  function Concat(pieces: seq<seq<byte>>): seq<byte> {
    if pieces == [] then [] else pieces[0] + Concat(pieces[1..])
  }

  /** `files` wraps `pieces`, in order, each in some valid envelope. */
  ghost predicate Wraps(files: seq<seq<byte>>, pieces: seq<seq<byte>>, heads: seq<Header.Head>, flags: seq<byte>) {
    && |files| == |pieces| == |heads| == |flags|
    && (forall i :: 0 <= i < |files| ==> heads[i].Valid())
    && (forall i :: 0 <= i < |files| ==> files[i] == SliceFile(pieces[i], heads[i], flags[i], i, |files|))
  }

  /** The same as far as the first `k` files. */
  ghost predicate WrapsUpTo(files: seq<seq<byte>>, pieces: seq<seq<byte>>, heads: seq<Header.Head>, flags: seq<byte>,
                            k: nat) {
    && k <= |files| && |pieces| == |heads| == |flags| == k
    && (forall i :: 0 <= i < k ==> heads[i].Valid())
    && (forall i :: 0 <= i < k ==> files[i] == SliceFile(pieces[i], heads[i], flags[i], i, |files|))
  }

  lemma {:induction false} UnwrapUpTo(files: seq<seq<byte>>, pieces: seq<seq<byte>>, heads: seq<Header.Head>,
                                      flags: seq<byte>, k: nat, i: nat, got: seq<byte>)
    requires WrapsUpTo(files, pieces, heads, flags, k) && i <= k
    requires |got| + |Concat(pieces[i..])| < TWO_64
    ensures DesliceFrom(files, i, got) == DesliceFrom(files, k, got + Concat(pieces[i..]))
    decreases k - i
  {
    hide DataStart, SliceFile;
    if i == k {
      assert got + Concat(pieces[i..]) == got;
    } else {
      assert pieces[i..][1..] == pieces[i + 1..];
      UnwrapOne(pieces[i], heads[i], flags[i], i, |files|);
      UnwrapUpTo(files, pieces, heads, flags, k, i + 1, got + pieces[i]);
      assert got + pieces[i] + Concat(pieces[i + 1..]) == got + Concat(pieces[i..]);
    }
  }

  lemma {:induction false} UnwrapOne(piece: seq<byte>, head: Header.Head, flag: byte, i: nat, count: nat)
    requires head.Valid()
    ensures var f, trailer := SliceFile(piece, head, flag, i, count), if i + 1 < count then 1 else 0;
            && DataStart(f, i).Ok? && |f| >= DataStart(f, i).value + trailer
            && f[DataStart(f, i).value..|f| - trailer] == piece
  {
    var f := SliceFile(piece, head, flag, i, count);
    if i != 0 {
      assert f[..|Header.EncodeHead(head)|] == Header.EncodeHead(head);
      Header.HeaderReads(f, head);
    }
  }

  /** However an archive is cut into slices, the reader puts it together again. */
  lemma {:induction false} SlicingIsInvisible(files: seq<seq<byte>>, pieces: seq<seq<byte>>, heads: seq<Header.Head>,
                                              flags: seq<byte>)
    requires Wraps(files, pieces, heads, flags) && files != [] && |Concat(pieces)| < TWO_64
    ensures Deslice(files) == Ok(Concat(pieces))
  {
    assert pieces[0..] == pieces && [] + Concat(pieces) == Concat(pieces);
    UnwrapUpTo(files, pieces, heads, flags, |files|, 0, []);
  }

  /**
   * Behind good slices, the first bad one decides: one that does not begin with the magic number is no archive,
   * and one of an unknown extension, or too short for its header and flag, is corrupt.
   */
  lemma {:induction false} BadSliceFails(files: seq<seq<byte>>, pieces: seq<seq<byte>>, heads: seq<Header.Head>,
                                         flags: seq<byte>, k: nat, head: Header.Head)
    requires WrapsUpTo(files, pieces, heads, flags, k) && k < |files| && |Concat(pieces)| < TWO_64
    requires head.Valid()
    ensures k > 0 && !At(files[k], 0, [0x00, 0x00, 0x00, 0x7B]) ==> Deslice(files) == Err(NotADar)
    ensures k > 0 && At(files[k], 0, [0x00, 0x00, 0x00, 0x7B]) && |files[k]| >= 16 && files[k][15] as char !in "TNS"
            ==> Deslice(files) == Err(Corrupt)
    ensures k > 0 && At(files[k], 0, Header.EncodeHead(head)) && k + 1 < |files|
            && |files[k]| == |Header.EncodeHead(head)|
            ==> Deslice(files) == Err(Corrupt)
    ensures files[0] == [] && |files| > 1 ==> Deslice(files) == Err(Corrupt)
    ensures Deslice([]) == Err(Corrupt)
  {
    hide Header.SliceHeader, Header.EncodeHead;
    assert pieces[0..] == pieces && [] + Concat(pieces) == Concat(pieces);
    UnwrapUpTo(files, pieces, heads, flags, k, 0, []);
    Header.SkimErrors(files[k]);
    if At(files[k], 0, Header.EncodeHead(head)) {
      Header.HeaderReads(files[k], head);
    }
  }

  // ---- Reading an archive through its slices ----

  /**
   * Opens an archive by its slice files, given in order. From 2^63 bytes on, a forward skip could wrap the
   * cursor of the slice reader; below, opening is a function of the joined archive alone.
   */
  method OpenSliced(files: seq<seq<byte>>, codec: Codec, tailScan: nat, chunk: nat)
    returns (r: Result<DarReader>, ghost tail: seq<nat>, ghost full: seq<nat>)
    requires chunk > 0 && (Deslice(files).Ok? ==> |Deslice(files).value| <= TWO_63)
    ensures Deslice(files).Err? ==> r == Err(Deslice(files).error)
    ensures Deslice(files).Ok? ==>
              var d := Deslice(files).value;
              && OpenRun(d, tailScan, chunk, tail, full)
              && if r.Ok? then OpenResult(d, codec, tailScan, tail, full) == Ok(r.value.state)
                 else OpenResult(d, codec, tailScan, tail, full) == Err(r.error)
    ensures r.Ok? ==> r.value.Valid() && r.value.inner.Data() == Deslice(files).value && r.value.codec == codec
    ensures r.Ok? ==> fresh(r.value) && fresh(r.value.inner.Repr())
  {
    hide OpenResult, OpenRun, DesliceFrom;
    tail, full := [], [];
    var slices := OpenSlices(files);
    if slices.Err? {
      return Err(slices.error), tail, full;
    }
    var inner := Sliced(slices.value);
    r, tail, full := Open(inner, codec, tailScan, chunk);
  }

  /** What opening an archive and then extracting a path yields. */
  ghost function Extracting(d: seq<byte>, c: Codec, tailScan: nat, tail: seq<nat>, full: seq<nat>,
                            path: seq<byte>): Result<seq<byte>> {
    var o :- OpenResult(d, c, tailScan, tail, full);
    var x := Extraction(d, o, c, path);
    if x.result.Ok? then Ok(x.out) else Err(x.result.error)
  }

  /** Opens a sliced archive and extracts one file. */
  method ExtractSliced(files: seq<seq<byte>>, codec: Codec, tailScan: nat, chunk: nat, path: seq<byte>)
    returns (r: Result<seq<byte>>, ghost tail: seq<nat>, ghost full: seq<nat>)
    requires chunk > 0 && (Deslice(files).Ok? ==> |Deslice(files).value| <= TWO_63)
    ensures Deslice(files).Err? ==> r == Err(Deslice(files).error)
    ensures Deslice(files).Ok? ==> OpenRun(Deslice(files).value, tailScan, chunk, tail, full)
                                   && r == Extracting(Deslice(files).value, codec, tailScan, tail, full, path)
  {
    hide OpenResult, OpenRun, Extraction, Deslice;
    var reader;
    reader, tail, full := OpenSliced(files, codec, tailScan, chunk);
    if reader.Err? {
      return Err(reader.error), tail, full;
    }
    r := reader.value.Extract(path);
  }

  /** Opening and extracting cannot tell a settled archive from its slices, whatever the reads of either. */
  lemma {:induction false} SlicesReadAlike(files: seq<seq<byte>>, pieces: seq<seq<byte>>, heads: seq<Header.Head>,
                                           flags: seq<byte>,
                                           c: Codec, tailScan: nat, chunk: nat, path: seq<byte>,
                                           tail: seq<nat>, full: seq<nat>, tail': seq<nat>, full': seq<nat>)
    requires Wraps(files, pieces, heads, flags) && files != [] && |Concat(pieces)| < TWO_64
    requires Deslice(files).Ok? ==> OpenRun(Deslice(files).value, tailScan, chunk, tail, full)
    requires OpenRun(Concat(pieces), tailScan, chunk, tail', full') && Settled(Concat(pieces), tailScan, chunk)
    ensures Deslice(files).Ok?
    ensures OpenResult(Deslice(files).value, c, tailScan, tail, full)
            == OpenResult(Concat(pieces), c, tailScan, tail', full')
    ensures Extracting(Deslice(files).value, c, tailScan, tail, full, path)
            == Extracting(Concat(pieces), c, tailScan, tail', full', path)
  {
    hide Deslice, OpenResult, OpenRun, Extraction, Settled, Wraps, Concat;
    SlicingIsInvisible(files, pieces, heads, flags);
    OpensAlike(Concat(pieces), c, tailScan, chunk, tail, full, tail', full');
  }
}
