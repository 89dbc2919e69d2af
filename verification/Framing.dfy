/** Block framing: what a writer frames is what the loop decodes, and only a whole frame ends well. */
module Framing {
  import opened Bytes
  import opened Wire
  import opened Decode

  datatype Block = Block(size: Infinint, data: seq<byte>) {
    predicate Valid() { size.Valid() && size.v == |data| > 0 }
  }

  /** `end` is the zero of the end marker, in either width. */
  function Frame(blocks: seq<Block>, end: Infinint): seq<byte> {
    if blocks == [] then [2] + EncodeInfinint(end)
    else [1] + (EncodeInfinint(blocks[0].size) + (blocks[0].data + Frame(blocks[1..], end)))
  }

  predicate AllValid(blocks: seq<Block>, end: Infinint) {
    end.Valid() && end.v == 0 && forall b :: b in blocks ==> b.Valid()
  }

  /** The blocks decoded one after another, up to the first that fails. */
  function TraceAll(c: Codec, algo: byte, capacity: nat, blocks: seq<Block>): Trace {
    if blocks == [] then FINISHED
    else BlockTrace(c, algo, blocks[0].data, capacity).Then(TraceAll(c, algo, capacity, blocks[1..]))
  }

  /** lz4, and lzo in its three grades. */
  const RAW_LETTERS: string := "qljkQLJK"

  /** gzip, bzip2, xz and zstd. */
  const STREAM_LETTERS: string := "zyxdZYXD"

  /** The letters that name a codec, in either case. */
  lemma CodecLetters(algo: byte)
    ensures IsRawBlock(algo) <==> algo as char in RAW_LETTERS
    ensures IsStreamed(algo) <==> algo as char in STREAM_LETTERS
    ensures IsCompressed(algo) <==> algo as char in RAW_LETTERS || algo as char in STREAM_LETTERS
  {
    var c := algo as char;
    assert c in RAW_LETTERS
      <==> c == 'q' || c == 'l' || c == 'j' || c == 'k' || c == 'Q' || c == 'L' || c == 'J' || c == 'K' by {
      assert RAW_LETTERS == ['q', 'l', 'j', 'k', 'Q', 'L', 'J', 'K'];
    }
    assert c in STREAM_LETTERS
      <==> c == 'z' || c == 'y' || c == 'x' || c == 'd' || c == 'Z' || c == 'Y' || c == 'X' || c == 'D' by {
      assert STREAM_LETTERS == ['z', 'y', 'x', 'd', 'Z', 'Y', 'X', 'D'];
    }
  }

  /** What a raw block may decode to: the block size, 256 KiB where none is recorded, and never more than 256 MiB. */
  function Room(blockSize: nat): nat {
    if blockSize == 0 then 262_144 else if blockSize < 268_435_456 then blockSize else 268_435_456
  }

  /** The codec makes `plain` of one block, or of one stream. */
  ghost predicate BlockYields(c: Codec, algo: byte, blockSize: nat, data: seq<byte>, plain: seq<byte>) {
    if algo as char in RAW_LETTERS then c.raw(algo, data, Room(blockSize)) == Some(plain) && |plain| <= Room(blockSize)
    else algo as char in STREAM_LETTERS && c.stream(algo, data).ok && Flat(c.stream(algo, data).chunks) == plain
  }

  /** Each block decodes well, to the matching bytes. */
  ghost predicate Decoded(c: Codec, algo: byte, blockSize: nat, blocks: seq<Block>, plains: seq<seq<byte>>) {
    && |blocks| == |plains|
    && forall i :: 0 <= i < |blocks| ==> BlockYields(c, algo, blockSize, blocks[i].data, plains[i])
  }

  /**
   * `input` decodes well to `plain`: by the framed blocks it begins with, where a block size is recorded or the
   * codec knows raw blocks only, and else as one stream.
   */
  ghost predicate Yields(c: Codec, algo: byte, blockSize: nat, input: seq<byte>, plain: seq<byte>) {
    if blockSize > 0 || algo as char in RAW_LETTERS then
      exists blocks, end, plains ::
        && AllValid(blocks, end) && At(input, 0, Frame(blocks, end))
        && Decoded(c, algo, blockSize, blocks, plains) && Flat(plains) == plain
    else BlockYields(c, algo, 0, input, plain)
  }

  lemma {:induction false} BlockYieldsIff(c: Codec, algo: byte, blockSize: nat, data: seq<byte>, plain: seq<byte>)
    ensures var t := BlockTrace(c, algo, data, Capacity(algo, blockSize));
            BlockYields(c, algo, blockSize, data, plain) <==> t.ok && Flat(t.chunks) == plain
    ensures !IsRawBlock(algo) ==>
              (BlockYields(c, algo, blockSize, data, plain)
               <==> StreamTrace(c, algo, data).ok && Flat(StreamTrace(c, algo, data).chunks) == plain)
  {
    hide IsRawBlock, IsStreamed;
    CodecLetters(algo);
    if IsRawBlock(algo) {
      var raw := c.raw(algo, data, Capacity(algo, blockSize));
      if raw.Some? {
        LoneFlat(raw.value);
      }
    }
  }

  lemma LoneFlat(chunk: seq<byte>)
    ensures Flat([chunk]) == chunk
  {
    assert [chunk][1..] == [];
  }

  lemma {:induction false} FlatConcat(a: seq<seq<byte>>, b: seq<seq<byte>>)
    ensures Flat(a + b) == Flat(a) + Flat(b)
    decreases |a|
  {
    if a == [] {
      assert a + b == b;
    } else {
      FlatConcat(a[1..], b);
      assert (a + b)[1..] == a[1..] + b;
    }
  }

  lemma {:induction false} DecodedFlat(c: Codec, algo: byte, blockSize: nat, blocks: seq<Block>, plains: seq<seq<byte>>)
    requires Decoded(c, algo, blockSize, blocks, plains)
    ensures var t := TraceAll(c, algo, Capacity(algo, blockSize), blocks); t.ok && Flat(t.chunks) == Flat(plains)
    decreases |blocks|
  {
    hide BlockTrace, BlockYields, Capacity;
    if blocks != [] {
      DecodedFlat(c, algo, blockSize, blocks[1..], plains[1..]);
      BlockYieldsIff(c, algo, blockSize, blocks[0].data, plains[0]);
      FlatConcat(BlockTrace(c, algo, blocks[0].data, Capacity(algo, blockSize)).chunks,
                 TraceAll(c, algo, Capacity(algo, blockSize), blocks[1..]).chunks);
    }
  }

  lemma {:induction false} DecodedFrom(c: Codec, algo: byte, blockSize: nat, blocks: seq<Block>)
    returns (plains: seq<seq<byte>>)
    requires TraceAll(c, algo, Capacity(algo, blockSize), blocks).ok
    ensures Decoded(c, algo, blockSize, blocks, plains)
    decreases |blocks|
  {
    hide BlockTrace, BlockYields, Capacity;
    if blocks == [] {
      plains := [];
    } else {
      var first := Flat(BlockTrace(c, algo, blocks[0].data, Capacity(algo, blockSize)).chunks);
      BlockYieldsIff(c, algo, blockSize, blocks[0].data, first);
      var rest := DecodedFrom(c, algo, blockSize, blocks[1..]);
      plains := [first] + rest;
      assert forall i :: 1 <= i < |blocks| ==> blocks[i] == blocks[1..][i - 1] && plains[i] == rest[i - 1];
    }
  }

  lemma {:induction false} BlockReads(d: seq<byte>, p: nat, b: Block, rest: seq<byte>)
    requires b.Valid() && At(d, p, [H_DATA] + (EncodeInfinint(b.size) + (b.data + rest)))
    ensures var q := p + 1 + |EncodeInfinint(b.size)|;
            && U8(d, p) == Done(H_DATA, p + 1) && Inf(d, p + 1) == Done(|b.data|, q)
            && q + |b.data| <= |d| && d[q..q + |b.data|] == b.data && At(d, q + |b.data|, rest)
  {
    hide Inf, EncodeInfinint;
    AtConcat(d, p, [H_DATA], EncodeInfinint(b.size) + (b.data + rest));
    AtOne(d, p, H_DATA);
    AtConcat(d, p + 1, EncodeInfinint(b.size), b.data + rest);
    InfReads(d, p + 1, b.size);
    AtConcat(d, p + 1 + |EncodeInfinint(b.size)|, b.data, rest);
  }

  /** Framed blocks, with anything after them, decode to the concatenation of the blocks' outputs. */
  lemma {:induction false} FrameDecodes(c: Codec, d: seq<byte>, p: nat, algo: byte, capacity: nat, blocks: seq<Block>,
                                        end: Infinint)
    requires AllValid(blocks, end) && At(d, p, Frame(blocks, end))
    ensures BlocksFrom(c, d, p, algo, capacity).trace == TraceAll(c, algo, capacity, blocks)
    ensures TraceAll(c, algo, capacity, blocks).ok
            ==> BlocksFrom(c, d, p, algo, capacity).next == p + |Frame(blocks, end)|
    decreases |blocks|
  {
    hide At, Inf, U8, EncodeInfinint, BlockTrace;
    if blocks == [] {
      AtConcat(d, p, [H_EOF], EncodeInfinint(end));
      EndReads(d, p);
      InfReads(d, p + 1, end);
    } else {
      var b := blocks[0];
      assert b in blocks && b.Valid();
      BlockReads(d, p, b, Frame(blocks[1..], end));
      FrameDecodes(c, d, p + 1 + |EncodeInfinint(b.size)| + |b.data|, algo, capacity, blocks[1..], end);
    }
  }

  lemma EndReads(d: seq<byte>, p: nat)
    requires At(d, p, [H_EOF])
    ensures U8(d, p) == Done(H_EOF, p + 1)
  {
    AtOne(d, p, H_EOF);
  }

  /** A run that ends well met an end marker, or a block that decodes and a run that ends well. */
  lemma {:induction false} WellEndedParts(c: Codec, d: seq<byte>, p: nat, algo: byte, capacity: nat)
    requires BlocksFrom(c, d, p, algo, capacity).trace.ok
    ensures p < |d| && Inf(d, p + 1).Done? && (d[p] == H_EOF || d[p] == H_DATA)
    ensures d[p] == H_EOF ==>
              BlocksFrom(c, d, p, algo, capacity) == BlockRun(FINISHED, Inf(d, p + 1).next) && Inf(d, p + 1).value == 0
    ensures d[p] == H_DATA ==>
              var size := Inf(d, p + 1);
              var e := size.next + size.value;
              && 0 < size.value && e <= |d| && BlocksFrom(c, d, e, algo, capacity).trace.ok
              && BlockTrace(c, algo, d[size.next..e], capacity).ok
              && BlocksFrom(c, d, p, algo, capacity).next == BlocksFrom(c, d, e, algo, capacity).next
              && BlocksFrom(c, d, p, algo, capacity).trace
                 == BlockTrace(c, algo, d[size.next..e], capacity).Then(BlocksFrom(c, d, e, algo, capacity).trace)
  {
    hide Inf, BlockTrace;
  }

  /** A run ends well exactly on a whole frame all of whose blocks decode. */
  lemma {:induction false} WellEndedIsFramed(c: Codec, d: seq<byte>, p: nat, algo: byte, capacity: nat)
    returns (blocks: seq<Block>, end: Infinint)
    requires BlocksFrom(c, d, p, algo, capacity).trace.ok
    ensures AllValid(blocks, end) && At(d, p, Frame(blocks, end)) && TraceAll(c, algo, capacity, blocks).ok
    decreases |d| - p
  {
    hide At, Inf, EncodeInfinint, BlockTrace, BlocksFrom;
    WellEndedParts(c, d, p, algo, capacity);
    end := InfSound(d, p + 1);
    var code := EncodeInfinint(end);
    AtOne(d, p, d[p]);
    if d[p] == H_EOF {
      blocks := [];
      AtConcat(d, p, [H_EOF], code);
    } else {
      var q := p + 1 + |code|;
      var b := Block(end, d[q..q + end.v]);
      SliceAt(d, q, b.data);
      var rest;
      rest, end := WellEndedIsFramed(c, d, q + |b.data|, algo, capacity);
      blocks := [b] + rest;
      assert blocks[1..] == rest;
      AtConcat(d, q, b.data, Frame(rest, end));
      AtConcat(d, p + 1, code, b.data + Frame(rest, end));
      AtConcat(d, p, [H_DATA], code + (b.data + Frame(rest, end)));
    }
  }

  /** What a part of the input decodes well, the whole decodes the same. */
  lemma {:induction false} WellEndedIsStable(c: Codec, d: seq<byte>, n: nat, p: nat, algo: byte, capacity: nat)
    requires n <= |d| && BlocksFrom(c, d[..n], p, algo, capacity).trace.ok
    ensures BlocksFrom(c, d, p, algo, capacity) == BlocksFrom(c, d[..n], p, algo, capacity)
    decreases n - p
  {
    hide Inf, BlockTrace;
    WellEndedParts(c, d[..n], p, algo, capacity);
    InfStable(d, n, p + 1);
    if d[p] == H_DATA {
      var size := Inf(d, p + 1);
      var e := size.next + size.value;
      assert d[..n][size.next..e] == d[size.next..e];
      WellEndedIsStable(c, d, n, e, algo, capacity);
    }
  }

  /** Every strict prefix of a framed stream fails. */
  lemma {:induction false} CutFrameFails(c: Codec, d: seq<byte>, n: nat, algo: byte, capacity: nat,
                                         blocks: seq<Block>, end: Infinint)
    requires AllValid(blocks, end) && At(d, 0, Frame(blocks, end)) && n < |Frame(blocks, end)|
    ensures !BlocksFrom(c, d[..n], 0, algo, capacity).trace.ok
  {
    hide At, BlocksFrom, Frame, AllValid;
    assert n <= |d| by { AtWithin(d, 0, Frame(blocks, end)); }
    if BlocksFrom(c, d[..n], 0, algo, capacity).trace.ok {
      WellEndedIsStable(c, d, n, 0, algo, capacity);
      FrameDecodes(c, d, 0, algo, capacity, blocks, end);
    }
  }

  /** Decoding a span ends well, with these bytes, exactly when the span yields them. */
  lemma {:induction false} YieldsIff(c: Codec, algo: byte, blockSize: nat, input: seq<byte>, plain: seq<byte>)
    ensures var t := DataTrace(c, input, algo, blockSize);
            Yields(c, algo, blockSize, input, plain) <==> t.ok && Flat(t.chunks) == plain
  {
    hide IsRawBlock, BlocksFrom, StreamTrace, BlockYields, At, Frame, AllValid, Decoded, Capacity, TraceAll;
    CodecLetters(algo);
    if blockSize > 0 || IsRawBlock(algo) {
      FramedYields(c, algo, blockSize, input, plain);
      var t := DataTrace(c, input, algo, blockSize);
      if t.ok && Flat(t.chunks) == plain {
        var blocks, end := WellEndedIsFramed(c, input, 0, algo, Capacity(algo, blockSize));
        FrameDecodes(c, input, 0, algo, Capacity(algo, blockSize), blocks, end);
        var plains := DecodedFrom(c, algo, blockSize, blocks);
        DecodedFlat(c, algo, blockSize, blocks, plains);
      }
    } else {
      BlockYieldsIff(c, algo, 0, input, plain);
    }
  }

  lemma {:induction false} FramedYields(c: Codec, algo: byte, blockSize: nat, input: seq<byte>, plain: seq<byte>)
    ensures (blockSize > 0 || IsRawBlock(algo)) && Yields(c, algo, blockSize, input, plain)
            ==> DataTrace(c, input, algo, blockSize).ok && Flat(DataTrace(c, input, algo, blockSize).chunks) == plain
  {
    hide IsRawBlock, BlocksFrom, StreamTrace, BlockYields, At, Frame, AllValid, Decoded, Capacity, TraceAll;
    CodecLetters(algo);
    if (blockSize > 0 || IsRawBlock(algo)) && Yields(c, algo, blockSize, input, plain) {
      var blocks, end, plains :| AllValid(blocks, end) && At(input, 0, Frame(blocks, end))
                                 && Decoded(c, algo, blockSize, blocks, plains) && Flat(plains) == plain;
      FrameDecodes(c, input, 0, algo, Capacity(algo, blockSize), blocks, end);
      DecodedFlat(c, algo, blockSize, blocks, plains);
    }
  }

  /** A whole frame stands at the start. */
  ghost predicate Framed(input: seq<byte>) {
    exists blocks, end :: AllValid(blocks, end) && At(input, 0, Frame(blocks, end))
  }

  lemma StreamFails(c: Codec, algo: byte, input: seq<byte>)
    ensures StreamTrace(c, algo, input).end in {Ok(()), Err(Corrupt)}
  {
  }

  lemma BlockFails(c: Codec, algo: byte, block: seq<byte>, capacity: nat)
    ensures BlockTrace(c, algo, block, capacity).end in {Ok(()), Err(Corrupt)}
  {
  }

  lemma {:induction false} TraceFails(c: Codec, algo: byte, capacity: nat, blocks: seq<Block>)
    ensures TraceAll(c, algo, capacity, blocks).end in {Ok(()), Err(Corrupt)}
    decreases |blocks|
  {
    hide BlockTrace;
    if blocks != [] {
      BlockFails(c, algo, blocks[0].data, capacity);
      TraceFails(c, algo, capacity, blocks[1..]);
    }
  }

  /** Decoding fails as corrupt, if not for a frame that is not whole; and never as no archive. */
  lemma {:induction false} DataFails(c: Codec, algo: byte, blockSize: nat, input: seq<byte>)
    ensures var end := DataTrace(c, input, algo, blockSize).end;
            && (end.Err? ==> end.error in {Io, Corrupt})
            && (Framed(input) || (blockSize == 0 && algo as char !in RAW_LETTERS) ==> end in {Ok(()), Err(Corrupt)})
  {
    hide IsRawBlock, IsStreamed, BlocksFrom, StreamTrace, TraceAll, At, AllValid, Frame, Capacity;
    CodecLetters(algo);
    StreamFails(c, algo, input);
    BlocksFail(c, input, 0, algo, Capacity(algo, blockSize));
    if Framed(input) {
      var blocks, end :| AllValid(blocks, end) && At(input, 0, Frame(blocks, end));
      FrameDecodes(c, input, 0, algo, Capacity(algo, blockSize), blocks, end);
      TraceFails(c, algo, Capacity(algo, blockSize), blocks);
    }
  }

  lemma {:induction false} BlocksFail(c: Codec, d: seq<byte>, p: nat, algo: byte, capacity: nat)
    ensures BlocksFrom(c, d, p, algo, capacity).trace.end != Err(EntryNotFound)
    decreases |d| - p
  {
    hide Inf, BlocksFrom;
    var size := Inf(d, p + 1);
    RunFails(c, d, p, algo, capacity);
    if p < |d| && size.Done? {
      BlocksFail(c, d, size.next + size.value, algo, capacity);
    }
  }

  lemma RunFails(c: Codec, d: seq<byte>, p: nat, algo: byte, capacity: nat)
    ensures var size, end := Inf(d, p + 1), BlocksFrom(c, d, p, algo, capacity).trace.end;
            || end in {Ok(()), Err(Io), Err(Corrupt)}
            || (p < |d| && size.Done? && end == BlocksFrom(c, d, size.next + size.value, algo, capacity).trace.end)
  {
    var size := Inf(d, p + 1);
    InfParts(d, p + 1);
    hide Inf, BlockTrace;
    if p < |d| && size.Done? && size.next + size.value <= |d| {
      BlockFails(c, algo, d[size.next..size.next + size.value], capacity);
    }
  }

  /** How the head of a block can be wrong, and with what error: `p` is where the block begins. */
  lemma {:induction false} BlockHeadErrors(c: Codec, d: seq<byte>, p: nat, algo: byte, capacity: nat)
    requires p <= |d|
    ensures var t, size := BlocksFrom(c, d, p, algo, capacity).trace, Inf(d, p + 1);
            && (p == |d| ==> t == Trace([], Err(Corrupt)))
            && (p < |d| && size.Fail? ==> t == Trace([], Err(size.error)))
            && (p < |d| && size.Done? && d[p] == 2 && size.value != 0 ==> t == Trace([], Err(Corrupt)))
            && (p < |d| && size.Done? && d[p] == 1 && (size.value == 0 || size.value > |d| - size.next)
                ==> t == Trace([], Err(Corrupt)))
            && (p < |d| && size.Done? && d[p] != 1 && d[p] != 2 ==> t == Trace([], Err(Corrupt)))
  {
    hide Inf, BlockTrace;
  }
}
