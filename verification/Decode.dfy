/** Decoding: the capped sink, the block framing loop and its choice of codec. */
module Decode {
  import opened Bytes
  import opened Wire
  import opened Stream

  const H_DATA: byte := 1
  const H_EOF: byte := 2
  const MAX_BLOCK_SIZE := 0x1000_0000
  const DEFAULT_BLOCK := 0x4_0000

  function Lower(b: byte): byte { if 0x41 <= b <= 0x5A then b + 0x20 else b }

  /** lz4 and the lzo variants: 'q', 'l', 'j', 'k'. */
  predicate IsRawBlock(algo: byte) {
    Lower(algo) == 0x71 || Lower(algo) == 0x6C || Lower(algo) == 0x6A || Lower(algo) == 0x6B
  }

  /** zlib, bzip2, xz, zstd: 'z', 'y', 'x', 'd'. */
  predicate IsStreamed(algo: byte) {
    Lower(algo) == 0x7A || Lower(algo) == 0x79 || Lower(algo) == 0x78 || Lower(algo) == 0x64
  }

  predicate IsCompressed(algo: byte) { IsRawBlock(algo) || IsStreamed(algo) }

  // ---- Decoders as the writes they attempt ----

  /** The chunks a decoder hands to its sink, and how it ends after them. */
  datatype Trace = Trace(chunks: seq<seq<byte>>, end: Result<()>) {
    const ok: bool := end.Ok?

    /** This decoder, then the other if this one ends well. */
    function Then(next: Trace): Trace {
      if ok then Trace(chunks + next.chunks, next.end) else this
    }
  }

  const CORRUPT := Trace([], Err(Corrupt))
  const FINISHED := Trace([], Ok(()))

  /** What a codec library makes of a whole stream: the chunks it writes, and whether it is content. */
  datatype Output = Output(chunks: seq<seq<byte>>, ok: bool)

  /** The codec libraries: what each makes of its input; a raw block also has room for `capacity` bytes. */
  datatype Codec = Codec(stream: (byte, seq<byte>) -> Output, raw: (byte, seq<byte>, nat) -> Option<seq<byte>>)

  /** Whatever goes wrong inside a stream codec is reported as corruption. */
  function Told(o: Output): Trace { Trace(o.chunks, if o.ok then Ok(()) else Err(Corrupt)) }

  function StreamTrace(c: Codec, algo: byte, input: seq<byte>): Trace {
    if IsStreamed(algo) then Told(c.stream(algo, input)) else CORRUPT
  }

  /** The error when the sink refuses a chunk: a raw block's own write fails, a stream codec reports corruption. */
  function Refusal(algo: byte): Error { if IsRawBlock(algo) then Io else Corrupt }

  function Capacity(algo: byte, blockSize: nat): nat {
    if !IsRawBlock(algo) then 0
    else if blockSize == 0 then DEFAULT_BLOCK
    else if blockSize < MAX_BLOCK_SIZE then blockSize else MAX_BLOCK_SIZE
  }

  function BlockTrace(c: Codec, algo: byte, block: seq<byte>, capacity: nat): Trace {
    if IsRawBlock(algo) then
      match c.raw(algo, block, capacity)
      case None => CORRUPT
      case Some(plain) => if |plain| <= capacity then Trace([plain], Ok(())) else CORRUPT
    else StreamTrace(c, algo, block)
  }

  /** A run of the framing loop: its writes, and where in the input it ended. */
  datatype BlockRun = BlockRun(trace: Trace, next: nat)

  function BlocksFrom(c: Codec, d: seq<byte>, p: nat, algo: byte, capacity: nat): (r: BlockRun)
    ensures r.trace.ok ==> p < r.next <= |d|
    ensures r.trace.end.Err? ==> r.trace.end.error != NotADar
    decreases |d| - p
  {
    var typ, size := U8(d, p), Inf(d, p + 1);
    if typ.Fail? then BlockRun(CORRUPT, p)
    else if size.Fail? then BlockRun(Trace([], Err(size.error)), p)
    else if typ.value == H_EOF then BlockRun(if size.value != 0 then CORRUPT else FINISHED, size.next)
    else if typ.value != H_DATA || size.value == 0 || size.next + size.value > |d| then BlockRun(CORRUPT, p)
    else
      var e := size.next + size.value;
      var rest := BlocksFrom(c, d, e, algo, capacity);
      BlockRun(BlockTrace(c, algo, d[size.next..e], capacity).Then(rest.trace), rest.next)
  }

  function DataTrace(c: Codec, data: seq<byte>, algo: byte, blockSize: nat): Trace {
    if blockSize > 0 || IsRawBlock(algo) then BlocksFrom(c, data, 0, algo, Capacity(algo, blockSize)).trace
    else StreamTrace(c, algo, data)
  }

  // ---- The capped sink ----

  datatype Delivery = Delivery(sent: seq<byte>, ok: bool)

  /** Chunks are accepted whole while the 64-bit count stays within `max`; the first refused one ends it. */
  function Deliver(max: u64, sent: seq<byte>, chunks: seq<seq<byte>>): Delivery
    decreases |chunks|
  {
    if chunks == [] then Delivery(sent, true)
    else if (|sent| % TWO_64 + |chunks[0]|) % TWO_64 > max then Delivery(sent, false)
    else Deliver(max, sent + chunks[0], chunks[1..])
  }

  datatype Poured = Poured(sent: seq<byte>, end: Result<()>) {
    const ok: bool := end.Ok?
  }

  /** A decoder poured into the sink: its chunks, until one is refused, then its own verdict. */
  function Pour(max: u64, sent: seq<byte>, t: Trace, refusal: Error): Poured {
    var d := Deliver(max, sent, t.chunks);
    Poured(d.sent, if d.ok then t.end else Err(refusal))
  }

  function Flat(chunks: seq<seq<byte>>): seq<byte> {
    if chunks == [] then [] else chunks[0] + Flat(chunks[1..])
  }

  lemma {:induction false} DeliverConcat(max: u64, sent: seq<byte>, a: seq<seq<byte>>, b: seq<seq<byte>>)
    ensures var first := Deliver(max, sent, a);
            Deliver(max, sent, a + b) == if first.ok then Deliver(max, first.sent, b) else first
    decreases |a|
  {
    if a == [] {
      assert a + b == b;
    } else {
      assert (a + b)[1..] == a[1..] + b;
      if (|sent| % TWO_64 + |a[0]|) % TWO_64 <= max {
        DeliverConcat(max, sent + a[0], a[1..], b);
      }
    }
  }

  lemma {:induction false} PourThen(max: u64, sent: seq<byte>, a: Trace, b: Trace, refusal: Error)
    ensures var first := Pour(max, sent, a, refusal);
            Pour(max, sent, a.Then(b), refusal) == if first.ok then Pour(max, first.sent, b, refusal) else first
  {
    DeliverConcat(max, sent, a.chunks, b.chunks);
  }

  /** No chunk is longer than `most`. */
  ghost predicate Within(chunks: seq<seq<byte>>, most: nat) {
    forall chunk :: chunk in chunks ==> |chunk| <= most
  }

  /**
   * Nothing past the bound is ever delivered, and everything is exactly when it fits, as long as bound and
   * one chunk together stay within 64 bits.
   */
  lemma {:induction false} DeliverBounded(max: u64, most: nat, sent: seq<byte>, chunks: seq<seq<byte>>)
    requires |sent| <= max && max + most < TWO_64 && Within(chunks, most)
    ensures var r := Deliver(max, sent, chunks);
            && sent <= r.sent && |r.sent| <= max
            && (r.ok <==> |sent| + |Flat(chunks)| <= max) && (r.ok ==> r.sent == sent + Flat(chunks))
    decreases |chunks|
  {
    if chunks == [] {
      assert sent + Flat(chunks) == sent;
    } else {
      var next := sent + chunks[0];
      assert chunks[0] in chunks && |next| < TWO_64;
      assert |sent| % TWO_64 == |sent| && |next| % TWO_64 == |next|;
      assert next + Flat(chunks[1..]) == sent + Flat(chunks);
      if |next| <= max {
        DeliverBounded(max, most, next, chunks[1..]);
      }
    }
  }

  function Zeros(n: nat): (s: seq<byte>)
    ensures |s| == n
  {
    seq(n, i => 0)
  }

  /** `n` chunks of one byte. */
  function Crumbs(n: nat): seq<seq<byte>> { if n == 0 then [] else [[0]] + Crumbs(n - 1) }

  lemma {:induction false} CrumbsPass(max: u64, sent: seq<byte>, n: nat)
    requires |sent| + n <= max
    ensures var r := Deliver(max, sent, Crumbs(n)); r.ok && |r.sent| == |sent| + n
    ensures Within(Crumbs(n), 1)
    decreases n
  {
    if n > 0 {
      CrumbsPass(max, sent + [0], n - 1);
      assert Crumbs(n)[1..] == Crumbs(n - 1);
    }
  }

  /** A chunk that wraps the count to 0 passes. */
  lemma WrapPasses(max: u64, sent: seq<byte>)
    requires |sent| == max
    ensures Deliver(max, sent, [Zeros(TWO_64 - max)]) == Delivery(sent + Zeros(TWO_64 - max), true)
  {
    assert [Zeros(TWO_64 - max)][1..] == [];
  }

  /**
   * The bound holds for all chunks of up to `most` bytes if and only if bound and `most` together stay within
   * 64 bits; else the 64-bit count wraps around, and a chunk past the bound passes.
   */
  lemma {:induction false} BoundHoldsIff(max: u64, most: nat)
    ensures (forall chunks :: Within(chunks, most) ==> |Deliver(max, [], chunks).sent| <= max) <==> max + most < TWO_64
  {
    hide Deliver, Zeros, Crumbs;
    if max + most < TWO_64 {
      forall chunks | Within(chunks, most)
        ensures |Deliver(max, [], chunks).sent| <= max
      {
        DeliverBounded(max, most, [], chunks);
      }
    } else {
      var chunks := Crumbs(max) + [Zeros(TWO_64 - max)];
      CrumbsPass(max, [], max);
      DeliverConcat(max, [], Crumbs(max), [Zeros(TWO_64 - max)]);
      WrapPasses(max, Deliver(max, [], Crumbs(max)).sent);
      assert Within(chunks, most) && |Deliver(max, [], chunks).sent| == TWO_64;
    }
  }

  /** The largest bound, and five bytes past it. */
  lemma WrapExample(a: seq<byte>, b: seq<byte>)
    requires |a| == TWO_64 - 1 && |b| == 5
    ensures Deliver(TWO_64 - 1, [], [a, b]) == Delivery(a + b, true)
  {
    assert [a, b][1..] == [b] && [b][1..] == [] && [] + a == a;
    assert (|a| % TWO_64 + |b|) % TWO_64 == 4;
    assert Deliver(TWO_64 - 1, a, [b]) == Delivery(a + b, true);
  }

  /** No single write of the codecs is longer than `most`. */
  ghost predicate WritesUpTo(c: Codec, most: nat) {
    && (forall algo: byte, input: seq<byte> :: Within(c.stream(algo, input).chunks, most))
    && (forall algo: byte, block: seq<byte>, capacity: nat ::
          c.raw(algo, block, capacity).Some? ==> |c.raw(algo, block, capacity).value| <= most)
  }

  lemma {:induction false} BlocksWithin(c: Codec, d: seq<byte>, p: nat, algo: byte, capacity: nat, most: nat)
    requires WritesUpTo(c, most)
    ensures Within(BlocksFrom(c, d, p, algo, capacity).trace.chunks, most)
    decreases |d| - p
  {
    hide Inf, BlockTrace, Within, WritesUpTo;
    var size := Inf(d, p + 1);
    NothingWithin(most);
    if p < |d| && size.Done? && size.next + size.value <= |d| {
      var e := size.next + size.value;
      var block, rest := BlockTrace(c, algo, d[size.next..e], capacity), BlocksFrom(c, d, e, algo, capacity).trace;
      BlockWithin(c, algo, d[size.next..e], capacity, most);
      BlocksWithin(c, d, e, algo, capacity, most);
      BothWithin(block.chunks, rest.chunks, most);
    }
  }

  lemma NothingWithin(most: nat)
    ensures Within([], most)
  {
  }

  lemma BothWithin(a: seq<seq<byte>>, b: seq<seq<byte>>, most: nat)
    requires Within(a, most) && Within(b, most)
    ensures Within(a + b, most)
  {
  }

  lemma BlockWithin(c: Codec, algo: byte, block: seq<byte>, capacity: nat, most: nat)
    requires WritesUpTo(c, most)
    ensures Within(BlockTrace(c, algo, block, capacity).chunks, most)
  {
  }

  lemma TracesWithin(c: Codec, data: seq<byte>, algo: byte, blockSize: nat, most: nat)
    requires WritesUpTo(c, most)
    ensures Within(DataTrace(c, data, algo, blockSize).chunks, most) && Within(StreamTrace(c, algo, data).chunks, most)
  {
    BlocksWithin(c, data, 0, algo, Capacity(algo, blockSize), most);
  }

  /**
   * Whatever the chunks: as far as 64 bits can count what is delivered, nothing past the bound is, and a
   * clean end delivers everything.
   */
  lemma {:induction false} DeliverCounted(max: u64, sent: seq<byte>, chunks: seq<seq<byte>>)
    requires |sent| <= max
    ensures var r := Deliver(max, sent, chunks);
            && sent <= r.sent && (|r.sent| < TWO_64 ==> |r.sent| <= max)
            && (r.ok ==> r.sent == sent + Flat(chunks))
            && (|sent| + |Flat(chunks)| < TWO_64 ==> (r.ok <==> |sent| + |Flat(chunks)| <= max))
    decreases |chunks|
  {
    if chunks == [] {
      assert sent + Flat(chunks) == sent;
    } else {
      var next := sent + chunks[0];
      assert |sent| % TWO_64 == |sent|;
      assert next + Flat(chunks[1..]) == sent + Flat(chunks);
      if (|sent| + |chunks[0]|) % TWO_64 <= max {
        if |next| <= max {
          DeliverCounted(max, next, chunks[1..]);
        } else {
          DeliverGrows(max, next, chunks[1..]);
        }
      }
    }
  }

  lemma {:induction false} DeliverGrows(max: u64, sent: seq<byte>, chunks: seq<seq<byte>>)
    ensures var r := Deliver(max, sent, chunks);
            sent <= r.sent && (r.ok ==> r.sent == sent + Flat(chunks))
    decreases |chunks|
  {
    if chunks == [] {
      assert sent + Flat(chunks) == sent;
    } else {
      assert sent + chunks[0] + Flat(chunks[1..]) == sent + Flat(chunks);
      if (|sent| % TWO_64 + |chunks[0]|) % TWO_64 <= max {
        DeliverGrows(max, sent + chunks[0], chunks[1..]);
      }
    }
  }

  /** The caller's writer: an infallible buffer. */
  class Sink {
    var bytes: seq<byte>

    constructor ()
      ensures bytes == []
    {
      bytes := [];
    }
  }

  class CapWriter {
    const inner: Sink
    const max: u64
    var written: u64
    ghost const base: seq<byte>
    ghost var sent: seq<byte>

    ghost predicate Valid()
      reads this, inner
    {
      written == |sent| % TWO_64 && inner.bytes == base + sent
    }

    constructor (inner: Sink, max: u64)
      ensures Valid() && this.inner == inner && this.max == max && sent == [] && base == inner.bytes
    {
      this.inner := inner;
      this.max := max;
      written := 0;
      base := inner.bytes;
      sent := [];
    }

    method Write(data: seq<byte>) returns (ok: bool)
      requires Valid()
      modifies this, inner
      ensures Valid() && Delivery(sent, ok) == Deliver(max, old(sent), [data])
    {
      if (written + |data|) % TWO_64 > max {
        return false;
      }
      inner.bytes := inner.bytes + data;
      written := (written + |data|) % TWO_64;
      sent := sent + data;
      assert base + (old(sent) + data) == base + old(sent) + data;
      assert Deliver(max, sent, [data][1..]) == Delivery(sent, true);
      ok := true;
    }

    /** Copies out of a decoder: its chunks, until one is refused, then its own verdict. */
    method Consume(t: Trace, refusal: Error) returns (end: Result<()>)
      requires Valid()
      modifies this, inner
      ensures Valid() && Poured(sent, end) == Pour(max, old(sent), t, refusal)
    {
      for i := 0 to |t.chunks|
        invariant Valid()
        invariant Deliver(max, sent, t.chunks[i..]) == Deliver(max, old(sent), t.chunks)
      {
        assert t.chunks[i..][0] == t.chunks[i] && t.chunks[i..][1..] == t.chunks[i + 1..];
        var accepted := Write(t.chunks[i]);
        if !accepted {
          return Err(refusal);
        }
      }
      end := t.end;
    }
  }

  // ---- The program's decoders ----

  method DecodeStream(c: Codec, algo: byte, input: seq<byte>, out: CapWriter) returns (end: Result<()>)
    requires out.Valid()
    modifies out, out.inner
    ensures out.Valid()
    ensures Poured(out.sent, end) == Pour(out.max, old(out.sent), StreamTrace(c, algo, input), Corrupt)
  {
    if !IsStreamed(algo) {
      return Err(Corrupt);
    }
    end := out.Consume(Told(c.stream(algo, input)), Corrupt);
  }

  /** The library fills the front of `buf`; only that part is written on, whatever stood behind it. */
  method DecodeRawBlock(c: Codec, algo: byte, block: seq<byte>, buf: array<byte>, out: CapWriter)
    returns (end: Result<()>)
    requires out.Valid() && IsRawBlock(algo)
    modifies buf, out, out.inner
    ensures out.Valid()
    ensures Poured(out.sent, end)
            == Pour(out.max, old(out.sent), BlockTrace(c, algo, block, buf.Length), Refusal(algo))
  {
    var plain := c.raw(algo, block, buf.Length);
    if plain.None? || |plain.value| > buf.Length {
      return Err(Corrupt);
    }
    var n := |plain.value|;
    forall k | 0 <= k < n {
      buf[k] := plain.value[k];
    }
    assert buf[..n] == plain.value;
    var accepted := out.Write(buf[..n]);
    end := if accepted then Ok(()) else Err(Io);
  }

  method DecodeBlocks(c: Codec, data: seq<byte>, algo: byte, blockSize: nat, out: CapWriter)
    returns (end: Result<()>)
    requires out.Valid()
    modifies out, out.inner
    ensures out.Valid()
    ensures Poured(out.sent, end)
            == Pour(out.max, old(out.sent),
                    BlocksFrom(c, data, 0, algo, Capacity(algo, blockSize)).trace, Refusal(algo))
  {
    hide U8, Inf, Deliver, Capacity, BlockTrace, StreamTrace, Refusal;
    var buf := new byte[Capacity(algo, blockSize)](_ => 0);
    var input := Buffered(data);
    ghost var whole := BlocksFrom(c, data, 0, algo, buf.Length).trace;
    while true
      invariant out.Valid() && input.Pos() <= |data|
      invariant Pour(out.max, out.sent, BlocksFrom(c, data, input.Pos(), algo, buf.Length).trace, Refusal(algo))
                == Pour(out.max, old(out.sent), whole, Refusal(algo))
      decreases |data| - input.Pos()
    {
      PourEmpty(out.max, out.sent, Refusal(algo));
      var more :- NextBlock(input, |data|, c, algo, buf.Length);
      if more.None? {
        return Ok(());
      }
      var block := more.value;
      PourThen(out.max, out.sent, BlockTrace(c, algo, block, buf.Length),
               BlocksFrom(c, data, input.Pos(), algo, buf.Length).trace, Refusal(algo));
      if IsRawBlock(algo) {
        var _ :- DecodeRawBlock(c, algo, block, buf, out);
      } else {
        StreamedBlock(c, algo, block, buf.Length);
        var _ :- DecodeStream(c, algo, block, out);
      }
    }
  }

  lemma PourEmpty(max: u64, sent: seq<byte>, refusal: Error)
    ensures forall end :: Pour(max, sent, Trace([], end), refusal) == Poured(sent, end)
  {
  }

  lemma StreamedBlock(c: Codec, algo: byte, block: seq<byte>, capacity: nat)
    requires !IsRawBlock(algo)
    ensures BlockTrace(c, algo, block, capacity) == StreamTrace(c, algo, block) && Refusal(algo) == Corrupt
  {
  }

  /** The head of one turn of the loop: the next block's bytes, or none at the end marker. */
  method NextBlock(input: Source, len: nat, ghost c: Codec, ghost algo: byte, ghost capacity: nat)
    returns (more: Result<Option<seq<byte>>>)
    requires input.Pos() <= |input.Data()| == len
    modifies input.Repr()
    ensures var run := BlocksFrom(c, input.Data(), old(input.Pos()), algo, capacity).trace;
            match more
            case Err(e) => run == Trace([], Err(e))
            case Ok(None) => run == FINISHED
            case Ok(Some(block)) =>
              && old(input.Pos()) < input.Pos() <= len
              && run == BlockTrace(c, algo, block, capacity).Then(
                          BlocksFrom(c, input.Data(), input.Pos(), algo, capacity).trace)
  {
    hide BlockTrace, Inf;
    var typ := input.ReadU8();
    if typ.Err? {
      return Err(Corrupt);
    }
    var size :- input.ReadInfinint();
    if typ.value == H_EOF {
      return if size == 0 then Ok(None) else Err(Corrupt);
    }
    if typ.value != H_DATA || size == 0 || size > len - input.Pos() {
      return Err(Corrupt);
    }
    var block := input.Take(size);
    more := Ok(Some(block));
  }

  method DecodeData(c: Codec, data: seq<byte>, algo: byte, blockSize: nat, out: CapWriter) returns (end: Result<()>)
    requires out.Valid()
    modifies out, out.inner
    ensures out.Valid()
    ensures Poured(out.sent, end) == Pour(out.max, old(out.sent), DataTrace(c, data, algo, blockSize), Refusal(algo))
  {
    if blockSize > 0 || IsRawBlock(algo) {
      end := DecodeBlocks(c, data, algo, blockSize, out);
    } else {
      end := DecodeStream(c, algo, data, out);
    }
  }
}
