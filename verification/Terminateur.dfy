/** The trailer that addresses the catalogue of an archive without tape marks. */
module Terminateur {
  import opened Bytes
  import opened Wire
  import opened Stream

  const BLOCK_SIZE := 4
  const MAX_BITS := 4096
  const PADDING: byte := 0xFF

  datatype Back = Back(pos: nat, bits: nat)

  /** From `pos` towards the start over padding bytes, eight bits for each. */
  function BackFrom(d: seq<byte>, pos: nat, bits: nat): (r: Result<Back>)
    requires pos <= |d|
    ensures r.Ok? ==> r.value.pos < pos
    ensures r.Err? ==> r.error == Corrupt
    decreases pos
  {
    if pos == 0 then Err(Corrupt)
    else if d[pos - 1] != PADDING then Ok(Back(pos - 1, bits))
    else if bits + 8 > MAX_BITS then Err(Corrupt)
    else BackFrom(d, pos - 1, bits + 8)
  }

  /** The number of set bits of `x`, if they are all leading ones. */
  function RunLength(x: byte): Option<nat> {
    if x == 0 then Some(0)
    else if x < 0x80 then None
    else match RunLength(x * 2 - 0x100) case Some(n) => Some(n + 1) case None => None
  }

  function TrailerOffset(d: seq<byte>): Result<u64> {
    var back :- BackFrom(d, |d|, 0);
    match RunLength(d[back.pos])
    case None => Err(Corrupt)
    case Some(n) =>
      if d[back.pos] < 0x80 || (back.bits + n) * BLOCK_SIZE > back.pos then Err(Corrupt)
      else Inf(d, back.pos - (back.bits + n) * BLOCK_SIZE).ToResult()
  }

  /** The backward scan over the padding; eight bits a byte. */
  method ScanPadding(r: Source) returns (back: Result<Back>, terminal: byte)
    modifies r.Repr()
    ensures back == BackFrom(r.Data(), |r.Data()|, 0)
    ensures back.Ok? ==> r.Data()[back.value.pos] == terminal
  {
    var pos: nat := r.SeekEnd();
    var bits: nat := 0;
    while true
      invariant pos <= |r.Data()| && bits <= MAX_BITS
      invariant BackFrom(r.Data(), pos, bits) == BackFrom(r.Data(), |r.Data()|, 0)
      decreases pos
    {
      if pos == 0 {
        return Err(Corrupt), 0;
      }
      pos := pos - 1;
      r.SeekTo(pos);
      var b := r.ReadU8();
      if b.value != PADDING {
        return Ok(Back(pos, bits)), b.value;
      }
      bits := bits + 8;
      if bits > MAX_BITS {
        return Err(Corrupt), 0;
      }
    }
  }

  /** Counts the leading ones of `terminal`, which must be all its ones. */
  method CountRun(terminal: byte) returns (n: Option<nat>)
    ensures n == RunLength(terminal)
  {
    var x: int, bits: nat := terminal, 0;
    while x != 0
      invariant 0 <= x < 0x100
      invariant match RunLength(x)
                case None => RunLength(terminal).None?
                case Some(left) => RunLength(terminal) == Some(bits + left)
      decreases x
    {
      if x < 0x80 {
        return None;
      }
      bits := bits + 1;
      x := x * 2 % 0x100;
    }
    n := Some(bits);
  }

  method ReadTerminateur(r: Source) returns (offset: Result<u64>)
    modifies r.Repr()
    ensures offset == TrailerOffset(r.Data())
  {
    hide BackFrom, RunLength, Inf;
    var back, terminal :- ScanPadding(r);
    var run := CountRun(terminal);
    if terminal < 0x80 || run.None? {
      return Err(Corrupt);
    }
    var distance := (back.bits + run.value) * BLOCK_SIZE;
    if distance > back.pos {
      return Err(Corrupt);
    }
    r.SeekTo(back.pos - distance);
    offset := r.ReadInfinint();
  }

  // ---- Its inverse ----

  /** The byte whose top `j` bits are set. */
  function HighBits(j: nat): byte
    requires j <= 8
  {
    if j == 0 then 0 else 0x80 + HighBits(j - 1) / 2
  }

  function Repeat(b: byte, n: nat): (s: seq<byte>)
    ensures |s| == n && forall k :: 0 <= k < n ==> s[k] == b
  {
    if n == 0 then [] else Repeat(b, n - 1) + [b]
  }

  /** `d` ends in a terminal byte of `j` bits and `k` padding bytes, four times their bits after `offset`. */
  ghost predicate Trailer(d: seq<byte>, k: nat, j: nat, offset: Infinint) {
    var n := 8 * k + j;
    && 8 * k <= 4096 && 1 <= j <= 7 && offset.Valid()
    && n * 4 + 1 + k <= |d|
    && var t := |d| - 1 - k;
       d[t] == HighBits(j) && (forall i :: t < i < |d| ==> d[i] == 0xFF)
       && At(d, t - n * 4, EncodeInfinint(offset))
  }

  lemma {:induction false} RunLengthExact(x: byte)
    ensures match RunLength(x)
            case Some(j) => j <= 8 && x == HighBits(j)
            case None => forall j :: 0 <= j <= 8 ==> x != HighBits(j)
    decreases x
  {
    HighBitsTable();
    if x >= 0x80 {
      RunLengthExact(x * 2 - 0x100);
    }
  }

  lemma HighBitsTable()
    ensures HighBits(0) == 0 && HighBits(1) == 0x80 && HighBits(2) == 0xC0 && HighBits(3) == 0xE0 && HighBits(4) == 0xF0
    ensures HighBits(5) == 0xF8 && HighBits(6) == 0xFC && HighBits(7) == 0xFE && HighBits(8) == 0xFF
  {
    assert HighBits(2) == 0xC0;
    assert HighBits(4) == 0xF0;
    assert HighBits(6) == 0xFC;
  }

  lemma {:induction false} BackOver(d: seq<byte>, pos: nat, bits: nat, k: nat)
    requires k < pos <= |d| && bits + 8 * k <= MAX_BITS
    requires forall i :: pos - k <= i < pos ==> d[i] == PADDING
    requires d[pos - k - 1] != PADDING
    ensures BackFrom(d, pos, bits) == Ok(Back(pos - k - 1, bits + 8 * k))
    decreases k
  {
    if k > 0 {
      BackOver(d, pos - 1, bits + 8, k - 1);
    }
  }

  lemma {:induction false} BackSound(d: seq<byte>, pos: nat, bits: nat) returns (k: nat)
    requires pos <= |d| && bits <= MAX_BITS && BackFrom(d, pos, bits).Ok?
    ensures k < pos && bits + 8 * k <= MAX_BITS && BackFrom(d, pos, bits) == Ok(Back(pos - k - 1, bits + 8 * k))
    ensures forall i :: pos - k <= i < pos ==> d[i] == PADDING
    ensures d[pos - k - 1] != PADDING
    decreases pos
  {
    if d[pos - 1] != PADDING {
      k := 0;
    } else {
      k := BackSound(d, pos - 1, bits + 8);
      k := k + 1;
    }
  }

  lemma {:induction false} TrailerReads(d: seq<byte>, k: nat, j: nat, offset: Infinint)
    requires Trailer(d, k, j, offset)
    ensures TrailerOffset(d) == Ok(offset.v)
  {
    hide At, Inf, EncodeInfinint, HighBits;
    HighBitsTable();
    BackOver(d, |d|, 0, k);
    RunLengthExact(HighBits(j));
    InfReads(d, |d| - 1 - k - (8 * k + j) * BLOCK_SIZE, offset);
  }

  lemma {:induction false} TrailerSound(d: seq<byte>) returns (k: nat, j: nat, offset: Infinint)
    requires TrailerOffset(d).Ok?
    ensures Trailer(d, k, j, offset) && TrailerOffset(d) == Ok(offset.v)
  {
    hide At, Inf, EncodeInfinint, HighBits;
    HighBitsTable();
    k := BackSound(d, |d|, 0);
    var t := |d| - 1 - k;
    RunLengthExact(d[t]);
    j := RunLength(d[t]).value;
    offset := InfSound(d, t - (8 * k + j) * BLOCK_SIZE);
  }

  /** The offsets recovered are exactly those some trailer of the format ends the input with. */
  lemma {:induction false} TrailerExact(d: seq<byte>, v: u64)
    ensures TrailerOffset(d) == Ok(v) <==> exists k: nat, j: nat, offset :: Trailer(d, k, j, offset) && offset.v == v
  {
    hide TrailerOffset, Trailer;
    if TrailerOffset(d) == Ok(v) {
      var k, j, offset := TrailerSound(d);
    }
    forall k: nat, j: nat, offset | Trailer(d, k, j, offset)
      ensures TrailerOffset(d) == Ok(offset.v)
    {
      TrailerReads(d, k, j, offset);
    }
  }

  /** What a writer puts at the end: the offset, padding to whole blocks, and the block count in unary. */
  function EncodeTrailer(offset: Infinint, padding: seq<byte>, n: nat): seq<byte>
    requires n % 8 != 0
  {
    EncodeInfinint(offset) + padding + [HighBits(n % 8)] + Repeat(0xFF, n / 8)
  }

  lemma {:induction false} TrailerRoundTrip(before: seq<byte>, offset: Infinint, padding: seq<byte>, n: nat)
    requires offset.Valid() && n % 8 != 0 && n / 8 <= 512
    requires |EncodeInfinint(offset) + padding| == n * BLOCK_SIZE
    ensures TrailerOffset(before + EncodeTrailer(offset, padding, n)) == Ok(offset.v)
  {
    hide TrailerOffset, EncodeInfinint, HighBits;
    var d := before + EncodeTrailer(offset, padding, n);
    var k, t := n / 8, |before| + n * BLOCK_SIZE;
    assert d[t..] == [HighBits(n % 8)] + Repeat(0xFF, k);
    assert d[|before|..|before| + |EncodeInfinint(offset)|] == EncodeInfinint(offset);
    assert forall i :: t < i < |d| ==> d[i] == d[t..][i - t];
    assert d[t] == d[t..][0];
    assert Trailer(d, k, n % 8, offset);
    TrailerReads(d, k, n % 8, offset);
  }
}
