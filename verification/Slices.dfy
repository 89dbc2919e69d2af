/** Slice files laid end to end, and the reader that shows them as one archive. */
module Slices {
  import opened Bytes

  /** A file or buffer open for reading: bytes that do not change, and a cursor. */
  class Handle {
    const data: seq<byte>
    var pos: nat

    constructor (data: seq<byte>)
      ensures this.data == data && pos == 0
    {
      this.data := data;
      pos := 0;
    }

    /** One `read` into `buf[lo..hi]`: some of the bytes that remain, none only at the end. */
    method Read(buf: array<byte>, lo: nat, hi: nat) returns (n: nat)
      requires lo <= hi <= buf.Length
      modifies this, buf
      ensures n <= hi - lo && pos == old(pos) + n
      ensures n == 0 <==> lo == hi || old(pos) >= |data|
      ensures n > 0 ==> pos <= |data| && buf[lo..lo + n] == data[old(pos)..pos]
      ensures forall k :: 0 <= k < buf.Length && !(lo <= k < lo + n) ==> buf[k] == old(buf[k])
    {
      if lo == hi || pos >= |data| {
        return 0;
      }
      n :| 1 <= n <= hi - lo && n <= |data| - pos;
      forall k | 0 <= k < n {
        buf[lo + k] := data[pos + k];
      }
      assert buf[lo..lo + n] == data[pos..pos + n];
      pos := pos + n;
    }

    method SeekTo(target: nat)
      modifies this
      ensures pos == target
    {
      pos := target;
    }
  }

  datatype Span = Span(file: Handle, dataStart: nat, logicalStart: nat, logicalLen: nat) {
    ghost predicate Fits() { dataStart + logicalLen <= |file.data| }

    ghost function Piece(): seq<byte>
      requires Fits()
    {
      file.data[dataStart..dataStart + logicalLen]
    }
  }

  /** Spans lie end to end from 0, each within its file. */
  ghost predicate Laid(spans: seq<Span>)
    decreases |spans|, 0
  {
    spans == [] ||
    var init, last := spans[..|spans| - 1], spans[|spans| - 1];
    Laid(init) && last.Fits() && last.logicalStart == |Joined(init)|
  }

  ghost function Joined(spans: seq<Span>): seq<byte>
    requires Laid(spans)
    decreases |spans|, 1
  {
    if spans == [] then [] else Joined(spans[..|spans| - 1]) + spans[|spans| - 1].Piece()
  }

  /** What a reader is built over: no more than 64 bits can address. */
  type Spans = spans: seq<Span> | Laid(spans) && |Joined(spans)| < TWO_64

  /** Where the last span ends. */
  function TotalLength(spans: Spans): (total: u64)
    ensures total == |Joined(spans)|
  {
    if spans == [] then 0
    else
      LaidAt(spans, |spans| - 1);
      spans[|spans| - 1].logicalStart + spans[|spans| - 1].logicalLen
  }

  /** The first span, from number `i` on, that ends past `pos`. */
  function SpanAt(spans: seq<Span>, pos: nat, i: nat): (r: Option<nat>)
    requires i <= |spans|
    ensures r.Some? ==> i <= r.value < |spans| && pos < spans[r.value].logicalStart + spans[r.value].logicalLen
    ensures forall j :: i <= j < (if r.Some? then r.value else |spans|)
                        ==> spans[j].logicalStart + spans[j].logicalLen <= pos
    decreases |spans| - i
  {
    if i == |spans| then None
    else if pos < spans[i].logicalStart + spans[i].logicalLen then Some(i)
    else SpanAt(spans, pos, i + 1)
  }

  datatype SeekFrom = FromStart(n: u64) | FromEnd(off: int) | FromCurrent(off: int) {
    predicate Valid() { !FromStart? ==> -TWO_63 <= off < TWO_63 }

    function Target(total: nat, pos: nat): int {
      match this
      case FromStart(n) => n
      case FromEnd(off) => total + off
      case FromCurrent(off) => pos + off
    }
  }

  class SliceReader {
    const spans: Spans
    const total: u64 := TotalLength(spans)
    var pos: u64

    ghost function Archive(): (a: seq<byte>)
      ensures |a| == total
    {
      Joined(spans)
    }

    ghost function Files(): set<Handle> { set s | s in spans :: s.file }

    constructor (spans: Spans)
      ensures this.spans == spans && pos == 0
    {
      this.spans := spans;
      pos := 0;
    }

    /**
     * Fills `buf[lo..hi]` across slice boundaries, whatever the short reads underneath: the contract of
     * `Handle.Read` with the joined archive for its data, and never short of it before the end.
     */
    method Read(buf: array<byte>, lo: nat, hi: nat) returns (written: nat)
      requires lo <= hi <= buf.Length
      modifies this, buf, Files()
      ensures pos == old(pos) + written
      ensures written == if old(pos) >= |Archive()| then 0
                         else if hi - lo <= |Archive()| - old(pos) then hi - lo else |Archive()| - old(pos)
      ensures written == 0 <==> lo == hi || old(pos) >= |Archive()|
      ensures written > 0 ==> pos <= |Archive()| && buf[lo..lo + written] == Archive()[old(pos)..pos]
      ensures forall k :: 0 <= k < buf.Length && !(lo <= k < lo + written) ==> buf[k] == old(buf[k])
    {
      hide Laid, Joined, SpanAt, Taken, TotalLength, Span.Fits, Span.Piece;
      written := 0;
      ghost var from, archive := pos, Archive();
      TakenIs(archive, from, 0);
      while lo + written < hi
        invariant lo + written <= hi && pos == from + written
        invariant buf[lo..lo + written] == Taken(archive, from, written) && (written > 0 ==> pos <= total)
        invariant forall k :: 0 <= k < buf.Length && !(lo <= k < lo + written) ==> buf[k] == old(buf[k])
      {
        var idx := SpanAt(spans, pos, 0);
        if idx.None? {
          PastEnd(spans, pos);
          break;
        }
        var n := ReadPiece(idx.value, buf, lo + written, hi, written);
        if n == 0 {
          assert false;
          break;
        }
        Adjoin(archive, from, written, n);
        pos := pos + n;
        written := written + n;
      }
      TakenIs(archive, from, written);
    }

    /** One seek and one read in the slice that holds `pos`, behind the `done` bytes read already. */
    method ReadPiece(i: nat, buf: array<byte>, lo: nat, hi: nat, ghost done: nat) returns (n: nat)
      requires SpanAt(spans, pos, 0) == Some(i) && done <= lo < hi <= buf.Length
      modifies buf, Files()
      ensures 0 < n <= hi - lo && pos + n <= |Archive()|
      ensures buf[lo - done..lo + n] == old(buf[lo - done..lo]) + Archive()[pos..pos + n]
      ensures forall k :: 0 <= k < buf.Length && !(lo <= k < lo + n) ==> buf[k] == old(buf[k])
    {
      hide Laid, Joined, SpanAt;
      var span := spans[i];
      SpanHolds(spans, pos, i);
      var within := pos - span.logicalStart;
      var want := if hi - lo < span.logicalLen - within then hi - lo else span.logicalLen - within;
      assert span in spans;
      span.file.SeekTo(span.dataStart + within);
      ghost var before := buf[lo - done..lo];
      n := span.file.Read(buf, lo, lo + want);
      PieceWithin(spans, i, within, n);
      assert buf[lo - done..lo] == before;
      Adjacent(buf, lo - done, done, n);
    }

    method Seek(from: SeekFrom) returns (r: Result<u64>)
      requires from.Valid()
      modifies this
      ensures r == FlatSeek(|Archive()|, old(pos), from)
      ensures var target := match from
                            case FromStart(n) => n as int
                            case FromEnd(off) => |Archive()| + off
                            case FromCurrent(off) => old(pos) + off;
              if target < 0 then r == Err(Io) && pos == old(pos)
              else r == Ok(pos) && pos == target % 0x1_0000_0000_0000_0000
    {
      var target := from.Target(total, pos);
      if target < 0 {
        return Err(Io);
      }
      pos := target % TWO_64;
      r := Ok(pos);
    }
  }

  /** The `n` bytes from `from` on. */
  ghost function Taken(a: seq<byte>, from: nat, n: nat): seq<byte> {
    if 0 < n && from + n <= |a| then a[from..from + n] else []
  }

  lemma TakenIs(a: seq<byte>, from: nat, n: nat)
    ensures n == 0 ==> Taken(a, from, n) == []
    ensures 0 < n && from + n <= |a| ==> Taken(a, from, n) == a[from..from + n]
  {
  }

  lemma Adjacent(buf: array<byte>, lo: nat, m: nat, n: nat)
    requires lo + m + n <= buf.Length
    ensures buf[lo..lo + m + n] == buf[lo..lo + m] + buf[lo + m..lo + m + n]
  {
  }

  lemma Adjoin(a: seq<byte>, from: nat, m: nat, n: nat)
    requires n > 0 && from + m + n <= |a|
    ensures Taken(a, from, m + n) == Taken(a, from, m) + a[from + m..from + m + n]
  {
  }

  function Available(total: nat, pos: nat, want: nat): nat {
    if pos >= total then 0 else if want < total - pos then want else total - pos
  }

  /** The cast back to 64 bits wraps a target past the range. */
  function FlatSeek(total: nat, pos: nat, from: SeekFrom): Result<u64> {
    if from.Target(total, pos) < 0 then Err(Io) else Ok(from.Target(total, pos) % TWO_64)
  }

  lemma {:induction false} LaidAt(spans: seq<Span>, i: nat)
    requires Laid(spans) && i < |spans|
    ensures spans[i].Fits() && spans[i].logicalStart + spans[i].logicalLen <= |Joined(spans)|
    ensures spans[i].Piece() == Joined(spans)[spans[i].logicalStart..spans[i].logicalStart + spans[i].logicalLen]
    ensures i == 0 ==> spans[i].logicalStart == 0
    ensures i > 0 ==> spans[i].logicalStart == spans[i - 1].logicalStart + spans[i - 1].logicalLen
    ensures i == |spans| - 1 ==> spans[i].logicalStart + spans[i].logicalLen == |Joined(spans)|
    decreases |spans|
  {
    var init := spans[..|spans| - 1];
    if i < |init| {
      LaidAt(init, i);
      var a, b := spans[i].logicalStart, spans[i].logicalStart + spans[i].logicalLen;
      assert Joined(spans)[a..b] == Joined(init)[a..b];
    } else {
      if i > 0 {
        LaidAt(init, i - 1);
      }
      var piece := spans[i].Piece();
      assert Joined(spans)[|Joined(init)|..] == piece;
    }
  }

  lemma {:induction false} SpanHolds(spans: seq<Span>, pos: nat, i: nat)
    requires Laid(spans) && SpanAt(spans, pos, 0) == Some(i)
    ensures spans[i].Fits() && spans[i].logicalStart <= pos
  {
    LaidAt(spans, i);
  }

  lemma {:induction false} PastEnd(spans: seq<Span>, pos: nat)
    requires Laid(spans) && SpanAt(spans, pos, 0) == None
    ensures pos >= |Joined(spans)|
  {
    if spans != [] {
      LaidAt(spans, |spans| - 1);
    }
  }

  lemma {:induction false} PieceWithin(spans: seq<Span>, i: nat, within: nat, n: nat)
    requires Laid(spans) && i < |spans| && within + n <= spans[i].logicalLen
    ensures var s := spans[i];
            && s.Fits() && s.logicalStart + within + n <= |Joined(spans)|
            && s.file.data[s.dataStart + within..s.dataStart + within + n]
               == Joined(spans)[s.logicalStart + within..s.logicalStart + within + n]
  {
    LaidAt(spans, i);
    var s := spans[i];
    var a, b := s.file.data[s.dataStart + within..s.dataStart + within + n],
                Joined(spans)[s.logicalStart + within..s.logicalStart + within + n];
    forall k | 0 <= k < n
      ensures a[k] == b[k]
    {
      assert a[k] == s.Piece()[within + k];
    }
  }

  lemma LaidAppend(spans: seq<Span>, span: Span)
    requires Laid(spans) && span.Fits() && span.logicalStart == |Joined(spans)|
    ensures Laid(spans + [span]) && Joined(spans + [span]) == Joined(spans) + span.Piece()
  {
    assert (spans + [span])[..|spans|] == spans;
  }

  lemma NothingLaid()
    ensures Laid([]) && Joined([]) == []
  {
  }

  // ---- Whole runs ----

  datatype Op = ReadOp(len: nat) | SeekOp(from: SeekFrom)
  datatype Seen = Got(bytes: seq<byte>) | Moved(pos: u64) | Refused

  datatype Turn = Turn(seen: Seen, pos: nat)

  function FlatStep(archive: seq<byte>, pos: nat, op: Op): Turn {
    match op
    case ReadOp(len) =>
      var n := Available(|archive|, pos, len);
      Turn(Got(if n == 0 then [] else archive[pos..pos + n]), pos + n)
    case SeekOp(from) =>
      match FlatSeek(|archive|, pos, from)
      case Err(_) => Turn(Refused, pos)
      case Ok(p) => Turn(Moved(p), p)
  }

  /** A plain cursor over one byte string answers the same operations. */
  function FlatRun(archive: seq<byte>, pos: nat, ops: seq<Op>): seq<Seen>
    decreases |ops|
  {
    if ops == [] then []
    else
      var turn := FlatStep(archive, pos, ops[0]);
      [turn.seen] + FlatRun(archive, turn.pos, ops[1..])
  }

  method Apply(s: SliceReader, op: Op) returns (what: Seen)
    requires op.SeekOp? ==> op.from.Valid()
    modifies s, s.Files()
    ensures FlatStep(s.Archive(), old(s.pos), op) == Turn(what, s.pos)
  {
    match op {
      case ReadOp(len) =>
        var buf := new byte[len](_ => 0);
        var n := s.Read(buf, 0, len);
        what := Got(buf[..n]);
      case SeekOp(from) =>
        var r := s.Seek(from);
        what := if r.Ok? then Moved(r.value) else Refused;
    }
  }

  /** Any interleaving of reads and seeks shows what a flat cursor would show. */
  method Run(s: SliceReader, ops: seq<Op>) returns (seen: seq<Seen>)
    requires forall op :: op in ops && op.SeekOp? ==> op.from.Valid()
    modifies s, s.Files()
    ensures seen == FlatRun(s.Archive(), old(s.pos), ops)
  {
    hide FlatStep;
    seen := [];
    for i := 0 to |ops|
      invariant seen + FlatRun(s.Archive(), s.pos, ops[i..]) == FlatRun(s.Archive(), old(s.pos), ops)
    {
      ghost var rest := ops[i..];
      assert rest[1..] == ops[i + 1..] && rest[0] == ops[i] && ops[i] in ops;
      var what := Apply(s, ops[i]);
      seen := seen + [what];
    }
    assert ops[|ops|..] == [];
  }
}
