/** The seekable reader: a byte source with a cursor, and the primitive reads that move it. */
module Stream {
  import opened Bytes
  import opened Slices
  import opened Wire

  /** What the archive reader reads from: one file or buffer, or the slices of a volume. */
  datatype Source = Plain(handle: Handle) | Sliced(slices: SliceReader) {
    /** All the bytes, which reading and seeking do not change. */
    ghost function Data(): seq<byte> {
      match this case Plain(f) => f.data case Sliced(s) => s.Archive()
    }

    ghost function Cursor(): object {
      match this case Plain(f) => f case Sliced(s) => s
    }

    ghost function Repr(): (objects: set<object>)
      ensures Cursor() in objects
    {
      match this case Plain(f) => {f} case Sliced(s) => {s} + s.Files()
    }

    function Pos(): nat
      reads Cursor()
    {
      match this case Plain(f) => f.pos case Sliced(s) => s.pos
    }

    /** Short enough that no forward skip from within the archive can wrap the 64-bit cursor of the slices. */
    ghost predicate Fits() { Sliced? ==> |Data()| <= TWO_63 }

    /** One `read` into `buf[lo..hi]`: some of the bytes that remain, none only at the end. */
    method Read(buf: array<byte>, lo: nat, hi: nat) returns (n: nat)
      requires lo <= hi <= buf.Length
      modifies Repr(), buf
      ensures n <= hi - lo && Pos() == old(Pos()) + n
      ensures n == 0 <==> lo == hi || old(Pos()) >= |Data()|
      ensures n > 0 ==> Pos() <= |Data()| && buf[lo..lo + n] == Data()[old(Pos())..Pos()]
      ensures forall k :: 0 <= k < buf.Length && !(lo <= k < lo + n) ==> buf[k] == old(buf[k])
    {
      match this {
        case Plain(f) => n := f.Read(buf, lo, hi);
        case Sliced(s) => n := s.Read(buf, lo, hi);
      }
    }

    /** `read_exact`: reads until `n` bytes are in hand, whatever the short reads. */
    method ReadExact(n: nat) returns (r: Result<seq<byte>>)
      modifies Repr()
      ensures r == Exact(Data(), old(Pos()), n).ToResult() && Pos() == Exact(Data(), old(Pos()), n).next
    {
      hide Source.Data;
      var buf := new byte[n](_ => 0);
      ghost var d, from := Data(), Pos();
      var got := 0;
      while got < n
        invariant got <= n && Pos() == from + got
        invariant got > 0 ==> from + got <= |d| && buf[..got] == d[from..from + got]
      {
        ghost var before := buf[..got];
        var k := Read(buf, got, n);
        assert buf[..got] == before;
        if k == 0 {
          return Err(Io);
        }
        assert buf[..got + k] == buf[..got] + buf[got..got + k];
        assert got > 0 ==> d[from..from + got] + d[from + got..from + got + k] == d[from..from + got + k];
        got := got + k;
      }
      assert buf[..n] == buf[..];
      r := Ok(buf[..]);
    }

    /** A buffer for a length that the input declares: allocated only where that many bytes remain. */
    method Take(n: nat) returns (bytes: seq<byte>)
      requires Pos() + n <= |Data()|
      modifies Repr()
      ensures bytes == Data()[old(Pos())..old(Pos()) + n] && Pos() == old(Pos()) + n
    {
      var r := ReadExact(n);
      bytes := r.value;
    }

    method ReadU8() returns (r: Result<byte>)
      modifies Repr()
      ensures r == U8(Data(), old(Pos())).ToResult() && Pos() == U8(Data(), old(Pos())).next
    {
      var b :- ReadExact(1);
      r := Ok(b[0]);
    }

    method ReadU16() returns (r: Result<nat>)
      modifies Repr()
      ensures r == U16(Data(), old(Pos())).ToResult() && Pos() == U16(Data(), old(Pos())).next
    {
      var b :- ReadExact(2);
      assert b[..1] == [b[0]] && BigEndian(b[..1]) == b[0];
      var high: nat, low: nat := b[0], b[1];
      r := Ok(high * 0x100 + low);
    }

    method ReadInfinint() returns (r: Result<u64>)
      modifies Repr()
      ensures r == Inf(Data(), old(Pos())).ToResult() && Pos() == Inf(Data(), old(Pos())).next
    {
      hide Source.Data, BigEndian, Inf;
      ghost var d, at := Data(), Pos();
      InfParts(d, at);
      var terminal :- ReadU8();
      if terminal != WIDTH_4 && terminal != WIDTH_8 {
        return Err(Corrupt);
      }
      var width := if terminal == WIDTH_4 then 4 else 8;
      var val: u64 := 0;
      ghost var from := at + 1;
      assert d[from..from] == [];
      EmptyNumber();
      for i := 0 to width
        invariant Pos() == from + i <= |d|
        invariant val == BigEndian(d[from..from + i])
      {
        var b :- ReadU8();
        DigitShifts(d, from, i, b);
        val := val * 0x100 + b;
      }
      r := Ok(val);
    }

    method ReadNulBytes() returns (r: Result<seq<byte>>)
      modifies Repr()
      ensures r == NulBytes(Data(), old(Pos())).ToResult() && Pos() == NulBytes(Data(), old(Pos())).next
    {
      var bytes: seq<byte> := [];
      while true
        invariant NulFrom(Data(), Pos(), bytes) == NulBytes(Data(), old(Pos()))
        decreases |Data()| - Pos()
      {
        var b :- ReadU8();
        if b == 0 {
          return Ok(bytes);
        }
        if |bytes| >= MAX_NUL_STRING {
          return Err(Corrupt);
        }
        bytes := bytes + [b];
      }
    }

    method SkipNulString() returns (r: Result<()>)
      modifies Repr()
      ensures r == SkipNul(Data(), old(Pos())).ToResult() && Pos() == SkipNul(Data(), old(Pos())).next
    {
      var len := 0;
      while true
        invariant SkipNulFrom(Data(), Pos(), len) == SkipNul(Data(), old(Pos()))
        decreases |Data()| - Pos()
      {
        var b :- ReadU8();
        if b == 0 {
          return Ok(());
        }
        len := len + 1;
        if len > MAX_NUL_STRING {
          return Err(Corrupt);
        }
      }
    }

    /** A forward seek by `n`. */
    method SkipBytes(n: u64) returns (r: Result<()>)
      requires Sliced? ==> Pos() <= |Data()| <= TWO_63
      modifies Repr()
      ensures r == Skip(old(Pos()), n).ToResult() && Pos() == Skip(old(Pos()), n).next
      ensures if n < 0x8000_0000_0000_0000 then r == Ok(()) && Pos() == old(Pos()) + n
              else r == Err(Corrupt) && Pos() == old(Pos())
    {
      if n > 0 {
        if n >= TWO_63 {
          return Err(Corrupt);
        }
        match this {
          case Plain(f) => f.SeekTo(f.pos + n);
          case Sliced(s) => var _ := s.Seek(FromCurrent(n));
        }
      }
      r := Ok(());
    }

    method SeekTo(target: nat)
      requires Sliced? ==> target < TWO_64
      modifies Repr()
      ensures Pos() == target
    {
      match this {
        case Plain(f) => f.SeekTo(target);
        case Sliced(s) => var _ := s.Seek(FromStart(target));
      }
    }

    method SeekEnd() returns (end: nat)
      modifies Repr()
      ensures Pos() == end == |Data()|
    {
      match this {
        case Plain(f) =>
          end := |f.data|;
          f.SeekTo(end);
        case Sliced(s) =>
          var r := s.Seek(FromEnd(0));
          end := r.value;
      }
    }
  }

  /** A reader over bytes in memory. */
  method Buffered(bytes: seq<byte>) returns (r: Source)
    ensures r.Plain? && fresh(r.Repr()) && r.Data() == bytes && r.Pos() == 0
  {
    var handle := new Handle(bytes);
    r := Plain(handle);
  }

  lemma EmptyNumber()
    ensures BigEndian([]) == 0
  {
  }

  lemma {:induction false} DigitShifts(d: seq<byte>, from: nat, i: nat, b: byte)
    requires i < 8 && from + i < |d| && d[from + i] == b
    ensures BigEndian(d[from..from + i + 1]) == BigEndian(d[from..from + i]) * 0x100 + b < TWO_64
  {
    var s := d[from..from + i + 1];
    assert s[..|s| - 1] == d[from..from + i];
    BigEndianBound(s);
    Pow256Monotone(|s|, 8);
    WordBounds();
  }

  lemma {:induction false} Pow256Monotone(m: nat, n: nat)
    requires m <= n
    ensures Pow256(m) <= Pow256(n)
    decreases n
  {
    if m < n {
      Pow256Monotone(m, n - 1);
    }
  }
}
