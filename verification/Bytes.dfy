/** Bytes, results of reads, and the numbers a DAR archive stores. */
module Bytes {

  type byte = x: int | 0 <= x < 0x100

  const TWO_32 := 0x1_0000_0000
  const TWO_63 := 0x8000_0000_0000_0000
  const TWO_64 := 0x1_0000_0000_0000_0000

  /** Length of the labels that name a slice and an archive. */
  const LABEL_SIZE := 10

  type u64 = x: int | 0 <= x < 0x1_0000_0000_0000_0000

  datatype Option<+T> = None | Some(value: T)

  /** The error kinds, without message text. */
  datatype Error = Io | NotADar | Corrupt | EntryNotFound

  datatype Result<+T> = Ok(value: T) | Err(error: Error) {
    predicate IsFailure() { Err? }

    function PropagateFailure<U>(): Result<U>
      requires Err?
    {
      Err(error)
    }

    function Extract(): T
      requires Ok?
    {
      value
    }
  }

  /** What a read at a cursor yields, and where it leaves the cursor. */
  datatype Parsed<+T> = Done(value: T, next: nat) | Fail(error: Error, next: nat) {
    predicate IsFailure() { Fail? }

    function PropagateFailure<U>(): Parsed<U>
      requires Fail?
    {
      Fail(error, next)
    }

    function Extract(): (T, nat)
      requires Done?
    {
      (value, next)
    }

    function ToResult(): Result<T> {
      if Done? then Ok(value) else Err(error)
    }
  }

  /** `s` stands at offset `p` of `d`. */
  ghost predicate At<T>(d: seq<T>, p: nat, s: seq<T>) {
    p + |s| <= |d| && d[p..p + |s|] == s
  }

  lemma AtConcat<T>(d: seq<T>, p: nat, a: seq<T>, b: seq<T>)
    ensures At(d, p, a + b) <==> At(d, p, a) && At(d, p + |a|, b)
  {
    if p + |a + b| <= |d| {
      var w := d[p..p + |a + b|];
      assert w[..|a|] == d[p..p + |a|];
      assert w[|a|..] == d[p + |a|..p + |a| + |b|];
      assert w == w[..|a|] + w[|a|..];
      if w == a + b {
        assert w[..|a|] == a && w[|a|..] == b;
      }
    }
  }

  lemma AtOne<T>(d: seq<T>, p: nat, x: T)
    ensures At(d, p, [x]) <==> p < |d| && d[p] == x
  {
    if p < |d| {
      assert d[p..p + 1] == [d[p]];
    }
  }

  lemma AtWithin<T>(d: seq<T>, p: nat, s: seq<T>)
    requires At(d, p, s)
    ensures p + |s| <= |d| && d[p..p + |s|] == s
  {
  }

  lemma SliceAt<T>(d: seq<T>, p: nat, s: seq<T>)
    requires p + |s| <= |d| && s == d[p..p + |s|]
    ensures At(d, p, s)
  {
  }

  // ---- Big-endian numbers ----

  function Pow256(n: nat): (r: nat)
    ensures r >= 1
  {
    if n == 0 then 1 else 0x100 * Pow256(n - 1)
  }

  /** The value of a big-endian byte string. */
  function BigEndian(s: seq<byte>): nat {
    if s == [] then 0 else BigEndian(s[..|s| - 1]) * 0x100 + s[|s| - 1]
  }

  function EncodeBigEndian(v: nat, width: nat): (s: seq<byte>)
    ensures |s| == width
  {
    if width == 0 then [] else EncodeBigEndian(v / 0x100, width - 1) + [v % 0x100]
  }

  lemma {:induction false} BigEndianBound(s: seq<byte>)
    ensures BigEndian(s) < Pow256(|s|)
  {
    if s != [] {
      BigEndianBound(s[..|s| - 1]);
    }
  }

  lemma {:induction false} BigEndianOfEncode(v: nat, width: nat)
    requires v < Pow256(width)
    ensures BigEndian(EncodeBigEndian(v, width)) == v
  {
    if width != 0 {
      var s := EncodeBigEndian(v, width);
      assert s[..width - 1] == EncodeBigEndian(v / 0x100, width - 1);
      BigEndianOfEncode(v / 0x100, width - 1);
    }
  }

  lemma {:induction false} EncodeOfBigEndian(s: seq<byte>)
    ensures EncodeBigEndian(BigEndian(s), |s|) == s
  {
    if s != [] {
      var init := s[..|s| - 1];
      EncodeOfBigEndian(init);
      assert BigEndian(s) / 0x100 == BigEndian(init);
      assert s == init + [s[|s| - 1]];
    }
  }

  lemma WordBounds()
    ensures Pow256(2) == 0x1_0000 && Pow256(4) == TWO_32 && Pow256(8) == TWO_64
  {
    assert Pow256(1) == 0x100 && Pow256(3) == 0x100_0000;
    assert Pow256(5) == 0x100 * TWO_32 && Pow256(6) == 0x1_0000 * TWO_32 && Pow256(7) == 0x100_0000 * TWO_32;
  }

  // ---- The infinint encoding ----

  /** A number as written: its value and whether the 8-byte group was chosen. */
  datatype Infinint = Infinint(v: u64, wide: bool) {
    predicate Valid() { wide || v < TWO_32 }
  }

  function EncodeInfinint(x: Infinint): seq<byte> {
    if x.wide then [0x40] + EncodeBigEndian(x.v, 8) else [0x80] + EncodeBigEndian(x.v, 4)
  }

  /** Two's complement: from 2^63 on, the numbers are negative. */
  function AsI64(v: u64): int {
    if v < TWO_63 then v else v - TWO_64
  }
}
