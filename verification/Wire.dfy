/** What each primitive read makes of the bytes `d` at cursor `p`. */
module Wire {
  import opened Bytes

  const MAX_NUL_STRING := 0x1_0000

  // The first byte of an infinint tells its width.
  const WIDTH_4: byte := 0x80
  const WIDTH_8: byte := 0x40

  function Max(a: nat, b: nat): nat { if a < b then b else a }

  function U8(d: seq<byte>, p: nat): (r: Parsed<byte>)
    ensures r.next >= p
    ensures r.Fail? ==> r.error != NotADar
  {
    if p < |d| then Done(d[p], p + 1) else Fail(Io, p)
  }

  /** `read_exact`: all `n` bytes or an I/O error at the end of input. */
  function Exact(d: seq<byte>, p: nat, n: nat): (r: Parsed<seq<byte>>)
    ensures r.next >= p
    ensures r.Fail? ==> r.error != NotADar
  {
    if n == 0 then Done([], p)
    else if p + n <= |d| then Done(d[p..p + n], p + n)
    else Fail(Io, Max(p, |d|))
  }

  function U16(d: seq<byte>, p: nat): (r: Parsed<nat>)
    ensures r.next >= p
    ensures r.Fail? ==> r.error != NotADar
    ensures r.Done? ==> r.value < 0x1_0000
  {
    var (b, q) :- Exact(d, p, 2);
    BigEndianBound(b);
    WordBounds();
    Done(BigEndian(b), q)
  }

  /** Only the 4- and 8-byte groups fit 64 bits; every other first byte is corrupt. */
  function Inf(d: seq<byte>, p: nat): (r: Parsed<u64>)
    ensures r.next >= p
    ensures r.Fail? ==> r.error != NotADar
    ensures r.Done? ==> p < r.next <= |d|
  {
    var (t, q) :- U8(d, p);
    if t == WIDTH_4 || t == WIDTH_8 then
      var (b, e) :- Exact(d, q, if t == WIDTH_4 then 4 else 8);
      BigEndianBound(b);
      WordBounds();
      Done(BigEndian(b), e)
    else Fail(Corrupt, q)
  }

  /** Reads on to a NUL, having already collected `got`. */
  function NulFrom(d: seq<byte>, p: nat, got: seq<byte>): (r: Parsed<seq<byte>>)
    ensures r.next >= p
    ensures r.Fail? ==> r.error != NotADar
    ensures r.Done? ==> r.next > p
    decreases |d| - p
  {
    var (b, q) :- U8(d, p);
    if b == 0 then Done(got, q)
    else if |got| >= MAX_NUL_STRING then Fail(Corrupt, q)
    else NulFrom(d, q, got + [b])
  }

  function NulBytes(d: seq<byte>, p: nat): (r: Parsed<seq<byte>>)
    ensures r.next >= p
    ensures r.Fail? ==> r.error != NotADar
    ensures r.Done? ==> r.next > p
  {
    NulFrom(d, p, [])
  }

  /** As `NulFrom`, counting the bytes instead of keeping them. */
  function SkipNulFrom(d: seq<byte>, p: nat, len: nat): (r: Parsed<()>)
    ensures r.next >= p
    ensures r.Fail? ==> r.error != NotADar
    decreases |d| - p
  {
    var (b, q) :- U8(d, p);
    if b == 0 then Done((), q)
    else if len + 1 > MAX_NUL_STRING then Fail(Corrupt, q)
    else SkipNulFrom(d, q, len + 1)
  }

  function SkipNul(d: seq<byte>, p: nat): (r: Parsed<()>)
    ensures r.next >= p
    ensures r.Fail? ==> r.error != NotADar
  {
    SkipNulFrom(d, p, 0)
  }

  /** A forward seek: it may pass the end of input without an error. */
  function Skip(p: nat, n: u64): (r: Parsed<()>)
    ensures r.next >= p
    ensures r.Fail? ==> r.error != NotADar
  {
    if n < TWO_63 then Done((), p + n) else Fail(Corrupt, p)
  }

  // ---- Each read inverts its encoding, and accepts nothing else ----

  lemma ExactReads(d: seq<byte>, p: nat, s: seq<byte>)
    requires At(d, p, s)
    ensures Exact(d, p, |s|) == Done(s, p + |s|)
  {
  }

  lemma U16Reads(d: seq<byte>, p: nat, v: nat)
    requires v < 0x1_0000 && At(d, p, EncodeBigEndian(v, 2))
    ensures U16(d, p) == Done(v, p + 2)
  {
    WordBounds();
    BigEndianOfEncode(v, 2);
  }

  lemma U16Sound(d: seq<byte>, p: nat)
    requires U16(d, p).Done?
    ensures At(d, p, EncodeBigEndian(U16(d, p).value, 2)) && U16(d, p).next == p + 2
  {
    EncodeOfBigEndian(d[p..p + 2]);
  }

  lemma InfReads(d: seq<byte>, p: nat, x: Infinint)
    requires x.Valid() && At(d, p, EncodeInfinint(x))
    ensures Inf(d, p) == Done(x.v, p + |EncodeInfinint(x)|)
  {
    var t: byte, k := if x.wide then WIDTH_8 else WIDTH_4, if x.wide then 8 else 4;
    AtConcat(d, p, [t], EncodeBigEndian(x.v, k));
    AtOne(d, p, t);
    WordBounds();
    BigEndianOfEncode(x.v, k);
  }

  lemma InfSound(d: seq<byte>, p: nat) returns (x: Infinint)
    requires Inf(d, p).Done?
    ensures x.Valid() && x.v == Inf(d, p).value
    ensures At(d, p, EncodeInfinint(x)) && Inf(d, p).next == p + |EncodeInfinint(x)|
  {
    var t := d[p];
    var k := if t == WIDTH_4 then 4 else 8;
    var b := d[p + 1..p + 1 + k];
    BigEndianBound(b);
    WordBounds();
    EncodeOfBigEndian(b);
    x := Infinint(BigEndian(b), t == WIDTH_8);
    AtOne(d, p, t);
    AtConcat(d, p, [t], b);
  }

  /** The infinint at `p`, by the width its first byte announces: what it is, or how the read fails. */
  lemma InfParts(d: seq<byte>, p: nat)
    ensures p >= |d| ==> Inf(d, p) == Fail(Io, p)
    ensures p < |d| && d[p] != 0x80 && d[p] != 0x40 ==> Inf(d, p) == Fail(Corrupt, p + 1)
    ensures p < |d| && (d[p] == 0x80 || d[p] == 0x40) ==>
              var from, end := p + 1, p + 1 + if d[p] == 0x80 then 4 else 8;
              Inf(d, p) == if end <= |d| then Done(BigEndian(d[from..end]), end) else Fail(Io, |d|)
  {
  }

  /** No NUL in 64 KiB and one byte more: the string is refused there; none to the end of the input: it is cut short. */
  lemma {:induction false} NulFromFails(d: seq<byte>, p: nat, got: seq<byte>)
    requires |got| <= 0x1_0000
    ensures p + 0x1_0001 - |got| <= |d| && (forall k :: p <= k < p + 0x1_0001 - |got| ==> d[k] != 0)
            ==> NulFrom(d, p, got) == Fail(Corrupt, p + 0x1_0001 - |got|)
    ensures |got| + |d| - p <= 0x1_0000 && p <= |d| && (forall k :: p <= k < |d| ==> d[k] != 0)
            ==> NulFrom(d, p, got) == Fail(Io, |d|)
    decreases |d| - p
  {
    if p < |d| && d[p] != 0 && |got| < 0x1_0000 {
      NulFromFails(d, p + 1, got + [d[p]]);
    }
  }

  lemma {:induction false} NulFromReads(d: seq<byte>, p: nat, got: seq<byte>, s: seq<byte>)
    requires At(d, p, s + [0]) && 0 !in s && |got| + |s| <= MAX_NUL_STRING
    ensures NulFrom(d, p, got) == Done(got + s, p + |s| + 1)
    decreases |s|
  {
    AtConcat(d, p, s, [0]);
    if s == [] {
      AtOne(d, p, 0);
      assert got + s == got;
    } else {
      assert s + [0] == [s[0]] + (s[1..] + [0]);
      AtConcat(d, p, [s[0]], s[1..] + [0]);
      AtOne(d, p, s[0]);
      NulFromReads(d, p + 1, got + [s[0]], s[1..]);
      assert got + [s[0]] + s[1..] == got + s;
    }
  }

  lemma {:induction false} NulFromSound(d: seq<byte>, p: nat, got: seq<byte>) returns (s: seq<byte>)
    requires NulFrom(d, p, got).Done? && |got| <= MAX_NUL_STRING
    ensures NulFrom(d, p, got) == Done(got + s, p + |s| + 1)
    ensures At(d, p, s + [0]) && 0 !in s && |got| + |s| <= MAX_NUL_STRING
    decreases |d| - p
  {
    AtOne(d, p, d[p]);
    if d[p] == 0 {
      s := [];
      assert got + s == got && s + [0] == [0];
    } else {
      var rest := NulFromSound(d, p + 1, got + [d[p]]);
      s := [d[p]] + rest;
      assert got + [d[p]] + rest == got + s;
      assert s + [0] == [d[p]] + (rest + [0]);
      AtConcat(d, p, [d[p]], rest + [0]);
    }
  }

  lemma {:induction false} SkipNulAgrees(d: seq<byte>, p: nat, got: seq<byte>)
    requires |got| <= MAX_NUL_STRING
    ensures SkipNulFrom(d, p, |got|).next == NulFrom(d, p, got).next
    ensures SkipNulFrom(d, p, |got|).ToResult().Ok? == NulFrom(d, p, got).Done?
    ensures NulFrom(d, p, got).Fail? ==> SkipNulFrom(d, p, |got|).ToResult() == Err(NulFrom(d, p, got).error)
    decreases |d| - p
  {
    if p < |d| && d[p] != 0 && |got| < MAX_NUL_STRING {
      SkipNulAgrees(d, p + 1, got + [d[p]]);
    }
  }

  // ---- Cutting the input short ----

  /** `short` read less input than `full` and says nothing that `full` contradicts. */
  ghost predicate Stable<T(!new)>(short: Parsed<T>, full: Parsed<T>) {
    short.Done? || short.error != Io ==> full == short
  }

  lemma ExactStable(d: seq<byte>, n: nat, p: nat, k: nat)
    requires n <= |d|
    ensures Stable(U8(d[..n], p), U8(d, p))
    ensures Stable(Exact(d[..n], p, k), Exact(d, p, k))
    ensures Stable(U16(d[..n], p), U16(d, p))
  {
    if p + 2 <= n {
      assert d[..n][p..p + 2] == d[p..p + 2];
    }
    if p + k <= n {
      assert d[..n][p..p + k] == d[p..p + k];
    }
  }

  lemma InfStable(d: seq<byte>, n: nat, p: nat)
    requires n <= |d|
    ensures Stable(Inf(d[..n], p), Inf(d, p))
  {
    ExactStable(d, n, p, 0);
    ExactStable(d, n, p + 1, 4);
    ExactStable(d, n, p + 1, 8);
  }

  lemma {:induction false} NulFromStable(d: seq<byte>, n: nat, p: nat, got: seq<byte>)
    requires n <= |d|
    ensures Stable(NulFrom(d[..n], p, got), NulFrom(d, p, got))
    decreases n - p
  {
    ExactStable(d, n, p, 0);
    if p < n && d[p] != 0 && |got| < MAX_NUL_STRING {
      NulFromStable(d, n, p + 1, got + [d[p]]);
    }
  }
}
