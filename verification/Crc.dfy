/** libdar's per-file checksum: bytes folded by exclusive or into a few slots. */
module Crc {
  import opened Bytes

  // ---- Exclusive or ----

  function Pow2(k: nat): (r: nat)
    ensures r > 0
  {
    if k == 0 then 1 else 2 * Pow2(k - 1)
  }

  function XorBit(a: nat, b: nat): nat { if a == b then 0 else 1 }

  function XorBits(x: nat, y: nat, k: nat): (r: nat)
    ensures r < Pow2(k)
  {
    if k == 0 then 0 else XorBit(x % 2, y % 2) + 2 * XorBits(x / 2, y / 2, k - 1)
  }

  function Xor(x: byte, y: byte): byte {
    assert Pow2(8) == 0x100 by {
      assert Pow2(2) == 4 && Pow2(4) == 16 && Pow2(6) == 64;
    }
    XorBits(x, y, 8)
  }

  lemma {:induction false} XorBitsAssociate(x: nat, y: nat, z: nat, k: nat)
    ensures XorBits(XorBits(x, y, k), z, k) == XorBits(x, XorBits(y, z, k), k)
    decreases k
  {
    if k > 0 {
      XorBitsAssociate(x / 2, y / 2, z / 2, k - 1);
      XorBitsSplits(x, y, k);
      XorBitsSplits(y, z, k);
    }
  }

  lemma {:induction false} XorBitsSplits(x: nat, y: nat, k: nat)
    requires k > 0
    ensures XorBits(x, y, k) / 2 == XorBits(x / 2, y / 2, k - 1) && XorBits(x, y, k) % 2 == XorBit(x % 2, y % 2)
  {
  }

  lemma {:induction false} XorBitsLaws(x: nat, y: nat, k: nat)
    ensures XorBits(x, y, k) == XorBits(y, x, k)
    ensures XorBits(x, x, k) == 0
    ensures x < Pow2(k) ==> XorBits(x, 0, k) == x
    decreases k
  {
    if k > 0 {
      XorBitsLaws(x / 2, y / 2, k - 1);
    }
  }

  lemma XorLaws(x: byte, y: byte, z: byte)
    ensures Xor(x, y) == Xor(y, x) && Xor(Xor(x, y), z) == Xor(x, Xor(y, z))
    ensures Xor(x, x) == 0 && Xor(x, 0) == x && Xor(0, x) == x
  {
    XorBitsAssociate(x, y, z, 8);
    XorBitsLaws(x, y, 8);
    XorBitsLaws(x, 0, 8);
    assert Pow2(2) == 4 && Pow2(4) == 16 && Pow2(6) == 64;
  }

  lemma XorCancels(x: byte, y: byte, z: byte)
    requires Xor(x, z) == Xor(y, z) || Xor(z, x) == Xor(z, y)
    ensures x == y
  {
    hide Xor;
    XorLaws(z, x, 0);
    XorLaws(z, y, 0);
    XorLaws(x, z, z);
    XorLaws(y, z, z);
    XorLaws(z, z, z);
    XorLaws(x, x, x);
    XorLaws(y, y, y);
  }

  /** Bit `i` of the exclusive or is set where just one of the two has it. */
  lemma {:induction false} XorBitAt(x: nat, y: nat, k: nat, i: nat)
    requires i < k
    ensures XorBits(x, y, k) / Pow2(i) % 2 == if x / Pow2(i) % 2 == y / Pow2(i) % 2 then 0 else 1
    decreases k
  {
    XorBitsSplits(x, y, k);
    if i > 0 {
      XorBitAt(x / 2, y / 2, k - 1, i - 1);
      HalfShift(XorBits(x, y, k), i);
      HalfShift(x, i);
      HalfShift(y, i);
    }
  }

  lemma HalfShift(x: nat, i: nat)
    requires i > 0
    ensures x / Pow2(i) == (x / 2) / Pow2(i - 1)
  {
    var n, h := Pow2(i - 1), x / 2;
    assert h == h / n * n + h % n;
    Doubled(h / n, n, h % n, x);
    QuotientIs(x, Pow2(i), h / n, 2 * (h % n) + x % 2);
  }

  lemma Doubled(q: nat, n: nat, r: nat, x: nat)
    requires x / 2 == q * n + r
    ensures x == q * (2 * n) + (2 * r + x % 2)
  {
    assert q * (2 * n) == 2 * (q * n);
  }

  lemma QuotientIs(x: nat, n: nat, q: nat, r: nat)
    requires n > 0 && x == q * n + r && r < n
    ensures x / n == q
  {
    var p, s := x / n, x % n;
    assert x == p * n + s;
    SmallMultiple(p - q, n, r - s);
  }

  // ---- The checksum ----

  /** The exclusive or of all bytes of `data` whose position, counted from `at`, is `j` modulo `width`. */
  function Slot(data: seq<byte>, at: nat, width: nat, j: nat): byte
    requires j < width
  {
    if data == [] then 0
    else
      var init := data[..|data| - 1];
      if (at + |data| - 1) % width == j then Xor(Slot(init, at, width, j), data[|data| - 1])
      else Slot(init, at, width, j)
  }

  function Checksum(data: seq<byte>, width: nat): (r: seq<byte>)
    requires width > 0
    ensures |r| == width && forall j :: 0 <= j < width ==> r[j] == Slot(data, 0, width, j)
  {
    seq(width, j requires 0 <= j < width => Slot(data, 0, width, j))
  }

  method DarCrc(data: seq<byte>, width: nat) returns (crc: seq<byte>)
    requires width > 0
    ensures crc == Checksum(data, width)
  {
    var acc := new byte[width](_ => 0);
    for i := 0 to |data|
      invariant forall j :: 0 <= j < width ==> acc[j] == Slot(data[..i], 0, width, j)
    {
      assert data[..i + 1][..i] == data[..i];
      acc[i % width] := Xor(acc[i % width], data[i]);
    }
    assert data[..|data|] == data;
    crc := acc[..];
  }

  // ---- Its algebra ----

  lemma {:induction false} SlotOfConcat(a: seq<byte>, b: seq<byte>, at: nat, width: nat, j: nat)
    requires j < width
    ensures Slot(a + b, at, width, j) == Xor(Slot(a, at, width, j), Slot(b, at + |a|, width, j))
    decreases |b|
  {
    hide Xor;
    if b == [] {
      assert a + b == a;
      XorLaws(Slot(a, at, width, j), 0, 0);
    } else {
      var init, last := b[..|b| - 1], b[|b| - 1];
      assert (a + b)[..|a + b| - 1] == a + init;
      SlotOfConcat(a, init, at, width, j);
      XorLaws(Slot(a, at, width, j), Slot(init, at + |a|, width, j), last);
    }
  }

  /** Counting from `at` renames the slots by a rotation. */
  lemma {:induction false} SlotShift(data: seq<byte>, at: nat, width: nat, j: nat)
    requires j < width
    ensures Slot(data, at, width, j) == Slot(data, 0, width, (j - at) % width)
    decreases |data|
  {
    hide Xor;
    if data != [] {
      SlotShift(data[..|data| - 1], at, width, j);
      ShiftResidue(|data| - 1, at, width, j);
    }
  }

  lemma ShiftResidue(i: nat, at: nat, width: nat, j: nat)
    requires j < width
    ensures (at + i) % width == j <==> i % width == (j - at) % width
  {
    var q, r := i / width, i % width;
    var s := (j - at) % width;
    var t := (j - at) / width;
    assert i == q * width + r && j - at == t * width + s;
    var u, v := (at + i) / width, (at + i) % width;
    assert at + i == u * width + v;
    if v == j {
      SameResidue(q - u, t, width, r, s, i - u * width, j - at);
    } else if r == s {
      assert at + i == (q - t) * width + j;
      SameResidue(u, q - t, width, v, j, at + i, at + i);
    }
  }

  lemma SameResidue(a: int, b: int, width: nat, r: nat, s: nat, x: int, y: int)
    requires x == a * width + r && y == b * width + s && x == y && r < width && s < width
    ensures r == s
  {
    var k := a - b;
    assert k * width == a * width - b * width;
    SmallMultiple(k, width, s - r);
  }

  lemma SmallMultiple(k: int, width: nat, n: int)
    requires k * width == n && n < width && -n < width
    ensures n == 0
  {
  }

  /** A checksum of two parts: the second part's slots, rotated by the length of the first, folded in. */
  lemma ChecksumOfConcat(a: seq<byte>, b: seq<byte>, width: nat, j: nat)
    requires j < width
    ensures Checksum(a + b, width)[j] == Xor(Checksum(a, width)[j], Checksum(b, width)[(j - |a|) % width])
  {
    SlotOfConcat(a, b, 0, width, j);
    SlotShift(b, |a|, width, j);
  }

  /** Changing one byte always shows. */
  lemma ChecksumSeesOneByte(data: seq<byte>, i: nat, b: byte, width: nat)
    requires i < |data| && b != data[i] && width > 0
    ensures Checksum(data[i := b], width) != Checksum(data, width)
  {
    hide Xor;
    var j := i % width;
    var before, after := data[..i], data[i + 1..];
    assert data == before + ([data[i]] + after) && data[i := b] == before + ([b] + after);
    forall x: byte
      ensures Slot(before + ([x] + after), 0, width, j)
              == Xor(Slot(before, 0, width, j), Xor(x, Slot(after, i + 1, width, j)))
    {
      SlotOfConcat(before, [x] + after, 0, width, j);
      SlotOfConcat([x], after, i, width, j);
      assert [x][..0] == [];
      XorLaws(x, 0, 0);
    }
    if Checksum(data[i := b], width)[j] == Checksum(data, width)[j] {
      var s, t := Slot(before, 0, width, j), Slot(after, i + 1, width, j);
      XorCancels(Xor(b, t), Xor(data[i], t), s);
      XorCancels(b, data[i], t);
    }
  }

  // ---- Hexadecimal ----

  const HEX := "0123456789abcdef"

  function ToHex(bytes: seq<byte>): string {
    if bytes == [] then "" else ToHex(bytes[..|bytes| - 1]) + HexByte(bytes[|bytes| - 1])
  }

  function HexByte(b: byte): string { [HEX[b / 16], HEX[b % 16]] }

  method WriteHex(bytes: seq<byte>) returns (s: string)
    ensures s == ToHex(bytes)
  {
    s := "";
    for i := 0 to |bytes|
      invariant s == ToHex(bytes[..i])
    {
      assert bytes[..i + 1][..i] == bytes[..i];
      s := s + [HEX[bytes[i] / 16], HEX[bytes[i] % 16]];
    }
    assert bytes[..|bytes|] == bytes;
  }

  /** Two digits a byte, the higher first, in the order of the bytes. */
  lemma {:induction false} HexReadsBack(bytes: seq<byte>, i: nat)
    requires i < |bytes|
    ensures |ToHex(bytes)| == 2 * |bytes|
    ensures ToHex(bytes)[2 * i] == "0123456789abcdef"[bytes[i] / 16]
    ensures ToHex(bytes)[2 * i + 1] == "0123456789abcdef"[bytes[i] % 16]
    decreases |bytes|
  {
    var init := bytes[..|bytes| - 1];
    HexLength(init);
    if i < |init| {
      HexReadsBack(init, i);
    }
  }

  lemma HexDigitsDiffer(m: nat, n: nat)
    requires m < 16 && n < 16 && HEX[m] == HEX[n]
    ensures m == n
  {
  }

  lemma HexByteInjective(x: byte, y: byte)
    requires HexByte(x) == HexByte(y)
    ensures x == y
  {
    assert HexByte(x)[0] == HexByte(y)[0] && HexByte(x)[1] == HexByte(y)[1];
    HexDigitsDiffer(x / 16, y / 16);
    HexDigitsDiffer(x % 16, y % 16);
  }

  lemma {:induction false} ToHexInjective(a: seq<byte>, b: seq<byte>)
    requires ToHex(a) == ToHex(b)
    ensures a == b
    decreases |a|
  {
    hide HexByte;
    HexLength(a);
    HexLength(b);
    if a != [] {
      var s, x, t, y := a[..|a| - 1], a[|a| - 1], b[..|b| - 1], b[|b| - 1];
      HexLength(s);
      HexLength(t);
      assert ToHex(a)[..|ToHex(s)|] == ToHex(s) && ToHex(a)[|ToHex(s)|..] == HexByte(x);
      assert ToHex(b)[..|ToHex(t)|] == ToHex(t) && ToHex(b)[|ToHex(t)|..] == HexByte(y);
      HexByteInjective(x, y);
      ToHexInjective(s, t);
      assert a == s + [x] && b == t + [y];
    }
  }

  lemma {:induction false} HexLength(a: seq<byte>)
    ensures |ToHex(a)| == 2 * |a|
    decreases |a|
  {
    if a != [] {
      assert |HexByte(a[|a| - 1])| == 2;
      HexLength(a[..|a| - 1]);
    }
  }
}
