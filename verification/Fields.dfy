/** The fields of the archive header behind the slice header: version, codec, command line, flags, block size. */
module Fields {
  import opened Bytes
  import opened Wire
  import opened Grammar
  import opened Decode
  import opened Reader

  // ---- The version ----

  /**
   * A format number as written: three digits above '0', or two in the old editions. Bytes below '0' count as
   * '0', further bytes do not count, and no version at all counts as newer than any.
   */
  lemma VersionReadsBack(high: nat, low: nat, fix: nat, b: seq<byte>)
    requires high <= 207 && low <= 207 && fix <= 207
    ensures VersionValue([high + '0' as int, low + '0' as int, fix + '0' as int] + b)
            == (high * 0x100 + low) * 0x100 + fix
    ensures VersionValue([high + '0' as int, low + '0' as int]) == (high * 0x100 + low) * 0x100
    ensures |b| >= 3 && b[0] < '0' as int && b[1] == low + '0' as int && b[2] < '0' as int
            ==> VersionValue(b) == low * 0x100
    ensures |b| < 2 ==> VersionValue(b) > (high * 0x100 + low) * 0x100 + fix
  {
    var digits: seq<byte> := [high + 48, low + 48, fix + 48];
    var three, two := digits + b, digits[..2];
    assert three[0] == high + 48 && three[1] == low + 48 && three[2] == fix + 48;
    assert two == [high + 48, low + 48];
    assert Digit(three[0]) == high && Digit(three[1]) == low && Digit(three[2]) == fix;
  }

  /** Where version or codec cannot be read, a format newer than all and a stored archive are assumed. */
  lemma UnreadableFormat(d: seq<byte>, p: nat)
    ensures NulBytes(d, p).Fail? ==> FormatValue(d, p) / 0x100 >= 12
    ensures NulBytes(d, p).next >= |d| ==> GlobalCodec(d, p) == 'n' as int
  {
  }

  // ---- The flags ----

  predicate AllEven(values: seq<byte>) { forall i :: 0 <= i < |values| ==> values[i] % 2 == 0 }

  /** Flag values, seven bits to a byte, each byte but the last marked as continued. */
  function EncodeFlagField(values: seq<byte>): (s: seq<byte>)
    requires AllEven(values)
    ensures |s| == |values|
  {
    if |values| <= 1 then values
    else
      assert values[0] % 2 == 0;
      [values[0] + 1] + EncodeFlagField(values[1..])
  }

  /** Reading on from `bits` over `values`. */
  function Accumulated(bits: nat, values: seq<byte>): nat
    decreases |values|
  {
    if values == [] then bits else Accumulated(bits * 0x100 + values[0], values[1..])
  }

  lemma {:induction false} AccumulatedGrows(bits: nat, values: seq<byte>)
    ensures Accumulated(bits, values) >= bits
    decreases |values|
  {
    if values != [] {
      AccumulatedGrows(bits * 0x100 + values[0], values[1..]);
    }
  }

  lemma {:induction false} FlagStep(d: seq<byte>, p: nat, bits: u64, a: byte)
    requires At(d, p, [a]) && bits % 2 == 0
    ensures bits >= 0x100_0000_0000_0000 ==> HeaderFlags(d, p, bits) == Fail(Corrupt, p + 1)
    ensures bits < 0x100_0000_0000_0000 ==>
              HeaderFlags(d, p, bits)
              == if a % 2 == 0 then Done(bits * 0x100 + a, p + 1) else HeaderFlags(d, p + 1, bits * 0x100 + (a - 1))
  {
    AtOne(d, p, a);
  }

  /**
   * The flag field is read back exactly when its value fits 64 bits, however many bytes lead it; else it is
   * corrupt.
   */
  lemma {:induction false} FlagsReadBack(d: seq<byte>, p: nat, bits: u64, values: seq<byte>)
    requires values != [] && AllEven(values) && bits % 2 == 0
    requires At(d, p, EncodeFlagField(values))
    ensures if Accumulated(bits, values) < TWO_64
            then HeaderFlags(d, p, bits) == Done(Accumulated(bits, values), p + |values|)
            else HeaderFlags(d, p, bits).Fail? && HeaderFlags(d, p, bits).error == Corrupt
    decreases |values|
  {
    hide At, HeaderFlags, EncodeFlagField, AllEven;
    var next := bits * 0x100 + values[0];
    FlagParts(values);
    AccumulatedGrows(next, values[1..]);
    if |values| == 1 {
      FlagStep(d, p, bits, values[0]);
    } else {
      AtConcat(d, p, [values[0] + 1], EncodeFlagField(values[1..]));
      FlagStep(d, p, bits, values[0] + 1);
      if bits < 0x100_0000_0000_0000 {
        FlagsReadBack(d, p + 1, next, values[1..]);
      }
    }
  }

  lemma FlagParts(values: seq<byte>)
    requires values != [] && AllEven(values)
    ensures values[0] % 2 == 0 && values[0] < 0xFF && AllEven(values[1..])
    ensures EncodeFlagField(values)
            == if |values| == 1 then [values[0]] else [values[0] + 1] + EncodeFlagField(values[1..])
  {
  }

  // ---- Everything behind the codec ----

  /** Command line, flag values, and the two numbers that the flags announce. */
  datatype Settings = Settings(command: seq<byte>, flags: seq<byte>, initial: Infinint, size: Infinint) {
    predicate Valid() {
      && ValidName(command) && flags != [] && AllEven(flags) && Value() < 0x1_0000_0000_0000_0000
      && initial.Valid() && size.Valid()
    }

    function Value(): nat { Accumulated(0, flags) }

    /** Bit 3: an initial offset is written. */
    predicate HasInitial() { Value() / 8 % 2 == 1 }

    /** Bit 11: a block size is written. */
    predicate HasSize() { Value() / 2048 % 2 == 1 }

    /** Bits 1, 2, 5, 10: fields are written that the reader does not know. */
    predicate Foreign() {
      Value() / 2 % 2 == 1 || Value() / 4 % 2 == 1 || Value() / 32 % 2 == 1 || Value() / 1024 % 2 == 1
    }

    /** Edition 1 has the command line only. */
    function Bytes(fmt: nat): seq<byte>
      requires AllEven(flags)
    {
      (command + [0])
      + if fmt < 2 then [] else EncodeFlagField(flags) + (Offset() + (if HasSize() then EncodeInfinint(size) else []))
    }

    function Offset(): seq<byte> { if HasInitial() then EncodeInfinint(initial) else [] }

    /** The block size, 0 for none: it must be written, among fields all known, and 256 MiB at most. */
    function BlockSize(fmt: nat): nat {
      if fmt >= 2 && HasSize() && !Foreign() && size.v <= 268_435_456 then size.v else 0
    }
  }

  /** The block size is read back, behind command line, flags and initial offset. */
  lemma {:induction false} SettingsReadBack(d: seq<byte>, p: nat, fmt: nat, s: Settings)
    requires s.Valid() && At(d, p, s.Bytes(fmt))
    ensures BlockSize(d, p, fmt) == s.BlockSize(fmt)
  {
    hide At, Inf, EncodeInfinint, SkipNulFrom, NulFrom, HeaderFlags, EncodeFlagField, AllEven, Accumulated;
    var line := s.command + [0];
    var size := if s.HasSize() then EncodeInfinint(s.size) else [];
    AtConcat(d, p, line, if fmt < 2 then [] else EncodeFlagField(s.flags) + (s.Offset() + size));
    NulFromReads(d, p, [], s.command);
    SkipNulAgrees(d, p, []);
    if fmt >= 2 {
      var q := p + |line|;
      AtConcat(d, q, EncodeFlagField(s.flags), s.Offset() + size);
      FlagsReadBack(d, q, 0, s.flags);
      q := q + |s.flags|;
      AtConcat(d, q, s.Offset(), size);
      if s.HasInitial() {
        InfReads(d, q, s.initial);
      }
      if s.HasSize() {
        InfReads(d, q + |s.Offset()|, s.size);
      }
    }
  }
}
