/** The slice header, read in full by `open` and skimmed over by the slice reader. */
module Header {
  import opened Bytes
  import opened Wire
  import opened Stream

  const MAGIC: seq<byte> := [0x00, 0x00, 0x00, 0x7B]
  const EXT_TLV: byte := 0x54     // 'T'
  const EXT_NONE: byte := 0x4E    // 'N'
  const EXT_SIZE: byte := 0x53    // 'S'
  const DATA_NAME: seq<byte> := [0x00, 0x03]

  /** What `open` keeps of a header; the archive origin is where reading it ends. */
  datatype Preamble = Preamble(name: seq<byte>, extension: byte, dataName: Option<seq<byte>>)

  function Tlvs(d: seq<byte>, p: nat, count: nat, name: Option<seq<byte>>): (r: Parsed<Option<seq<byte>>>)
    ensures r.next >= p
    ensures r.Done? && p < |d| + TWO_63 ==> r.next < |d| + TWO_63
    ensures r.Done? && r.value.Some? && (name.Some? ==> |name.value| == LABEL_SIZE) ==> |r.value.value| == LABEL_SIZE
    decreases count
  {
    if count == 0 then Done(name, p)
    else
      var (typ, q) :- Exact(d, p, 2);
      var (len, q) :- Inf(d, q);
      if typ == DATA_NAME && len == LABEL_SIZE then
        var (dn, q) :- Exact(d, q, LABEL_SIZE);
        Tlvs(d, q, count - 1, Some(dn))
      else
        var (_, q) :- Skip(q, len);
        Tlvs(d, q, count - 1, name)
  }

  /** Anything short of a whole magic number is not an archive. */
  function Magic(d: seq<byte>): (r: Parsed<()>) {
    if Exact(d, 0, 4) == Done(MAGIC, 4) then Done((), 4) else Fail(NotADar, Exact(d, 0, 4).next)
  }

  function ArchiveHeader(d: seq<byte>): (r: Parsed<Preamble>)
    ensures r.Done? ==> |r.value.name| == LABEL_SIZE && r.next < |d| + TWO_63
    ensures r.Done? && r.value.dataName.Some? ==> |r.value.dataName.value| == LABEL_SIZE
  {
    var (_, p) :- Magic(d);
    var (name, p) :- Exact(d, p, LABEL_SIZE);
    var (_, p) :- U8(d, p);
    var (ext, p) :- U8(d, p);
    if ext == EXT_TLV then
      match Inf(d, p)
      case Fail(_, q) => Fail(Corrupt, q)
      case Done(count, q) =>
        var (dn, q) :- Tlvs(d, q, count, None);
        Done(Preamble(name, ext, dn), q)
    else if ext == EXT_NONE then Done(Preamble(name, ext, None), p)
    else if ext == EXT_SIZE then
      var (_, q) :- Inf(d, p);
      Done(Preamble(name, ext, None), q)
    else Fail(Corrupt, p)
  }

  function SkimTlvs(d: seq<byte>, p: nat, count: nat): (r: Parsed<()>)
    ensures r.next >= p
    decreases count
  {
    if count == 0 then Done((), p)
    else
      var (len, q) :- Inf(d, p + 2);
      var (_, q) :- Skip(q, len);
      SkimTlvs(d, q, count - 1)
  }

  function SliceHeader(d: seq<byte>): (r: Parsed<()>) {
    var (_, p) :- Magic(d);
    var (_, p) :- U8(d, p + LABEL_SIZE);
    var (ext, p) :- U8(d, p);
    if ext == EXT_TLV then
      var (count, q) :- Inf(d, p);
      SkimTlvs(d, q, count)
    else if ext == EXT_NONE then Done((), p)
    else if ext == EXT_SIZE then
      var (_, q) :- Inf(d, p);
      Done((), q)
    else Fail(Corrupt, p)
  }

  // ---- As the program reads them ----

  method CheckMagic(r: Source) returns (ok: Result<()>)
    requires r.Pos() == 0
    modifies r.Repr()
    ensures ok == Magic(r.Data()).ToResult() && r.Pos() == Magic(r.Data()).next
  {
    var magic := r.ReadExact(4);
    if magic.Err? || magic.value != MAGIC {
      return Err(NotADar);
    }
    ok := Ok(());
  }

  method ReadTlvs(r: Source, count: nat) returns (name: Result<Option<seq<byte>>>)
    requires r.Fits()
    modifies r.Repr()
    ensures name == Tlvs(r.Data(), old(r.Pos()), count, None).ToResult()
            && r.Pos() == Tlvs(r.Data(), old(r.Pos()), count, None).next
  {
    hide Inf, Exact, Source.Data, Source.Repr;
    var dataName: Option<seq<byte>> := None;
    for i := 0 to count
      invariant Tlvs(r.Data(), r.Pos(), count - i, dataName) == Tlvs(r.Data(), old(r.Pos()), count, None)
    {
      var typ :- r.ReadExact(2);
      var len :- r.ReadInfinint();
      if typ == DATA_NAME && len == LABEL_SIZE {
        var dn :- r.ReadExact(LABEL_SIZE);
        dataName := Some(dn);
      } else {
        var _ :- r.SkipBytes(len);
      }
    }
    name := Ok(dataName);
  }

  method ReadArchiveHeader(r: Source) returns (h: Result<Preamble>)
    requires r.Pos() == 0
    requires r.Fits()
    modifies r.Repr()
    ensures h == ArchiveHeader(r.Data()).ToResult() && r.Pos() == ArchiveHeader(r.Data()).next
  {
    var _ :- CheckMagic(r);
    var name :- r.ReadExact(LABEL_SIZE);
    var _ :- r.ReadU8();
    var extension :- r.ReadU8();
    var dataName: Option<seq<byte>> := None;
    if extension == EXT_TLV {
      var count := r.ReadInfinint();
      if count.Err? {
        return Err(Corrupt);
      }
      dataName :- ReadTlvs(r, count.value);
    } else if extension == EXT_SIZE {
      var _ :- r.ReadInfinint();
    } else if extension != EXT_NONE {
      return Err(Corrupt);
    }
    h := Ok(Preamble(name, extension, dataName));
  }

  method SkimTlvList(r: Source, count: nat) returns (ok: Result<()>)
    requires r.Plain?
    modifies r.Repr()
    ensures ok == SkimTlvs(r.Data(), old(r.Pos()), count).ToResult()
            && r.Pos() == SkimTlvs(r.Data(), old(r.Pos()), count).next
  {
    hide Inf;
    for i := 0 to count
      invariant SkimTlvs(r.Data(), r.Pos(), count - i) == SkimTlvs(r.Data(), old(r.Pos()), count)
    {
      var _ := r.SkipBytes(2);
      var len :- r.ReadInfinint();
      var _ :- r.SkipBytes(len);
    }
    ok := Ok(());
  }

  method SliceHeaderLen(r: Source) returns (len: Result<nat>)
    requires r.Pos() == 0
    requires r.Plain?
    modifies r.Repr()
    ensures len == match SliceHeader(r.Data()) case Done(_, q) => Ok(q) case Fail(e, _) => Err(e)
  {
    var _ :- CheckMagic(r);
    var _ := r.SkipBytes(LABEL_SIZE);
    var _ :- r.ReadU8();
    var extension :- r.ReadU8();
    if extension == EXT_TLV {
      var count :- r.ReadInfinint();
      var _ :- SkimTlvList(r, count);
    } else if extension == EXT_SIZE {
      var _ :- r.ReadInfinint();
    } else if extension != EXT_NONE {
      return Err(Corrupt);
    }
    len := Ok(r.Pos());
  }

  // ---- The two readings agree ----

  lemma {:induction false} TlvsAgree(d: seq<byte>, p: nat, count: nat, name: Option<seq<byte>>)
    ensures Tlvs(d, p, count, name).Done? ==> SkimTlvs(d, p, count) == Done((), Tlvs(d, p, count, name).next)
    ensures SkimTlvs(d, p, count).Done? && SkimTlvs(d, p, count).next <= |d| ==> Tlvs(d, p, count, name).Done?
    decreases count
  {
    hide Inf, Exact;
    ExactWithin(d, p, 2);
    if count > 0 && Inf(d, p + 2).Done? {
      var len := Inf(d, p + 2);
      ExactWithin(d, len.next, LABEL_SIZE);
      var typ, dn := Exact(d, p, 2), Exact(d, len.next, LABEL_SIZE);
      if typ.Done? && typ.value == DATA_NAME && len.value == LABEL_SIZE && dn.Done? {
        TlvsAgree(d, len.next + len.value, count - 1, Some(dn.value));
      } else {
        TlvsAgree(d, len.next + len.value, count - 1, name);
      }
    }
  }

  lemma ExactWithin(d: seq<byte>, p: nat, n: nat)
    requires n > 0
    ensures Exact(d, p, n).Done? <==> p + n <= |d|
    ensures Exact(d, p, n).Done? ==> Exact(d, p, n).next == p + n
    ensures Inf(d, p).Done? ==> p < |d|
  {
  }

  /** Within the input, the slice reader and `open` place the end of a header at the same byte. */
  lemma {:induction false} HeadersAgree(d: seq<byte>)
    ensures var full, skim := ArchiveHeader(d), SliceHeader(d);
            && (full.Done? ==> skim == Done((), full.next))
            && (full.Done? && full.next <= |d| <==> skim.Done? && skim.next <= |d|)
  {
    hide Inf;
    if 16 <= |d| && Inf(d, 16).Done? {
      TlvsAgree(d, Inf(d, 16).next, Inf(d, 16).value, None);
    }
  }

  // ---- Headers as written ----

  datatype Tlv = Tlv(typ: seq<byte>, len: Infinint, data: seq<byte>) {
    predicate Valid() { |typ| == 2 && len.Valid() && len.v == |data| < 0x8000_0000_0000_0000 }
  }

  datatype Extension = TlvList(count: Infinint, items: seq<Tlv>) | Plain | Sized(size: Infinint) {
    predicate Valid() {
      match this
      case TlvList(count, items) => count.Valid() && count.v == |items| && forall t :: t in items ==> t.Valid()
      case Plain => true
      case Sized(size) => size.Valid()
    }
  }

  datatype Head = Head(name: seq<byte>, flag: byte, ext: Extension) {
    predicate Valid() { |name| == 10 && ext.Valid() }
  }

  function EncodeTlvs(items: seq<Tlv>): seq<byte> {
    if items == [] then []
    else items[0].typ + (EncodeInfinint(items[0].len) + (items[0].data + EncodeTlvs(items[1..])))
  }

  function EncodeExtension(e: Extension): seq<byte> {
    match e
    case TlvList(count, items) => ['T' as int] + (EncodeInfinint(count) + EncodeTlvs(items))
    case Plain => ['N' as int]
    case Sized(size) => ['S' as int] + EncodeInfinint(size)
  }

  function EncodeHead(h: Head): seq<byte> {
    [0x00, 0x00, 0x00, 0x7B] + (h.name + ([h.flag] + EncodeExtension(h.ext)))
  }

  /** The last ten-byte item of type 3, or none: that is the archive's own identity. */
  function LastDataName(items: seq<Tlv>, name: Option<seq<byte>>): Option<seq<byte>> {
    if items == [] then name
    else LastDataName(items[1..],
                      if items[0].typ == [0x00, 0x03] && |items[0].data| == 10 then Some(items[0].data) else name)
  }

  function PreambleOf(h: Head): Preamble {
    match h.ext
    case TlvList(_, items) => Preamble(h.name, 'T' as int, LastDataName(items, None))
    case Plain => Preamble(h.name, 'N' as int, None)
    case Sized(_) => Preamble(h.name, 'S' as int, None)
  }

  lemma {:induction false} TlvReads(d: seq<byte>, p: nat, t: Tlv, rest: seq<byte>)
    requires t.Valid() && At(d, p, t.typ + (EncodeInfinint(t.len) + (t.data + rest)))
    ensures var q := p + 2 + |EncodeInfinint(t.len)|;
            && Exact(d, p, 2) == Done(t.typ, p + 2)
            && Inf(d, p + 2) == Done(|t.data|, q)
            && Exact(d, q, |t.data|) == Done(t.data, q + |t.data|)
            && At(d, q + |t.data|, rest)
  {
    hide At, Inf, EncodeInfinint;
    AtConcat(d, p, t.typ, EncodeInfinint(t.len) + (t.data + rest));
    AtConcat(d, p + 2, EncodeInfinint(t.len), t.data + rest);
    var q := p + 2 + |EncodeInfinint(t.len)|;
    AtConcat(d, q, t.data, rest);
    ExactReads(d, p, t.typ);
    InfReads(d, p + 2, t.len);
    ExactReads(d, q, t.data);
  }

  lemma {:induction false} TlvsRead(d: seq<byte>, p: nat, items: seq<Tlv>, name: Option<seq<byte>>)
    requires (forall t :: t in items ==> t.Valid()) && At(d, p, EncodeTlvs(items))
    ensures Tlvs(d, p, |items|, name) == Done(LastDataName(items, name), p + |EncodeTlvs(items)|)
    decreases |items|
  {
    hide At, Inf, Exact, EncodeInfinint;
    if items != [] {
      var t := items[0];
      TlvReads(d, p, t, EncodeTlvs(items[1..]));
      TlvsRead(d, p + 2 + |EncodeInfinint(t.len)| + |t.data|, items[1..],
               if t.typ == DATA_NAME && |t.data| == LABEL_SIZE then Some(t.data) else name);
    }
  }

  /** A header as written is read back whole, and both readers stop right behind it. */
  lemma {:induction false} HeaderReads(d: seq<byte>, h: Head)
    requires h.Valid() && At(d, 0, EncodeHead(h))
    ensures ArchiveHeader(d) == Done(PreambleOf(h), |EncodeHead(h)|)
    ensures SliceHeader(d) == Done((), |EncodeHead(h)|)
  {
    hide At, Inf, EncodeInfinint, SliceHeader, Exact, EncodeTlvs;
    var ext := EncodeExtension(h.ext);
    AtConcat(d, 0, MAGIC, h.name + ([h.flag] + ext));
    AtConcat(d, 4, h.name, [h.flag] + ext);
    AtConcat(d, 14, [h.flag], ext);
    ExactReads(d, 0, MAGIC);
    ExactReads(d, 4, h.name);
    AtOne(d, 14, h.flag);
    if h.ext.TlvList? {
      AtConcat(d, 15, [EXT_TLV], EncodeInfinint(h.ext.count) + EncodeTlvs(h.ext.items));
      AtOne(d, 15, EXT_TLV);
      AtConcat(d, 16, EncodeInfinint(h.ext.count), EncodeTlvs(h.ext.items));
      InfReads(d, 16, h.ext.count);
      TlvsRead(d, 16 + |EncodeInfinint(h.ext.count)|, h.ext.items, None);
    } else if h.ext.Sized? {
      AtConcat(d, 15, [EXT_SIZE], EncodeInfinint(h.ext.size));
      AtOne(d, 15, EXT_SIZE);
      InfReads(d, 16, h.ext.size);
    } else {
      AtOne(d, 15, EXT_NONE);
    }
    HeadersAgree(d);
  }

  // ---- Nothing else is read as a header ----

  lemma {:induction false} TlvSound(d: seq<byte>, p: nat) returns (t: Tlv)
    requires Exact(d, p, 2).Done? && Inf(d, p + 2).Done? && Inf(d, p + 2).value < TWO_63
    requires Inf(d, p + 2).next + Inf(d, p + 2).value <= |d|
    ensures t.Valid() && t.typ == Exact(d, p, 2).value && |t.data| == Inf(d, p + 2).value
    ensures Inf(d, p + 2).next == p + 2 + |EncodeInfinint(t.len)|
    ensures t.data == d[Inf(d, p + 2).next..Inf(d, p + 2).next + |t.data|]
    ensures forall rest :: At(d, p + 2 + |EncodeInfinint(t.len)| + |t.data|, rest)
                           ==> At(d, p, t.typ + (EncodeInfinint(t.len) + (t.data + rest)))
  {
    hide At, Inf, EncodeInfinint;
    var len := InfSound(d, p + 2);
    var q := p + 2 + |EncodeInfinint(len)|;
    t := Tlv(d[p..p + 2], len, d[q..q + len.v]);
    SliceAt(d, p, t.typ);
    SliceAt(d, q, t.data);
    forall rest | At(d, q + |t.data|, rest)
      ensures At(d, p, t.typ + (EncodeInfinint(len) + (t.data + rest)))
    {
      AtConcat(d, q, t.data, rest);
      AtConcat(d, p + 2, EncodeInfinint(len), t.data + rest);
      AtConcat(d, p, t.typ, EncodeInfinint(len) + (t.data + rest));
    }
  }

  lemma {:induction false} TlvsStep(d: seq<byte>, p: nat, count: nat, name: Option<seq<byte>>)
    requires count > 0 && Tlvs(d, p, count, name).Done? && Tlvs(d, p, count, name).next <= |d|
    ensures p + 2 <= |d| && Exact(d, p, 2) == Done(d[p..p + 2], p + 2)
    ensures var len := Inf(d, p + 2);
            && len.Done? && len.value < TWO_63 && len.next + len.value <= |d|
            && Tlvs(d, p, count, name)
               == Tlvs(d, len.next + len.value, count - 1,
                       if d[p..p + 2] == [0x00, 0x03] && len.value == 10 then Some(d[len.next..len.next + 10])
                       else name)
  {
    hide Inf;
  }

  lemma {:induction false} TlvsSound(d: seq<byte>, p: nat, count: nat, name: Option<seq<byte>>)
    returns (items: seq<Tlv>)
    requires Tlvs(d, p, count, name).Done? && Tlvs(d, p, count, name).next <= |d|
    ensures |items| == count && (forall t :: t in items ==> t.Valid()) && At(d, p, EncodeTlvs(items))
    ensures Tlvs(d, p, count, name) == Done(LastDataName(items, name), p + |EncodeTlvs(items)|)
    decreases count
  {
    hide At, Inf, EncodeInfinint, Exact;
    if count == 0 {
      items := [];
      SliceAt(d, p, []);
    } else {
      TlvsStep(d, p, count, name);
      hide Tlvs;
      var len := Inf(d, p + 2);
      var t := TlvSound(d, p);
      var next := if t.typ == DATA_NAME && |t.data| == LABEL_SIZE then Some(t.data) else name;
      var rest := TlvsSound(d, len.next + |t.data|, count - 1, next);
      items := [t] + rest;
      assert items[1..] == rest && items[0] == t;
      assert EncodeTlvs(items) == t.typ + (EncodeInfinint(t.len) + (t.data + EncodeTlvs(rest)));
    }
  }

  lemma {:induction false} HeaderSound(d: seq<byte>) returns (h: Head)
    requires ArchiveHeader(d).Done? && ArchiveHeader(d).next <= |d|
    ensures h.Valid() && At(d, 0, EncodeHead(h)) && ArchiveHeader(d) == Done(PreambleOf(h), |EncodeHead(h)|)
  {
    hide At, Inf, EncodeInfinint, Tlvs, EncodeTlvs, LastDataName;
    var ext := Extension.Plain;
    if d[15] == EXT_TLV {
      var count := InfSound(d, 16);
      var items := TlvsSound(d, 16 + |EncodeInfinint(count)|, count.v, None);
      ext := TlvList(count, items);
      AtConcat(d, 16, EncodeInfinint(count), EncodeTlvs(items));
      AtOne(d, 15, EXT_TLV);
      AtConcat(d, 15, [EXT_TLV], EncodeInfinint(count) + EncodeTlvs(items));
    } else if d[15] == EXT_SIZE {
      var size := InfSound(d, 16);
      ext := Sized(size);
      AtOne(d, 15, EXT_SIZE);
      AtConcat(d, 15, [EXT_SIZE], EncodeInfinint(size));
    } else {
      AtOne(d, 15, EXT_NONE);
    }
    h := Head(d[4..14], d[14], ext);
    AtOne(d, 14, d[14]);
    AtConcat(d, 14, [d[14]], EncodeExtension(ext));
    SliceAt(d, 4, d[4..14]);
    AtConcat(d, 4, d[4..14], [d[14]] + EncodeExtension(ext));
    SliceAt(d, 0, MAGIC);
    AtConcat(d, 0, MAGIC, d[4..14] + ([d[14]] + EncodeExtension(ext)));
  }

  /**
   * A header is read, within the input, exactly where one stands; input that does not begin with the magic
   * number is no archive, and no other extension than three is known.
   */
  lemma {:induction false} HeaderIff(d: seq<byte>)
    ensures ArchiveHeader(d).Done? && ArchiveHeader(d).next <= |d|
            <==> exists h: Head :: h.Valid() && At(d, 0, EncodeHead(h))
    ensures ArchiveHeader(d).Fail? && ArchiveHeader(d).error == NotADar <==> !At(d, 0, [0x00, 0x00, 0x00, 0x7B])
    ensures At(d, 0, [0x00, 0x00, 0x00, 0x7B]) && |d| >= 16 && d[15] !in ['T' as int, 'N' as int, 'S' as int]
            ==> ArchiveHeader(d) == Fail(Corrupt, 16)
  {
    if ArchiveHeader(d).Done? && ArchiveHeader(d).next <= |d| {
      var h := HeaderSound(d);
    }
    forall h: Head | h.Valid() && At(d, 0, EncodeHead(h))
      ensures ArchiveHeader(d).Done? && ArchiveHeader(d).next <= |d|
    {
      HeaderReads(d, h);
      AtWithin(d, 0, EncodeHead(h));
    }
    HeaderErrors(d);
  }

  lemma SkimNeverDenies(d: seq<byte>, p: nat, count: nat)
    ensures SkimTlvs(d, p, count).Fail? ==> SkimTlvs(d, p, count).error != NotADar
    decreases count
  {
  }

  /** The same of the skimming reader. */
  lemma {:induction false} SkimErrors(d: seq<byte>)
    ensures SliceHeader(d).Fail? && SliceHeader(d).error == NotADar <==> !At(d, 0, [0x00, 0x00, 0x00, 0x7B])
    ensures At(d, 0, [0x00, 0x00, 0x00, 0x7B]) && |d| >= 16 && d[15] !in ['T' as int, 'N' as int, 'S' as int]
            ==> SliceHeader(d) == Fail(Corrupt, 16)
  {
    hide Inf, SkimTlvs;
    if 16 <= |d| && Inf(d, 16).Done? {
      SkimNeverDenies(d, Inf(d, 16).next, Inf(d, 16).value);
    }
    InfParts(d, 16);
  }

  lemma TlvsNeverDeny(d: seq<byte>, p: nat, count: nat, name: Option<seq<byte>>)
    ensures Tlvs(d, p, count, name).Fail? ==> Tlvs(d, p, count, name).error != NotADar
    decreases count
  {
  }

  lemma {:induction false} HeaderErrors(d: seq<byte>)
    ensures ArchiveHeader(d).Fail? && ArchiveHeader(d).error == NotADar <==> !At(d, 0, [0x00, 0x00, 0x00, 0x7B])
    ensures At(d, 0, [0x00, 0x00, 0x00, 0x7B]) && |d| >= 16 && d[15] !in ['T' as int, 'N' as int, 'S' as int]
            ==> ArchiveHeader(d) == Fail(Corrupt, 16)
  {
    hide Inf, Tlvs;
    if 16 <= |d| && Inf(d, 16).Done? {
      TlvsNeverDeny(d, Inf(d, 16).next, Inf(d, 16).value, None);
    }
    InfParts(d, 16);
  }
}
