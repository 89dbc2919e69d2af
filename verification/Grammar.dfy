/** The catalogue as a writer lays it out: trees of nodes, and their bytes in every edition. */
module Grammar {
  import opened Bytes
  import opened Wire
  import opened Catalogue

  /** A point in time: whole seconds under any other unit byte, or a fraction in micro- or nanoseconds behind them. */
  datatype Stamp =
    | Whole(unit: byte, secs: Infinint)
    | Micro(secs: Infinint, fraction: Infinint)
    | Nano(secs: Infinint, fraction: Infinint)
  {
    predicate Valid() {
      secs.Valid() && if Whole? then unit != 'u' as int && unit != 'n' as int else fraction.Valid()
    }
  }

  /** Every inode field any edition writes; an edition ignores the ones it lacks. */
  datatype RawInode = RawInode(
    flags: byte, uid: Infinint, gid: Infinint, mode: nat, atime: Stamp, mtime: Stamp, ctime: Stamp,
    families: Infinint, fsaSize: Infinint)

  datatype Fsa = Fsa(tag: Infinint, length: Infinint, payload: seq<byte>)

  datatype Head = Head(sig: byte, name: seq<byte>, inode: RawInode, fsa: Fsa)

  datatype FileBody = FileBody(
    size: Infinint, offset: Infinint, stored: Infinint, status: byte, codec: byte, width: Infinint, crc: seq<byte>)

  datatype Node =
    | Dir(head: Head, kids: seq<Node>, eod: byte)
    | Reg(head: Head, body: FileBody)
    | Link(head: Head, target: seq<byte>)
    | Pipe(head: Head)
    | Sock(head: Head)

  /** All fields at their smallest, for examples. */
  const ZERO := Infinint(0, false)
  const EPOCH := Whole('s' as int, ZERO)
  const PLAIN_INODE := RawInode(0, ZERO, ZERO, 0, EPOCH, EPOCH, EPOCH, ZERO, ZERO)
  const NO_FSA := Fsa(ZERO, ZERO, [])

  /** From the ninth edition on, bit 4 of the flags announces filesystem attributes. */
  predicate Attributed(fmt: nat, flags: byte) { fmt >= 9 && flags % 0x20 >= 0x10 }

  /** The type letter in the low five bits of a signature; the others tell what was saved. */
  predicate Says(sig: byte, letter: char) { sig % 0x20 == letter as int % 0x20 }

  /** Two's complement. */
  function Signed(v: u64): int {
    if v >= 0x8000_0000_0000_0000 then v - 0x1_0000_0000_0000_0000 else v
  }

  // ---- Bytes ----

  /** Editions before the ninth write the seconds alone. */
  function EncodeStamp(fmt: nat, s: Stamp): seq<byte> {
    if fmt < 9 then EncodeInfinint(s.secs)
    else match s
      case Whole(unit, secs) => [unit] + EncodeInfinint(secs)
      case Micro(secs, fraction) => ['u' as int] + (EncodeInfinint(secs) + EncodeInfinint(fraction))
      case Nano(secs, fraction) => ['n' as int] + (EncodeInfinint(secs) + EncodeInfinint(fraction))
  }

  function EncodeId(fmt: nat, x: Infinint): seq<byte> {
    if fmt <= 7 then EncodeBigEndian(x.v, 2) else EncodeInfinint(x)
  }

  function EncodeFlags(fmt: nat, i: RawInode): seq<byte> { if fmt >= 2 then [i.flags] else [] }

  function EncodeOwner(fmt: nat, i: RawInode): seq<byte> {
    EncodeFlags(fmt, i) + (EncodeId(fmt, i.uid) + (EncodeId(fmt, i.gid) + EncodeBigEndian(i.mode, 2)))
  }

  function EncodeChange(fmt: nat, i: RawInode): seq<byte> { if fmt >= 8 then EncodeStamp(fmt, i.ctime) else [] }

  function EncodeFsaInode(fmt: nat, i: RawInode): seq<byte> {
    if Attributed(fmt, i.flags) then EncodeInfinint(i.families) + EncodeInfinint(i.fsaSize) else []
  }

  function EncodeInode(fmt: nat, i: RawInode): seq<byte> {
    EncodeOwner(fmt, i)
    + (EncodeStamp(fmt, i.atime) + (EncodeStamp(fmt, i.mtime) + (EncodeChange(fmt, i) + EncodeFsaInode(fmt, i))))
  }

  function EncodeFsa(fmt: nat, h: Head): seq<byte> {
    if Attributed(fmt, h.inode.flags) then EncodeInfinint(h.fsa.tag) + (EncodeInfinint(h.fsa.length) + h.fsa.payload)
    else []
  }

  function EncodeHead(fmt: nat, h: Head): seq<byte> {
    [h.sig] + ((h.name + [0]) + (EncodeInode(fmt, h.inode) + EncodeFsa(fmt, h)))
  }

  function EncodeStorage(fmt: nat, b: FileBody): seq<byte> {
    if fmt >= 8 then EncodeInfinint(b.stored) + ([b.status] + ([b.codec] + (EncodeInfinint(b.width) + b.crc)))
    else if fmt >= 2 then EncodeInfinint(b.stored) + b.crc
    else []
  }

  function EncodeBody(fmt: nat, b: FileBody): seq<byte> {
    EncodeInfinint(b.size) + (EncodeInfinint(b.offset) + EncodeStorage(fmt, b))
  }

  function Encode(fmt: nat, t: Node): seq<byte>
    decreases t
  {
    match t
    case Dir(h, kids, eod) => EncodeHead(fmt, h) + (EncodeAll(fmt, kids) + [eod])
    case Reg(h, b) => EncodeHead(fmt, h) + EncodeBody(fmt, b)
    case Link(h, target) => EncodeHead(fmt, h) + (target + [0])
    case Pipe(h) => EncodeHead(fmt, h)
    case Sock(h) => EncodeHead(fmt, h)
  }

  function EncodeAll(fmt: nat, ts: seq<Node>): seq<byte>
    decreases ts
  {
    if ts == [] then [] else Encode(fmt, ts[0]) + EncodeAll(fmt, ts[1..])
  }

  // ---- What a writer may write ----

  predicate ValidName(s: seq<byte>) { 0 !in s && |s| <= 0x1_0000 }

  predicate ValidInode(fmt: nat, i: RawInode) {
    && (fmt < 2 ==> i.flags == 0)
    && i.uid.Valid() && i.gid.Valid() && (fmt <= 7 ==> i.uid.v < 0x1_0000 && i.gid.v < 0x1_0000)
    && i.mode < 0x1_0000
    && i.atime.Valid() && i.mtime.Valid() && i.ctime.Valid() && i.families.Valid() && i.fsaSize.Valid()
  }

  predicate ValidHead(fmt: nat, h: Head) {
    && ValidName(h.name) && ValidInode(fmt, h.inode)
    && h.fsa.tag.Valid() && h.fsa.length.Valid()
    && h.fsa.length.v == |h.fsa.payload| < 0x8000_0000_0000_0000
  }

  predicate ValidBody(fmt: nat, b: FileBody) {
    && b.size.Valid() && b.offset.Valid() && b.stored.Valid()
    && (fmt >= 8 ==> b.width.Valid() && b.width.v == |b.crc| <= 0x1_0000)
    && (2 <= fmt <= 7 ==> |b.crc| == 2)
  }

  predicate Valid(fmt: nat, t: Node)
    decreases t
  {
    ValidHead(fmt, t.head) &&
    match t
    case Dir(h, kids, eod) => Says(h.sig, 'd') && Says(eod, 'z') && AllValid(fmt, kids)
    case Reg(h, b) => Says(h.sig, 'f') && ValidBody(fmt, b)
    case Link(h, target) => Says(h.sig, 'l') && ValidName(target)
    case Pipe(h) => Says(h.sig, 'p')
    case Sock(h) => Says(h.sig, 's')
  }

  predicate AllValid(fmt: nat, ts: seq<Node>)
    decreases ts
  {
    ts == [] || (Valid(fmt, ts[0]) && AllValid(fmt, ts[1..]))
  }

  // ---- What a reader should report ----

  function InodeOf(fmt: nat, i: RawInode): Inode {
    Inode(i.flags, i.uid.v, i.gid.v, i.mode, Signed(i.atime.secs.v), Signed(i.mtime.secs.v),
          if fmt >= 8 then Some(Signed(i.ctime.secs.v)) else None)
  }

  /** Editions up to 7 record no codec of their own, and 0 stored bytes for data kept as it is. */
  function FieldsOf(fmt: nat, comp: byte, b: FileBody): FileFields {
    if fmt >= 8 then
      FileFields(b.size.v, b.offset.v, b.stored.v, b.codec, if b.crc == [] then None else Some(b.crc))
    else if fmt >= 2 then
      FileFields(b.size.v, b.offset.v, if b.stored.v == 0 then b.size.v else b.stored.v, comp, Some(b.crc))
    else FileFields(b.size.v, b.offset.v, b.size.v, comp, None)
  }

  /** No bytes, and codec 'n'. */
  const NOTHING_STORED := FileFields(0, 0, 0, 'n' as int, None)

  function EntryOf(fmt: nat, comp: byte, stack: seq<seq<byte>>, t: Node): EntryRef {
    var path, inode := JoinPath(stack, t.head.name), InodeOf(fmt, t.head.inode);
    match t
    case Dir(_, _, _) => EntryRef(path, Directory, inode, None, NOTHING_STORED)
    case Reg(_, b) => EntryRef(path, File, inode, None, FieldsOf(fmt, comp, b))
    case Link(_, target) => EntryRef(path, Symlink, inode, Some(target), NOTHING_STORED)
    case Pipe(_) => EntryRef(path, NamedPipe, inode, None, NOTHING_STORED)
    case Sock(_) => EntryRef(path, Socket, inode, None, NOTHING_STORED)
  }

  /** Pre-order: each node with the full path of the directories above it. */
  function Listing(fmt: nat, comp: byte, stack: seq<seq<byte>>, t: Node): seq<EntryRef>
    decreases t
  {
    [EntryOf(fmt, comp, stack, t)] + if t.Dir? then ListAll(fmt, comp, stack + [t.head.name], t.kids) else []
  }

  function ListAll(fmt: nat, comp: byte, stack: seq<seq<byte>>, ts: seq<Node>): seq<EntryRef>
    decreases ts
  {
    if ts == [] then [] else Listing(fmt, comp, stack, ts[0]) + ListAll(fmt, comp, stack, ts[1..])
  }

  /** The top directory is not listed; a named one prefixes every path. */
  function RootStack(root: Node): seq<seq<byte>> {
    if root.head.name == ROOT_NAME then [] else [root.head.name]
  }

  function RootListing(fmt: nat, comp: byte, root: Node): seq<EntryRef>
    requires root.Dir?
  {
    ListAll(fmt, comp, RootStack(root), root.kids)
  }

  /** Some directory among `ts`, at any depth, has the reserved name of the virtual top. */
  predicate HasReserved(ts: seq<Node>)
    decreases ts
  {
    ts != [] && (HasReservedIn(ts[0]) || HasReserved(ts[1..]))
  }

  predicate HasReservedIn(t: Node)
    decreases t
  {
    t.Dir? && (t.head.name == ROOT_NAME || HasReserved(t.kids))
  }

  /** Whole catalogues: entries outside any directory, then the top directory or a lone end mark. */
  datatype Catalog = Rooted(lead: seq<Node>, root: Node) | Bare(lead: seq<Node>, eod: byte) {
    predicate WellFormed(fmt: nat) {
      && AllValid(fmt, lead) && (forall t :: t in lead ==> !t.Dir?)
      && (Rooted? ==> root.Dir? && Valid(fmt, root))
      && (Bare? ==> Says(eod, 'z'))
    }

    function Encoded(fmt: nat): seq<byte> {
      EncodeAll(fmt, lead) + if Rooted? then Encode(fmt, root) else [eod]
    }
  }
}
