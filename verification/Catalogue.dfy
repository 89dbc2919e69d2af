/** The catalogue parser: entries, the reads behind one entry, and the walk over all of them. */
module Catalogue {
  import opened Bytes
  import opened Wire
  import opened Stream

  const SLASH: byte := 0x2F
  const STORED: byte := 0x6E          // 'n'
  const UNIT_NANO: byte := 0x6E       // 'n'
  const UNIT_MICRO: byte := 0x75      // 'u'
  const MAX_CRC_SIZE := 0x1_0000

  // Type letters: the low five bits of a signature, moved to the lower-case letters.
  const TYPE_DIR := 0x64
  const TYPE_FILE := 0x66
  const TYPE_LINK := 0x6C
  const TYPE_PIPE := 0x70
  const TYPE_SOCK := 0x73
  const TYPE_EOD := 0x7A

  /** `<ROOT>`, the virtual top directory. */
  const ROOT_NAME: seq<byte> := [0x3C, 0x52, 0x4F, 0x4F, 0x54, 0x3E]

  datatype EntryKind = File | Directory | Symlink | NamedPipe | Socket
                     | CharDevice | BlockDevice | Hardlink | Unknown(sig: char)

  datatype Inode = Inode(flags: byte, uid: u64, gid: u64, mode: nat, atime: int, mtime: int, ctime: Option<int>)

  datatype FileFields = FileFields(size: u64, offset: u64, stored: u64, compression: byte, crc: Option<seq<byte>>)

  datatype EntryRef = EntryRef(
    path: seq<byte>, kind: EntryKind, inode: Inode, target: Option<seq<byte>>, fields: FileFields)

  const NO_FIELDS := FileFields(0, 0, 0, STORED, None)

  function MetaEntry(path: seq<byte>, kind: EntryKind, inode: Inode, target: Option<seq<byte>>): EntryRef {
    EntryRef(path, kind, inode, target, NO_FIELDS)
  }

  function TypeOf(sig: byte): nat { sig % 0x20 + 0x60 }

  predicate HasFsa(fmt: nat, flags: byte) { fmt >= 9 && flags / 0x10 % 2 == 1 }

  predicate HasFraction(unit: byte) { unit == UNIT_NANO || unit == UNIT_MICRO }

  /** The directories above, each followed by a slash, then the name. */
  function JoinPath(stack: seq<seq<byte>>, name: seq<byte>): seq<byte> {
    if stack == [] then name else stack[0] + [SLASH] + JoinPath(stack[1..], name)
  }

  // ---- Reads behind one entry ----

  function ReadStamp(d: seq<byte>, p: nat, fmt: nat): (r: Parsed<int>)
    ensures r.next >= p
    ensures r.Fail? ==> r.error != NotADar
  {
    if fmt < 9 then
      var (v, q) :- Inf(d, p);
      Done(AsI64(v), q)
    else
      var (unit, q) :- U8(d, p);
      var (v, q) :- Inf(d, q);
      if HasFraction(unit) then
        var (_, q) :- Inf(d, q);
        Done(AsI64(v), q)
      else Done(AsI64(v), q)
  }

  function ReadId(d: seq<byte>, p: nat, fmt: nat): (r: Parsed<u64>)
    ensures r.next >= p
    ensures r.Fail? ==> r.error != NotADar
  {
    if fmt <= 7 then
      var (v, q) :- U16(d, p);
      Done(v, q)
    else Inf(d, p)
  }

  /** Flags byte (edition 2 on), owner, group, permissions. */
  function ReadOwner(d: seq<byte>, p: nat, fmt: nat): (r: Parsed<Inode>)
    ensures r.next >= p
    ensures r.Fail? ==> r.error != NotADar
  {
    var (flags, q) :- if fmt >= 2 then U8(d, p) else Done(0, p);
    var (uid, q) :- ReadId(d, q, fmt);
    var (gid, q) :- ReadId(d, q, fmt);
    var (mode, q) :- U16(d, q);
    Done(Inode(flags, uid, gid, mode, 0, 0, None), q)
  }

  function ReadInodeBase(d: seq<byte>, p: nat, fmt: nat): (r: Parsed<Inode>)
    ensures r.next >= p
    ensures r.Fail? ==> r.error != NotADar
  {
    var (owner, q) :- ReadOwner(d, p, fmt);
    var (atime, q) :- ReadStamp(d, q, fmt);
    var (mtime, q) :- ReadStamp(d, q, fmt);
    var (ctime, q) :- ReadChange(d, q, fmt);
    var (_, q) :- ReadFsaInode(d, q, fmt, owner.flags);
    Done(owner.(atime := atime, mtime := mtime, ctime := ctime), q)
  }

  function ReadChange(d: seq<byte>, p: nat, fmt: nat): (r: Parsed<Option<int>>)
    ensures r.next >= p
    ensures r.Fail? ==> r.error != NotADar
  {
    if fmt >= 8 then
      var (t, q) :- ReadStamp(d, p, fmt);
      Done(Some(t), q)
    else Done(None, p)
  }

  function ReadFsaInode(d: seq<byte>, p: nat, fmt: nat, flags: byte): (r: Parsed<()>)
    ensures r.next >= p
    ensures r.Fail? ==> r.error != NotADar
  {
    if HasFsa(fmt, flags) then
      var (_, q) :- Inf(d, p);
      var (_, q) :- Inf(d, q);
      Done((), q)
    else Done((), p)
  }

  function SkipFsa(d: seq<byte>, p: nat): (r: Parsed<()>)
    ensures r.next >= p
    ensures r.Fail? ==> r.error != NotADar
  {
    var (_, q) :- Inf(d, p);
    var (size, q) :- Inf(d, q);
    Skip(q, size)
  }

  /** Name, inode and attribute block: what every entry but an EOD starts with. */
  function ReadHead(d: seq<byte>, p: nat, fmt: nat): (r: Parsed<(seq<byte>, Inode)>)
    ensures r.next >= p
    ensures r.Fail? ==> r.error != NotADar
  {
    var (name, q) :- NulBytes(d, p);
    var (inode, q) :- ReadInodeBase(d, q, fmt);
    if HasFsa(fmt, inode.flags) then
      var (_, q) :- SkipFsa(d, q);
      Done((name, inode), q)
    else Done((name, inode), q)
  }

  function ReadCrc(d: seq<byte>, p: nat): (r: Parsed<Option<seq<byte>>>)
    ensures r.next >= p
    ensures r.Fail? ==> r.error != NotADar
  {
    var (width, q) :- Inf(d, p);
    if width == 0 then Done(None, q)
    else if width > MAX_CRC_SIZE then Fail(Corrupt, q)
    else
      var (crc, q) :- Exact(d, q, width);
      Done(Some(crc), q)
  }

  /** Stored size, codec and checksum, in the layout of the edition. */
  function ReadStorage(d: seq<byte>, p: nat, fmt: nat, comp: byte, size: u64): (r: Parsed<(u64, byte,
                       Option<seq<byte>>)>)
    ensures r.next >= p
  {
    if fmt >= 8 then
      var (stored, q) :- Inf(d, p);
      var (_, q) :- U8(d, q);
      var (codec, q) :- U8(d, q);
      var (crc, q) :- ReadCrc(d, q);
      Done((stored, codec, crc), q)
    else if fmt >= 2 then
      var (stored, q) :- Inf(d, p);
      var (crc, q) :- Exact(d, q, 2);
      Done((stored, comp, Some(crc)), q)
    else Done((size, comp, None), p)
  }

  function ReadFileFields(d: seq<byte>, p: nat, fmt: nat, comp: byte): (r: Parsed<FileFields>)
    ensures r.next >= p
    ensures r.Fail? ==> r.error != NotADar
  {
    var (size, q) :- Inf(d, p);
    var (offset, q) :- Inf(d, q);
    var (s, q) :- ReadStorage(d, q, fmt, comp, size);
    Done(FileFields(size, offset, if fmt <= 7 && s.0 == 0 then size else s.0, s.1, s.2), q)
  }

  // ---- The walk ----

  /** One turn of the parse loop: stop, go on from `next`, or abort with an error. */
  datatype Move =
    | Stop(complete: bool, next: nat)
    | Go(next: nat, stack: seq<seq<byte>>, depth: nat, out: seq<EntryRef>)
    | Abort(error: Error, next: nat)

  function Popped<T>(s: seq<T>): seq<T> { if s == [] then [] else s[..|s| - 1] }

  function EndDir(next: nat, stack: seq<seq<byte>>, depth: nat): Move {
    if depth <= 1 then Stop(true, next) else Go(next, Popped(stack), depth - 1, [])
  }

  function OpenDir(h: (seq<byte>, Inode), next: nat, stack: seq<seq<byte>>, depth: nat): Move {
    if h.0 == ROOT_NAME then Go(next, stack, depth + 1, [])
    else Go(next, stack + [h.0], depth + 1,
            if depth == 0 then [] else [MetaEntry(JoinPath(stack, h.0), Directory, h.1, None)])
  }

  /** What follows the head of an entry that is not a directory. */
  function ReadLeaf(d: seq<byte>, p: nat, fmt: nat, comp: byte, typ: nat, path: seq<byte>,
                    inode: Inode): (r: Parsed<EntryRef>)
    ensures r.next >= p
    ensures r.Fail? ==> r.error != NotADar
  {
    if typ == TYPE_FILE then
      var (fields, q) :- ReadFileFields(d, p, fmt, comp);
      Done(EntryRef(path, File, inode, None, fields), q)
    else if typ == TYPE_LINK then
      var (target, q) :- NulBytes(d, p);
      Done(MetaEntry(path, Symlink, inode, Some(target)), q)
    else Done(MetaEntry(path, if typ == TYPE_PIPE then NamedPipe else Socket, inode, None), p)
  }

  predicate IsLeafType(typ: nat) {
    typ == TYPE_FILE || typ == TYPE_LINK || typ == TYPE_PIPE || typ == TYPE_SOCK
  }

  /** The arm for files, links, pipes and sockets; `p` is past the signature. */
  function LeafMove(d: seq<byte>, p: nat, fmt: nat, comp: byte, typ: nat, stack: seq<seq<byte>>, depth: nat): (m: Move)
    ensures m.next >= p
    ensures m.Abort? ==> m.error != NotADar
  {
    match ReadHead(d, p, fmt)
    case Fail(e, q) => Abort(e, q)
    case Done(h, q) =>
      match ReadLeaf(d, q, fmt, comp, typ, JoinPath(stack, h.0), h.1)
      case Fail(e, q') => Abort(e, q')
      case Done(entry, q') => Go(q', stack, depth, [entry])
  }

  function DirMove(d: seq<byte>, p: nat, fmt: nat, stack: seq<seq<byte>>, depth: nat): (m: Move)
    ensures m.next >= p
    ensures m.Abort? ==> m.error != NotADar
  {
    match ReadHead(d, p, fmt)
    case Fail(e, q) => Abort(e, q)
    case Done(h, q) => OpenDir(h, q, stack, depth)
  }

  function Step(d: seq<byte>, p: nat, fmt: nat, comp: byte, stack: seq<seq<byte>>, depth: nat): (m: Move)
    ensures m.next >= p
    ensures m.Abort? ==> m.error != NotADar
    ensures m.Go? ==> p < |d| && m.next > p
  {
    if p >= |d| then Stop(false, p)
    else if TypeOf(d[p]) == TYPE_EOD then EndDir(p + 1, stack, depth)
    else if TypeOf(d[p]) == TYPE_DIR then DirMove(d, p + 1, fmt, stack, depth)
    else if IsLeafType(TypeOf(d[p])) then LeafMove(d, p + 1, fmt, comp, TypeOf(d[p]), stack, depth)
    else Stop(false, p + 1)
  }

  datatype Walk = Walked(entries: seq<EntryRef>, complete: bool, next: nat) | Aborted(error: Error, next: nat) {
    function Prepend(out: seq<EntryRef>): Walk {
      match this
      case Walked(es, c, q) => Walked(out + es, c, q)
      case Aborted(_, _) => this
    }

    function ToResult(): Result<(seq<EntryRef>, bool)> {
      if Walked? then Ok((entries, complete)) else Err(error)
    }
  }

  function WalkFrom(d: seq<byte>, p: nat, fmt: nat, comp: byte, stack: seq<seq<byte>>, depth: nat): (w: Walk)
    ensures w.next >= p
    ensures w.Aborted? ==> w.error != NotADar
    decreases if p < |d| then |d| - p else 0
  {
    match Step(d, p, fmt, comp, stack, depth)
    case Stop(c, q) => Walked([], c, q)
    case Abort(e, q) => Aborted(e, q)
    case Go(q, stack', depth', out) => WalkFrom(d, q, fmt, comp, stack', depth').Prepend(out)
  }

  function ParsedCatalogue(d: seq<byte>, p: nat, fmt: nat, comp: byte): Walk {
    WalkFrom(d, p, fmt, comp, [], 0)
  }

  // ---- The same reads as the program performs them ----

  method ReadTimestamp(r: Source, fmt: nat) returns (t: Result<int>)
    modifies r.Repr()
    ensures t == ReadStamp(r.Data(), old(r.Pos()), fmt).ToResult()
            && r.Pos() == ReadStamp(r.Data(), old(r.Pos()), fmt).next
  {
    if fmt < 9 {
      var v :- r.ReadInfinint();
      return Ok(AsI64(v));
    }
    var unit :- r.ReadU8();
    var secs :- r.ReadInfinint();
    if unit == UNIT_NANO || unit == UNIT_MICRO {
      var _ :- r.ReadInfinint();
    }
    t := Ok(AsI64(secs));
  }

  method ReadOwnership(r: Source, fmt: nat) returns (i: Result<Inode>)
    modifies r.Repr()
    ensures i == ReadOwner(r.Data(), old(r.Pos()), fmt).ToResult()
            && r.Pos() == ReadOwner(r.Data(), old(r.Pos()), fmt).next
  {
    var flags: byte := 0;
    if fmt >= 2 {
      flags :- r.ReadU8();
    }
    var uid: u64, gid: u64 := 0, 0;
    if fmt <= 7 {
      uid :- r.ReadU16();
      gid :- r.ReadU16();
    } else {
      uid :- r.ReadInfinint();
      gid :- r.ReadInfinint();
    }
    var mode :- r.ReadU16();
    i := Ok(Inode(flags, uid, gid, mode, 0, 0, None));
  }

  method ReadInode(r: Source, fmt: nat) returns (i: Result<Inode>)
    modifies r.Repr()
    ensures i == ReadInodeBase(r.Data(), old(r.Pos()), fmt).ToResult()
            && r.Pos() == ReadInodeBase(r.Data(), old(r.Pos()), fmt).next
  {
    var owner :- ReadOwnership(r, fmt);
    var atime :- ReadTimestamp(r, fmt);
    var mtime :- ReadTimestamp(r, fmt);
    var ctime: Option<int> := None;
    if fmt >= 8 {
      var t :- ReadTimestamp(r, fmt);
      ctime := Some(t);
    }
    if fmt >= 9 && owner.flags / 0x10 % 2 != 0 {
      var _ :- r.ReadInfinint();
      var _ :- r.ReadInfinint();
    }
    i := Ok(owner.(atime := atime, mtime := mtime, ctime := ctime));
  }

  method ReadNameAndInode(r: Source, fmt: nat) returns (h: Result<(seq<byte>, Inode)>)
    requires r.Fits()
    modifies r.Repr()
    ensures h == ReadHead(r.Data(), old(r.Pos()), fmt).ToResult()
            && r.Pos() == ReadHead(r.Data(), old(r.Pos()), fmt).next
  {
    var name :- r.ReadNulBytes();
    var inode :- ReadInode(r, fmt);
    if fmt >= 9 && inode.flags / 0x10 % 2 != 0 {
      var _ :- r.ReadInfinint();
      var size :- r.ReadInfinint();
      var _ :- r.SkipBytes(size);
    }
    h := Ok((name, inode));
  }

  method ReadFile(r: Source, fmt: nat, comp: byte) returns (f: Result<FileFields>)
    modifies r.Repr()
    ensures f == ReadFileFields(r.Data(), old(r.Pos()), fmt, comp).ToResult()
    ensures r.Pos() == ReadFileFields(r.Data(), old(r.Pos()), fmt, comp).next
  {
    var size :- r.ReadInfinint();
    var offset :- r.ReadInfinint();
    var stored: u64, codec, crc: Option<seq<byte>> := size, comp, None;
    if fmt >= 8 {
      stored :- r.ReadInfinint();
      var _ :- r.ReadU8();
      codec :- r.ReadU8();
      var width :- r.ReadInfinint();
      if width > MAX_CRC_SIZE {
        return Err(Corrupt);
      }
      if width != 0 {
        var bytes :- r.ReadExact(width);
        crc := Some(bytes);
      }
    } else if fmt >= 2 {
      stored :- r.ReadInfinint();
      var bytes :- r.ReadExact(2);
      crc := Some(bytes);
    }
    if fmt <= 7 && stored == 0 {
      stored := size;
    }
    f := Ok(FileFields(size, offset, stored, codec, crc));
  }

  method Join(stack: seq<seq<byte>>, name: seq<byte>) returns (path: seq<byte>)
    ensures path == JoinPath(stack, name)
  {
    path := [];
    for i := 0 to |stack|
      invariant path + JoinPath(stack[i..], name) == JoinPath(stack, name)
    {
      assert stack[i..][1..] == stack[i + 1..];
      path := path + stack[i] + [SLASH];
    }
    path := path + name;
  }

  /** The arm of the parse loop for files, links, pipes and sockets. */
  method ParseLeaf(r: Source, fmt: nat, comp: byte, typ: nat, stack: seq<seq<byte>>, ghost depth: nat)
    returns (e: Result<EntryRef>)
    requires IsLeafType(typ)
    requires r.Fits()
    modifies r.Repr()
    ensures LeafMove(r.Data(), old(r.Pos()), fmt, comp, typ, stack, depth)
            == if e.Ok? then Go(r.Pos(), stack, depth, [e.value]) else Abort(e.error, r.Pos())
  {
    var h :- ReadNameAndInode(r, fmt);
    var path := Join(stack, h.0);
    if typ == TYPE_FILE {
      var fields :- ReadFile(r, fmt, comp);
      e := Ok(EntryRef(path, File, h.1, None, fields));
    } else if typ == TYPE_LINK {
      var target :- r.ReadNulBytes();
      e := Ok(MetaEntry(path, Symlink, h.1, Some(target)));
    } else {
      e := Ok(MetaEntry(path, if typ == TYPE_PIPE then NamedPipe else Socket, h.1, None));
    }
  }

  /** The parse loop. */
  method ParseCatalog(r: Source, fmt: nat, comp: byte) returns (c: Result<(seq<EntryRef>, bool)>)
    requires r.Fits()
    modifies r.Repr()
    ensures c == ParsedCatalogue(r.Data(), old(r.Pos()), fmt, comp).ToResult()
    ensures r.Pos() == ParsedCatalogue(r.Data(), old(r.Pos()), fmt, comp).next
  {
    hide ReadHead, JoinPath, LeafMove;
    var entries: seq<EntryRef> := [];
    var stack: seq<seq<byte>> := [];
    var depth: nat := 0;
    ghost var whole := ParsedCatalogue(r.Data(), r.Pos(), fmt, comp);
    assert whole == whole.Prepend(entries);
    while true
      invariant whole == WalkFrom(r.Data(), r.Pos(), fmt, comp, stack, depth).Prepend(entries)
      decreases if r.Pos() < |r.Data()| then |r.Data()| - r.Pos() else 0
    {
      ghost var move, before := Step(r.Data(), r.Pos(), fmt, comp, stack, depth), entries;
      var sig := r.ReadU8();
      if sig.Err? {
        assert entries + [] == entries;
        return Ok((entries, false));
      }
      var typ := sig.value % 0x20 + 0x60;
      if typ == TYPE_EOD {
        depth := if depth == 0 then 0 else depth - 1;
        stack := if stack == [] then [] else stack[..|stack| - 1];
        if depth == 0 {
          assert entries + [] == entries;
          return Ok((entries, true));
        }
      } else if typ == TYPE_DIR {
        var h :- ReadNameAndInode(r, fmt);
        depth := depth + 1;
        if h.0 != ROOT_NAME {
          if depth != 1 {
            var path := Join(stack, h.0);
            entries := entries + [MetaEntry(path, Directory, h.1, None)];
          }
          stack := stack + [h.0];
        }
      } else if typ == TYPE_FILE || typ == TYPE_LINK || typ == TYPE_PIPE || typ == TYPE_SOCK {
        var entry :- ParseLeaf(r, fmt, comp, typ, stack, depth);
        entries := entries + [entry];
      } else {
        assert entries + [] == entries;
        return Ok((entries, false));
      }
      assert move == Go(r.Pos(), stack, depth, move.out) && entries == before + move.out;
      PrependTwice(WalkFrom(r.Data(), r.Pos(), fmt, comp, stack, depth), before, move.out);
    }
  }

  lemma PrependTwice(w: Walk, a: seq<EntryRef>, b: seq<EntryRef>)
    ensures w.Prepend(b).Prepend(a) == w.Prepend(a + b)
  {
    if w.Walked? {
      assert a + (b + w.entries) == (a + b) + w.entries;
    }
  }
}
