/** A listing reported complete was read from a whole, well-bracketed catalogue and nothing else. */
module Soundness {
  import opened Bytes
  import opened Wire
  import opened Catalogue
  import opened Grammar
  import opened Roundtrip

  lemma {:induction false} StampSound(d: seq<byte>, p: nat, fmt: nat) returns (s: Stamp)
    requires ReadStamp(d, p, fmt).Done?
    ensures s.Valid() && At(d, p, EncodeStamp(fmt, s))
    ensures ReadStamp(d, p, fmt) == Done(Signed(s.secs.v), p + |EncodeStamp(fmt, s)|)
  {
    hide At, Inf, EncodeInfinint;
    if fmt < 9 {
      var secs := InfSound(d, p);
      s := Whole('s' as int, secs);
    } else {
      AtOne(d, p, d[p]);
      var secs := InfSound(d, p + 1);
      var code := EncodeInfinint(secs);
      if HasFraction(d[p]) {
        var f := InfSound(d, p + 1 + |code|);
        s := if d[p] == UNIT_MICRO then Micro(secs, f) else Nano(secs, f);
        AtConcat(d, p + 1, code, EncodeInfinint(f));
        AtConcat(d, p, [d[p]], code + EncodeInfinint(f));
      } else {
        s := Whole(d[p], secs);
        AtConcat(d, p, [d[p]], code);
      }
    }
  }

  lemma {:induction false} IdSound(d: seq<byte>, p: nat, fmt: nat) returns (x: Infinint)
    requires ReadId(d, p, fmt).Done?
    ensures x.Valid() && (fmt <= 7 ==> x.v < 0x1_0000) && At(d, p, EncodeId(fmt, x))
    ensures ReadId(d, p, fmt) == Done(x.v, p + |EncodeId(fmt, x)|)
  {
    hide At, Inf, EncodeInfinint;
    if fmt <= 7 {
      U16Sound(d, p);
      x := Infinint(U16(d, p).value, false);
    } else {
      x := InfSound(d, p);
    }
  }

  lemma {:induction false} OwnerSound(d: seq<byte>, p: nat, fmt: nat) returns (i: RawInode)
    requires ReadOwner(d, p, fmt).Done?
    ensures ValidInode(fmt, i) && At(d, p, EncodeOwner(fmt, i))
    ensures ReadOwner(d, p, fmt)
            == Done(Inode(i.flags, i.uid.v, i.gid.v, i.mode, 0, 0, None), p + |EncodeOwner(fmt, i)|)
  {
    hide At, U16, ReadId, EncodeId;
    var flags: byte := if fmt >= 2 then d[p] else 0;
    var code := if fmt >= 2 then [flags] else [];
    assert At(d, p, code) by {
      AtEmpty(d, p, fmt);
      AtOne(d, p, flags);
    }
    var q := p + |code|;
    var uid := IdSound(d, q, fmt);
    var q1 := q + |EncodeId(fmt, uid)|;
    var gid := IdSound(d, q1, fmt);
    var q2 := q1 + |EncodeId(fmt, gid)|;
    U16Sound(d, q2);
    var mode := U16(d, q2).value;
    AtConcat(d, q1, EncodeId(fmt, gid), EncodeBigEndian(mode, 2));
    AtConcat(d, q, EncodeId(fmt, uid), EncodeId(fmt, gid) + EncodeBigEndian(mode, 2));
    AtConcat(d, p, code, EncodeId(fmt, uid) + (EncodeId(fmt, gid) + EncodeBigEndian(mode, 2)));
    i := RawInode(flags, uid, gid, mode, EPOCH, EPOCH, EPOCH, ZERO, ZERO);
    assert EncodeFlags(fmt, i) == code;
  }

  /** A read that succeeds further on has its cursor inside the input. */
  lemma {:induction false} AtEmpty(d: seq<byte>, p: nat, fmt: nat)
    requires ReadOwner(d, p, fmt).Done?
    ensures At(d, p, [])
  {
  }

  lemma {:induction false} FsaInodeSound(d: seq<byte>, p: nat, fmt: nat, i: RawInode) returns (j: RawInode)
    requires p <= |d| && ReadFsaInode(d, p, fmt, i.flags).Done? && ValidInode(fmt, i)
    ensures j == i.(families := j.families, fsaSize := j.fsaSize) && ValidInode(fmt, j)
    ensures At(d, p, EncodeFsaInode(fmt, j))
    ensures ReadFsaInode(d, p, fmt, i.flags) == Done((), p + |EncodeFsaInode(fmt, j)|)
  {
    hide Inf, EncodeInfinint;
    j := i;
    if Attributed(fmt, i.flags) {
      var a := InfSound(d, p);
      var b := InfSound(d, p + |EncodeInfinint(a)|);
      AtConcat(d, p, EncodeInfinint(a), EncodeInfinint(b));
      j := i.(families := a, fsaSize := b);
    }
  }

  lemma {:induction false} TimesSound(d: seq<byte>, p: nat, fmt: nat, i: RawInode) returns (j: RawInode)
    requires ReadStamp(d, p, fmt).Done? && ReadStamp(d, ReadStamp(d, p, fmt).next, fmt).Done?
    requires ReadChange(d, ReadStamp(d, ReadStamp(d, p, fmt).next, fmt).next, fmt).Done?
    requires ValidInode(fmt, i)
    ensures j == i.(atime := j.atime, mtime := j.mtime, ctime := j.ctime) && ValidInode(fmt, j)
    ensures At(d, p, EncodeStamp(fmt, j.atime) + (EncodeStamp(fmt, j.mtime) + EncodeChange(fmt, j)))
    ensures ReadStamp(d, p, fmt) == Done(Signed(j.atime.secs.v), p + |EncodeStamp(fmt, j.atime)|)
    ensures var q := p + |EncodeStamp(fmt, j.atime)|;
            && ReadStamp(d, q, fmt) == Done(Signed(j.mtime.secs.v), q + |EncodeStamp(fmt, j.mtime)|)
            && ReadChange(d, q + |EncodeStamp(fmt, j.mtime)|, fmt)
               == Done(if fmt >= 8 then Some(Signed(j.ctime.secs.v)) else None,
                       q + |EncodeStamp(fmt, j.mtime)| + |EncodeChange(fmt, j)|)
  {
    hide At, ReadStamp, EncodeStamp;
    var a := StampSound(d, p, fmt);
    var q := p + |EncodeStamp(fmt, a)|;
    var m := StampSound(d, q, fmt);
    var q' := q + |EncodeStamp(fmt, m)|;
    j := i.(atime := a, mtime := m);
    if fmt >= 8 {
      var c := StampSound(d, q', fmt);
      j := j.(ctime := c);
    } else {
      assert EncodeStamp(fmt, m) + [] == EncodeStamp(fmt, m);
    }
    var ctime := EncodeChange(fmt, j);
    if fmt >= 8 {
      AtConcat(d, q, EncodeStamp(fmt, m), ctime);
    }
    AtConcat(d, p, EncodeStamp(fmt, a), EncodeStamp(fmt, m) + ctime);
  }

  lemma {:induction false} InodeSound(d: seq<byte>, p: nat, fmt: nat) returns (i: RawInode)
    requires ReadInodeBase(d, p, fmt).Done?
    ensures ValidInode(fmt, i) && At(d, p, EncodeInode(fmt, i))
    ensures ReadInodeBase(d, p, fmt) == Done(InodeOf(fmt, i), p + |EncodeInode(fmt, i)|)
  {
    hide At, ReadOwner, EncodeOwner, ReadStamp, EncodeStamp, ReadChange, ReadFsaInode, EncodeFsaInode, ValidInode;
    var o := OwnerSound(d, p, fmt);
    var q := p + |EncodeOwner(fmt, o)|;
    var t := TimesSound(d, q, fmt, o);
    var atime, mtime, ctime := EncodeStamp(fmt, t.atime), EncodeStamp(fmt, t.mtime), EncodeChange(fmt, t);
    AtConcat(d, q, atime, mtime + ctime);
    var q1 := q + |atime|;
    AtConcat(d, q1, mtime, ctime);
    var q2 := q1 + |mtime|;
    AtWithin(d, q2, ctime);
    i := FsaInodeSound(d, q2 + |ctime|, fmt, t);
    var fsa := EncodeFsaInode(fmt, i);
    assert EncodeChange(fmt, i) == ctime;
    AtConcat(d, q2, ctime, fsa);
    AtConcat(d, q1, mtime, ctime + fsa);
    AtConcat(d, q, atime, mtime + (ctime + fsa));
    assert EncodeOwner(fmt, i) == EncodeOwner(fmt, o) by { OwnerIgnores(fmt, o, i); }
    AtConcat(d, p, EncodeOwner(fmt, i), atime + (mtime + (ctime + fsa)));
  }

  lemma {:induction false} OwnerIgnores(fmt: nat, o: RawInode, i: RawInode)
    requires o.flags == i.flags && o.uid == i.uid && o.gid == i.gid && o.mode == i.mode
    ensures EncodeOwner(fmt, i) == EncodeOwner(fmt, o)
  {
  }

  lemma {:induction false} HeadSound(d: seq<byte>, p: nat, fmt: nat) returns (h: Head)
    requires p < |d| && ReadHead(d, p + 1, fmt).Done? && ReadHead(d, p + 1, fmt).next <= |d|
    ensures ValidHead(fmt, h) && h.sig == d[p] && At(d, p, EncodeHead(fmt, h))
    ensures ReadHead(d, p + 1, fmt) == Done((h.name, InodeOf(fmt, h.inode)), p + |EncodeHead(fmt, h)|)
  {
    hide At, NulFrom, ReadInodeBase, EncodeInode, Inf, EncodeInfinint, ValidInode;
    AtOne(d, p, d[p]);
    var name := NulFromSound(d, p + 1, []);
    assert [] + name == name;
    var q := p + 1 + |name| + 1;
    var inode := InodeSound(d, q, fmt);
    var q' := q + |EncodeInode(fmt, inode)|;
    h := Head(d[p], name, inode, Fsa(ZERO, ZERO, []));
    var block := [];
    if Attributed(fmt, inode.flags) {
      var tag := InfSound(d, q');
      var r := q' + |EncodeInfinint(tag)|;
      var length := InfSound(d, r);
      var e := r + |EncodeInfinint(length)|;
      var payload := d[e..e + length.v];
      h := h.(fsa := Fsa(tag, length, payload));
      assert At(d, e, payload) by { SliceAt(d, e, payload); }
      AtConcat(d, r, EncodeInfinint(length), payload);
      AtConcat(d, q', EncodeInfinint(tag), EncodeInfinint(length) + payload);
      block := EncodeFsa(fmt, h);
      AtConcat(d, q, EncodeInode(fmt, inode), block);
    } else {
      assert EncodeInode(fmt, inode) + [] == EncodeInode(fmt, inode);
    }
    AtConcat(d, p + 1, name + [0], EncodeInode(fmt, inode) + block);
    AtConcat(d, p, [d[p]], (name + [0]) + (EncodeInode(fmt, inode) + block));
  }

  lemma {:induction false} CrcSound(d: seq<byte>, p: nat) returns (width: Infinint, crc: seq<byte>)
    requires ReadCrc(d, p).Done?
    ensures width.Valid() && width.v == |crc| <= MAX_CRC_SIZE && At(d, p, EncodeInfinint(width) + crc)
    ensures ReadCrc(d, p) == Done(if crc == [] then None else Some(crc), p + |EncodeInfinint(width)| + |crc|)
  {
    hide At, Inf, EncodeInfinint;
    width := InfSound(d, p);
    var e := p + |EncodeInfinint(width)|;
    crc := if width.v == 0 then [] else d[e..e + width.v];
    if width.v != 0 {
      SliceAt(d, e, crc);
      AtConcat(d, p, EncodeInfinint(width), crc);
    } else {
      assert EncodeInfinint(width) + crc == EncodeInfinint(width);
    }
  }

  lemma {:induction false} ModernStorageSound(d: seq<byte>, p: nat, fmt: nat, comp: byte, size: Infinint,
                                              offset: Infinint)
    returns (b: FileBody)
    requires fmt >= 8 && size.Valid() && offset.Valid() && ReadStorage(d, p, fmt, comp, size.v).Done?
    ensures ValidBody(fmt, b) && b.size == size && b.offset == offset && At(d, p, EncodeStorage(fmt, b))
    ensures ReadStorage(d, p, fmt, comp, size.v)
            == Done((b.stored.v, b.codec, FieldsOf(fmt, comp, b).crc), p + |EncodeStorage(fmt, b)|)
  {
    hide At, Inf, EncodeInfinint, ReadCrc;
    var stored := InfSound(d, p);
    var q := p + |EncodeInfinint(stored)|;
    var width, crc := CrcSound(d, q + 2);
    b := FileBody(size, offset, stored, d[q], d[q + 1], width, crc);
    var code := EncodeInfinint(width) + crc;
    AtOne(d, q, d[q]);
    AtOne(d, q + 1, d[q + 1]);
    AtConcat(d, q + 1, [d[q + 1]], code);
    AtConcat(d, q, [d[q]], [d[q + 1]] + code);
    AtConcat(d, p, EncodeInfinint(stored), [d[q]] + ([d[q + 1]] + code));
  }

  lemma {:induction false} StorageSound(d: seq<byte>, p: nat, fmt: nat, comp: byte, size: Infinint, offset: Infinint)
    returns (b: FileBody)
    requires p <= |d| && size.Valid() && offset.Valid() && ReadStorage(d, p, fmt, comp, size.v).Done?
    ensures ValidBody(fmt, b) && b.size == size && b.offset == offset && At(d, p, EncodeStorage(fmt, b))
    ensures ReadStorage(d, p, fmt, comp, size.v) == Done(
              (if fmt >= 2 then b.stored.v else size.v, if fmt >= 8 then b.codec else comp, FieldsOf(fmt, comp, b).crc),
              p + |EncodeStorage(fmt, b)|)
  {
    hide At, Inf, EncodeInfinint, ReadCrc;
    if fmt >= 8 {
      b := ModernStorageSound(d, p, fmt, comp, size, offset);
    } else if fmt >= 2 {
      var stored := InfSound(d, p);
      var q := p + |EncodeInfinint(stored)|;
      var crc := d[q..q + 2];
      SliceAt(d, q, crc);
      AtConcat(d, p, EncodeInfinint(stored), crc);
      b := FileBody(size, offset, stored, 0, 0, ZERO, crc);
    } else {
      SliceAt(d, p, []);
      b := FileBody(size, offset, ZERO, 0, 0, ZERO, []);
    }
  }

  lemma {:induction false} BodySound(d: seq<byte>, p: nat, fmt: nat, comp: byte) returns (b: FileBody)
    requires ReadFileFields(d, p, fmt, comp).Done?
    ensures ValidBody(fmt, b) && At(d, p, EncodeBody(fmt, b))
    ensures ReadFileFields(d, p, fmt, comp) == Done(FieldsOf(fmt, comp, b), p + |EncodeBody(fmt, b)|)
  {
    hide At, Inf, EncodeInfinint, ReadStorage, EncodeStorage;
    var size := InfSound(d, p);
    var q := p + |EncodeInfinint(size)|;
    var offset := InfSound(d, q);
    var e := q + |EncodeInfinint(offset)|;
    AtWithin(d, q, EncodeInfinint(offset));
    b := StorageSound(d, e, fmt, comp, size, offset);
    AtConcat(d, q, EncodeInfinint(offset), EncodeStorage(fmt, b));
    AtConcat(d, p, EncodeInfinint(size), EncodeInfinint(offset) + EncodeStorage(fmt, b));
  }

  lemma {:induction false} LeafSound(d: seq<byte>, p: nat, fmt: nat, comp: byte, stack: seq<seq<byte>>, depth: nat)
    returns (t: Node)
    requires p < |d| && IsLeafType(TypeOf(d[p]))
    requires Step(d, p, fmt, comp, stack, depth).Go? && Step(d, p, fmt, comp, stack, depth).next <= |d|
    ensures Valid(fmt, t) && !t.Dir? && At(d, p, Encode(fmt, t))
    ensures Step(d, p, fmt, comp, stack, depth)
            == Go(p + |Encode(fmt, t)|, stack, depth, [EntryOf(fmt, comp, stack, t)])
  {
    hide At, ReadHead, EncodeHead, ReadFileFields, EncodeBody, NulFrom, InodeOf, FieldsOf, JoinPath, ValidHead;
    var h := HeadSound(d, p, fmt);
    var q := p + |EncodeHead(fmt, h)|;
    var typ := TypeOf(d[p]);
    if typ == TYPE_FILE {
      var b := BodySound(d, q, fmt, comp);
      t := Reg(h, b);
      AtConcat(d, p, EncodeHead(fmt, h), EncodeBody(fmt, b));
    } else if typ == TYPE_LINK {
      var target := NulFromSound(d, q, []);
      assert [] + target == target;
      t := Link(h, target);
      AtConcat(d, p, EncodeHead(fmt, h), target + [0]);
    } else {
      t := if typ == TYPE_PIPE then Pipe(h) else Sock(h);
    }
  }

  /** A walk that ends complete never stands still, nor leaves the input, before its last end mark. */
  lemma {:induction false} CompleteGoesOn(d: seq<byte>, p: nat, fmt: nat, comp: byte, stack: seq<seq<byte>>, depth: nat)
    requires WalkFrom(d, p, fmt, comp, stack, depth).Walked? && WalkFrom(d, p, fmt, comp, stack, depth).complete
    ensures p < |d|
    ensures var typ := TypeOf(d[p]);
            && (typ == TYPE_EOD || typ == TYPE_DIR || IsLeafType(typ))
            && (typ == TYPE_EOD ==> Step(d, p, fmt, comp, stack, depth) == EndDir(p + 1, stack, depth))
            && (typ == TYPE_DIR ==> Step(d, p, fmt, comp, stack, depth) == DirMove(d, p + 1, fmt, stack, depth))
            && (IsLeafType(typ) ==> Step(d, p, fmt, comp, stack, depth).Go?)
    ensures var move := Step(d, p, fmt, comp, stack, depth);
            if move.Stop? then move.next == WalkFrom(d, p, fmt, comp, stack, depth).next
            else move.Go? && p < move.next < |d| &&
                 var w := WalkFrom(d, move.next, fmt, comp, move.stack, move.depth);
                 w.Walked? && w.complete && w.next == WalkFrom(d, p, fmt, comp, stack, depth).next
  {
    hide ReadHead, ReadLeaf;
  }

  /** What is left of an open directory, and where the walk resumes once it is closed. */
  datatype Level = Level(kids: seq<Node>, eod: byte, next: nat, stack: seq<seq<byte>>)

  lemma {:induction false} DirSound(d: seq<byte>, p: nat, fmt: nat, comp: byte, stack: seq<seq<byte>>, depth: nat)
    returns (l: Level)
    requires depth > 0
    requires WalkFrom(d, p, fmt, comp, stack, depth).Walked? && WalkFrom(d, p, fmt, comp, stack, depth).complete
    ensures AllValid(fmt, l.kids) && Says(l.eod, 'z')
    ensures At(d, p, EncodeAll(fmt, l.kids) + [l.eod]) && l.next == p + |EncodeAll(fmt, l.kids)| + 1 <= |d|
    ensures depth == 1 ==> WalkFrom(d, p, fmt, comp, stack, depth).next == l.next
    ensures depth > 1 ==> var w := WalkFrom(d, l.next, fmt, comp, l.stack, depth - 1);
                          w.Walked? && w.complete && w.next == WalkFrom(d, p, fmt, comp, stack, depth).next
    decreases |d| - p
  {
    hide At, ReadHead, EncodeHead, ValidHead, Step, WalkFrom, Encode, InodeOf, JoinPath;
    CompleteGoesOn(d, p, fmt, comp, stack, depth);
    var typ := TypeOf(d[p]);
    if typ == TYPE_EOD {
      l := Level([], d[p], p + 1, Popped(stack));
      AtOne(d, p, d[p]);
      assert [] + [d[p]] == [d[p]];
    } else {
      var move := Step(d, p, fmt, comp, stack, depth);
      var first: Node, q, s := Pipe(Head(0, [], PLAIN_INODE, NO_FSA)), move.next, stack;
      if typ == TYPE_DIR {
        var h := HeadSound(d, p, fmt);
        var inner := DirSound(d, move.next, fmt, comp, move.stack, depth + 1);
        first, q, s := Dir(h, inner.kids, inner.eod), inner.next, inner.stack;
        DirAt(d, p, fmt, first);
      } else {
        first := LeafSound(d, p, fmt, comp, stack, depth);
      }
      var rest := DirSound(d, q, fmt, comp, s, depth);
      l := rest.(kids := [first] + rest.kids);
      AtConcat(d, p, Encode(fmt, first), EncodeAll(fmt, rest.kids) + [rest.eod]);
      assert l.kids[1..] == rest.kids;
      assert EncodeAll(fmt, l.kids) == Encode(fmt, first) + EncodeAll(fmt, rest.kids);
      assert Encode(fmt, first) + EncodeAll(fmt, rest.kids) + [rest.eod]
          == Encode(fmt, first) + (EncodeAll(fmt, rest.kids) + [rest.eod]);
    }
  }

  lemma {:induction false} DirAt(d: seq<byte>, p: nat, fmt: nat, t: Node)
    requires t.Dir? && At(d, p, EncodeHead(fmt, t.head))
    requires At(d, p + |EncodeHead(fmt, t.head)|, EncodeAll(fmt, t.kids) + [t.eod])
    ensures At(d, p, Encode(fmt, t))
    ensures |Encode(fmt, t)| == |EncodeHead(fmt, t.head)| + |EncodeAll(fmt, t.kids)| + 1
  {
    hide At, EncodeHead, EncodeAll;
    AtConcat(d, p, EncodeHead(fmt, t.head), EncodeAll(fmt, t.kids) + [t.eod]);
  }

  lemma {:induction false} TopSound(d: seq<byte>, p: nat, fmt: nat, comp: byte) returns (c: Catalog)
    requires ParsedCatalogue(d, p, fmt, comp).Walked? && ParsedCatalogue(d, p, fmt, comp).complete
    ensures c.WellFormed(fmt) && At(d, p, c.Encoded(fmt))
    decreases |d| - p
  {
    hide At, ReadHead, EncodeHead, ValidHead, Step, WalkFrom, Encode, InodeOf;
    CompleteGoesOn(d, p, fmt, comp, [], 0);
    var typ := TypeOf(d[p]);
    if typ == TYPE_EOD {
      c := Bare([], d[p]);
      AtOne(d, p, d[p]);
      assert [] + [d[p]] == [d[p]];
    } else if typ == TYPE_DIR {
      var move := Step(d, p, fmt, comp, [], 0);
      var h := HeadSound(d, p, fmt);
      var inner := DirSound(d, move.next, fmt, comp, move.stack, 1);
      c := Rooted([], Dir(h, inner.kids, inner.eod));
      DirAt(d, p, fmt, c.root);
      assert [] + Encode(fmt, c.root) == Encode(fmt, c.root);
    } else {
      var first := LeafSound(d, p, fmt, comp, [], 0);
      var rest := TopSound(d, p + |Encode(fmt, first)|, fmt, comp);
      c := rest.(lead := [first] + rest.lead);
      assert c.lead[1..] == rest.lead;
      var tail := if rest.Rooted? then Encode(fmt, rest.root) else [rest.eod];
      assert Encode(fmt, first) + EncodeAll(fmt, rest.lead) + tail
          == Encode(fmt, first) + (EncodeAll(fmt, rest.lead) + tail);
      AtConcat(d, p, Encode(fmt, first), rest.Encoded(fmt));
    }
  }

  /**
   * A listing is complete if and only if a whole catalogue of the grammar stands there; the walk ends at
   * that catalogue's end and reports its entries.
   */
  lemma {:induction false} CompleteIffCatalogue(d: seq<byte>, p: nat, fmt: nat, comp: byte)
    ensures var w := ParsedCatalogue(d, p, fmt, comp);
            w.Walked? && w.complete
            <==> exists c: Catalog :: c.WellFormed(fmt) && At(d, p, c.Encoded(fmt))
                                      && w == Walked(CatalogEntries(fmt, comp, c), true, p + |c.Encoded(fmt)|)
  {
    hide At, WalkFrom, Encode, EncodeAll, CatalogEntries, AllValid, Valid;
    var w := ParsedCatalogue(d, p, fmt, comp);
    if w.Walked? && w.complete {
      var c := TopSound(d, p, fmt, comp);
      CatalogWalk(d, p, fmt, comp, c);
    }
    forall c: Catalog | c.WellFormed(fmt) && At(d, p, c.Encoded(fmt))
      ensures w == Walked(CatalogEntries(fmt, comp, c), true, p + |c.Encoded(fmt)|)
    {
      CatalogWalk(d, p, fmt, comp, c);
    }
  }
}
