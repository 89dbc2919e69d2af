/** Reading back what was written: every tree, every edition, any bytes after it. */
module Roundtrip {
  import opened Bytes
  import opened Wire
  import opened Catalogue
  import opened Grammar

  lemma StampReads(d: seq<byte>, p: nat, fmt: nat, s: Stamp)
    requires s.Valid() && At(d, p, EncodeStamp(fmt, s))
    ensures ReadStamp(d, p, fmt) == Done(Signed(s.secs.v), p + |EncodeStamp(fmt, s)|)
  {
    hide At, Inf, EncodeInfinint;
    if fmt < 9 {
      InfReads(d, p, s.secs);
    } else {
      var unit: byte := if s.Whole? then s.unit else if s.Micro? then 'u' as int else 'n' as int;
      var secs := EncodeInfinint(s.secs);
      AtOne(d, p, unit);
      if s.Whole? {
        AtConcat(d, p, [unit], secs);
      } else {
        AtConcat(d, p, [unit], secs + EncodeInfinint(s.fraction));
        AtConcat(d, p + 1, secs, EncodeInfinint(s.fraction));
        InfReads(d, p + 1 + |secs|, s.fraction);
      }
      InfReads(d, p + 1, s.secs);
    }
  }

  /** Behind seconds under micro- or nanoseconds stands a second number, and behind no others. */
  lemma {:induction false} StampEnds(d: seq<byte>, p: nat, fmt: nat, secs: Infinint, fraction: Infinint)
    requires fmt >= 9 && p < |d| && secs.Valid() && fraction.Valid()
    requires At(d, p + 1, EncodeInfinint(secs) + EncodeInfinint(fraction))
    ensures ReadStamp(d, p, fmt)
            == Done(Signed(secs.v), p + 1 + |EncodeInfinint(secs)|
                                    + if d[p] == 0x6E || d[p] == 0x75 then |EncodeInfinint(fraction)| else 0)
  {
    hide At, Inf, EncodeInfinint;
    AtConcat(d, p + 1, EncodeInfinint(secs), EncodeInfinint(fraction));
    InfReads(d, p + 1, secs);
    InfReads(d, p + 1 + |EncodeInfinint(secs)|, fraction);
  }

  lemma IdReads(d: seq<byte>, p: nat, fmt: nat, x: Infinint)
    requires x.Valid() && (fmt <= 7 ==> x.v < 0x1_0000) && At(d, p, EncodeId(fmt, x))
    ensures ReadId(d, p, fmt) == Done(x.v, p + |EncodeId(fmt, x)|)
  {
    if fmt <= 7 {
      U16Reads(d, p, x.v);
    } else {
      InfReads(d, p, x);
    }
  }

  lemma OwnerReads(d: seq<byte>, p: nat, fmt: nat, i: RawInode)
    requires ValidInode(fmt, i) && At(d, p, EncodeOwner(fmt, i))
    ensures ReadOwner(d, p, fmt)
            == Done(Inode(i.flags, i.uid.v, i.gid.v, i.mode, 0, 0, None), p + |EncodeOwner(fmt, i)|)
  {
    hide At, U16, Inf, EncodeInfinint, ReadId, EncodeId;
    var flags, uid, gid, mode := EncodeFlags(fmt, i), EncodeId(fmt, i.uid), EncodeId(fmt, i.gid),
                                EncodeBigEndian(i.mode, 2);
    AtConcat(d, p, flags, uid + (gid + mode));
    AtOne(d, p, i.flags);
    var q := p + |flags|;
    AtConcat(d, q, uid, gid + mode);
    IdReads(d, q, fmt, i.uid);
    q := q + |uid|;
    AtConcat(d, q, gid, mode);
    IdReads(d, q, fmt, i.gid);
    U16Reads(d, q + |gid|, i.mode);
  }

  lemma {:induction false} FsaInodeReads(d: seq<byte>, p: nat, fmt: nat, i: RawInode)
    requires ValidInode(fmt, i) && At(d, p, EncodeFsaInode(fmt, i))
    ensures ReadFsaInode(d, p, fmt, i.flags) == Done((), p + |EncodeFsaInode(fmt, i)|)
  {
    hide At, Inf, EncodeInfinint;
    if Attributed(fmt, i.flags) {
      AtConcat(d, p, EncodeInfinint(i.families), EncodeInfinint(i.fsaSize));
      InfReads(d, p, i.families);
      InfReads(d, p + |EncodeInfinint(i.families)|, i.fsaSize);
    }
  }

  lemma {:induction false} InodeReads(d: seq<byte>, p: nat, fmt: nat, i: RawInode)
    requires ValidInode(fmt, i) && At(d, p, EncodeInode(fmt, i))
    ensures ReadInodeBase(d, p, fmt) == Done(InodeOf(fmt, i), p + |EncodeInode(fmt, i)|)
  {
    hide At, ReadOwner, ReadStamp, ReadFsaInode, EncodeOwner, EncodeStamp, EncodeFsaInode;
    var owner, atime, mtime := EncodeOwner(fmt, i), EncodeStamp(fmt, i.atime), EncodeStamp(fmt, i.mtime);
    var ctime, fsa := EncodeChange(fmt, i), EncodeFsaInode(fmt, i);
    AtConcat(d, p, owner, atime + (mtime + (ctime + fsa)));
    OwnerReads(d, p, fmt, i);
    var q := p + |owner|;
    AtConcat(d, q, atime, mtime + (ctime + fsa));
    StampReads(d, q, fmt, i.atime);
    q := q + |atime|;
    AtConcat(d, q, mtime, ctime + fsa);
    StampReads(d, q, fmt, i.mtime);
    q := q + |mtime|;
    AtConcat(d, q, ctime, fsa);
    if fmt >= 8 {
      StampReads(d, q, fmt, i.ctime);
    }
    FsaInodeReads(d, q + |ctime|, fmt, i);
  }

  lemma {:induction false} HeadReads(d: seq<byte>, p: nat, fmt: nat, h: Head)
    requires ValidHead(fmt, h) && At(d, p, EncodeHead(fmt, h))
    ensures p < |d| && d[p] == h.sig
    ensures ReadHead(d, p + 1, fmt) == Done((h.name, InodeOf(fmt, h.inode)), p + |EncodeHead(fmt, h)|)
  {
    hide At, NulFrom, ReadInodeBase, EncodeInode, Inf, EncodeInfinint, ValidInode;
    var name, inode, fsa := h.name + [0], EncodeInode(fmt, h.inode), EncodeFsa(fmt, h);
    AtConcat(d, p, [h.sig], name + (inode + fsa));
    AtOne(d, p, h.sig);
    AtConcat(d, p + 1, name, inode + fsa);
    NulFromReads(d, p + 1, [], h.name);
    assert [] + h.name == h.name;
    var q := p + 1 + |name|;
    AtConcat(d, q, inode, fsa);
    InodeReads(d, q, fmt, h.inode);
    if Attributed(fmt, h.inode.flags) {
      q := q + |inode|;
      var tag, length := EncodeInfinint(h.fsa.tag), EncodeInfinint(h.fsa.length);
      AtConcat(d, q, tag, length + h.fsa.payload);
      AtConcat(d, q + |tag|, length, h.fsa.payload);
      InfReads(d, q, h.fsa.tag);
      InfReads(d, q + |tag|, h.fsa.length);
    }
  }

  lemma StorageReads(d: seq<byte>, p: nat, fmt: nat, comp: byte, b: FileBody)
    requires ValidBody(fmt, b) && At(d, p, EncodeStorage(fmt, b))
    ensures ReadStorage(d, p, fmt, comp, b.size.v) == Done(
              (if fmt >= 2 then b.stored.v else b.size.v, if fmt >= 8 then b.codec else comp,
               FieldsOf(fmt, comp, b).crc),
              p + |EncodeStorage(fmt, b)|)
  {
    hide At, Inf, EncodeInfinint;
    var stored, width := EncodeInfinint(b.stored), EncodeInfinint(b.width);
    if fmt >= 8 {
      AtConcat(d, p, stored, [b.status] + ([b.codec] + (width + b.crc)));
      InfReads(d, p, b.stored);
      var q := p + |stored|;
      AtConcat(d, q, [b.status], [b.codec] + (width + b.crc));
      AtOne(d, q, b.status);
      AtConcat(d, q + 1, [b.codec], width + b.crc);
      AtOne(d, q + 1, b.codec);
      AtConcat(d, q + 2, width, b.crc);
      InfReads(d, q + 2, b.width);
      ExactReads(d, q + 2 + |width|, b.crc);
    } else if fmt >= 2 {
      AtConcat(d, p, stored, b.crc);
      InfReads(d, p, b.stored);
      ExactReads(d, p + |stored|, b.crc);
    }
  }

  lemma BodyReads(d: seq<byte>, p: nat, fmt: nat, comp: byte, b: FileBody)
    requires ValidBody(fmt, b) && At(d, p, EncodeBody(fmt, b))
    ensures ReadFileFields(d, p, fmt, comp) == Done(FieldsOf(fmt, comp, b), p + |EncodeBody(fmt, b)|)
  {
    hide At, Inf, EncodeInfinint, ReadStorage, EncodeStorage;
    var size, offset, storage := EncodeInfinint(b.size), EncodeInfinint(b.offset), EncodeStorage(fmt, b);
    AtConcat(d, p, size, offset + storage);
    InfReads(d, p, b.size);
    AtConcat(d, p + |size|, offset, storage);
    InfReads(d, p + |size|, b.offset);
    StorageReads(d, p + |size| + |offset|, fmt, comp, b);
  }

  lemma {:induction false} LeafSteps(d: seq<byte>, p: nat, fmt: nat, comp: byte, stack: seq<seq<byte>>, depth: nat,
                                     t: Node)
    requires Valid(fmt, t) && !t.Dir? && At(d, p, Encode(fmt, t))
    ensures Step(d, p, fmt, comp, stack, depth)
            == Go(p + |Encode(fmt, t)|, stack, depth, [EntryOf(fmt, comp, stack, t)])
  {
    hide At, ReadHead, EncodeHead, ReadFileFields, EncodeBody, NulFrom, InodeOf, FieldsOf, JoinPath;
    var head := EncodeHead(fmt, t.head);
    if t.Reg? {
      AtConcat(d, p, head, EncodeBody(fmt, t.body));
      BodyReads(d, p + |head|, fmt, comp, t.body);
    } else if t.Link? {
      AtConcat(d, p, head, t.target + [0]);
      NulFromReads(d, p + |head|, [], t.target);
      assert [] + t.target == t.target;
    }
    HeadReads(d, p, fmt, t.head);
  }

  lemma {:induction false} DirSteps(d: seq<byte>, p: nat, fmt: nat, comp: byte, stack: seq<seq<byte>>, depth: nat,
                                    t: Node)
    requires Valid(fmt, t) && t.Dir? && At(d, p, Encode(fmt, t))
    ensures var q := p + |EncodeHead(fmt, t.head)|;
            && Step(d, p, fmt, comp, stack, depth)
               == OpenDir((t.head.name, InodeOf(fmt, t.head.inode)), q, stack, depth)
            && At(d, q, EncodeAll(fmt, t.kids))
            && At(d, q + |EncodeAll(fmt, t.kids)|, [t.eod])
            && p + |Encode(fmt, t)| == q + |EncodeAll(fmt, t.kids)| + 1
  {
    hide At, ReadHead, EncodeHead, InodeOf, JoinPath, EncodeAll, OpenDir;
    AtConcat(d, p, EncodeHead(fmt, t.head), EncodeAll(fmt, t.kids) + [t.eod]);
    AtConcat(d, p + |EncodeHead(fmt, t.head)|, EncodeAll(fmt, t.kids), [t.eod]);
    HeadReads(d, p, fmt, t.head);
  }

  lemma {:induction false} EodSteps(d: seq<byte>, p: nat, fmt: nat, comp: byte, stack: seq<seq<byte>>, depth: nat,
                                    eod: byte)
    requires At(d, p, [eod]) && Says(eod, 'z')
    ensures Step(d, p, fmt, comp, stack, depth) == EndDir(p + 1, stack, depth)
  {
    hide LeafMove, DirMove, EndDir;
    AtOne(d, p, eod);
  }

  // ---- What the walk does with any tree, reserved names included ----

  datatype Outcome = Outcome(entries: seq<EntryRef>, stack: seq<seq<byte>>)

  function Emitted(fmt: nat, comp: byte, stack: seq<seq<byte>>, t: Node): Outcome
    decreases t
  {
    if !t.Dir? then Outcome([EntryOf(fmt, comp, stack, t)], stack)
    else if t.head.name == ROOT_NAME then
      var o := EmittedAll(fmt, comp, stack, t.kids);
      Outcome(o.entries, Popped(o.stack))
    else
      var o := EmittedAll(fmt, comp, stack + [t.head.name], t.kids);
      Outcome([EntryOf(fmt, comp, stack, t)] + o.entries, Popped(o.stack))
  }

  function EmittedAll(fmt: nat, comp: byte, stack: seq<seq<byte>>, ts: seq<Node>): Outcome
    decreases ts
  {
    if ts == [] then Outcome([], stack)
    else
      var first := Emitted(fmt, comp, stack, ts[0]);
      var rest := EmittedAll(fmt, comp, first.stack, ts[1..]);
      Outcome(first.entries + rest.entries, rest.stack)
  }

  lemma {:induction false} WalkNode(d: seq<byte>, p: nat, fmt: nat, comp: byte, stack: seq<seq<byte>>, depth: nat,
                                    t: Node)
    requires Valid(fmt, t) && At(d, p, Encode(fmt, t)) && (t.Dir? ==> depth > 0)
    ensures var o := Emitted(fmt, comp, stack, t);
            WalkFrom(d, p, fmt, comp, stack, depth)
            == WalkFrom(d, p + |Encode(fmt, t)|, fmt, comp, o.stack, depth).Prepend(o.entries)
    decreases t
  {
    hide At, Step, Encode, EncodeHead, InodeOf, JoinPath;
    if t.Dir? {
      DirSteps(d, p, fmt, comp, stack, depth, t);
      var q := p + |EncodeHead(fmt, t.head)|;
      var move := OpenDir((t.head.name, InodeOf(fmt, t.head.inode)), q, stack, depth);
      WalkAll(d, q, fmt, comp, move.stack, depth + 1, t.kids);
      var o := EmittedAll(fmt, comp, move.stack, t.kids);
      var e := q + |EncodeAll(fmt, t.kids)|;
      EodSteps(d, e, fmt, comp, o.stack, depth + 1, t.eod);
      var after := WalkFrom(d, e + 1, fmt, comp, Popped(o.stack), depth);
      PrependTwice(after, o.entries, []);
      PrependTwice(after, move.out, o.entries);
      assert o.entries + [] == o.entries && [] + o.entries == o.entries;
    } else {
      LeafSteps(d, p, fmt, comp, stack, depth, t);
    }
  }

  lemma {:induction false} WalkAll(d: seq<byte>, p: nat, fmt: nat, comp: byte, stack: seq<seq<byte>>, depth: nat,
                                   ts: seq<Node>)
    requires AllValid(fmt, ts) && At(d, p, EncodeAll(fmt, ts))
    requires depth > 0 || forall t :: t in ts ==> !t.Dir?
    ensures var o := EmittedAll(fmt, comp, stack, ts);
            WalkFrom(d, p, fmt, comp, stack, depth)
            == WalkFrom(d, p + |EncodeAll(fmt, ts)|, fmt, comp, o.stack, depth).Prepend(o.entries)
    decreases ts
  {
    hide At, Step, WalkFrom, Encode, Emitted, Valid;
    if ts == [] {
      var w := WalkFrom(d, p, fmt, comp, stack, depth);
      assert w.Prepend([]) == w;
    } else {
      var first, rest := Encode(fmt, ts[0]), EncodeAll(fmt, ts[1..]);
      AtConcat(d, p, first, rest);
      var o := Emitted(fmt, comp, stack, ts[0]);
      WalkNode(d, p, fmt, comp, stack, depth, ts[0]);
      WalkAll(d, p + |first|, fmt, comp, o.stack, depth, ts[1..]);
      var o' := EmittedAll(fmt, comp, o.stack, ts[1..]);
      PrependTwice(WalkFrom(d, p + |first| + |rest|, fmt, comp, o'.stack, depth), o.entries, o'.entries);
    }
  }

  // ---- Main results ----

  /** The top directory: the walk ends just past its end mark, complete, whatever bytes follow. */
  lemma {:induction false} RootWalk(d: seq<byte>, p: nat, fmt: nat, comp: byte, root: Node)
    requires Valid(fmt, root) && root.Dir? && At(d, p, Encode(fmt, root))
    ensures ParsedCatalogue(d, p, fmt, comp)
            == Walked(EmittedAll(fmt, comp, RootStack(root), root.kids).entries, true, p + |Encode(fmt, root)|)
  {
    hide At, Step, Encode, EncodeHead, InodeOf;
    DirSteps(d, p, fmt, comp, [], 0, root);
    var q := p + |EncodeHead(fmt, root.head)|;
    assert [] + [root.head.name] == [root.head.name];
    WalkAll(d, q, fmt, comp, RootStack(root), 1, root.kids);
    var o := EmittedAll(fmt, comp, RootStack(root), root.kids);
    var e := q + |EncodeAll(fmt, root.kids)|;
    EodSteps(d, e, fmt, comp, o.stack, 1, root.eod);
    var w := WalkFrom(d, q, fmt, comp, RootStack(root), 1);
    assert w.Prepend([]) == w;
    assert o.entries + [] == o.entries;
  }

  lemma {:induction false} PlainNodeEmitted(fmt: nat, comp: byte, stack: seq<seq<byte>>, t: Node)
    requires !HasReservedIn(t)
    ensures Emitted(fmt, comp, stack, t) == Outcome(Listing(fmt, comp, stack, t), stack)
    decreases t
  {
    if t.Dir? {
      PlainEmitted(fmt, comp, stack + [t.head.name], t.kids);
    }
  }

  lemma {:induction false} PlainEmitted(fmt: nat, comp: byte, stack: seq<seq<byte>>, ts: seq<Node>)
    requires !HasReserved(ts)
    ensures EmittedAll(fmt, comp, stack, ts) == Outcome(ListAll(fmt, comp, stack, ts), stack)
    decreases ts
  {
    if ts != [] {
      PlainNodeEmitted(fmt, comp, stack, ts[0]);
      PlainEmitted(fmt, comp, stack, ts[1..]);
    }
  }

  lemma {:induction false} ReservedNodeLost(fmt: nat, comp: byte, s: seq<seq<byte>>, s': seq<seq<byte>>, t: Node)
    ensures |Emitted(fmt, comp, s, t).entries| <= |Listing(fmt, comp, s', t)|
    ensures HasReservedIn(t) ==> |Emitted(fmt, comp, s, t).entries| < |Listing(fmt, comp, s', t)|
    decreases t
  {
    if t.Dir? {
      ReservedLost(fmt, comp, if t.head.name == ROOT_NAME then s else s + [t.head.name], s' + [t.head.name], t.kids);
    }
  }

  lemma {:induction false} ReservedLost(fmt: nat, comp: byte, s: seq<seq<byte>>, s': seq<seq<byte>>, ts: seq<Node>)
    ensures |EmittedAll(fmt, comp, s, ts).entries| <= |ListAll(fmt, comp, s', ts)|
    ensures HasReserved(ts) ==> |EmittedAll(fmt, comp, s, ts).entries| < |ListAll(fmt, comp, s', ts)|
    decreases ts
  {
    if ts != [] {
      ReservedNodeLost(fmt, comp, s, s', ts[0]);
      ReservedLost(fmt, comp, Emitted(fmt, comp, s, ts[0]).stack, s', ts[1..]);
    }
  }

  /**
   * Parsing inverts writing, in every edition and with anything after the catalogue, exactly when
   * no directory below the top bears the reserved name.
   */
  lemma {:induction false} ParserInvertsWriter(d: seq<byte>, p: nat, fmt: nat, comp: byte, root: Node)
    requires Valid(fmt, root) && root.Dir? && At(d, p, Encode(fmt, root))
    ensures ParsedCatalogue(d, p, fmt, comp) == Walked(RootListing(fmt, comp, root), true, p + |Encode(fmt, root)|)
            <==> !HasReserved(root.kids)
  {
    hide At, Step, Encode, EncodeHead, InodeOf, WalkFrom, Valid;
    RootWalk(d, p, fmt, comp, root);
    if HasReserved(root.kids) {
      ReservedLost(fmt, comp, RootStack(root), RootStack(root), root.kids);
    } else {
      PlainEmitted(fmt, comp, RootStack(root), root.kids);
    }
  }

  const NESTED_ROOT := Dir(Head(TYPE_DIR, ROOT_NAME, PLAIN_INODE, NO_FSA),
                           [Dir(Head(TYPE_DIR, ROOT_NAME, PLAIN_INODE, NO_FSA), [], TYPE_EOD)], TYPE_EOD)

  /** A top directory that holds one empty directory named as itself: valid, one entry to list, none listed. */
  lemma {:induction false} NestedRootIsLost()
    ensures NESTED_ROOT.Dir? && Valid(1, NESTED_ROOT) && |RootListing(1, STORED, NESTED_ROOT)| == 1
    ensures var d := Encode(1, NESTED_ROOT); ParsedCatalogue(d, 0, 1, STORED) == Walked([], true, |d|)
  {
    hide Encode, WalkFrom, EntryOf;
    var inner := NESTED_ROOT.kids[0];
    assert NESTED_ROOT.kids[1..] == [] && AllValid(1, inner.kids);
    assert Valid(1, inner) && AllValid(1, NESTED_ROOT.kids);
    var d := Encode(1, NESTED_ROOT);
    SliceAt(d, 0, d);
    RootWalk(d, 0, 1, STORED, NESTED_ROOT);
    assert EmittedAll(1, STORED, [], inner.kids) == Outcome([], []);
    assert Emitted(1, STORED, [], inner) == Outcome([], []);
    assert EmittedAll(1, STORED, [], NESTED_ROOT.kids[1..]).entries == [];
    assert [] + [inner.head.name] == [inner.head.name] && ListAll(1, STORED, [inner.head.name], inner.kids) == [];
    assert |Listing(1, STORED, [], inner)| == 1;
    assert |ListAll(1, STORED, [], NESTED_ROOT.kids)| == 1 + |ListAll(1, STORED, [], NESTED_ROOT.kids[1..])|;
  }

  /** What a whole catalogue makes the walk report: the entries outside any directory, then those of the top. */
  function CatalogEntries(fmt: nat, comp: byte, c: Catalog): seq<EntryRef> {
    EmittedAll(fmt, comp, [], c.lead).entries
    + if c.Rooted? && c.root.Dir? then EmittedAll(fmt, comp, RootStack(c.root), c.root.kids).entries else []
  }

  /** Every well-formed catalogue is walked to its end, entries outside the top directory included. */
  lemma {:induction false} CatalogWalk(d: seq<byte>, p: nat, fmt: nat, comp: byte, c: Catalog)
    requires c.WellFormed(fmt) && At(d, p, c.Encoded(fmt))
    ensures ParsedCatalogue(d, p, fmt, comp) == Walked(CatalogEntries(fmt, comp, c), true, p + |c.Encoded(fmt)|)
  {
    hide At, EmittedAll, Step, Encode, EncodeAll, EncodeHead, InodeOf;
    AtConcat(d, p, EncodeAll(fmt, c.lead), if c.Rooted? then Encode(fmt, c.root) else [c.eod]);
    var q := p + |EncodeAll(fmt, c.lead)|;
    WalkAll(d, p, fmt, comp, [], 0, c.lead);
    LeavesKeepStack(fmt, comp, [], c.lead);
    if c.Rooted? {
      RootWalk(d, q, fmt, comp, c.root);
    } else {
      EodSteps(d, q, fmt, comp, [], 0, c.eod);
    }
  }

  lemma {:induction false} LeavesKeepStack(fmt: nat, comp: byte, stack: seq<seq<byte>>, ts: seq<Node>)
    requires forall t :: t in ts ==> !t.Dir?
    ensures EmittedAll(fmt, comp, stack, ts).stack == stack
    decreases ts
  {
    if ts != [] {
      LeavesKeepStack(fmt, comp, stack, ts[1..]);
    }
  }
}
