/** A catalogue that breaks off between entries, or meets one of a kind not known: what was read is kept. */
module Interrupted {
  import opened Bytes
  import opened Catalogue
  import opened Grammar
  import opened Roundtrip
  import opened Wire
  import Soundness
  import Truncation

  /** A directory not yet closed, and the entries finished in it. */
  datatype Level = Level(head: Head, finished: seq<Node>)

  function LevelBytes(fmt: nat, l: Level): seq<byte> { EncodeHead(fmt, l.head) + EncodeAll(fmt, l.finished) }

  function EncodeOpen(fmt: nat, ls: seq<Level>): seq<byte> {
    if ls == [] then [] else LevelBytes(fmt, ls[0]) + EncodeOpen(fmt, ls[1..])
  }

  predicate ValidLevel(fmt: nat, l: Level) {
    ValidHead(fmt, l.head) && Says(l.head.sig, 'd') && AllValid(fmt, l.finished) && !HasReserved(l.finished)
  }

  /** The directories inside the top, none of the reserved name. */
  predicate ValidInner(fmt: nat, ls: seq<Level>) {
    forall l :: l in ls ==> ValidLevel(fmt, l) && l.head.name != ROOT_NAME
  }

  function Names(ls: seq<Level>): seq<seq<byte>> { if ls == [] then [] else [ls[0].head.name] + Names(ls[1..]) }

  /** Each directory with what is finished in it, outermost first. */
  function OpenListing(fmt: nat, comp: byte, stack: seq<seq<byte>>, ls: seq<Level>): seq<EntryRef>
    decreases |ls|
  {
    if ls == [] then []
    else LevelListing(fmt, comp, stack, ls[0]) + OpenListing(fmt, comp, stack + [ls[0].head.name], ls[1..])
  }

  function LevelListing(fmt: nat, comp: byte, stack: seq<seq<byte>>, l: Level): seq<EntryRef> {
    [EntryRef(JoinPath(stack, l.head.name), Directory, InodeOf(fmt, l.head.inode), None, NOTHING_STORED)]
    + ListAll(fmt, comp, stack + [l.head.name], l.finished)
  }

  /** None of the kinds of entry that are known. */
  predicate Foreign(sig: byte) { forall c :: c in "dflpsz" ==> !Says(sig, c) }

  lemma {:induction false} HeadOpens(d: seq<byte>, p: nat, fmt: nat, comp: byte, stack: seq<seq<byte>>, depth: nat,
                                     h: Head)
    requires ValidHead(fmt, h) && Says(h.sig, 'd') && At(d, p, EncodeHead(fmt, h))
    ensures Step(d, p, fmt, comp, stack, depth)
            == OpenDir((h.name, InodeOf(fmt, h.inode)), p + |EncodeHead(fmt, h)|, stack, depth)
  {
    hide At, ReadHead, EncodeHead, InodeOf, OpenDir, LeafMove, EndDir;
    HeadReads(d, p, fmt, h);
  }

  lemma {:induction false} WalksInto(d: seq<byte>, p: nat, fmt: nat, comp: byte, stack: seq<seq<byte>>, depth: nat,
                                     h: Head)
    requires ValidHead(fmt, h) && Says(h.sig, 'd') && At(d, p, EncodeHead(fmt, h)) && h.name != ROOT_NAME && depth > 0
    ensures WalkFrom(d, p, fmt, comp, stack, depth)
            == WalkFrom(d, p + |EncodeHead(fmt, h)|, fmt, comp, stack + [h.name], depth + 1)
               .Prepend([EntryRef(JoinPath(stack, h.name), Directory, InodeOf(fmt, h.inode), None, NOTHING_STORED)])
  {
    hide At, Step, EncodeHead, InodeOf, JoinPath, ValidHead;
    HeadOpens(d, p, fmt, comp, stack, depth, h);
  }

  lemma OpenFirst(fmt: nat, top: Level, inner: seq<Level>)
    ensures EncodeOpen(fmt, [top] + inner) == LevelBytes(fmt, top) + EncodeOpen(fmt, inner)
  {
    hide LevelBytes;
    assert ([top] + inner)[1..] == inner;
  }

  lemma OpenParts(fmt: nat, comp: byte, stack: seq<seq<byte>>, ls: seq<Level>)
    requires ls != [] && ValidInner(fmt, ls)
    ensures EncodeOpen(fmt, ls) == LevelBytes(fmt, ls[0]) + EncodeOpen(fmt, ls[1..])
    ensures stack + [ls[0].head.name] + Names(ls[1..]) == stack + Names(ls)
    ensures OpenListing(fmt, comp, stack, ls)
            == LevelListing(fmt, comp, stack, ls[0]) + OpenListing(fmt, comp, stack + [ls[0].head.name], ls[1..])
    ensures ValidLevel(fmt, ls[0]) && ls[0].head.name != ROOT_NAME && ValidInner(fmt, ls[1..])
  {
    hide LevelBytes, LevelListing, ValidLevel;
    assert ls[0] in ls && forall m :: m in ls[1..] ==> m in ls;
  }

  lemma {:induction false} LevelWalk(d: seq<byte>, p: nat, fmt: nat, comp: byte, stack: seq<seq<byte>>, depth: nat,
                                     l: Level)
    requires depth > 0 && ValidLevel(fmt, l) && l.head.name != ROOT_NAME
    requires At(d, p, LevelBytes(fmt, l))
    ensures WalkFrom(d, p, fmt, comp, stack, depth)
            == WalkFrom(d, p + |LevelBytes(fmt, l)|, fmt, comp, stack + [l.head.name], depth + 1)
               .Prepend(LevelListing(fmt, comp, stack, l))
  {
    hide At, EncodeHead, EncodeAll, InodeOf, ListAll, JoinPath, AllValid, HasReserved, ValidHead, WalkFrom;
    var head, finished, deeper := EncodeHead(fmt, l.head), EncodeAll(fmt, l.finished), stack + [l.head.name];
    AtConcat(d, p, head, finished);
    WalksInto(d, p, fmt, comp, stack, depth, l.head);
    WalkAll(d, p + |head|, fmt, comp, deeper, depth + 1, l.finished);
    PlainEmitted(fmt, comp, deeper, l.finished);
    var after := WalkFrom(d, p + |head| + |finished|, fmt, comp, deeper, depth + 1);
    var entry := [EntryRef(JoinPath(stack, l.head.name), Directory, InodeOf(fmt, l.head.inode), None, NOTHING_STORED)];
    PrependTwice(after, entry, ListAll(fmt, comp, deeper, l.finished));
  }

  lemma {:induction false} OpenWalk(d: seq<byte>, p: nat, fmt: nat, comp: byte, stack: seq<seq<byte>>, depth: nat,
                                    ls: seq<Level>)
    requires depth > 0 && ValidInner(fmt, ls) && At(d, p, EncodeOpen(fmt, ls))
    ensures WalkFrom(d, p, fmt, comp, stack, depth)
            == WalkFrom(d, p + |EncodeOpen(fmt, ls)|, fmt, comp, stack + Names(ls), depth + |ls|)
               .Prepend(OpenListing(fmt, comp, stack, ls))
    decreases |ls|
  {
    hide At, LevelBytes, LevelListing, ValidLevel, ValidInner, WalkFrom;
    if ls == [] {
      assert stack + [] == stack;
      var w := WalkFrom(d, p, fmt, comp, stack, depth);
      assert w.Prepend([]) == w;
    } else {
      hide EncodeOpen, OpenListing, Names;
      var l, deeper := ls[0], stack + [ls[0].head.name];
      OpenParts(fmt, comp, stack, ls);
      AtConcat(d, p, LevelBytes(fmt, l), EncodeOpen(fmt, ls[1..]));
      LevelWalk(d, p, fmt, comp, stack, depth, l);
      OpenWalk(d, p + |LevelBytes(fmt, l)|, fmt, comp, deeper, depth + 1, ls[1..]);
      var after := WalkFrom(d, p + |EncodeOpen(fmt, ls)|, fmt, comp, stack + Names(ls), depth + |ls|);
      PrependTwice(after, LevelListing(fmt, comp, stack, l), OpenListing(fmt, comp, deeper, ls[1..]));
    }
  }

  lemma {:induction false} Stops(d: seq<byte>, p: nat, fmt: nat, comp: byte, stack: seq<seq<byte>>, depth: nat)
    requires p < |d| ==> Foreign(d[p])
    ensures WalkFrom(d, p, fmt, comp, stack, depth) == Walked([], false, if p < |d| then p + 1 else p)
  {
    hide LeafMove, DirMove, EndDir;
    if p < |d| {
      var known := "dflpsz";
      assert known[0] in known && known[1] in known && known[2] in known;
      assert known[3] in known && known[4] in known && known[5] in known;
      assert forall k :: 0 <= k < 6 ==> !Says(d[p], known[k]);
    }
  }

  lemma {:induction false} TopOpens(d: seq<byte>, p: nat, fmt: nat, comp: byte, h: Head)
    requires ValidHead(fmt, h) && Says(h.sig, 'd') && At(d, p, EncodeHead(fmt, h))
    ensures ParsedCatalogue(d, p, fmt, comp)
            == WalkFrom(d, p + |EncodeHead(fmt, h)|, fmt, comp, if h.name == ROOT_NAME then [] else [h.name], 1)
  {
    hide At, Step, EncodeHead, InodeOf, ValidHead;
    HeadOpens(d, p, fmt, comp, [], 0, h);
    assert [] + [h.name] == [h.name];
    var w := WalkFrom(d, p + |EncodeHead(fmt, h)|, fmt, comp, if h.name == ROOT_NAME then [] else [h.name], 1);
    assert w.Prepend([]) == w;
  }

  lemma {:induction false} TopWalk(d: seq<byte>, p: nat, fmt: nat, comp: byte, top: Level)
    requires ValidLevel(fmt, top) && At(d, p, LevelBytes(fmt, top))
    ensures var stack := if top.head.name == ROOT_NAME then [] else [top.head.name];
            ParsedCatalogue(d, p, fmt, comp)
            == WalkFrom(d, p + |LevelBytes(fmt, top)|, fmt, comp, stack, 1)
               .Prepend(ListAll(fmt, comp, stack, top.finished))
  {
    hide At, EncodeHead, EncodeAll, ListAll, AllValid, HasReserved, ValidHead, WalkFrom;
    var stack := if top.head.name == ROOT_NAME then [] else [top.head.name];
    AtConcat(d, p, EncodeHead(fmt, top.head), EncodeAll(fmt, top.finished));
    TopOpens(d, p, fmt, comp, top.head);
    WalkAll(d, p + |EncodeHead(fmt, top.head)|, fmt, comp, stack, 1, top.finished);
    PlainEmitted(fmt, comp, stack, top.finished);
  }

  /**
   * Where a catalogue breaks off between two entries, at whatever depth, or meets an entry of a kind not known,
   * no error is reported: every entry read is listed with its full path, and the listing is not complete.
   */
  lemma {:induction false} InterruptedKeepsAll(d: seq<byte>, p: nat, fmt: nat, comp: byte, top: Level,
                                               inner: seq<Level>)
    requires ValidLevel(fmt, top) && ValidInner(fmt, inner) && At(d, p, EncodeOpen(fmt, [top] + inner))
    requires var e := p + |EncodeOpen(fmt, [top] + inner)|; e < |d| ==> Foreign(d[e])
    ensures var e := p + |EncodeOpen(fmt, [top] + inner)|;
            var stack := if top.head.name == ROOT_NAME then [] else [top.head.name];
            ParsedCatalogue(d, p, fmt, comp)
            == Walked(ListAll(fmt, comp, stack, top.finished) + OpenListing(fmt, comp, stack, inner), false,
                      if e < |d| then e + 1 else e)
  {
    hide At, LevelBytes, EncodeOpen, ListAll, ValidLevel, Foreign, OpenListing, ValidInner, WalkFrom, Names;
    var stack, first := if top.head.name == ROOT_NAME then [] else [top.head.name], LevelBytes(fmt, top);
    OpenFirst(fmt, top, inner);
    AtConcat(d, p, first, EncodeOpen(fmt, inner));
    TopWalk(d, p, fmt, comp, top);
    OpenWalk(d, p + |first|, fmt, comp, stack, 1, inner);
    var e := p + |first| + |EncodeOpen(fmt, inner)|;
    Stops(d, e, fmt, comp, stack + Names(inner), 1 + |inner|);
    var after := WalkFrom(d, e, fmt, comp, stack + Names(inner), 1 + |inner|);
    PrependTwice(after, ListAll(fmt, comp, stack, top.finished), OpenListing(fmt, comp, stack, inner));
    assert ListAll(fmt, comp, stack, top.finished) + OpenListing(fmt, comp, stack, inner) + []
        == ListAll(fmt, comp, stack, top.finished) + OpenListing(fmt, comp, stack, inner);
  }

  // ---- Broken off inside an entry ----

  /** The bytes of the attribute block, which are stepped over unread. */
  function PayloadLength(fmt: nat, h: Head): nat { if Attributed(fmt, h.inode.flags) then |h.fsa.payload| else 0 }

  lemma InodeInside(d: seq<byte>, p: nat, fmt: nat)
    requires ReadInodeBase(d, p, fmt).Done?
    ensures ReadInodeBase(d, p, fmt).next <= |d|
  {
    hide Inf;
  }

  /** A head is read from a part of the input only if the part reaches to its payload. */
  lemma {:induction false} HeadNeeds(d: seq<byte>, n: nat, p: nat, fmt: nat, h: Head)
    requires ValidHead(fmt, h) && At(d, p, EncodeHead(fmt, h)) && n <= |d|
    requires ReadHead(d[..n], p + 1, fmt).Done?
    ensures n >= p + |EncodeHead(fmt, h)| - PayloadLength(fmt, h)
  {
    hide At, NulFrom, ReadInodeBase, EncodeInode, Inf, EncodeInfinint, ValidInode;
    var e := d[..n];
    var name, inode, fsa := h.name + [0], EncodeInode(fmt, h.inode), EncodeFsa(fmt, h);
    AtConcat(d, p, [h.sig], name + (inode + fsa));
    AtConcat(d, p + 1, name, inode + fsa);
    NulFromReads(d, p + 1, [], h.name);
    assert [] + h.name == h.name;
    var q := p + 1 + |name|;
    AtConcat(d, q, inode, fsa);
    InodeReads(d, q, fmt, h.inode);
    NulFromStable(d, n, p + 1, []);
    Truncation.InodeStable(d, n, q, fmt);
    InodeInside(e, q, fmt);
    if Attributed(fmt, h.inode.flags) {
      var r := q + |inode|;
      var tag, length := EncodeInfinint(h.fsa.tag), EncodeInfinint(h.fsa.length);
      AtConcat(d, r, tag, length + h.fsa.payload);
      AtConcat(d, r + |tag|, length, h.fsa.payload);
      InfReads(d, r, h.fsa.tag);
      InfReads(d, r + |tag|, h.fsa.length);
      InfStable(d, n, r);
      InfStable(d, n, r + |tag|);
    }
  }

  /** How much of an entry must be there for it to be read: all but a payload at its end. */
  function Needed(fmt: nat, t: Node): nat {
    match t
    case Reg(_, _) => |Encode(fmt, t)|
    case Link(_, _) => |Encode(fmt, t)|
    case _ => |EncodeHead(fmt, t.head)| - PayloadLength(fmt, t.head)
  }

  lemma HeadLongerThanPayload(fmt: nat, h: Head)
    ensures |EncodeHead(fmt, h)| >= PayloadLength(fmt, h)
  {
    hide EncodeInode, EncodeInfinint;
  }

  lemma {:induction false} CutHead(d: seq<byte>, n: nat, p: nat, fmt: nat, h: Head)
    requires ValidHead(fmt, h) && At(d, p, EncodeHead(fmt, h)) && n <= |d|
    ensures var short := ReadHead(d[..n], p + 1, fmt);
            if short.Done? then short.next == p + |EncodeHead(fmt, h)|
                                && short.value == (h.name, InodeOf(fmt, h.inode))
                                && n >= p + |EncodeHead(fmt, h)| - PayloadLength(fmt, h)
            else short.error == Io
  {
    hide At, ReadHead, EncodeHead, InodeOf, PayloadLength, ValidHead;
    HeadReads(d, p, fmt, h);
    Truncation.HeadStable(d, n, p + 1, fmt);
    if ReadHead(d[..n], p + 1, fmt).Done? {
      HeadNeeds(d, n, p, fmt, h);
    }
  }

  lemma {:induction false} CutBody(d: seq<byte>, n: nat, p: nat, fmt: nat, comp: byte, b: FileBody)
    requires ValidBody(fmt, b) && At(d, p, EncodeBody(fmt, b)) && n < p + |EncodeBody(fmt, b)| && n <= |d|
    ensures ReadFileFields(d[..n], p, fmt, comp).Fail? && ReadFileFields(d[..n], p, fmt, comp).error == Io
  {
    hide At, ReadStorage, EncodeBody, Inf;
    BodyReads(d, p, fmt, comp, b);
    var e := d[..n];
    BodyStable(d, n, p, fmt, comp);
    if ReadFileFields(e, p, fmt, comp).Done? {
      var b' := Soundness.BodySound(e, p, fmt, comp);
      AtWithin(e, p, EncodeBody(fmt, b'));
    }
  }

  lemma {:induction false} BodyStable(d: seq<byte>, n: nat, p: nat, fmt: nat, comp: byte)
    requires n <= |d|
    ensures Stable(ReadFileFields(d[..n], p, fmt, comp), ReadFileFields(d, p, fmt, comp))
  {
    hide Inf, ReadStorage;
    var e := d[..n];
    InfStable(d, n, p);
    var q := Inf(e, p).next;
    InfStable(d, n, q);
    if Inf(e, p).Done? && Inf(e, q).Done? {
      Truncation.StorageStable(d, n, Inf(e, q).next, fmt, comp, Inf(e, p).value);
    }
  }

  lemma {:induction false} CutName(d: seq<byte>, n: nat, p: nat, name: seq<byte>)
    requires ValidName(name) && At(d, p, name + [0]) && n < p + |name| + 1 && n <= |d|
    ensures NulBytes(d[..n], p).Fail? && NulBytes(d[..n], p).error == Io
  {
    hide At, NulFrom;
    NulFromReads(d, p, [], name);
    NulFromStable(d, n, p, []);
    if NulBytes(d[..n], p).Done? {
      var s := NulFromSound(d[..n], p, []);
    }
  }

  /** Broken off inside an entry, before its end or the payload at its end, the walk fails for want of bytes. */
  lemma {:induction false} CutEntryFails(d: seq<byte>, n: nat, p: nat, fmt: nat, comp: byte, stack: seq<seq<byte>>,
                                         depth: nat, t: Node)
    requires Valid(fmt, t) && At(d, p, Encode(fmt, t)) && n <= |d| && p < n < p + Needed(fmt, t)
    ensures var w := WalkFrom(d[..n], p, fmt, comp, stack, depth); w.Aborted? && w.error == Io
  {
    hide At, ReadHead, EncodeHead, ReadFileFields, EncodeBody, NulFrom, InodeOf, JoinPath, ValidHead, EncodeAll;
    HeadLongerThanPayload(fmt, t.head);
    if t.Dir? {
      AtConcat(d, p, EncodeHead(fmt, t.head), EncodeAll(fmt, t.kids) + [t.eod]);
    } else if t.Reg? {
      AtConcat(d, p, EncodeHead(fmt, t.head), EncodeBody(fmt, t.body));
    } else if t.Link? {
      AtConcat(d, p, EncodeHead(fmt, t.head), t.target + [0]);
    }
    HeadReads(d, p, fmt, t.head);
    CutHead(d, n, p, fmt, t.head);
    var q := p + |EncodeHead(fmt, t.head)|;
    if t.Reg? {
      CutBody(d, n, q, fmt, comp, t.body);
    } else if t.Link? {
      CutName(d, n, q, t.target);
    }
  }

  // ---- Bytes that are no entry ----

  /** An entry, or the head of a directory, as a catalogue writes them. */
  ghost predicate EntryAt(d: seq<byte>, p: nat, fmt: nat) {
    || (exists t: Node :: Valid(fmt, t) && !t.Dir? && At(d, p, Encode(fmt, t)))
    || (exists h: Head :: ValidHead(fmt, h) && Says(h.sig, 'd') && At(d, p, EncodeHead(fmt, h)))
  }

  /** Where a known letter stands but no entry follows, however the input went on, the walk fails. */
  lemma {:induction false} GarbledEntryFails(d: seq<byte>, p: nat, fmt: nat, comp: byte, stack: seq<seq<byte>>,
                                             depth: nat)
    requires p < |d| && (Says(d[p], 'd') || Says(d[p], 'f') || Says(d[p], 'l') || Says(d[p], 'p') || Says(d[p], 's'))
    requires forall more: seq<byte> :: !EntryAt(d + more, p, fmt)
    ensures WalkFrom(d, p, fmt, comp, stack, depth).Aborted?
  {
    hide At, ReadHead, ReadLeaf, EncodeHead, Encode, JoinPath, InodeOf, ValidHead, Valid, EndDir;
    var move := Step(d, p, fmt, comp, stack, depth);
    if move.Go? {
      var more := seq(if move.next > |d| then move.next - |d| else 0, i => 0);
      var e := d + more;
      assert e[..|d|] == d && e[p] == d[p];
      Truncation.StepStable(e, |d|, p, fmt, comp, stack, depth);
      if Says(d[p], 'd') {
        DirHeadIs(d, p, fmt, stack, depth);
        Truncation.HeadStable(e, |d|, p + 1, fmt);
        var h := Soundness.HeadSound(e, p, fmt);
      } else {
        var t := Soundness.LeafSound(e, p, fmt, comp, stack, depth);
      }
    }
  }

  lemma DirHeadIs(d: seq<byte>, p: nat, fmt: nat, stack: seq<seq<byte>>, depth: nat)
    requires DirMove(d, p + 1, fmt, stack, depth).Go?
    ensures ReadHead(d, p + 1, fmt).Done? && ReadHead(d, p + 1, fmt).next == DirMove(d, p + 1, fmt, stack, depth).next
  {
    hide ReadHead, JoinPath;
  }
}
