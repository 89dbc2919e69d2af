/** Cutting the input short: what the parser says about a part never contradicts the whole. */
module Truncation {
  import opened Bytes
  import opened Wire
  import opened Catalogue
  import opened Grammar
  import opened Roundtrip
  import opened Soundness

  lemma {:induction false} StampStable(d: seq<byte>, n: nat, p: nat, fmt: nat)
    requires n <= |d|
    ensures Stable(ReadStamp(d[..n], p, fmt), ReadStamp(d, p, fmt))
  {
    hide Inf;
    ExactStable(d, n, p, 0);
    InfStable(d, n, p);
    InfStable(d, n, p + 1);
    if Inf(d[..n], p + 1).Done? {
      InfStable(d, n, Inf(d[..n], p + 1).next);
    }
  }

  lemma {:induction false} IdStable(d: seq<byte>, n: nat, p: nat, fmt: nat)
    requires n <= |d|
    ensures Stable(ReadId(d[..n], p, fmt), ReadId(d, p, fmt))
  {
    hide Inf, U16;
    ExactStable(d, n, p, 0);
    InfStable(d, n, p);
  }

  lemma {:induction false} OwnerStable(d: seq<byte>, n: nat, p: nat, fmt: nat)
    requires n <= |d|
    ensures Stable(ReadOwner(d[..n], p, fmt), ReadOwner(d, p, fmt))
  {
    hide ReadId, U16;
    var e := d[..n];
    ExactStable(d, n, p, 0);
    var q := if fmt >= 2 then p + 1 else p;
    IdStable(d, n, q, fmt);
    var q1 := ReadId(e, q, fmt).next;
    IdStable(d, n, q1, fmt);
    ExactStable(d, n, ReadId(e, q1, fmt).next, 0);
  }

  lemma {:induction false} InodeStable(d: seq<byte>, n: nat, p: nat, fmt: nat)
    requires n <= |d|
    ensures Stable(ReadInodeBase(d[..n], p, fmt), ReadInodeBase(d, p, fmt))
  {
    hide ReadOwner, ReadStamp, Inf;
    var e := d[..n];
    OwnerStable(d, n, p, fmt);
    var q := ReadOwner(e, p, fmt).next;
    StampStable(d, n, q, fmt);
    var q1 := ReadStamp(e, q, fmt).next;
    StampStable(d, n, q1, fmt);
    var q2 := ReadStamp(e, q1, fmt).next;
    StampStable(d, n, q2, fmt);
    var q3 := ReadChange(e, q2, fmt).next;
    InfStable(d, n, q3);
    InfStable(d, n, Inf(e, q3).next);
  }

  lemma {:induction false} HeadStable(d: seq<byte>, n: nat, p: nat, fmt: nat)
    requires n <= |d|
    ensures Stable(ReadHead(d[..n], p, fmt), ReadHead(d, p, fmt))
  {
    hide NulFrom, ReadInodeBase, Inf;
    var e := d[..n];
    NulFromStable(d, n, p, []);
    var q := NulBytes(e, p).next;
    InodeStable(d, n, q, fmt);
    var q1 := ReadInodeBase(e, q, fmt).next;
    InfStable(d, n, q1);
    InfStable(d, n, Inf(e, q1).next);
  }

  lemma {:induction false} StorageStable(d: seq<byte>, n: nat, p: nat, fmt: nat, comp: byte, size: u64)
    requires n <= |d|
    ensures Stable(ReadStorage(d[..n], p, fmt, comp, size), ReadStorage(d, p, fmt, comp, size))
  {
    hide Inf, Exact;
    var e := d[..n];
    InfStable(d, n, p);
    var q := Inf(e, p).next;
    ExactStable(d, n, q, 2);
    ExactStable(d, n, q + 1, 2);
    InfStable(d, n, q + 2);
    if Inf(e, q + 2).Done? {
      ExactStable(d, n, Inf(e, q + 2).next, Inf(e, q + 2).value);
    }
  }

  lemma {:induction false} LeafStable(d: seq<byte>, n: nat, p: nat, fmt: nat, comp: byte, typ: nat, path: seq<byte>,
                                      inode: Inode)
    requires n <= |d|
    ensures Stable(ReadLeaf(d[..n], p, fmt, comp, typ, path, inode), ReadLeaf(d, p, fmt, comp, typ, path, inode))
  {
    hide Inf, ReadStorage, NulFrom;
    var e := d[..n];
    NulFromStable(d, n, p, []);
    InfStable(d, n, p);
    var q := Inf(e, p).next;
    InfStable(d, n, q);
    if Inf(e, p).Done? && Inf(e, q).Done? {
      StorageStable(d, n, Inf(e, q).next, fmt, comp, Inf(e, p).value);
    }
  }

  lemma {:induction false} StepStable(d: seq<byte>, n: nat, p: nat, fmt: nat, comp: byte, stack: seq<seq<byte>>,
                                      depth: nat)
    requires n <= |d|
    ensures var short := Step(d[..n], p, fmt, comp, stack, depth);
            && (short.Go? || (p < n && short.Stop?) || (short.Abort? && short.error != Io)
                ==> Step(d, p, fmt, comp, stack, depth) == short)
            && (p >= n ==> short == Stop(false, p))
  {
    hide ReadHead, ReadLeaf, JoinPath;
    var e := d[..n];
    if p < n {
      HeadStable(d, n, p + 1, fmt);
      var h := ReadHead(e, p + 1, fmt);
      if h.Done? {
        LeafStable(d, n, h.next, fmt, comp, TypeOf(d[p]), JoinPath(stack, h.value.0), h.value.1);
      }
    }
  }

  /**
   * On any bytes at all: a complete listing of a part is the listing of the whole, a corrupt part
   * makes the whole corrupt, and otherwise the entries found in the part open the whole listing.
   */
  lemma {:induction false} PartAgreesWithWhole(d: seq<byte>, n: nat, p: nat, fmt: nat, comp: byte,
                                               stack: seq<seq<byte>>, depth: nat)
    requires n <= |d|
    ensures var short, full := WalkFrom(d[..n], p, fmt, comp, stack, depth), WalkFrom(d, p, fmt, comp, stack, depth);
            match short
            case Walked(es, complete, _) =>
              if complete then full == short else full.Walked? ==> es <= full.entries
            case Aborted(e, _) => e != Io ==> full == short
    decreases if p < n then n - p else 0
  {
    hide Step;
    StepStable(d, n, p, fmt, comp, stack, depth);
    var move := Step(d[..n], p, fmt, comp, stack, depth);
    if move.Go? {
      PartAgreesWithWhole(d, n, move.next, fmt, comp, move.stack, move.depth);
    }
  }

  /** A catalogue cut anywhere before its last byte never passes for complete, nor invents an entry. */
  lemma {:induction false} CutCatalogueIsIncomplete(d: seq<byte>, n: nat, p: nat, fmt: nat, comp: byte, c: Catalog)
    requires c.WellFormed(fmt) && At(d, p, c.Encoded(fmt)) && n < p + |c.Encoded(fmt)|
    ensures var short, full := ParsedCatalogue(d[..n], p, fmt, comp), ParsedCatalogue(d, p, fmt, comp);
            && full.Walked? && full.complete
            && if short.Walked? then !short.complete && short.entries <= full.entries else short.error == Io
  {
    hide At, WalkFrom, Encode, EncodeAll, AllValid, Valid;
    assert n <= |d| by { AtWithin(d, p, c.Encoded(fmt)); }
    CatalogWalk(d, p, fmt, comp, c);
    PartAgreesWithWhole(d, n, p, fmt, comp, [], 0);
    var short := ParsedCatalogue(d[..n], p, fmt, comp);
    if short.Walked? && short.complete {
      CompleteIffCatalogue(d[..n], p, fmt, comp);
      var c': Catalog :| c'.WellFormed(fmt) && At(d[..n], p, c'.Encoded(fmt)) && short.next == p + |c'.Encoded(fmt)|;
      AtWithin(d[..n], p, c'.Encoded(fmt));
    }
  }
}
