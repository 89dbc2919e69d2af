/** The two counts of the walk, depth and stack height: how far apart they can drift. */
module Depth {
  import opened Bytes
  import opened Catalogue
  import opened Grammar
  import opened Roundtrip

  /** A directory of the reserved name is read at `p`. */
  predicate OpensRoot(d: seq<byte>, p: nat, fmt: nat) {
    p < |d| && TypeOf(d[p]) == TYPE_DIR && ReadHead(d, p + 1, fmt).Done? && ReadHead(d, p + 1, fmt).value.0 == ROOT_NAME
  }

  /** How many such directories the walk opens from here on. */
  function RootsOpened(d: seq<byte>, p: nat, fmt: nat, comp: byte, stack: seq<seq<byte>>, depth: nat): nat
    decreases if p < |d| then |d| - p else 0
  {
    match Step(d, p, fmt, comp, stack, depth)
    case Go(q, stack', depth', _) =>
      (if OpensRoot(d, p, fmt) then 1 else 0) + RootsOpened(d, q, fmt, comp, stack', depth')
    case _ => 0
  }

  /** Now and at every later turn, the depth is at least the height of the stack and at most `gap` more. */
  predicate Tracks(d: seq<byte>, p: nat, fmt: nat, comp: byte, stack: seq<seq<byte>>, depth: nat, gap: nat)
    decreases if p < |d| then |d| - p else 0
  {
    && |stack| <= depth <= |stack| + gap
    && match Step(d, p, fmt, comp, stack, depth)
       case Go(q, stack', depth', _) => Tracks(d, q, fmt, comp, stack', depth', gap)
       case _ => true
  }

  /** One turn: only a directory of the reserved name widens the gap, by one. */
  lemma GapStep(d: seq<byte>, p: nat, fmt: nat, comp: byte, stack: seq<seq<byte>>, depth: nat)
    requires |stack| <= depth && Step(d, p, fmt, comp, stack, depth).Go?
    ensures var move, root := Step(d, p, fmt, comp, stack, depth), OpensRoot(d, p, fmt);
            && |move.stack| <= move.depth
            && move.depth - |move.stack| <= depth - |stack| + (if root then 1 else 0)
            && (root || depth <= |stack| + 1 ==>
                  move.depth - |move.stack| == depth - |stack| + (if root then 1 else 0))
  {
    hide ReadHead, JoinPath, ReadLeaf;
  }

  /** On any bytes, the stack is never higher than the depth, nor lower by more than the reserved names met. */
  lemma {:induction false} StackNeverExceedsDepth(d: seq<byte>, p: nat, fmt: nat, comp: byte, stack: seq<seq<byte>>,
                                                  depth: nat, gap: nat)
    requires |stack| <= depth && depth - |stack| + RootsOpened(d, p, fmt, comp, stack, depth) <= gap
    ensures Tracks(d, p, fmt, comp, stack, depth, gap)
    decreases if p < |d| then |d| - p else 0
  {
    hide Step, OpensRoot;
    var move := Step(d, p, fmt, comp, stack, depth);
    if move.Go? {
      GapStep(d, p, fmt, comp, stack, depth);
      StackNeverExceedsDepth(d, move.next, fmt, comp, move.stack, move.depth, gap);
    }
  }

  /** The depth is the height of the stack or one more throughout, exactly when one reserved name at most is met. */
  lemma {:induction false} TracksIff(d: seq<byte>, p: nat, fmt: nat, comp: byte, stack: seq<seq<byte>>, depth: nat)
    requires |stack| <= depth <= |stack| + 1
    ensures Tracks(d, p, fmt, comp, stack, depth, 1)
            <==> depth - |stack| + RootsOpened(d, p, fmt, comp, stack, depth) <= 1
    decreases if p < |d| then |d| - p else 0
  {
    hide Step, OpensRoot;
    var move := Step(d, p, fmt, comp, stack, depth);
    if move.Go? {
      GapStep(d, p, fmt, comp, stack, depth);
      if move.depth <= |move.stack| + 1 {
        TracksIff(d, move.next, fmt, comp, move.stack, move.depth);
      }
    }
  }

  // ---- Written trees ----

  /** The directories of the reserved name in a tree. */
  function RootsIn(t: Node): nat
    decreases t
  {
    if t.Dir? then (if t.head.name == ROOT_NAME then 1 else 0) + RootsInAll(t.kids) else 0
  }

  function RootsInAll(ts: seq<Node>): nat
    decreases ts
  {
    if ts == [] then 0 else RootsIn(ts[0]) + RootsInAll(ts[1..])
  }

  lemma {:induction false} NoneReserved(ts: seq<Node>)
    ensures RootsInAll(ts) == 0 <==> !HasReserved(ts)
    decreases ts
  {
    if ts != [] {
      if ts[0].Dir? {
        NoneReserved(ts[0].kids);
      }
      NoneReserved(ts[1..]);
    }
  }

  lemma {:induction false} LeafOpensNothing(d: seq<byte>, p: nat, fmt: nat, t: Node)
    requires Valid(fmt, t) && At(d, p, Encode(fmt, t))
    ensures OpensRoot(d, p, fmt) <==> t.Dir? && t.head.name == ROOT_NAME
  {
    hide At, EncodeHead, EncodeBody, ReadHead, InodeOf;
    if t.Dir? {
      AtConcat(d, p, EncodeHead(fmt, t.head), EncodeAll(fmt, t.kids) + [t.eod]);
    } else if t.Reg? {
      AtConcat(d, p, EncodeHead(fmt, t.head), EncodeBody(fmt, t.body));
    } else if t.Link? {
      AtConcat(d, p, EncodeHead(fmt, t.head), t.target + [0]);
    }
    HeadReads(d, p, fmt, t.head);
  }

  lemma {:induction false} NodeRoots(d: seq<byte>, p: nat, fmt: nat, comp: byte, stack: seq<seq<byte>>, depth: nat,
                                     t: Node)
    requires Valid(fmt, t) && At(d, p, Encode(fmt, t)) && (t.Dir? ==> depth > 0)
    ensures RootsOpened(d, p, fmt, comp, stack, depth)
            == RootsIn(t) + RootsOpened(d, p + |Encode(fmt, t)|, fmt, comp, Emitted(fmt, comp, stack, t).stack, depth)
    decreases t
  {
    hide At, Step, Encode, EncodeHead, InodeOf, JoinPath, OpensRoot;
    LeafOpensNothing(d, p, fmt, t);
    if t.Dir? {
      DirSteps(d, p, fmt, comp, stack, depth, t);
      var q := p + |EncodeHead(fmt, t.head)|;
      var move := OpenDir((t.head.name, InodeOf(fmt, t.head.inode)), q, stack, depth);
      AllRoots(d, q, fmt, comp, move.stack, depth + 1, t.kids);
      var o := EmittedAll(fmt, comp, move.stack, t.kids);
      var e := q + |EncodeAll(fmt, t.kids)|;
      EodSteps(d, e, fmt, comp, o.stack, depth + 1, t.eod);
      EodOpensNothing(d, e, fmt, t.eod);
    } else {
      LeafSteps(d, p, fmt, comp, stack, depth, t);
    }
  }

  lemma EodOpensNothing(d: seq<byte>, p: nat, fmt: nat, eod: byte)
    requires At(d, p, [eod]) && Says(eod, 'z')
    ensures !OpensRoot(d, p, fmt)
  {
    AtOne(d, p, eod);
  }

  lemma {:induction false} AllRoots(d: seq<byte>, p: nat, fmt: nat, comp: byte, stack: seq<seq<byte>>, depth: nat,
                                    ts: seq<Node>)
    requires AllValid(fmt, ts) && At(d, p, EncodeAll(fmt, ts)) && depth > 0
    ensures RootsOpened(d, p, fmt, comp, stack, depth)
            == RootsInAll(ts) + RootsOpened(d, p + |EncodeAll(fmt, ts)|, fmt, comp,
                                    EmittedAll(fmt, comp, stack, ts).stack, depth)
    decreases ts
  {
    hide At, Step, RootsOpened, RootsIn, Encode, Emitted, Valid;
    if ts != [] {
      var first, rest := Encode(fmt, ts[0]), EncodeAll(fmt, ts[1..]);
      AtConcat(d, p, first, rest);
      NodeRoots(d, p, fmt, comp, stack, depth, ts[0]);
      AllRoots(d, p + |first|, fmt, comp, Emitted(fmt, comp, stack, ts[0]).stack, depth, ts[1..]);
    }
  }

  /**
   * Walking a written tree, the depth is the height of the stack or one more throughout, exactly when the
   * tree has one directory of the reserved name at most; so always when there is none below the top.
   */
  lemma {:induction false} TreeTracksIff(d: seq<byte>, p: nat, fmt: nat, comp: byte, root: Node)
    requires Valid(fmt, root) && root.Dir? && At(d, p, Encode(fmt, root))
    ensures Tracks(d, p, fmt, comp, [], 0, 1) <==> RootsIn(root) <= 1
    ensures !HasReserved(root.kids) ==> Tracks(d, p, fmt, comp, [], 0, 1)
  {
    hide At, Step, Encode, EncodeHead, InodeOf, OpensRoot, Valid;
    LeafOpensNothing(d, p, fmt, root);
    DirSteps(d, p, fmt, comp, [], 0, root);
    var q := p + |EncodeHead(fmt, root.head)|;
    assert [] + [root.head.name] == [root.head.name];
    KidsValid(fmt, root);
    AllRoots(d, q, fmt, comp, RootStack(root), 1, root.kids);
    var o := EmittedAll(fmt, comp, RootStack(root), root.kids);
    EodSteps(d, q + |EncodeAll(fmt, root.kids)|, fmt, comp, o.stack, 1, root.eod);
    EodOpensNothing(d, q + |EncodeAll(fmt, root.kids)|, fmt, root.eod);
    NoneReserved(root.kids);
    TracksIff(d, p, fmt, comp, [], 0);
  }

  lemma KidsValid(fmt: nat, root: Node)
    requires Valid(fmt, root) && root.Dir?
    ensures AllValid(fmt, root.kids) && Says(root.eod, 'z')
  {
  }
}
