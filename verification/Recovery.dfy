/** A directory tree listed by the parser is rebuilt, node for node, from the flat paths. */
module Recovery {
  import opened Bytes
  import opened Catalogue
  import opened Grammar
  import opened Tree

  // ---- Ids in pre-order ----

  function Size(t: Node): nat
    decreases t
  {
    1 + if t.Dir? then SizeAll(t.kids) else 0
  }

  function SizeAll(ts: seq<Node>): nat
    decreases ts
  {
    if ts == [] then 0 else Size(ts[0]) + SizeAll(ts[1..])
  }

  /** The `k`-th node below a directory, in listing order. */
  function NodeAt(ts: seq<Node>, k: nat): Node
    requires k < SizeAll(ts)
    decreases ts
  {
    if k >= Size(ts[0]) then NodeAt(ts[1..], k - Size(ts[0]))
    else if k == 0 then ts[0]
    else NodeAt(ts[0].kids, k - 1)
  }

  /** The ids of siblings whose first entry gets id `first`. */
  function KidIds(ts: seq<Node>, first: nat): seq<nat>
    decreases |ts|
  {
    if ts == [] then [] else [first] + KidIds(ts[1..], first + Size(ts[0]))
  }

  /** The parent ids of all entries below `ts`, in listing order. */
  function Parents(ts: seq<Node>, first: nat, parent: nat): seq<nat>
    decreases ts
  {
    if ts == [] then []
    else ParentsIn(ts[0], first, parent) + Parents(ts[1..], first + Size(ts[0]), parent)
  }

  function ParentsIn(t: Node, first: nat, parent: nat): seq<nat>
    decreases t
  {
    [parent] + if t.Dir? then Parents(t.kids, first + 1, first) else []
  }

  // ---- Names ----

  /** Slash-free names throughout, distinct among siblings. */
  predicate Plain(ts: seq<Node>)
    decreases ts
  {
    ts == [] ||
    (PlainIn(ts[0]) && Plain(ts[1..]) && forall t :: t in ts[1..] ==> t.head.name != ts[0].head.name)
  }

  predicate PlainIn(t: Node)
    decreases t
  {
    SLASH !in t.head.name && (t.Dir? ==> Plain(t.kids))
  }

  // ---- Paths ----

  lemma {:induction false} JoinSplits(stack: seq<seq<byte>>, name: seq<byte>)
    ensures JoinPath(stack, name) == JoinPath(stack, []) + name
    decreases |stack|
  {
    if stack != [] {
      JoinSplits(stack[1..], name);
      assert stack[0] + [SLASH] + (JoinPath(stack[1..], []) + name)
          == stack[0] + [SLASH] + JoinPath(stack[1..], []) + name;
    } else {
      assert [] + name == name;
    }
  }

  lemma {:induction false} JoinDeeper(stack: seq<seq<byte>>, dir: seq<byte>)
    ensures JoinPath(stack + [dir], []) == JoinPath(stack, dir) + [SLASH]
    decreases |stack|
  {
    if stack == [] {
      assert JoinPath([dir][1..], []) == [];
      assert [] + [dir] == [dir] && dir + [SLASH] + [] == dir + [SLASH];
    } else {
      assert (stack + [dir])[1..] == stack[1..] + [dir];
      JoinDeeper(stack[1..], dir);
      assert stack[0] + [SLASH] + (JoinPath(stack[1..], dir) + [SLASH])
          == stack[0] + [SLASH] + JoinPath(stack[1..], dir) + [SLASH];
    }
  }

  /** The path lies at or below the entry `name` of the directory with prefix `under`. */
  ghost predicate Below(path: seq<byte>, under: seq<byte>, name: seq<byte>) {
    var own := under + name;
    own <= path && (|path| > |own| ==> path[|own|] == SLASH)
  }

  /** Slash-free names tell paths apart. */
  lemma {:induction false} BelowOne(path: seq<byte>, under: seq<byte>, a: seq<byte>, b: seq<byte>)
    requires Below(path, under, a) && Below(path, under, b) && SLASH !in a && SLASH !in b
    ensures a == b
  {
    var p, q := under + a, under + b;
    assert forall k :: 0 <= k < |a| ==> a[k] == p[|under| + k] == path[|under| + k];
    assert forall k :: 0 <= k < |b| ==> b[k] == q[|under| + k] == path[|under| + k];
    assert |a| == |b|;
  }

  lemma {:induction false} BelowDeeper(path: seq<byte>, stack: seq<seq<byte>>, dir: seq<byte>, name: seq<byte>)
    requires Below(path, JoinPath(stack + [dir], []), name)
    ensures Below(path, JoinPath(stack, []), dir) && path != JoinPath(stack, dir)
  {
    JoinDeeper(stack, dir);
    JoinSplits(stack, dir);
    var own := JoinPath(stack, dir);
    assert own + [SLASH] + name <= path;
    assert (own + [SLASH] + name)[|own|] == SLASH;
    assert (own + [SLASH] + name)[..|own|] == own;
  }

  /** What the listing of one node, and of siblings, holds. */
  lemma {:induction false} ListingBelow(fmt: nat, comp: byte, stack: seq<seq<byte>>, t: Node)
    ensures |Listing(fmt, comp, stack, t)| == Size(t)
    ensures Listing(fmt, comp, stack, t)[0].path == JoinPath(stack, t.head.name)
    ensures forall e :: e in Listing(fmt, comp, stack, t) ==> Below(e.path, JoinPath(stack, []), t.head.name)
    ensures forall k :: 1 <= k < Size(t) ==> Listing(fmt, comp, stack, t)[k].path != JoinPath(stack, t.head.name)
    decreases t
  {
    hide InodeOf, FieldsOf, Below;
    BelowSelf(stack, t.head.name);
    if t.Dir? {
      var deeper := stack + [t.head.name];
      ListAllBelow(fmt, comp, deeper, t.kids);
      var all := ListAll(fmt, comp, deeper, t.kids);
      forall e | e in all
        ensures Below(e.path, JoinPath(stack, []), t.head.name) && e.path != JoinPath(stack, t.head.name)
      {
        var name :| Below(e.path, JoinPath(deeper, []), name);
        BelowDeeper(e.path, stack, t.head.name, name);
      }
      assert forall k :: 1 <= k < Size(t) ==> Listing(fmt, comp, stack, t)[k] == all[k - 1];
    }
  }

  lemma BelowSelf(stack: seq<seq<byte>>, name: seq<byte>)
    ensures Below(JoinPath(stack, name), JoinPath(stack, []), name)
  {
    JoinSplits(stack, name);
  }

  lemma {:induction false} ListAllBelow(fmt: nat, comp: byte, stack: seq<seq<byte>>, ts: seq<Node>)
    ensures |ListAll(fmt, comp, stack, ts)| == SizeAll(ts)
    ensures forall e :: e in ListAll(fmt, comp, stack, ts)
              ==> exists t :: t in ts && Below(e.path, JoinPath(stack, []), t.head.name)
    decreases ts
  {
    hide Below, Listing;
    if ts != [] {
      ListingBelow(fmt, comp, stack, ts[0]);
      ListAllBelow(fmt, comp, stack, ts[1..]);
      forall e | e in ListAll(fmt, comp, stack, ts)
        ensures exists t :: t in ts && Below(e.path, JoinPath(stack, []), t.head.name)
      {
        if e in Listing(fmt, comp, stack, ts[0]) {
          assert ts[0] in ts;
        } else {
          var t :| t in ts[1..] && Below(e.path, JoinPath(stack, []), t.head.name);
          assert t in ts;
        }
      }
    }
  }

  lemma {:induction false} ListingSize(fmt: nat, comp: byte, stack: seq<seq<byte>>, t: Node)
    ensures |Listing(fmt, comp, stack, t)| == Size(t)
  {
    hide Listing;
    ListingBelow(fmt, comp, stack, t);
  }

  // ---- No path is listed twice ----

  ghost predicate Distinct(es: seq<EntryRef>) {
    forall i, j :: 0 <= i < j < |es| ==> es[i].path != es[j].path
  }

  lemma {:induction false} NodeDistinct(fmt: nat, comp: byte, stack: seq<seq<byte>>, t: Node)
    requires PlainIn(t)
    ensures Distinct(Listing(fmt, comp, stack, t))
    decreases t
  {
    hide EntryOf, JoinPath;
    ListingBelow(fmt, comp, stack, t);
    if t.Dir? {
      var all := ListAll(fmt, comp, stack + [t.head.name], t.kids);
      AllDistinct(fmt, comp, stack + [t.head.name], t.kids);
      assert forall k :: 1 <= k < Size(t) ==> Listing(fmt, comp, stack, t)[k] == all[k - 1];
    }
  }

  lemma {:induction false} AllDistinct(fmt: nat, comp: byte, stack: seq<seq<byte>>, ts: seq<Node>)
    requires Plain(ts)
    ensures Distinct(ListAll(fmt, comp, stack, ts))
    decreases ts
  {
    hide Listing, JoinPath, Below;
    if ts != [] {
      var a, b := Listing(fmt, comp, stack, ts[0]), ListAll(fmt, comp, stack, ts[1..]);
      NodeDistinct(fmt, comp, stack, ts[0]);
      AllDistinct(fmt, comp, stack, ts[1..]);
      ListingBelow(fmt, comp, stack, ts[0]);
      ListAllBelow(fmt, comp, stack, ts[1..]);
      forall i, j | 0 <= i < |a| && 0 <= j < |b|
        ensures a[i].path != b[j].path
      {
        assert a[i] in a && b[j] in b;
        var t :| t in ts[1..] && Below(b[j].path, JoinPath(stack, []), t.head.name);
        PlainNames(ts[1..], t);
        if a[i].path == b[j].path {
          BelowOne(a[i].path, JoinPath(stack, []), ts[0].head.name, t.head.name);
        }
      }
    }
  }

  lemma {:induction false} PlainNames(ts: seq<Node>, t: Node)
    requires Plain(ts) && t in ts
    ensures SLASH !in t.head.name && PlainIn(t)
    decreases |ts|
  {
    if t != ts[0] {
      PlainNames(ts[1..], t);
    }
  }

  // ---- Every entry finds its parent ----

  /** Entries directly inside the directory of `stack` have the parent `parent`. */
  ghost predicate Home(entries: seq<EntryRef>, stack: seq<seq<byte>>, parent: nat) {
    forall name :: SLASH !in name ==> ParentOf(entries, JoinPath(stack, name)) == parent
  }

  lemma {:induction false} SlashOf(under: seq<byte>, name: seq<byte>)
    requires SLASH !in name
    ensures LastSlash(under + [SLASH] + name) == Some(|under|)
    ensures LeafName(under + [SLASH] + name) == name && (under + [SLASH] + name)[..|under|] == under
  {
    var path := under + [SLASH] + name;
    var r := LastSlash(path);
    assert path[|under|] == SLASH && path[|under| + 1..] == name;
    assert r.Some? ==> forall k :: r.value < k < |path| ==> path[k] in path[r.value + 1..];
  }

  lemma {:induction false} NoSlash(name: seq<byte>)
    requires SLASH !in name
    ensures LastSlash(name) == None && LeafName(name) == name
  {
    assert forall k :: 0 <= k < |name| ==> name[k] in name;
  }

  lemma {:induction false} LeafOfJoin(stack: seq<seq<byte>>, name: seq<byte>)
    requires SLASH !in name
    ensures LeafName(JoinPath(stack, name)) == name
  {
    hide LeafName;
    if stack == [] {
      NoSlash(name);
    } else {
      var init, last := stack[..|stack| - 1], stack[|stack| - 1];
      assert stack == init + [last];
      JoinDeeper(init, last);
      JoinSplits(stack, name);
      SlashOf(JoinPath(init, last), name);
    }
  }

  lemma {:induction false} HomeOfTop(entries: seq<EntryRef>)
    ensures Home(entries, [], 0)
  {
    forall name | SLASH !in name
      ensures ParentOf(entries, JoinPath([], name)) == 0
    {
      NoSlash(name);
    }
  }

  lemma {:induction false} HomeOfDir(entries: seq<EntryRef>, stack: seq<seq<byte>>, dir: seq<byte>, id: nat)
    requires match IdOf(entries, JoinPath(stack, dir), |entries|) case Some(k) => id == k case None => id == 0
    ensures Home(entries, stack + [dir], id)
  {
    forall name | SLASH !in name
      ensures ParentOf(entries, JoinPath(stack + [dir], name)) == id
    {
      JoinDeeper(stack, dir);
      JoinSplits(stack + [dir], name);
      SlashOf(JoinPath(stack, dir), name);
    }
  }

  lemma {:induction false} ParentsLength(ts: seq<Node>, first: nat, parent: nat)
    ensures |Parents(ts, first, parent)| == SizeAll(ts)
    decreases ts
  {
    if ts != [] {
      if ts[0].Dir? {
        ParentsLength(ts[0].kids, first + 1, first);
      }
      ParentsLength(ts[1..], first + Size(ts[0]), parent);
    }
  }

  /** The parents the tree builder finds for entries `lo..hi`. */
  function Found(entries: seq<EntryRef>, lo: nat, hi: nat): (r: seq<nat>)
    requires lo <= hi <= |entries|
    ensures |r| == hi - lo
    decreases hi - lo
  {
    if lo == hi then [] else [ParentOf(entries, entries[lo].path)] + Found(entries, lo + 1, hi)
  }

  lemma {:induction false} FoundSplits(entries: seq<EntryRef>, lo: nat, mid: nat, hi: nat)
    requires lo <= mid <= hi <= |entries|
    ensures Found(entries, lo, hi) == Found(entries, lo, mid) + Found(entries, mid, hi)
    decreases mid - lo
  {
    hide ParentOf;
    if lo < mid {
      FoundSplits(entries, lo + 1, mid, hi);
    }
  }

  lemma {:induction false} ParentsFoundIn(entries: seq<EntryRef>, at: nat, fmt: nat, comp: byte,
                                          stack: seq<seq<byte>>, t: Node, parent: nat)
    requires At(entries, at, Listing(fmt, comp, stack, t)) && PlainIn(t)
             && Distinct(entries) && Home(entries, stack, parent)
    ensures at + Size(t) <= |entries|
    ensures Found(entries, at, at + Size(t)) == ParentsIn(t, at + 1, parent)
    decreases t
  {
    hide At, EntryOf, ParentOf, ListAll, Distinct, JoinPath;
    var deeper := stack + [t.head.name];
    var below := if t.Dir? then ListAll(fmt, comp, deeper, t.kids) else [];
    AtConcat(entries, at, [EntryOf(fmt, comp, stack, t)], below);
    AtOne(entries, at, EntryOf(fmt, comp, stack, t));
    EntryPath(fmt, comp, stack, t);
    if t.Dir? {
      DistinctId(entries, at);
      HomeOfDir(entries, stack, t.head.name, at + 1);
      ParentsFound(entries, at + 1, fmt, comp, deeper, t.kids, at + 1);
    }
  }

  lemma {:induction false} ParentsFound(entries: seq<EntryRef>, at: nat, fmt: nat, comp: byte, stack: seq<seq<byte>>,
                                        ts: seq<Node>, parent: nat)
    requires At(entries, at, ListAll(fmt, comp, stack, ts)) && Plain(ts)
             && Distinct(entries) && Home(entries, stack, parent)
    ensures at + SizeAll(ts) <= |entries|
    ensures Found(entries, at, at + SizeAll(ts)) == Parents(ts, at + 1, parent)
    decreases ts
  {
    hide At, ParentOf, Listing, Distinct, Home, PlainIn, ParentsIn, Found;
    if ts != [] {
      var t := ts[0];
      ListingSize(fmt, comp, stack, t);
      AtConcat(entries, at, Listing(fmt, comp, stack, t), ListAll(fmt, comp, stack, ts[1..]));
      ParentsFoundIn(entries, at, fmt, comp, stack, t, parent);
      ParentsFound(entries, at + Size(t), fmt, comp, stack, ts[1..], parent);
      FoundSplits(entries, at, at + Size(t), at + SizeAll(ts));
    } else {
      AtWithin(entries, at, ListAll(fmt, comp, stack, ts));
      FoundSplits(entries, at, at, at);
    }
  }

  lemma EntryPath(fmt: nat, comp: byte, stack: seq<seq<byte>>, t: Node)
    ensures EntryOf(fmt, comp, stack, t).path == JoinPath(stack, t.head.name)
    ensures KindOf(EntryOf(fmt, comp, stack, t).kind)
            == if t.Dir? then DirNode else if t.Link? then LinkNode else FileNode
  {
  }

  lemma DistinctId(entries: seq<EntryRef>, i: nat)
    requires Distinct(entries) && i < |entries|
    ensures IdOf(entries, entries[i].path, |entries|) == Some(i + 1)
  {
  }

  // ---- Children lists are the tree's ----

  /** Ids, counted from `first`, at which `ps` names `id` as the parent. */
  function Holding(ps: seq<nat>, first: nat, id: nat): seq<nat>
    decreases |ps|
  {
    if ps == [] then []
    else (if ps[0] == id then [first] else []) + Holding(ps[1..], first + 1, id)
  }

  lemma {:induction false} HoldingConcat(a: seq<nat>, b: seq<nat>, first: nat, id: nat)
    ensures Holding(a + b, first, id) == Holding(a, first, id) + Holding(b, first + |a|, id)
    decreases |a|
  {
    if a == [] {
      assert a + b == b;
    } else {
      assert (a + b)[1..] == a[1..] + b;
      HoldingConcat(a[1..], b, first + 1, id);
    }
  }

  lemma {:induction false} ChildrenHolding(entries: seq<EntryRef>, n: nat, id: nat)
    requires n <= |entries|
    ensures ChildrenOf(entries, id, n) == Holding(Found(entries, 0, n), 1, id)
    decreases n
  {
    hide ParentOf;
    if n > 0 {
      ChildrenHolding(entries, n - 1, id);
      FoundSplits(entries, 0, n - 1, n);
      assert Found(entries, n - 1, n) == [ParentOf(entries, entries[n - 1].path)];
      HoldingConcat(Found(entries, 0, n - 1), Found(entries, n - 1, n), 1, id);
    }
  }

  ghost predicate Avoids(ps: seq<nat>, lo: nat, hi: nat) { forall p :: p in ps ==> !(lo <= p < hi) }

  lemma {:induction false} AvoidedHoldsNone(ps: seq<nat>, first: nat, id: nat)
    requires id !in ps
    ensures Holding(ps, first, id) == []
    decreases |ps|
  {
    if ps != [] {
      AvoidedHoldsNone(ps[1..], first + 1, id);
    }
  }

  /** Below siblings, every parent is the given one or one of themselves. */
  lemma {:induction false} ParentsRange(ts: seq<Node>, first: nat, parent: nat)
    ensures forall p :: p in Parents(ts, first, parent) ==> p == parent || first <= p < first + SizeAll(ts)
    decreases ts
  {
    if ts != [] {
      if ts[0].Dir? {
        ParentsRange(ts[0].kids, first + 1, first);
      }
      ParentsRange(ts[1..], first + Size(ts[0]), parent);
      var head, rest := ParentsIn(ts[0], first, parent), Parents(ts[1..], first + Size(ts[0]), parent);
      var below := if ts[0].Dir? then Parents(ts[0].kids, first + 1, first) else [];
      assert head == [parent] + below && Parents(ts, first, parent) == head + rest;
    }
  }

  lemma {:induction false} OwnKids(ts: seq<Node>, first: nat, parent: nat)
    requires parent < first
    ensures Holding(Parents(ts, first, parent), first, parent) == KidIds(ts, first)
    decreases ts
  {
    hide Holding;
    if ts == [] {
      AvoidedHoldsNone([], first, parent);
    } else {
      var t := ts[0];
      var below, rest := if t.Dir? then Parents(t.kids, first + 1, first) else [],
                          Parents(ts[1..], first + Size(t), parent);
      OneParents(t, first, parent);
      if t.Dir? {
        ParentsRange(t.kids, first + 1, first);
      }
      AvoidedHoldsNone(below, first + 1, parent);
      HoldingOne(first, parent);
      HoldingConcat([parent], below, first, parent);
      HoldingConcat([parent] + below, rest, first, parent);
      OwnKids(ts[1..], first + Size(t), parent);
    }
  }

  lemma HoldingOne(first: nat, id: nat)
    ensures Holding([id], first, id) == [first]
  {
    assert Holding([id][1..], first + 1, id) == [];
  }

  /** The node table shows every node of `ts`, from id `first` on, with its own children in order. */
  ghost predicate Mirrors(nodes: seq<VNode>, first: nat, ts: seq<Node>)
    decreases ts
  {
    ts == [] || (MirrorsIn(nodes, first, ts[0]) && Mirrors(nodes, first + Size(ts[0]), ts[1..]))
  }

  ghost predicate MirrorsIn(nodes: seq<VNode>, id: nat, t: Node)
    decreases t
  {
    && id < |nodes| && nodes[id].name == t.head.name
    && nodes[id].kind == (if t.Dir? then DirNode else if t.Link? then LinkNode else FileNode)
    && nodes[id].children == (if t.Dir? then KidIds(t.kids, id + 1) else [])
    && (t.Dir? ==> Mirrors(nodes, id + 1, t.kids))
  }

  /** What the builder found below `id` decides its children, whatever is found outside. */
  lemma {:induction false} OnlyInside(pre: seq<nat>, mid: seq<nat>, post: seq<nat>, id: nat)
    requires id !in pre && id !in post
    ensures Holding(pre + mid + post, 1, id) == Holding(mid, 1 + |pre|, id)
  {
    HoldingConcat(pre + mid, post, 1, id);
    HoldingConcat(pre, mid, 1, id);
    AvoidedHoldsNone(pre, 1, id);
    AvoidedHoldsNone(post, 1 + |pre + mid|, id);
  }

  lemma {:induction false} ShowsIn(entries: seq<EntryRef>, at: nat, fmt: nat, comp: byte, stack: seq<seq<byte>>,
                                   t: Node, parent: nat,
                                   pre: seq<nat>, post: seq<nat>)
    requires At(entries, at, Listing(fmt, comp, stack, t)) && PlainIn(t) && |pre| == at && parent <= at
    requires Found(entries, 0, |entries|) == pre + ParentsIn(t, at + 1, parent) + post
    requires Avoids(pre, at + 1, at + 1 + Size(t)) && Avoids(post, at + 1, at + 1 + Size(t))
    ensures MirrorsIn(Built(entries), at + 1, t)
    decreases t
  {
    hide At, EntryOf, ListAll, ParentOf, Found, NodeOf;
    var deeper, id := stack + [t.head.name], at + 1;
    var below := if t.Dir? then ListAll(fmt, comp, deeper, t.kids) else [];
    AtConcat(entries, at, [EntryOf(fmt, comp, stack, t)], below);
    AtOne(entries, at, EntryOf(fmt, comp, stack, t));
    NodeShows(entries, at, fmt, comp, stack, t);
    ChildrenHolding(entries, |entries|, id);
    var kids := if t.Dir? then Parents(t.kids, id + 1, id) else [];
    assert ParentsIn(t, id, parent) == [parent] + kids;
    var pre' := pre + [parent];
    assert pre + ParentsIn(t, id, parent) + post == pre' + kids + post;
    OnlyInside(pre', kids, post, id);
    if t.Dir? {
      OwnKids(t.kids, id + 1, id);
      Shows(entries, id, fmt, comp, deeper, t.kids, id, pre', post);
    }
  }

  lemma {:induction false} NodeShows(entries: seq<EntryRef>, at: nat, fmt: nat, comp: byte, stack: seq<seq<byte>>,
                                     t: Node)
    requires at < |entries| && entries[at] == EntryOf(fmt, comp, stack, t) && SLASH !in t.head.name
    ensures var n := Built(entries)[at + 1];
            && n.name == t.head.name
            && n.kind == (if t.Dir? then DirNode else if t.Link? then LinkNode else FileNode)
            && n.children == ChildrenOf(entries, at + 1, |entries|)
  {
    hide EntryOf, LeafName;
    EntryPath(fmt, comp, stack, t);
    LeafOfJoin(stack, t.head.name);
  }

  lemma {:induction false} Shows(entries: seq<EntryRef>, at: nat, fmt: nat, comp: byte, stack: seq<seq<byte>>,
                                 ts: seq<Node>, parent: nat,
                                 pre: seq<nat>, post: seq<nat>)
    requires At(entries, at, ListAll(fmt, comp, stack, ts)) && Plain(ts) && |pre| == at && parent <= at
    requires Found(entries, 0, |entries|) == pre + Parents(ts, at + 1, parent) + post
    requires Avoids(pre, at + 1, at + 1 + SizeAll(ts)) && Avoids(post, at + 1, at + 1 + SizeAll(ts))
    ensures Mirrors(Built(entries), at + 1, ts)
    decreases ts
  {
    hide At, Listing, ParentOf, Found, ParentsIn, MirrorsIn, PlainIn;
    if ts != [] {
      var t := ts[0];
      ListingSize(fmt, comp, stack, t);
      AtConcat(entries, at, Listing(fmt, comp, stack, t), ListAll(fmt, comp, stack, ts[1..]));
      var head, rest := ParentsIn(t, at + 1, parent), Parents(ts[1..], at + 1 + Size(t), parent);
      assert |head| == Size(t) && (forall p :: p in head ==> p == parent || at + 1 <= p < at + 1 + Size(t)) by {
        OneParents(t, at + 1, parent);
      }
      ParentsRange(ts[1..], at + 1 + Size(t), parent);
      assert pre + (head + rest) + post == pre + head + (rest + post);
      assert pre + (head + rest) + post == (pre + head) + rest + post;
      ShowsIn(entries, at, fmt, comp, stack, t, parent, pre, rest + post);
      Shows(entries, at + Size(t), fmt, comp, stack, ts[1..], parent, pre + head, post);
    }
  }

  lemma {:induction false} OneParents(t: Node, first: nat, parent: nat)
    ensures |ParentsIn(t, first, parent)| == Size(t)
    ensures forall p :: p in ParentsIn(t, first, parent) ==> p == parent || first <= p < first + Size(t)
  {
    if t.Dir? {
      ParentsLength(t.kids, first + 1, first);
      ParentsRange(t.kids, first + 1, first);
    }
  }

  /** The `k`-th entry of a listing is that of the `k`-th node. */
  lemma {:induction false} EntryAt(fmt: nat, comp: byte, stack: seq<seq<byte>>, ts: seq<Node>, k: nat)
    returns (above: seq<seq<byte>>)
    requires k < SizeAll(ts)
    ensures |ListAll(fmt, comp, stack, ts)| == SizeAll(ts)
    ensures ListAll(fmt, comp, stack, ts)[k] == EntryOf(fmt, comp, above, NodeAt(ts, k))
    decreases ts
  {
    hide EntryOf, Below, JoinPath;
    var t := ts[0];
    ListAllBelow(fmt, comp, stack, ts);
    ListingBelow(fmt, comp, stack, t);
    if k >= Size(t) {
      above := EntryAt(fmt, comp, stack, ts[1..], k - Size(t));
    } else if k == 0 {
      above := stack;
    } else {
      above := EntryAt(fmt, comp, stack + [t.head.name], t.kids, k - 1);
    }
  }

  // ---- Main results ----

  /** The tree under the top of the table is the archived tree, whether or not its root was named. */
  lemma {:induction false} TreeRecovered(fmt: nat, comp: byte, root: Node)
    requires root.Dir? && Plain(root.kids)
    ensures var nodes := Built(RootListing(fmt, comp, root));
            && |nodes| == SizeAll(root.kids) + 1
            && nodes[0].kind == DirNode && nodes[0].children == KidIds(root.kids, 1)
            && Mirrors(nodes, 1, root.kids)
  {
    hide ListAll, ParentOf, Found, Plain, Mirrors, Distinct;
    var stack, entries := RootStack(root), RootListing(fmt, comp, root);
    ListAllBelow(fmt, comp, stack, root.kids);
    AllDistinct(fmt, comp, stack, root.kids);
    assert At(entries, 0, entries) by { assert entries[0..|entries|] == entries; }
    RootHome(fmt, comp, root);
    ParentsFound(entries, 0, fmt, comp, stack, root.kids, 0);
    var all := Parents(root.kids, 1, 0);
    assert [] + all + [] == all;
    Shows(entries, 0, fmt, comp, stack, root.kids, 0, [], []);
    ChildrenHolding(entries, |entries|, 0);
    OwnKids(root.kids, 1, 0);
  }

  /** What the file's body says of its length; other nodes have none. */
  function LengthOf(t: Node): u64 { if t.Reg? then t.body.size.v else 0 }

  function Least(a: nat, b: nat): nat { if a < b then a else b }

  /** Every node carries the metadata of its archived node: length, owner, permissions, times and link target. */
  lemma {:induction false} MetadataRecovered(fmt: nat, comp: byte, root: Node, k: nat)
    requires root.Dir? && k < SizeAll(root.kids)
    ensures k + 1 < |Built(RootListing(fmt, comp, root))|
    ensures var n, t := Built(RootListing(fmt, comp, root))[k + 1], NodeAt(root.kids, k);
            var i := t.head.inode;
            && n.size == LengthOf(t) && n.mode == i.mode
            && n.uid == Least(i.uid.v, 0xFFFF_FFFF) && n.gid == Least(i.gid.v, 0xFFFF_FFFF)
            && n.atime == Signed(i.atime.secs.v) && n.mtime == Signed(i.mtime.secs.v)
            && n.ctime == (if fmt >= 8 then Some(Signed(i.ctime.secs.v)) else None)
            && n.target == (if t.Link? then Some(t.target) else None)
            && n.path == Some(RootListing(fmt, comp, root)[k].path)
  {
    hide ListAll, JoinPath, ChildrenOf, LeafName;
    var above := EntryAt(fmt, comp, RootStack(root), root.kids, k);
  }

  lemma {:induction false} RootHome(fmt: nat, comp: byte, root: Node)
    requires root.Dir?
    ensures Home(RootListing(fmt, comp, root), RootStack(root), 0)
  {
    hide ListAll, Below;
    var entries := RootListing(fmt, comp, root);
    if root.head.name == ROOT_NAME {
      HomeOfTop(entries);
    } else {
      ListAllBelow(fmt, comp, [root.head.name], root.kids);
      var id := IdOf(entries, JoinPath([], root.head.name), |entries|);
      if id.Some? {
        var e := entries[id.value - 1];
        assert e in entries;
        var t :| t in root.kids && Below(e.path, JoinPath([root.head.name], []), t.head.name);
        assert [] + [root.head.name] == [root.head.name];
        BelowDeeper(e.path, [], root.head.name, t.head.name);
      }
      assert [] + [root.head.name] == [root.head.name];
      HomeOfDir(entries, [], root.head.name, 0);
    }
  }
}
