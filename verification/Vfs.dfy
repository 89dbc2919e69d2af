/** The mounted archive: lookups in the derived tree, and reads through a content cache. */
module Vfs {
  import opened Bytes
  import opened Stream
  import opened Catalogue
  import opened Decode
  import opened Reader
  import opened Tree
  import opened Grammar
  import Recovery
  import Header
  import Locate

  datatype Fault = IoFault | BootstrapFault | DecodeFault | UnsupportedFault

  datatype Answer<+T> = Fine(value: T) | Faulty(fault: Fault) {
    predicate IsFailure() { Faulty? }

    function PropagateFailure<U>(): Answer<U>
      requires Faulty?
    {
      Faulty(fault)
    }

    function Extract(): T
      requires Fine?
    {
      value
    }
  }

  function MapError(e: Error): Fault {
    match e
    case Io => IoFault
    case NotADar => BootstrapFault
    case _ => DecodeFault
  }

  // ---- Lookups ----

  /** The first child of that name. */
  function ChildNamed(nodes: seq<VNode>, children: seq<nat>, name: seq<byte>): Option<nat>
    decreases |children|
  {
    if children == [] then None
    else if children[0] < |nodes| && nodes[children[0]].name == name then Some(children[0])
    else ChildNamed(nodes, children[1..], name)
  }

  function LookupIn(nodes: seq<VNode>, parent: nat, name: seq<byte>): Answer<Option<nat>> {
    if parent >= |nodes| then Faulty(UnsupportedFault)
    else if nodes[parent].kind != DirNode then Faulty(DecodeFault)
    else Fine(ChildNamed(nodes, nodes[parent].children, name))
  }

  /**
   * What a lookup answers: a bad id is not supported, in anything but a directory nothing can be looked up, and
   * in a directory either a child of that name is found or there is none.
   */
  lemma {:induction false} LookupAnswers(nodes: seq<VNode>, parent: nat, name: seq<byte>)
    ensures parent >= |nodes| ==> LookupIn(nodes, parent, name) == Faulty(UnsupportedFault)
    ensures parent < |nodes| && nodes[parent].kind != DirNode ==> LookupIn(nodes, parent, name) == Faulty(DecodeFault)
    ensures parent < |nodes| && nodes[parent].kind == DirNode ==>
              match LookupIn(nodes, parent, name)
              case Fine(Some(id)) => id in nodes[parent].children && id < |nodes| && nodes[id].name == name
              case Fine(None) => forall id :: id in nodes[parent].children && id < |nodes| ==> nodes[id].name != name
              case Faulty(_) => false
  {
    if parent < |nodes| {
      ChildNamedAnswers(nodes, nodes[parent].children, name);
    }
  }

  lemma {:induction false} ChildNamedAnswers(nodes: seq<VNode>, children: seq<nat>, name: seq<byte>)
    ensures match ChildNamed(nodes, children, name)
            case Some(id) => id in children && id < |nodes| && nodes[id].name == name
            case None => forall id :: id in children && id < |nodes| ==> nodes[id].name != name
    decreases |children|
  {
    if children != [] {
      ChildNamedAnswers(nodes, children[1..], name);
      assert forall id :: id in children <==> id == children[0] || id in children[1..];
    }
  }

  method Lookup(nodes: seq<VNode>, parent: nat, name: seq<byte>) returns (r: Answer<Option<nat>>)
    ensures r == LookupIn(nodes, parent, name)
  {
    if parent >= |nodes| {
      return Faulty(UnsupportedFault);
    }
    var node := nodes[parent];
    if node.kind != DirNode {
      return Faulty(DecodeFault);
    }
    for i := 0 to |node.children|
      invariant ChildNamed(nodes, node.children, name) == ChildNamed(nodes, node.children[i..], name)
    {
      var child := node.children[i];
      assert node.children[i..][0] == child && node.children[i..][1..] == node.children[i + 1..];
      if child < |nodes| && nodes[child].name == name {
        return Fine(Some(child));
      }
    }
    r := Fine(None);
  }

  /** Looks up one component after another. */
  function WalkTo(nodes: seq<VNode>, from: nat, names: seq<seq<byte>>): Option<nat>
    decreases |names|
  {
    if names == [] then Some(from)
    else match LookupIn(nodes, from, names[0])
      case Fine(Some(id)) => WalkTo(nodes, id, names[1..])
      case _ => None
  }

  /** The names that lead from the directory holding `ts` to the `k`-th entry listed below it. */
  function NamesTo(ts: seq<Node>, k: nat): (names: seq<seq<byte>>)
    requires k < Recovery.SizeAll(ts)
    ensures names != []
    decreases ts
  {
    if k >= Recovery.Size(ts[0]) then NamesTo(ts[1..], k - Recovery.Size(ts[0]))
    else [ts[0].head.name] + if k == 0 then [] else NamesTo(ts[0].kids, k - 1)
  }

  lemma {:induction false} NamesSpellPath(fmt: nat, comp: byte, stack: seq<seq<byte>>, ts: seq<Node>, k: nat)
    requires k < Recovery.SizeAll(ts)
    ensures |ListAll(fmt, comp, stack, ts)| == Recovery.SizeAll(ts) && NamesTo(ts, k) != []
    ensures var names := NamesTo(ts, k);
            ListAll(fmt, comp, stack, ts)[k].path == JoinPath(stack + names[..|names| - 1], names[|names| - 1])
    decreases ts
  {
    hide EntryOf, JoinPath, Listing;
    var t := ts[0];
    Recovery.ListAllBelow(fmt, comp, stack, ts);
    Recovery.ListingBelow(fmt, comp, stack, t);
    if k >= Recovery.Size(t) {
      NamesSpellPath(fmt, comp, stack, ts[1..], k - Recovery.Size(t));
    } else if k == 0 {
      assert stack + [t.head.name][..0] == stack;
    } else {
      var deeper, below := stack + [t.head.name], NamesTo(t.kids, k - 1);
      NamesSpellPath(fmt, comp, deeper, t.kids, k - 1);
      NameFirst(stack, t.head.name, below);
      BelowFirst(fmt, comp, stack, t, k);
    }
  }

  lemma NameFirst(stack: seq<seq<byte>>, name: seq<byte>, below: seq<seq<byte>>)
    requires below != []
    ensures var names := [name] + below;
            && stack + names[..|names| - 1] == stack + [name] + below[..|below| - 1]
            && names[|names| - 1] == below[|below| - 1]
  {
  }

  lemma BelowFirst(fmt: nat, comp: byte, stack: seq<seq<byte>>, t: Node, k: nat)
    requires t.Dir? && 1 <= k < |Listing(fmt, comp, stack, t)|
    ensures Listing(fmt, comp, stack, t)[k] == ListAll(fmt, comp, stack + [t.head.name], t.kids)[k - 1]
  {
    hide EntryOf, ListAll;
  }

  /** A walk whose first step searches only the children in `among`. */
  function WalkAmong(nodes: seq<VNode>, among: seq<nat>, names: seq<seq<byte>>): Option<nat>
    requires names != []
  {
    match ChildNamed(nodes, among, names[0]) case Some(id) => WalkTo(nodes, id, names[1..]) case None => None
  }

  lemma {:induction false} NamesStart(ts: seq<Node>, k: nat) returns (t: Node)
    requires k < Recovery.SizeAll(ts)
    ensures t in ts && t.head.name == NamesTo(ts, k)[0]
    decreases |ts|
  {
    if k >= Recovery.Size(ts[0]) {
      t := NamesStart(ts[1..], k - Recovery.Size(ts[0]));
    } else {
      t := ts[0];
    }
  }

  lemma SiblingParts(nodes: seq<VNode>, first: nat, ts: seq<Node>)
    requires Recovery.Mirrors(nodes, first, ts) && Recovery.Plain(ts) && ts != []
    ensures Recovery.MirrorsIn(nodes, first, ts[0]) && Recovery.Mirrors(nodes, first + Recovery.Size(ts[0]), ts[1..])
    ensures ts[0].Dir? ==> Recovery.Mirrors(nodes, first + 1, ts[0].kids) && Recovery.Plain(ts[0].kids)
    ensures Recovery.Plain(ts[1..]) && forall t :: t in ts[1..] ==> t.head.name != ts[0].head.name
  {
  }

  lemma {:induction false} WalkReaches(nodes: seq<VNode>, first: nat, ts: seq<Node>, k: nat)
    requires Recovery.Mirrors(nodes, first, ts) && Recovery.Plain(ts) && k < Recovery.SizeAll(ts)
    ensures WalkAmong(nodes, Recovery.KidIds(ts, first), NamesTo(ts, k)) == Some(first + k)
    decreases ts
  {
    hide LookupIn, WalkTo, ChildNamed, Recovery.Mirrors, Recovery.MirrorsIn, Recovery.Plain, Recovery.KidIds;
    var t, size, names := ts[0], Recovery.Size(ts[0]), NamesTo(ts, k);
    SiblingParts(nodes, first, ts);
    SkipsOthers(nodes, first, ts, names[0]);
    if k >= size {
      WalkReaches(nodes, first + size, ts[1..], k - size);
      var later := NamesStart(ts[1..], k - size);
    } else if k > 0 {
      WalkReaches(nodes, first + 1, t.kids, k - 1);
      assert names[1..] == NamesTo(t.kids, k - 1);
      StepsInto(nodes, first, t, names[1..]);
    } else {
      WalkNowhere(nodes, first, names[1..]);
    }
  }

  lemma {:induction false} SkipsOthers(nodes: seq<VNode>, first: nat, ts: seq<Node>, name: seq<byte>)
    requires ts != [] && Recovery.MirrorsIn(nodes, first, ts[0])
    ensures ChildNamed(nodes, Recovery.KidIds(ts, first), name)
            == if name == ts[0].head.name then Some(first)
               else ChildNamed(nodes, Recovery.KidIds(ts[1..], first + Recovery.Size(ts[0])), name)
  {
    hide Recovery.Mirrors;
    assert Recovery.KidIds(ts, first)[1..] == Recovery.KidIds(ts[1..], first + Recovery.Size(ts[0]));
  }

  lemma StepsInto(nodes: seq<VNode>, id: nat, t: Node, names: seq<seq<byte>>)
    requires t.Dir? && Recovery.MirrorsIn(nodes, id, t) && names != []
    ensures WalkTo(nodes, id, names) == WalkAmong(nodes, Recovery.KidIds(t.kids, id + 1), names)
  {
    hide Recovery.Mirrors, ChildNamed;
  }

  lemma WalkNowhere(nodes: seq<VNode>, id: nat, names: seq<seq<byte>>)
    requires names == []
    ensures WalkTo(nodes, id, names) == Some(id)
  {
  }

  /** Looking up the components of any entry's path, the root's own name left off, reaches that entry's node. */
  lemma {:induction false} LookupReachesEveryEntry(fmt: nat, comp: byte, root: Node, k: nat)
    requires root.Dir? && Recovery.Plain(root.kids) && k < Recovery.SizeAll(root.kids)
    ensures var entries, names := RootListing(fmt, comp, root), NamesTo(root.kids, k);
            && names != [] && k < |entries|
            && entries[k].path == JoinPath(RootStack(root) + names[..|names| - 1], names[|names| - 1])
            && WalkTo(Built(entries), 0, names) == Some(k + 1)
  {
    hide Recovery.Mirrors, ListAll, JoinPath, Recovery.Plain;
    Recovery.TreeRecovered(fmt, comp, root);
    NamesSpellPath(fmt, comp, RootStack(root), root.kids, k);
    WalkReaches(Built(RootListing(fmt, comp, root)), 1, root.kids, k);
  }

  // ---- Any list of entries ----

  /** Node `k` hangs under `up` by this name. */
  predicate Hangs(entries: seq<EntryRef>, k: nat, up: nat, name: seq<byte>)
    requires 1 <= k <= |entries|
  {
    ParentOf(entries, entries[k - 1].path) == up && LeafName(entries[k - 1].path) == name
  }

  /**
   * No earlier entry hangs under the same node with the same name, every node above is a directory, and none
   * of them is shadowed either.
   */
  predicate Visible(entries: seq<EntryRef>, id: nat)
    requires id <= |entries|
    decreases if id == 0 then 0 else |entries[id - 1].path| + 1
  {
    id == 0 ||
    var path := entries[id - 1].path;
    var up := ParentOf(entries, path);
    ParentIsShorter(entries, path);
    && Visible(entries, up) && Tree.Bare(entries, up).kind == DirNode
    && forall k :: 1 <= k < id ==> !Hangs(entries, k, up, LeafName(path))
  }

  /** The names of the nodes from the top down to `id`. */
  function Spelled(entries: seq<EntryRef>, id: nat): seq<seq<byte>>
    requires id <= |entries|
    decreases if id == 0 then 0 else |entries[id - 1].path| + 1
  {
    if id == 0 then []
    else
      ParentIsShorter(entries, entries[id - 1].path);
      Spelled(entries, ParentOf(entries, entries[id - 1].path)) + [LeafName(entries[id - 1].path)]
  }

  lemma {:induction false} ChildNamedIff(nodes: seq<VNode>, children: seq<nat>, name: seq<byte>, id: nat)
    requires nodes != [] && Ascending(children, |nodes| - 1)
    ensures ChildNamed(nodes, children, name) == Some(id)
            <==> id in children && nodes[id].name == name
                 && forall c :: c in children && c < id ==> nodes[c].name != name
    decreases |children|
  {
    if children != [] {
      var rest := children[1..];
      assert forall c :: c in children <==> c == children[0] || c in rest;
      assert forall c :: c in rest ==> children[0] < c;
      assert forall i, j :: 0 <= i < j < |rest| ==> rest[i] == children[i + 1] && rest[j] == children[j + 1];
      ChildNamedIff(nodes, rest, name, id);
    }
  }

  /** One lookup from `up` finds `id`: a child by that name, with none of the same name before it. */
  lemma {:induction false} StepIff(entries: seq<EntryRef>, up: nat, name: seq<byte>, id: nat)
    requires up <= |entries|
    ensures LookupIn(Built(entries), up, name) == Fine(Some(id))
            <==> && 1 <= id <= |entries| && Tree.Bare(entries, up).kind == DirNode
                 && Hangs(entries, id, up, name) && forall k :: 1 <= k < id ==> !Hangs(entries, k, up, name)
  {
    hide ParentOf, LeafName, ChildNamed, ChildrenOf;
    var nodes := Built(entries);
    var children := nodes[up].children;
    ChildrenAre(entries, up, |entries|);
    ChildNamedIff(nodes, children, name, id);
    assert forall k :: 1 <= k <= |entries| ==>
             (Hangs(entries, k, up, name) <==> k in children && nodes[k].name == name);
  }

  lemma {:induction false} WalkEnds(nodes: seq<VNode>, from: nat, names: seq<seq<byte>>, last: seq<byte>)
    ensures WalkTo(nodes, from, names + [last])
            == match WalkTo(nodes, from, names)
               case None => None
               case Some(id) => match LookupIn(nodes, id, last) case Fine(found) => found case Faulty(_) => None
    decreases |names|
  {
    hide LookupIn;
    var all := names + [last];
    if names == [] {
      assert all[1..] == [] && all[0] == last;
    } else {
      assert all[1..] == names[1..] + [last] && all[0] == names[0];
      match LookupIn(nodes, from, names[0]) {
        case Fine(Some(id)) => WalkEnds(nodes, id, names[1..], last);
        case _ =>
      }
    }
  }

  lemma {:induction false} VisibleIsReached(entries: seq<EntryRef>, id: nat)
    requires id <= |entries| && Visible(entries, id)
    ensures WalkTo(Built(entries), 0, Spelled(entries, id)) == Some(id)
    decreases if id == 0 then 0 else |entries[id - 1].path| + 1
  {
    hide ParentOf, LeafName, LookupIn, Built;
    if id > 0 {
      var path := entries[id - 1].path;
      ParentIsShorter(entries, path);
      VisibleIsReached(entries, ParentOf(entries, path));
      StepIff(entries, ParentOf(entries, path), LeafName(path), id);
      WalkEnds(Built(entries), 0, Spelled(entries, ParentOf(entries, path)), LeafName(path));
    }
  }

  lemma {:induction false} ReachedIsVisible(entries: seq<EntryRef>, names: seq<seq<byte>>)
    requires WalkTo(Built(entries), 0, names).Some?
    ensures var id := WalkTo(Built(entries), 0, names).value;
            id <= |entries| && Visible(entries, id) && names == Spelled(entries, id)
    decreases |names|
  {
    hide ParentOf, LeafName, LookupIn, Built;
    if names != [] {
      var init, last := names[..|names| - 1], names[|names| - 1];
      assert names == init + [last];
      WalkEnds(Built(entries), 0, init, last);
      ReachedIsVisible(entries, init);
      StepIff(entries, WalkTo(Built(entries), 0, init).value, last, WalkTo(Built(entries), 0, names).value);
    }
  }

  /**
   * For any paths at all, duplicate, orphan or hostile: lookups from the top reach a node exactly when it is
   * visible, and then by the names of the nodes above it and its own, and by no others.
   */
  lemma {:induction false} LookupReachesIff(entries: seq<EntryRef>, id: nat)
    requires id <= |entries|
    ensures (exists names :: WalkTo(Built(entries), 0, names) == Some(id)) <==> Visible(entries, id)
    ensures forall names :: WalkTo(Built(entries), 0, names) == Some(id) ==> names == Spelled(entries, id)
  {
    hide Visible, Spelled, WalkTo, Built;
    if Visible(entries, id) {
      VisibleIsReached(entries, id);
    }
    forall names | WalkTo(Built(entries), 0, names) == Some(id)
      ensures Visible(entries, id) && names == Spelled(entries, id)
    {
      ReachedIsVisible(entries, names);
    }
  }

  /** Two entries "a" and one "a/b": the child hangs under the second, where no lookup comes. */
  lemma {:induction false} ShadowedExample(entries: seq<EntryRef>)
    requires |entries| == 3 && entries[0].path == entries[1].path == [0x61] && entries[2].path == [0x61, SLASH, 0x62]
    ensures !Visible(entries, 3) && 3 in Built(entries)[2].children
  {
    hide ChildrenOf;
    var up := entries[2].path[..1];
    assert up == [0x61];
    assert LastSlash(entries[2].path) == Some(1) by {
      assert entries[2].path[..2] == [0x61, SLASH];
    }
    assert LastSlash([0x61]) == None by {
      assert [0x61][..0] == [];
    }
    assert IdOf(entries, up, 3) == Some(2);
    assert Hangs(entries, 1, 0, LeafName(entries[1].path)) && !Visible(entries, 2);
    ChildrenAre(entries, 2, 3);
  }

  // ---- Reads ----

  /** The part of `content` that a buffer of `len` bytes takes at `off`. */
  function Part(content: seq<byte>, off: nat, len: nat): (r: seq<byte>)
    ensures |r| <= len
  {
    if off >= |content| then []
    else if |content| - off <= len then content[off..]
    else content[off..off + len]
  }

  lemma PartIs(content: seq<byte>, off: nat, len: nat)
    ensures var left := if off < |content| then |content| - off else 0;
            var n := if len < left then len else left;
            Part(content, off, len) == if n == 0 then [] else content[off..off + n]
  {
  }

  class DarVfs {
    const reader: DarReader
    const nodes: seq<VNode>
    var cache: map<nat, seq<byte>>

    /** Plain extraction of a node's path, as the cache must agree with it. */
    ghost function Plainly(path: seq<byte>): Extracted {
      Extraction(reader.inner.Data(), reader.state, reader.codec, path)
    }

    ghost predicate Valid()
      reads this
    {
      && nodes == Built(reader.state.entries)
      && forall id :: id in cache ==>
           id < |nodes| && nodes[id].path.Some?
           && Plainly(nodes[id].path.value).result.Ok? && cache[id] == Plainly(nodes[id].path.value).out
    }

    constructor (reader: DarReader, nodes: seq<VNode>)
      requires nodes == Built(reader.state.entries)
      ensures Valid() && this.reader == reader && this.nodes == nodes && cache == map[]
    {
      this.reader := reader;
      this.nodes := nodes;
      cache := map[];
    }

    method Content(id: nat, path: seq<byte>) returns (r: Answer<seq<byte>>)
      requires Valid() && id < |nodes| && nodes[id].path == Some(path)
      modifies this, reader.inner.Repr()
      ensures Valid()
      ensures r == if Plainly(path).result.Ok? then Fine(Plainly(path).out)
                   else Faulty(MapError(Plainly(path).result.error))
      ensures cache == if r.Fine? then old(cache)[id := r.value] else old(cache)
    {
      hide Extraction, Built, MapError, Source.Data;
      if id in cache {
        assert cache[id := cache[id]] == cache;
        return Fine(cache[id]);
      }
      var bytes := reader.Extract(path);
      if bytes.Err? {
        return Faulty(MapError(bytes.error));
      }
      cache := cache[id := bytes.value];
      r := Fine(bytes.value);
    }

    /** What a read at `off` yields: decided by the archive, the node and the offset alone. */
    ghost function ReadResult(id: nat, off: u64, len: nat): (r: Answer<seq<byte>>)
      ensures r.Fine? ==> |r.value| <= len
    {
      if id >= |nodes| then Faulty(UnsupportedFault)
      else if nodes[id].kind != FileNode || nodes[id].path.None? then Fine([])
      else
        var x := Plainly(nodes[id].path.value);
        if x.result.Err? then Faulty(MapError(x.result.error)) else Fine(Part(x.out, off, len))
    }

    /** The cache after a read of `id`: filled with the node's bytes if they can be had, else as it was. */
    ghost function Caching(cached: map<nat, seq<byte>>, id: nat): map<nat, seq<byte>> {
      if id < |nodes| && nodes[id].kind == FileNode && nodes[id].path.Some? && Plainly(nodes[id].path.value).result.Ok?
      then cached[id := Plainly(nodes[id].path.value).out]
      else cached
    }

    method ReadAt(id: nat, off: u64, buf: array<byte>) returns (r: Answer<nat>)
      requires Valid()
      modifies this, reader.inner.Repr(), buf
      ensures Valid() && cache == Caching(old(cache), id) && (r.Faulty? ==> cache == old(cache))
      ensures match ReadResult(id, off, buf.Length)
              case Fine(bytes) => r == Fine(|bytes|) && buf[..|bytes|] == bytes
                                  && forall k :: |bytes| <= k < buf.Length ==> buf[k] == old(buf[k])
              case Faulty(f) => r == Faulty(f) && buf[..] == old(buf[..])
    {
      hide Plainly, Valid, Part, MapError, Source.Data;
      if id >= |nodes| {
        return Faulty(UnsupportedFault);
      }
      if nodes[id].kind != FileNode || nodes[id].path.None? {
        return Fine(0);
      }
      var data :- Content(id, nodes[id].path.value);
      var n := CopyPart(data, off, buf);
      r := Fine(n);
    }

    /**
     * What a read answers: a bad id is not supported, only files have bytes, and these are as many of the
     * extracted ones as the buffer takes and the offset leaves; a failed extraction is an I/O fault only if its
     * error is one, and else a decoding fault.
     */
    lemma {:induction false} ReadAnswers(id: nat, off: u64, len: nat)
      requires nodes == Built(reader.state.entries)
      ensures id >= |nodes| ==> ReadResult(id, off, len) == Faulty(UnsupportedFault)
      ensures id < |nodes| && nodes[id].kind != FileNode ==> ReadResult(id, off, len) == Fine([])
      ensures id < |nodes| && nodes[id].kind == FileNode ==>
                && nodes[id].path.Some?
                && var x := Plainly(nodes[id].path.value);
                   match x.result
                   case Err(e) =>
                     ReadResult(id, off, len)
                     == Faulty(if e == Io then IoFault else if e == NotADar then BootstrapFault else DecodeFault)
                   case Ok(_) =>
                     var left := if off < |x.out| then |x.out| - off else 0;
                     var n := if len < left then len else left;
                     ReadResult(id, off, len) == Fine(if n == 0 then [] else x.out[off..off + n])
    {
      hide Extraction, ChildrenOf, Part;
      if id < |nodes| && nodes[id].kind == FileNode {
        PartIs(Plainly(nodes[id].path.value).out, off, len);
      }
    }

    /** What extracting the node's own entry would give a read, whatever other entries share its path. */
    ghost function OwnResult(id: nat, off: u64, len: nat): Answer<seq<byte>>
      requires 1 <= id <= |reader.state.entries|
    {
      var x := EntryExtraction(reader.inner.Data(), reader.state, reader.codec, reader.state.entries[id - 1]);
      if x.result.Err? then Faulty(MapError(x.result.error)) else Fine(Part(x.out, off, len))
    }

    /**
     * Reading a file's node gives its own entry's bytes exactly when these are what the first entry of the same
     * path gives; in particular when there is no earlier one.
     */
    lemma {:induction false} ReadsOwnIff(id: nat)
      requires nodes == Built(reader.state.entries) && 1 <= id < |nodes| && nodes[id].kind == FileNode
      ensures var entries := reader.state.entries;
              var own := EntryExtraction(reader.inner.Data(), reader.state, reader.codec, entries[id - 1]);
              (forall off: u64, len: nat :: ReadResult(id, off, len) == OwnResult(id, off, len))
              <==> SameAnswer(own, Plainly(entries[id - 1].path))
      ensures (forall k :: 0 <= k < id - 1 ==> reader.state.entries[k].path != reader.state.entries[id - 1].path)
              ==> forall off: u64, len: nat :: ReadResult(id, off, len) == OwnResult(id, off, len)
    {
      hide EntryExtraction, FindEntry, Part;
      var entries := reader.state.entries;
      var own := EntryExtraction(reader.inner.Data(), reader.state, reader.codec, entries[id - 1]);
      var first := Plainly(entries[id - 1].path);
      var most := |own.out| + |first.out|;
      PartOfAll(own.out, most);
      PartOfAll(first.out, most);
      assert (forall off: u64, len: nat :: ReadResult(id, off, len) == OwnResult(id, off, len))
          ==> ReadResult(id, 0, most) == OwnResult(id, 0, most);
      if forall k :: 0 <= k < id - 1 ==> entries[k].path != entries[id - 1].path {
        FirstIsFound(entries, id - 1);
      }
    }

    // ---- Whole runs ----

    ghost function Answering(q: Request): Answer<seq<byte>> { ReadResult(q.id, q.off, q.size) }

    ghost function CachingAll(cached: map<nat, seq<byte>>, requests: seq<Request>): map<nat, seq<byte>> {
      if requests == [] then cached
      else Caching(CachingAll(cached, requests[..|requests| - 1]), requests[|requests| - 1].id)
    }

    /** A read into a buffer of its own. */
    method Serve(q: Request) returns (answer: Answer<seq<byte>>)
      requires Valid()
      modifies this, reader.inner.Repr()
      ensures Valid() && answer == Answering(q) && cache == Caching(old(cache), q.id)
    {
      hide Caching, ReadResult, Plainly, Built;
      var buf := new byte[q.size](_ => 0);
      var n :- ReadAt(q.id, q.off, buf);
      answer := Fine(buf[..n]);
    }

    /** Any run of reads: each answer is that of its own request, whatever was read before it. */
    method ServeAll(requests: seq<Request>) returns (answers: seq<Answer<seq<byte>>>)
      requires Valid()
      modifies this, reader.inner.Repr()
      ensures Valid() && cache == CachingAll(old(cache), requests)
      ensures |answers| == |requests| && forall i :: 0 <= i < |requests| ==> answers[i] == Answering(requests[i])
    {
      hide Caching, Answering, Valid;
      answers := [];
      for i := 0 to |requests|
        invariant Valid() && cache == CachingAll(old(cache), requests[..i])
        invariant |answers| == i && forall k :: 0 <= k < i ==> answers[k] == Answering(requests[k])
      {
        assert requests[..i + 1][..i] == requests[..i];
        var answer := Serve(requests[i]);
        answers := answers + [answer];
      }
      assert requests[..|requests|] == requests;
    }

    /** The bytes that reading node `id` can give. */
    ghost predicate Holds(id: nat, content: seq<byte>) {
      && id < |nodes| && nodes[id].kind == FileNode && nodes[id].path.Some?
      && Plainly(nodes[id].path.value) == Extracted(content, Plainly(nodes[id].path.value).result)
      && Plainly(nodes[id].path.value).result.Ok? && |content| < TWO_64
    }

    lemma HeldIsRead(id: nat, off: u64, len: nat, content: seq<byte>)
      requires Holds(id, content)
      ensures ReadResult(id, off, len) == Fine(Part(content, off, len)) && |content| < TWO_64
    {
      hide Plainly, Part;
    }

    /** Reads on from `off` with buffers of the given sizes, each read starting where the last one ended. */
    method ReadForward(id: nat, off: u64, sizes: seq<nat>, ghost content: seq<byte>) returns (got: seq<byte>)
      requires Valid() && Holds(id, content) && off <= |content|
      modifies this, reader.inner.Repr()
      ensures Valid() && got == Forward(content, off, sizes)
    {
      hide Holds, ReadResult, Valid, Part;
      got := [];
      ghost var whole := Forward(content, off, sizes);
      HeldIsRead(id, off, 0, content);
      var at: u64 := off;
      assert sizes[0..] == sizes;
      for i := 0 to |sizes|
        invariant Valid() && at <= |content|
        invariant got + Forward(content, at, sizes[i..]) == whole
      {
        assert sizes[i..][0] == sizes[i] && sizes[i..][1..] == sizes[i + 1..];
        HeldIsRead(id, at, sizes[i], content);
        PartFits(content, at, sizes[i]);
        var answer := Serve(Request(id, at, sizes[i]));
        got := got + answer.value;
        at := at + |answer.value|;
      }
      assert sizes[|sizes|..] == [];
    }

    /** Reads on from the start, the `i`-th time with a buffer of `sizes(i)` bytes, until a read comes back empty. */
    method ReadToEnd(id: nat, sizes: nat -> nat, ghost content: seq<byte>) returns (got: seq<byte>)
      requires Valid() && Holds(id, content) && forall i :: sizes(i) > 0
      modifies this, reader.inner.Repr()
      ensures Valid() && got == content
    {
      hide Holds, ReadResult, Valid, Part;
      got := [];
      HeldIsRead(id, 0, 0, content);
      var i: nat, at: u64 := 0, 0;
      while true
        invariant Valid() && at == |got| <= |content| && got == content[..at]
        decreases |content| - at
      {
        HeldIsRead(id, at, sizes(i), content);
        PartLaws(content, at, sizes(i));
        var answer := Serve(Request(id, at, sizes(i)));
        if |answer.value| == 0 {
          return;
        }
        Adjacent(content, 0, at, |answer.value|);
        got := got + answer.value;
        at := at + |answer.value|;
        i := i + 1;
      }
    }
  }

  /** One read: node, offset, and size of the buffer. */
  datatype Request = Request(id: nat, off: u64, size: nat)

  /** Two extractions that no read can tell apart. */
  ghost predicate SameAnswer(x: Extracted, y: Extracted) {
    if x.result.Ok? then y.result.Ok? && x.out == y.out
    else y.result.Err? && MapError(x.result.error) == MapError(y.result.error)
  }

  lemma PartOfAll(content: seq<byte>, len: nat)
    requires len >= |content|
    ensures Part(content, 0, len) == content
  {
  }

  method CopyPart(data: seq<byte>, off: nat, buf: array<byte>) returns (n: nat)
    modifies buf
    ensures n == |Part(data, off, buf.Length)| && buf[..n] == Part(data, off, buf.Length)
    ensures forall k :: n <= k < buf.Length ==> buf[k] == old(buf[k])
  {
    if off >= |data| {
      return 0;
    }
    n := if |data| - off < buf.Length then |data| - off else buf.Length;
    forall k | 0 <= k < n {
      buf[k] := data[off + k];
    }
    assert buf[..n] == Part(data, off, buf.Length);
  }

  method Mount(inner: Source, codec: Codec, tailScan: nat, chunk: nat)
    returns (r: Answer<DarVfs>, ghost tail: seq<nat>, ghost full: seq<nat>)
    requires inner.Pos() == 0 && inner.Fits() && chunk > 0
    modifies inner.Repr()
    ensures var result := OpenResult(inner.Data(), codec, tailScan, tail, full);
            if r.Fine? then r.value.Valid() && r.value.cache == map[] && result == Ok(r.value.reader.state)
            else result.Err? && r.fault == MapError(result.error)
    ensures r.Fine? ==> fresh(r.value) && r.value.reader.inner == inner && r.value.reader.codec == codec
    ensures OpenRun(inner.Data(), tailScan, chunk, tail, full)
  {
    var reader;
    reader, tail, full := Open(inner, codec, tailScan, chunk);
    if reader.Err? {
      return Faulty(MapError(reader.error)), tail, full;
    }
    var nodes := BuildTree(reader.value.state.entries);
    var vfs := new DarVfs(reader.value, nodes);
    r := Fine(vfs);
  }

  /** Mounting fails at the bootstrap stage exactly on input that does not begin with the magic number. */
  lemma {:induction false} BootstrapIff(d: seq<byte>, c: Codec, tailScan: nat, tail: seq<nat>, full: seq<nat>)
    ensures var result := OpenResult(d, c, tailScan, tail, full);
            && (result.Err? && MapError(result.error) == BootstrapFault <==> !At(d, 0, [0x00, 0x00, 0x00, 0x7B]))
            && (result.Err? && MapError(result.error) == IoFault <==> result == Err(Io))
  {
    hide OpenResult, At;
    NoArchiveIff(d, c, tailScan, tail, full);
  }

  /** Successive parts from `off` on, each read starting where the last one ended. */
  function Forward(content: seq<byte>, off: nat, sizes: seq<nat>): seq<byte>
    decreases |sizes|
  {
    if sizes == [] then []
    else
      var part := Part(content, off, sizes[0]);
      part + Forward(content, off + |part|, sizes[1..])
  }

  lemma PartFits(content: seq<byte>, off: nat, len: nat)
    requires off <= |content|
    ensures off + |Part(content, off, len)| <= |content|
  {
  }

  lemma PartLaws(content: seq<byte>, off: nat, len: nat)
    requires off <= |content| && len > 0
    ensures var part := Part(content, off, len);
            && off + |part| <= |content| && part == content[off..off + |part|]
            && (part == [] <==> off == |content|)
  {
  }

  lemma Adjacent(content: seq<byte>, off: nat, m: nat, n: nat)
    requires off + m + n <= |content|
    ensures content[off..off + m] + content[off + m..off + m + n] == content[off..off + m + n]
  {
  }

  lemma {:induction false} ForwardIsContent(content: seq<byte>, off: nat, sizes: seq<nat>)
    requires off <= |content| && forall i :: 0 <= i < |sizes| ==> sizes[i] > 0
    ensures off + |Forward(content, off, sizes)| <= |content|
    ensures Forward(content, off, sizes) == content[off..off + |Forward(content, off, sizes)|]
    ensures |sizes| >= |content| - off ==> off + |Forward(content, off, sizes)| == |content|
    decreases |sizes|
  {
    hide Part;
    if sizes != [] {
      PartLaws(content, off, sizes[0]);
      var m := |Part(content, off, sizes[0])|;
      ForwardIsContent(content, off + m, sizes[1..]);
      Adjacent(content, off, m, |Forward(content, off + m, sizes[1..])|);
    }
  }

  /**
   * Reading forward with buffers of any non-zero sizes: what was read is the content from `off` on as
   * far as read, a further read comes back empty exactly when that is all of it, and enough reads get there.
   */
  lemma {:induction false} ForwardReassembles(content: seq<byte>, off: nat, sizes: seq<nat>, n: nat)
    requires off <= |content| && n > 0 && forall i :: 0 <= i < |sizes| ==> sizes[i] > 0
    ensures var got := Forward(content, off, sizes);
            && got <= content[off..]
            && (Part(content, off + |got|, n) == [] <==> got == content[off..])
            && (|sizes| >= |content| - off ==> got == content[off..])
  {
    hide Part, Forward;
    ForwardIsContent(content, off, sizes);
    PartLaws(content, off + |Forward(content, off, sizes)|, n);
  }
}
