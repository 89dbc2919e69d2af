/** The directory tree derived from the flat catalogue of full paths. */
module Tree {
  import opened Bytes
  import opened Catalogue

  datatype NodeKind = DirNode | LinkNode | FileNode

  datatype VNode = VNode(
    path: Option<seq<byte>>, name: seq<byte>, kind: NodeKind, size: u64, uid: nat, gid: nat, mode: nat,
    atime: int, mtime: int, ctime: Option<int>, target: Option<seq<byte>>, children: seq<nat>)

  const TOP := VNode(None, [], DirNode, 0, 0, 0, 0, 0, 0, None, None, [])

  function KindOf(k: EntryKind): NodeKind {
    if k == Directory then DirNode else if k == Symlink then LinkNode else FileNode
  }

  /** Ids past 32 bits count as the largest of them. */
  function Saturated(v: u64): nat { if v < TWO_32 then v else TWO_32 - 1 }

  /** Where the last separator stands. */
  function LastSlash(path: seq<byte>): (r: Option<nat>)
    ensures r.Some? ==> r.value < |path| && path[r.value] == SLASH && SLASH !in path[r.value + 1..]
    ensures r.None? ==> SLASH !in path
  {
    if path == [] then None
    else if path[|path| - 1] == SLASH then Some(|path| - 1)
    else
      var r := LastSlash(path[..|path| - 1]);
      assert path == path[..|path| - 1] + [path[|path| - 1]];
      assert r.Some? ==> path[r.value + 1..] == path[..|path| - 1][r.value + 1..] + [path[|path| - 1]];
      r
  }

  function LeafName(path: seq<byte>): seq<byte> {
    match LastSlash(path) case Some(i) => path[i + 1..] case None => path
  }

  function NodeOf(e: EntryRef): VNode {
    VNode(Some(e.path), LeafName(e.path), KindOf(e.kind), e.fields.size, Saturated(e.inode.uid), Saturated(e.inode.gid),
          e.inode.mode, e.inode.atime, e.inode.mtime, e.inode.ctime, e.target, [])
  }

  /** The id of the last of the first `n` entries with this path: a later duplicate takes over. */
  function IdOf(entries: seq<EntryRef>, path: seq<byte>, n: nat): (r: Option<nat>)
    requires n <= |entries|
    ensures r.Some? ==> 1 <= r.value <= n && entries[r.value - 1].path == path
    ensures forall k :: (if r.Some? then r.value else 0) <= k < n ==> entries[k].path != path
  {
    if n == 0 then None
    else if entries[n - 1].path == path then Some(n)
    else IdOf(entries, path, n - 1)
  }

  /** The node of the path up to the last separator, or the top when there is none such. */
  function ParentOf(entries: seq<EntryRef>, path: seq<byte>): (p: nat)
    ensures p <= |entries|
  {
    match LastSlash(path)
    case None => 0
    case Some(i) => match IdOf(entries, path[..i], |entries|) case Some(id) => id case None => 0
  }

  /** The children of `id` among the first `n` entries, in catalogue order. */
  function ChildrenOf(entries: seq<EntryRef>, id: nat, n: nat): seq<nat>
    requires n <= |entries|
  {
    if n == 0 then []
    else ChildrenOf(entries, id, n - 1) + if ParentOf(entries, entries[n - 1].path) == id then [n] else []
  }

  function Bare(entries: seq<EntryRef>, id: nat): VNode
    requires id <= |entries|
  {
    if id == 0 then TOP else NodeOf(entries[id - 1])
  }

  /** The whole node table. */
  function Built(entries: seq<EntryRef>): (nodes: seq<VNode>)
    ensures |nodes| == |entries| + 1
    ensures forall id :: 0 <= id < |nodes|
              ==> nodes[id] == Bare(entries, id).(children := ChildrenOf(entries, id, |entries|))
  {
    seq(|entries| + 1, id requires 0 <= id <= |entries| =>
      Bare(entries, id).(children := ChildrenOf(entries, id, |entries|)))
  }

  /** `byPath` answers as the first `n` entries do. */
  ghost predicate Indexes(byPath: map<seq<byte>, nat>, entries: seq<EntryRef>, n: nat)
    requires n <= |entries|
  {
    forall path :: IdOf(entries, path, n) == if path in byPath then Some(byPath[path]) else None
  }

  lemma IndexNext(byPath: map<seq<byte>, nat>, entries: seq<EntryRef>, n: nat)
    requires n < |entries| && Indexes(byPath, entries, n)
    ensures Indexes(byPath[entries[n].path := n + 1], entries, n + 1)
  {
  }

  method MakeNodes(entries: seq<EntryRef>) returns (nodes: seq<VNode>, byPath: map<seq<byte>, nat>)
    ensures |nodes| == |entries| + 1 && forall id :: 0 <= id < |nodes| ==> nodes[id] == Bare(entries, id)
    ensures Indexes(byPath, entries, |entries|)
  {
    nodes, byPath := [TOP], map[];
    for i := 0 to |entries|
      invariant |nodes| == i + 1 && forall id :: 0 <= id <= i ==> nodes[id] == Bare(entries, id)
      invariant Indexes(byPath, entries, i)
    {
      IndexNext(byPath, entries, i);
      byPath := byPath[entries[i].path := |nodes|];
      nodes := nodes + [NodeOf(entries[i])];
    }
  }

  method ParentId(entries: seq<EntryRef>, byPath: map<seq<byte>, nat>, path: seq<byte>) returns (parent: nat)
    requires Indexes(byPath, entries, |entries|)
    ensures parent == ParentOf(entries, path)
  {
    var slash := LastSlash(path);
    if slash.None? {
      return 0;
    }
    var up := path[..slash.value];
    assert IdOf(entries, up, |entries|) == if up in byPath then Some(byPath[up]) else None;
    parent := if up in byPath then byPath[up] else 0;
  }

  method BuildTree(entries: seq<EntryRef>) returns (nodes: seq<VNode>)
    ensures nodes == Built(entries)
  {
    hide Bare, ParentOf, Indexes;
    var byPath;
    nodes, byPath := MakeNodes(entries);
    assert forall id :: 0 <= id < |nodes| ==> nodes[id].children == [] by { NoChildrenYet(entries); }
    for i := 0 to |entries|
      invariant |nodes| == |entries| + 1
      invariant forall id :: 0 <= id < |nodes| ==>
                  nodes[id] == Bare(entries, id).(children := ChildrenOf(entries, id, i))
    {
      var parent := ParentId(entries, byPath, entries[i].path);
      nodes := nodes[parent := nodes[parent].(children := nodes[parent].children + [i + 1])];
    }
  }

  lemma NoChildrenYet(entries: seq<EntryRef>)
    ensures forall id :: 0 <= id <= |entries| ==> Bare(entries, id).children == []
  {
  }

  // ---- Where an entry hangs ----

  /** `path` is that of an entry of `dir` with a slash-free name. */
  ghost predicate DirectlyIn(path: seq<byte>, dir: seq<byte>) {
    exists name :: '/' as int !in name && path == Inside(dir, name)
  }

  function Inside(dir: seq<byte>, name: seq<byte>): seq<byte> { dir + ['/' as int] + name }

  lemma {:induction false} LastSlashIs(path: seq<byte>, dir: seq<byte>, name: seq<byte>)
    requires path == Inside(dir, name) && SLASH !in name
    ensures LastSlash(path) == Some(|dir|) && path[..|dir|] == dir && LeafName(path) == name
  {
    hide LastSlash;
    assert path[|dir|] == SLASH && path[|dir| + 1..] == name && path[..|dir|] == dir;
    assert forall k :: |dir| < k < |path| ==> path[k] == name[k - |dir| - 1] && path[k] in name;
    var r := LastSlash(path);
    assert r.Some?;
    forall k | r.value < k < |path|
      ensures path[k] != SLASH
    {
      assert path[k] == path[r.value + 1..][k - r.value - 1];
    }
  }

  /**
   * For any paths: an entry hangs under the last entry whose path, a slash, and a slash-free name make up its
   * own; under the top if there is none; and its name is that slash-free rest of its path, or all of it.
   */
  lemma {:induction false} ParentIff(entries: seq<EntryRef>, path: seq<byte>, p: nat)
    requires 1 <= p <= |entries|
    ensures ParentOf(entries, path) == p
            <==> && DirectlyIn(path, entries[p - 1].path)
                 && forall k :: p <= k < |entries| ==> entries[k].path != entries[p - 1].path
    ensures '/' as int !in LeafName(path)
    ensures LeafName(path) == path || (|path| > |LeafName(path)| && path[|path| - |LeafName(path)| - 1] == '/' as int
                                       && path[|path| - |LeafName(path)|..] == LeafName(path))
  {
    hide LastSlash;
    var dir := entries[p - 1].path;
    if DirectlyIn(path, dir) {
      var name :| SLASH !in name && path == Inside(dir, name);
      LastSlashIs(path, dir, name);
    }
    var i := LastSlash(path);
    if i.Some? {
      assert path == Inside(path[..i.value], path[i.value + 1..]);
    }
    if ParentOf(entries, path) == p {
      assert DirectlyIn(path, path[..i.value]);
    }
  }

  /**
   * The nodes of any entries: the top, a nameless directory, and then each entry's with its own kind; only
   * directories and links are told from files.
   */
  lemma {:induction false} NodeKinds(entries: seq<EntryRef>, id: nat)
    requires id <= |entries|
    ensures var n := Built(entries)[id];
            if id == 0 then n.path == None && n.name == [] && n.kind == DirNode
            else && n.path == Some(entries[id - 1].path) && n.size == entries[id - 1].fields.size
                 && (n.kind == DirNode <==> entries[id - 1].kind.Directory?)
                 && (n.kind == LinkNode <==> entries[id - 1].kind.Symlink?)
  {
    hide ChildrenOf, LastSlash;
  }

  // ---- It is a tree, whatever the paths ----

  /** Strictly increasing ids from 1 to `n`. */
  predicate Ascending(ids: seq<nat>, n: nat) {
    && (forall id :: id in ids ==> 1 <= id <= n)
    && (forall i, j :: 0 <= i < j < |ids| ==> ids[i] < ids[j])
  }

  lemma ParentIsShorter(entries: seq<EntryRef>, path: seq<byte>)
    ensures ParentOf(entries, path) == 0 || |entries[ParentOf(entries, path) - 1].path| < |path|
  {
  }

  lemma {:induction false} ChildrenAre(entries: seq<EntryRef>, id: nat, n: nat)
    requires n <= |entries|
    ensures forall c :: c in ChildrenOf(entries, id, n) <==> 1 <= c <= n && ParentOf(entries, entries[c - 1].path) == id
    ensures forall i, j :: 0 <= i < j < |ChildrenOf(entries, id, n)|
              ==> ChildrenOf(entries, id, n)[i] < ChildrenOf(entries, id, n)[j]
    decreases n
  {
    hide ParentOf;
    if n > 0 {
      ChildrenAre(entries, id, n - 1);
      var init, last := ChildrenOf(entries, id, n - 1), ChildrenOf(entries, id, n);
      assert forall k :: 0 <= k < |init| ==> init[k] in init && last[k] == init[k];
    }
  }

  /**
   * Every entry hangs under exactly one node, which is the top or has a strictly shorter path; the children
   * of any node are ids of entries, in catalogue order and without repeats.
   */
  lemma {:induction false} ChildrenPartition(entries: seq<EntryRef>, c: nat)
    requires 1 <= c <= |entries|
    ensures var nodes, parent := Built(entries), ParentOf(entries, entries[c - 1].path);
            && (forall id :: 0 <= id < |nodes| ==> (c in nodes[id].children <==> id == parent))
            && (parent == 0 || |entries[parent - 1].path| < |entries[c - 1].path|)
    ensures forall id :: 0 <= id <= |entries| ==> Ascending(Built(entries)[id].children, |entries|)
  {
    hide ChildrenOf, ParentOf;
    assert ParentOf(entries, entries[c - 1].path) == 0
        || |entries[ParentOf(entries, entries[c - 1].path) - 1].path| < |entries[c - 1].path| by {
      ParentIsShorter(entries, entries[c - 1].path);
    }
    forall id | 0 <= id <= |entries|
      ensures c in Built(entries)[id].children <==> id == ParentOf(entries, entries[c - 1].path)
      ensures Ascending(Built(entries)[id].children, |entries|)
    {
      ChildrenAre(entries, id, |entries|);
    }
  }

  /** Child links lead from the top to `id` through `ids`. */
  ghost predicate Linked(nodes: seq<VNode>, from: nat, ids: seq<nat>, to: nat)
    decreases |ids|
  {
    if ids == [] then from == to
    else
      var last := ids[|ids| - 1];
      var up := if |ids| == 1 then from else ids[|ids| - 2];
      last == to && up < |nodes| && to in nodes[up].children && Linked(nodes, from, ids[..|ids| - 1], up)
  }

  /** Parent chains end at the top, so every node is reached from it through child links. */
  lemma {:induction false} EveryNodeReachable(entries: seq<EntryRef>, id: nat) returns (ids: seq<nat>)
    requires id <= |entries|
    ensures Linked(Built(entries), 0, ids, id)
    decreases if id == 0 then 0 else |entries[id - 1].path| + 1
  {
    hide ParentOf, Ascending, ChildrenOf;
    if id == 0 {
      ids := [];
    } else {
      ChildrenPartition(entries, id);
      var up := ParentOf(entries, entries[id - 1].path);
      var above := EveryNodeReachable(entries, up);
      ids := above + [id];
      assert ids[..|ids| - 1] == above;
      assert (if |ids| == 1 then 0 else ids[|ids| - 2]) == up by { LinkedEnds(Built(entries), above, up); }
    }
  }

  lemma LinkedEnds(nodes: seq<VNode>, ids: seq<nat>, to: nat)
    requires Linked(nodes, 0, ids, to)
    ensures to == if ids == [] then 0 else ids[|ids| - 1]
  {
  }
}
