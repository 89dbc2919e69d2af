/** A written archive, mounted, walked and read. */
module Mounted {
  import opened Bytes
  import opened Stream
  import opened Catalogue
  import opened Decode
  import opened Reader
  import opened Tree
  import opened Grammar
  import opened EndToEnd
  import opened Vfs
  import Recovery

  /** Looks up one component after another, from the top. */
  method WalkDown(nodes: seq<VNode>, names: seq<seq<byte>>) returns (at: Option<nat>)
    ensures at == WalkTo(nodes, 0, names)
  {
    hide LookupIn;
    var id := 0;
    assert names[0..] == names;
    for i := 0 to |names|
      invariant WalkTo(nodes, id, names[i..]) == WalkTo(nodes, 0, names)
    {
      assert names[i..][0] == names[i] && names[i..][1..] == names[i + 1..];
      var found := Lookup(nodes, id, names[i]);
      if found.Faulty? || found.value.None? {
        return None;
      }
      id := found.value.value;
    }
    at := Some(id);
  }

  /** The node of file `k` of a written archive holds the bytes at the file's place. */
  lemma {:induction false} FileIsHeld(vfs: DarVfs, a: Tagged, k: nat)
    requires a.Sound(vfs.reader.codec)
    requires vfs.nodes == Built(a.Listing()) && vfs.reader.state == a.State() && vfs.reader.inner.Data() == a.Bytes()
    requires Recovery.Plain(a.root.kids) && k < Recovery.SizeAll(a.root.kids)
    requires Recovery.NodeAt(a.root.kids, k).Reg? && StoredInside(a, k)
    ensures vfs.Holds(k + 1, StoredBytes(a, k))
  {
    hide Tagged.Bytes, Recovery.Plain, SoundBody, IsCompressed, Extraction, ListAll, JoinPath, InodeOf, FieldsOf;
    assert a.root.Dir? by { BodyIsDir(a.version, a.path, a.root); }
    var above := Recovery.EntryAt(Format(a.version), a.comp, RootStack(a.root), a.root.kids, k);
    TreeExtracts(a.Bytes(), a.State(), vfs.reader.codec, a.comp, a.root, k);
  }

  /**
   * Mounting a written archive, walking down a stored file's components and reading on to the end, with buffers
   * of any non-zero sizes, gives the file's own bytes.
   */
  method ReadMounted(inner: Source, codec: Codec, tailScan: nat, chunk: nat, names: seq<seq<byte>>, sizes: nat -> nat,
                     ghost a: Tagged, ghost k: nat)
    returns (got: seq<byte>)
    requires a.Sound(codec) && inner.Data() == a.Bytes() && inner.Pos() == 0 && inner.Fits()
    requires chunk > 0 && forall i :: sizes(i) > 0
    requires a.Found(tailScan, chunk) && Recovery.Plain(a.root.kids)
    requires k < Recovery.SizeAll(a.root.kids) && Recovery.NodeAt(a.root.kids, k).Reg? && StoredInside(a, k)
    requires names == NamesTo(a.root.kids, k)
    modifies inner.Repr()
    ensures got == StoredBytes(a, k)
  {
    hide Tagged.Bytes, Tagged.Found, Tagged.State, SoundBody, Codes, Tagged.Listing, OpenResult, OpenRun, Built,
         WalkTo, NamesTo,
         DarVfs.Holds, StoredInside, Source.Data, Recovery.Plain;
    var vfs, tail, full := Mount(inner, codec, tailScan, chunk);
    WrittenTaggedOpens(a, codec, tailScan, chunk, tail, full);
    TableOf(a, codec, k);
    var id := WalkDown(vfs.value.nodes, names);
    FileIsHeld(vfs.value, a, k);
    got := vfs.value.ReadToEnd(id.value, sizes, StoredBytes(a, k));
  }

  lemma {:induction false} TableOf(a: Tagged, codec: Codec, k: nat)
    requires a.Sound(codec) && Recovery.Plain(a.root.kids) && k < Recovery.SizeAll(a.root.kids)
    ensures a.State().entries == a.Listing() && WalkTo(Built(a.Listing()), 0, NamesTo(a.root.kids, k)) == Some(k + 1)
  {
    hide Tagged.Bytes, SoundBody, Recovery.Plain, WalkTo, NamesTo, Built, ListAll;
    assert a.root.Dir? by { BodyIsDir(a.version, a.path, a.root); }
    LookupReachesEveryEntry(Format(a.version), a.comp, a.root, k);
  }
}
