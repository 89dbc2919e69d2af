/** The catalogue audit: findings in catalogue order, then most severe first. */
module Audit {
  import opened Bytes
  import opened Catalogue

  datatype Severity = Info | Low | Medium | High | Critical {
    function Rank(): nat {
      match this case Info => 0 case Low => 1 case Medium => 2 case High => 3 case Critical => 4
    }
  }

  datatype Stamped = Atime | Mtime | Ctime

  /** A finding with its evidence; paths are the raw bytes. */
  datatype Finding =
    | IncompleteCatalog(recovered: nat)
    | AbsolutePath(path: seq<byte>)
    | ParentTraversal(path: seq<byte>)
    | ControlCharsInName(path: seq<byte>)
    | FutureTimestamp(path: seq<byte>, field: Stamped, secs: int)
    | DuplicatePath(path: seq<byte>)
  {
    function Severity(): Severity {
      match this
      case IncompleteCatalog(_) => High
      case AbsolutePath(_) => Medium
      case ParentTraversal(_) => Medium
      case _ => Low
    }
  }

  const FAR_FUTURE := 4_102_444_800
  const DOT_DOT: seq<byte> := [0x2E, 0x2E]

  predicate IsControl(b: byte) { b < 0x20 || b == 0x7F }

  /** The path cut at every separator. */
  function Components(path: seq<byte>, got: seq<byte>): seq<seq<byte>> {
    if path == [] then [got]
    else if path[0] == SLASH then [got] + Components(path[1..], [])
    else Components(path[1..], got + [path[0]])
  }

  function When(condition: bool, f: Finding): seq<Finding> { if condition then [f] else [] }

  /** Access, modification and, where recorded, change time. */
  function Stamps(e: EntryRef): seq<(Stamped, int)> {
    [(Atime, e.inode.atime), (Mtime, e.inode.mtime)] + match e.inode.ctime case Some(t) => [(Ctime, t)] case None => []
  }

  function Futures(path: seq<byte>, stamps: seq<(Stamped, int)>): seq<Finding> {
    if stamps == [] then []
    else
      var last := stamps[|stamps| - 1];
      Futures(path, stamps[..|stamps| - 1]) + When(last.1 > FAR_FUTURE, FutureTimestamp(path, last.0, last.1))
  }

  function PathFindings(path: seq<byte>): seq<Finding> {
    When(path != [] && path[0] == SLASH, AbsolutePath(path))
    + When(DOT_DOT in Components(path, []), ParentTraversal(path))
    + When(exists b :: b in path && IsControl(b), ControlCharsInName(path))
  }

  /** Findings that one entry gives by itself. */
  function OwnFindings(e: EntryRef): seq<Finding> { PathFindings(e.path) + Futures(e.path, Stamps(e)) }

  /** How many of the first `n` entries have this path. */
  function Sightings(entries: seq<EntryRef>, path: seq<byte>, n: nat): nat
    requires n <= |entries|
  {
    if n == 0 then 0 else Sightings(entries, path, n - 1) + if entries[n - 1].path == path then 1 else 0
  }

  /** The findings of the first `n` entries, each duplicate reported on its second sighting. */
  function Raw(entries: seq<EntryRef>, n: nat): seq<Finding>
    requires n <= |entries|
  {
    if n == 0 then []
    else
      var e := entries[n - 1];
      Raw(entries, n - 1) + (OwnFindings(e) + When(Sightings(entries, e.path, n - 1) == 1, DuplicatePath(e.path)))
  }

  function RawFindings(entries: seq<EntryRef>, complete: bool): seq<Finding> {
    When(!complete, IncompleteCatalog(|entries|)) + Raw(entries, |entries|)
  }

  // ---- The sort ----

  /** `f` goes before the first finding that is not more severe. */
  function Insert(f: Finding, sorted: seq<Finding>): seq<Finding> {
    if sorted == [] || f.Severity().Rank() >= sorted[0].Severity().Rank() then [f] + sorted
    else [sorted[0]] + Insert(f, sorted[1..])
  }

  /** A stable sort by decreasing severity. */
  function Sorted(fs: seq<Finding>): seq<Finding> {
    if fs == [] then [] else Insert(fs[0], Sorted(fs[1..]))
  }

  function AtLevel(fs: seq<Finding>, s: Severity): seq<Finding> {
    if fs == [] then [] else (if fs[0].Severity() == s then [fs[0]] else []) + AtLevel(fs[1..], s)
  }

  predicate NonIncreasing(fs: seq<Finding>) {
    forall i, j :: 0 <= i < j < |fs| ==> fs[i].Severity().Rank() >= fs[j].Severity().Rank()
  }

  /** The two sets the audit keeps: paths met, and paths met again. */
  ghost predicate Recorded(entries: seq<EntryRef>, n: nat, seen: set<seq<byte>>, again: set<seq<byte>>)
    requires n <= |entries|
  {
    && (forall path :: path in seen <==> Sightings(entries, path, n) >= 1)
    && (forall path :: path in again <==> Sightings(entries, path, n) >= 2)
  }

  lemma RecordNext(entries: seq<EntryRef>, n: nat, seen: set<seq<byte>>, again: set<seq<byte>>)
    requires n < |entries| && Recorded(entries, n, seen, again)
    ensures var path := entries[n].path;
            && Recorded(entries, n + 1, seen + {path}, if path in seen then again + {path} else again)
            && (path in seen && path !in again <==> Sightings(entries, path, n) == 1)
  {
  }

  method RunAudit(entries: seq<EntryRef>, complete: bool) returns (findings: seq<Finding>)
    ensures findings == Sorted(RawFindings(entries, complete))
  {
    hide OwnFindings, Recorded, Sightings, Raw;
    findings := [];
    if !complete {
      findings := findings + [IncompleteCatalog(|entries|)];
    }
    ghost var first := findings;
    var seen: set<seq<byte>>, dupSeen: set<seq<byte>> := {}, {};
    NothingRecorded(entries);
    for i := 0 to |entries|
      invariant findings == first + Raw(entries, i)
      invariant Recorded(entries, i, seen, dupSeen)
    {
      var e := entries[i];
      RecordNext(entries, i, seen, dupSeen);
      RawNext(entries, i, first);
      var own := Examine(e);
      findings := findings + own;
      if e.path in seen && e.path !in dupSeen {
        findings := findings + [DuplicatePath(e.path)];
      }
      if e.path in seen {
        dupSeen := dupSeen + {e.path};
      }
      seen := seen + {e.path};
    }
    findings := Sorted(findings);
  }

  lemma NothingRecorded(entries: seq<EntryRef>)
    ensures Recorded(entries, 0, {}, {}) && Raw(entries, 0) == []
  {
  }

  lemma RawNext(entries: seq<EntryRef>, i: nat, first: seq<Finding>)
    requires i < |entries|
    ensures first + Raw(entries, i + 1)
            == first + Raw(entries, i) + OwnFindings(entries[i])
               + When(Sightings(entries, entries[i].path, i) == 1, DuplicatePath(entries[i].path))
  {
    hide OwnFindings, Sightings;
  }

  method ExaminePath(path: seq<byte>) returns (fs: seq<Finding>)
    ensures fs == PathFindings(path)
  {
    hide Components, IsControl;
    fs := [];
    if path != [] && path[0] == SLASH {
      fs := fs + [AbsolutePath(path)];
    }
    if DOT_DOT in Components(path, []) {
      fs := fs + [ParentTraversal(path)];
    }
    if exists b :: b in path && IsControl(b) {
      fs := fs + [ControlCharsInName(path)];
    }
  }

  /** The checks of one entry, in the order the audit makes them. */
  method Examine(e: EntryRef) returns (fs: seq<Finding>)
    ensures fs == OwnFindings(e)
  {
    hide PathFindings, Stamps;
    fs := ExaminePath(e.path);
    var stamps := Stamps(e);
    for i := 0 to |stamps|
      invariant fs == PathFindings(e.path) + Futures(e.path, stamps[..i])
    {
      assert stamps[..i + 1][..i] == stamps[..i];
      if stamps[i].1 > FAR_FUTURE {
        fs := fs + [FutureTimestamp(e.path, stamps[i].0, stamps[i].1)];
      }
    }
    assert stamps[..|stamps|] == stamps;
  }

  // ---- Components ----

  /** Components joined by separators. */
  function JoinComponents(cs: seq<seq<byte>>): seq<byte>
    requires cs != []
  {
    if |cs| == 1 then cs[0] else cs[0] + [SLASH] + JoinComponents(cs[1..])
  }

  /** The components are the path cut at every separator: none contains one, and joined they give the path back. */
  lemma {:induction false} ComponentsRejoin(path: seq<byte>, got: seq<byte>)
    requires SLASH !in got
    ensures var cs := Components(path, got);
            cs != [] && JoinComponents(cs) == got + path && forall c :: c in cs ==> SLASH !in c
    decreases |path|
  {
    if path == [] {
      assert got + path == got;
    } else if path[0] == SLASH {
      var cs := Components(path[1..], []);
      ComponentsRejoin(path[1..], []);
      assert ([got] + cs)[1..] == cs && [] + path[1..] == path[1..];
      assert got + [SLASH] + path[1..] == got + path;
    } else {
      ComponentsRejoin(path[1..], got + [path[0]]);
      assert got + [path[0]] + path[1..] == got + path;
    }
  }

  /** Two dots stand in the path, bounded on each side by a slash or an end. */
  ghost predicate Climbs(path: seq<byte>) {
    exists i :: 0 <= i && DotsAt(path, i)
  }

  predicate DotsAt(path: seq<byte>, i: nat) {
    && i + 2 <= |path| && path[i] == path[i + 1] == '.' as int
    && (i == 0 || path[i - 1] == '/' as int) && (i + 2 == |path| || path[i + 2] == '/' as int)
  }

  lemma {:induction false} ClimbsSplits(a: seq<byte>, b: seq<byte>)
    requires SLASH !in a
    ensures Climbs(a + [SLASH] + b) <==> a == DOT_DOT || Climbs(b)
  {
    var path := a + [SLASH] + b;
    assert forall k :: 0 <= k < |a| ==> path[k] == a[k] && a[k] != SLASH;
    assert forall k :: 0 <= k < |b| ==> path[|a| + 1 + k] == b[k];
    if Climbs(path) {
      var i :| 0 <= i && DotsAt(path, i);
      if i > |a| {
        assert DotsAt(b, i - |a| - 1);
      }
    }
    if a == DOT_DOT {
      assert DotsAt(path, 0);
    }
    if Climbs(b) {
      var i :| 0 <= i && DotsAt(b, i);
      assert DotsAt(path, |a| + 1 + i);
    }
  }

  /** A component is two dots exactly when two dots stand bounded in the path. */
  lemma {:induction false} ComponentsClimb(path: seq<byte>, got: seq<byte>)
    requires SLASH !in got
    ensures DOT_DOT in Components(path, got) <==> Climbs(got + path)
    decreases |path|
  {
    hide Climbs, Components;
    ComponentsAre(path, got);
    if path == [] {
      assert got + path == got;
      LoneComponent(got);
    } else if path[0] == SLASH {
      ComponentsClimb(path[1..], []);
      ClimbsSplits(got, path[1..]);
      assert got + [SLASH] + path[1..] == got + path && [] + path[1..] == path[1..];
      InFirst(DOT_DOT, got, Components(path[1..], []));
    } else {
      ComponentsClimb(path[1..], got + [path[0]]);
      assert got + [path[0]] + path[1..] == got + path;
    }
  }

  lemma ComponentsAre(path: seq<byte>, got: seq<byte>)
    ensures path == [] ==> Components(path, got) == [got]
    ensures path != [] && path[0] == SLASH ==> Components(path, got) == [got] + Components(path[1..], [])
    ensures path != [] && path[0] != SLASH ==> Components(path, got) == Components(path[1..], got + [path[0]])
  {
  }

  lemma InFirst(c: seq<byte>, first: seq<byte>, rest: seq<seq<byte>>)
    ensures c in [first] + rest <==> c == first || c in rest
  {
  }

  lemma LoneComponent(got: seq<byte>)
    requires SLASH !in got
    ensures Climbs(got) <==> got == DOT_DOT
  {
    if got == DOT_DOT {
      assert DotsAt(got, 0);
    }
  }

  // ---- Duplicates, one finding each ----

  function Count(fs: seq<Finding>, f: Finding): nat { multiset(fs)[f] }

  lemma CountConcat(a: seq<Finding>, b: seq<Finding>, f: Finding)
    ensures Count(a + b, f) == Count(a, f) + Count(b, f)
    ensures f !in a ==> Count(a, f) == 0
  {
  }

  lemma CountNext(entries: seq<EntryRef>, n: nat, f: Finding)
    requires 0 < n <= |entries| && f !in OwnFindings(entries[n - 1])
    ensures Count(Raw(entries, n), f) == Count(Raw(entries, n - 1), f)
            + if f == DuplicatePath(entries[n - 1].path) && Sightings(entries, entries[n - 1].path, n - 1) == 1
              then 1 else 0
  {
    hide OwnFindings, Sightings, Count;
    var e := entries[n - 1];
    var own, dup := OwnFindings(e), When(Sightings(entries, e.path, n - 1) == 1, DuplicatePath(e.path));
    CountConcat(Raw(entries, n - 1), own + dup, f);
    CountConcat(own, dup, f);
    CountWhen(Sightings(entries, e.path, n - 1) == 1, DuplicatePath(e.path), f);
  }

  lemma NoneYet(entries: seq<EntryRef>, f: Finding)
    ensures Count(Raw(entries, 0), f) == 0
  {
  }

  lemma CountWhen(condition: bool, g: Finding, f: Finding)
    ensures Count(When(condition, g), f) == if condition && f == g then 1 else 0
  {
  }

  /** A path gets exactly one duplicate finding if it occurs at least twice, and none otherwise. */
  lemma {:induction false} DuplicatesReportedOnce(entries: seq<EntryRef>, path: seq<byte>, n: nat)
    requires n <= |entries|
    ensures Count(Raw(entries, n), DuplicatePath(path)) == if Sightings(entries, path, n) >= 2 then 1 else 0
    decreases n
  {
    hide OwnFindings, Raw, Count;
    if n > 0 {
      DuplicatesReportedOnce(entries, path, n - 1);
      OwnFindingsLackDuplicates(entries[n - 1], path);
      CountNext(entries, n, DuplicatePath(path));
    } else {
      NoneYet(entries, DuplicatePath(path));
    }
  }

  lemma {:induction false} OwnFindingsLackDuplicates(e: EntryRef, path: seq<byte>)
    ensures DuplicatePath(path) !in OwnFindings(e) && forall k :: IncompleteCatalog(k) !in OwnFindings(e)
  {
    hide Components, Futures;
    FuturesOnly(e.path, Stamps(e));
  }

  lemma {:induction false} FuturesOnly(path: seq<byte>, stamps: seq<(Stamped, int)>)
    ensures forall f :: f in Futures(path, stamps) ==> f.FutureTimestamp?
    decreases |stamps|
  {
    if stamps != [] {
      FuturesOnly(path, stamps[..|stamps| - 1]);
    }
  }

  // ---- What is reported of each entry ----

  ghost predicate Controls(path: seq<byte>) { exists k :: 0 <= k < |path| && (path[k] < 0x20 || path[k] == 0x7F) }

  /** The time of this field, where the entry has it. */
  function TimeOf(e: EntryRef, field: Stamped): Option<int> {
    match field case Atime => Some(e.inode.atime) case Mtime => Some(e.inode.mtime) case Ctime => e.inode.ctime
  }

  lemma {:induction false} PathCounts(e: EntryRef, path: seq<byte>)
    ensures Count(PathFindings(e.path), AbsolutePath(path))
            == if e.path == path && path != [] && path[0] == '/' as int then 1 else 0
    ensures Count(PathFindings(e.path), ParentTraversal(path)) == if e.path == path && Climbs(path) then 1 else 0
    ensures Count(PathFindings(e.path), ControlCharsInName(path)) == if e.path == path && Controls(path) then 1 else 0
    ensures forall f :: f in PathFindings(e.path) ==> !f.FutureTimestamp?
  {
    hide Climbs, Components, Controls, IsControl, Count, When;
    ComponentsClimb(e.path, []);
    ControlsIff(e.path);
    assert [] + e.path == e.path;
    var absolute := When(e.path != [] && e.path[0] == SLASH, AbsolutePath(e.path));
    var climbs := When(DOT_DOT in Components(e.path, []), ParentTraversal(e.path));
    var controls := When(exists b :: b in e.path && IsControl(b), ControlCharsInName(e.path));
    forall f
      ensures Count(PathFindings(e.path), f) == Count(absolute, f) + Count(climbs, f) + Count(controls, f)
    {
      CountConcat(absolute + climbs, controls, f);
      CountConcat(absolute, climbs, f);
    }
    forall f
      ensures Count(absolute, f) == if f == AbsolutePath(e.path) && e.path != [] && e.path[0] == SLASH then 1 else 0
      ensures Count(climbs, f) == if f == ParentTraversal(e.path) && Climbs(e.path) then 1 else 0
      ensures Count(controls, f) == if f == ControlCharsInName(e.path) && Controls(e.path) then 1 else 0
    {
      CountWhen(e.path != [] && e.path[0] == SLASH, AbsolutePath(e.path), f);
      CountWhen(DOT_DOT in Components(e.path, []), ParentTraversal(e.path), f);
      CountWhen(exists b :: b in e.path && IsControl(b), ControlCharsInName(e.path), f);
    }
    PathsOnly(e.path);
  }

  lemma ControlsIff(path: seq<byte>)
    ensures (exists b :: b in path && IsControl(b)) <==> Controls(path)
  {
    if Controls(path) {
      var k :| 0 <= k < |path| && (path[k] < 0x20 || path[k] == 0x7F);
      assert path[k] in path && IsControl(path[k]);
    }
  }

  lemma PathsOnly(path: seq<byte>)
    ensures forall f :: f in PathFindings(path) ==> f.AbsolutePath? || f.ParentTraversal? || f.ControlCharsInName?
  {
    hide Components, IsControl;
  }

  lemma {:induction false} FutureCounts(e: EntryRef, path: seq<byte>, field: Stamped, t: int)
    ensures Count(Futures(e.path, Stamps(e)), FutureTimestamp(path, field, t))
            == if e.path == path && TimeOf(e, field) == Some(t) && t > 4_102_444_800 then 1 else 0
  {
    hide Futures;
    var stamps := Stamps(e);
    FuturesNext(e.path, stamps[..0]);
    FuturesNext(e.path, stamps[..1]);
    FuturesNext(e.path, stamps[..2]);
    FuturesNext(e.path, stamps);
    assert stamps[..1][..0] == stamps[..0] && stamps[..2][..1] == stamps[..1];
    assert |stamps| == 3 ==> stamps[..|stamps| - 1] == stamps[..2];
    assert |stamps| == 2 ==> stamps == stamps[..2];
  }

  lemma FuturesNext(path: seq<byte>, stamps: seq<(Stamped, int)>)
    ensures stamps == [] ==> Futures(path, stamps) == []
    ensures stamps != [] ==>
              var last := stamps[|stamps| - 1];
              forall f :: Count(Futures(path, stamps), f)
                          == Count(Futures(path, stamps[..|stamps| - 1]), f)
                             + if last.1 > FAR_FUTURE && f == FutureTimestamp(path, last.0, last.1) then 1 else 0
  {
  }

  /** How often the first `n` entries have this path and this time in this field. */
  function Timed(entries: seq<EntryRef>, path: seq<byte>, field: Stamped, t: int, n: nat): nat
    requires n <= |entries|
  {
    if n == 0 then 0
    else Timed(entries, path, field, t, n - 1)
         + if entries[n - 1].path == path && TimeOf(entries[n - 1], field) == Some(t) then 1 else 0
  }

  lemma {:induction false} OwnCounts(e: EntryRef, path: seq<byte>, field: Stamped, t: int)
    ensures var own := OwnFindings(e);
            && Count(own, AbsolutePath(path))
               == (if e.path == path && path != [] && path[0] == '/' as int then 1 else 0)
            && Count(own, ParentTraversal(path)) == (if e.path == path && Climbs(path) then 1 else 0)
            && Count(own, ControlCharsInName(path)) == (if e.path == path && Controls(path) then 1 else 0)
            && Count(own, FutureTimestamp(path, field, t))
               == (if e.path == path && TimeOf(e, field) == Some(t) && t > 4_102_444_800 then 1 else 0)
  {
    hide PathFindings, Futures, Climbs, Controls, Count, TimeOf, Stamps;
    var own, later := PathFindings(e.path), Futures(e.path, Stamps(e));
    PathCounts(e, path);
    FutureCounts(e, path, field, t);
    FuturesOnly(e.path, Stamps(e));
    CountConcat(own, later, AbsolutePath(path));
    CountConcat(own, later, ParentTraversal(path));
    CountConcat(own, later, ControlCharsInName(path));
    CountConcat(own, later, FutureTimestamp(path, field, t));
    NoneCounted(later, AbsolutePath(path));
    NoneCounted(later, ParentTraversal(path));
    NoneCounted(later, ControlCharsInName(path));
    NoneCounted(own, FutureTimestamp(path, field, t));
  }

  lemma NoneCounted(fs: seq<Finding>, f: Finding)
    requires f !in fs
    ensures Count(fs, f) == 0
  {
  }

  lemma RawCountNext(entries: seq<EntryRef>, n: nat, f: Finding)
    requires 0 < n <= |entries| && !f.DuplicatePath?
    ensures Count(Raw(entries, n), f) == Count(Raw(entries, n - 1), f) + Count(OwnFindings(entries[n - 1]), f)
  {
    hide OwnFindings, Sightings, Count;
    var e := entries[n - 1];
    var own, dup := OwnFindings(e), When(Sightings(entries, e.path, n - 1) == 1, DuplicatePath(e.path));
    CountConcat(Raw(entries, n - 1), own + dup, f);
    CountConcat(own, dup, f);
    CountWhen(Sightings(entries, e.path, n - 1) == 1, DuplicatePath(e.path), f);
  }

  lemma {:induction false} RawCounts(entries: seq<EntryRef>, n: nat, path: seq<byte>, field: Stamped, t: int)
    requires n <= |entries|
    ensures var raw, seen := Raw(entries, n), Sightings(entries, path, n);
            && Count(raw, AbsolutePath(path)) == (if path != [] && path[0] == '/' as int then seen else 0)
            && Count(raw, ParentTraversal(path)) == (if Climbs(path) then seen else 0)
            && Count(raw, ControlCharsInName(path)) == (if Controls(path) then seen else 0)
            && Count(raw, FutureTimestamp(path, field, t))
               == (if t > 4_102_444_800 then Timed(entries, path, field, t, n) else 0)
    decreases n
  {
    hide OwnFindings, Raw, Count, Climbs, Controls, TimeOf;
    if n > 0 {
      RawCounts(entries, n - 1, path, field, t);
      OwnCounts(entries[n - 1], path, field, t);
      RawCountNext(entries, n, AbsolutePath(path));
      RawCountNext(entries, n, ParentTraversal(path));
      RawCountNext(entries, n, ControlCharsInName(path));
      RawCountNext(entries, n, FutureTimestamp(path, field, t));
    } else {
      NoneYet(entries, AbsolutePath(path));
      NoneYet(entries, ParentTraversal(path));
      NoneYet(entries, ControlCharsInName(path));
      NoneYet(entries, FutureTimestamp(path, field, t));
    }
  }

  /**
   * What the audit says of a path and a time, and how often: an absolute path, a parent traversal and control
   * characters once for each entry that has them, a time past 2099 once for each entry and field that has it.
   */
  lemma {:induction false} AuditReports(entries: seq<EntryRef>, complete: bool, path: seq<byte>, field: Stamped, t: int)
    ensures var audited, seen := Sorted(RawFindings(entries, complete)), Sightings(entries, path, |entries|);
            && Count(audited, AbsolutePath(path)) == (if path != [] && path[0] == '/' as int then seen else 0)
            && Count(audited, ParentTraversal(path)) == (if Climbs(path) then seen else 0)
            && Count(audited, ControlCharsInName(path)) == (if Controls(path) then seen else 0)
            && Count(audited, FutureTimestamp(path, field, t))
               == (if t > 4_102_444_800 then Timed(entries, path, field, t, |entries|) else 0)
  {
    hide Raw, Sorted, Climbs, Controls, Timed;
    SortedIsStable(RawFindings(entries, complete));
    RawCounts(entries, |entries|, path, field, t);
    var first := When(!complete, IncompleteCatalog(|entries|));
    CountConcat(first, Raw(entries, |entries|), AbsolutePath(path));
    CountConcat(first, Raw(entries, |entries|), ParentTraversal(path));
    CountConcat(first, Raw(entries, |entries|), ControlCharsInName(path));
    CountConcat(first, Raw(entries, |entries|), FutureTimestamp(path, field, t));
  }

  /** An incomplete catalogue comes first, then paths that lead elsewhere, then the rest. */
  lemma {:induction false} AuditOrder(entries: seq<EntryRef>, complete: bool, i: nat, j: nat)
    requires i < j < |Sorted(RawFindings(entries, complete))|
    ensures var f, g := Sorted(RawFindings(entries, complete))[i], Sorted(RawFindings(entries, complete))[j];
            && !g.IncompleteCatalog?
            && (g.AbsolutePath? || g.ParentTraversal? ==> f.IncompleteCatalog? || f.AbsolutePath? || f.ParentTraversal?)
  {
    hide Raw, Sorted;
    var audited := Sorted(RawFindings(entries, complete));
    SortedIsStable(RawFindings(entries, complete));
    if audited[j].IncompleteCatalog? {
      LoneIncomplete(entries, complete, i, j);
    }
  }

  lemma {:induction false} LoneIncomplete(entries: seq<EntryRef>, complete: bool, i: nat, j: nat)
    requires i < j < |Sorted(RawFindings(entries, complete))|
    ensures !Sorted(RawFindings(entries, complete))[j].IncompleteCatalog?
  {
    hide Raw, Sorted;
    var audited, g := Sorted(RawFindings(entries, complete)), Sorted(RawFindings(entries, complete))[j];
    SortedIsStable(RawFindings(entries, complete));
    if g.IncompleteCatalog? {
      EntriesKnowNothingOfCompleteness(entries, |entries|, g.recovered);
      var first := When(!complete, IncompleteCatalog(|entries|));
      CountConcat(first, Raw(entries, |entries|), g);
      assert Count(audited, g) <= 1;
      EntriesAreLess(entries, |entries|);
      assert audited[i].Severity().Rank() >= g.Severity().Rank();
      assert audited[i] in multiset(audited);
      assert audited[i] in RawFindings(entries, complete);
      assert audited[i] == g;
      TwiceCounted(audited, i, j);
    }
  }

  lemma TwiceCounted(fs: seq<Finding>, i: nat, j: nat)
    requires i < j < |fs| && fs[i] == fs[j]
    ensures Count(fs, fs[i]) >= 2
  {
    assert fs == fs[..i] + [fs[i]] + fs[i + 1..j] + [fs[j]] + fs[j + 1..];
  }

  lemma {:induction false} OwnAreLess(e: EntryRef)
    ensures forall f :: f in OwnFindings(e) ==> f.Severity().Rank() < 3
  {
    hide PathFindings, Futures, Stamps;
    PathsOnly(e.path);
    FuturesOnly(e.path, Stamps(e));
  }

  lemma {:induction false} EntriesAreLess(entries: seq<EntryRef>, n: nat)
    requires n <= |entries|
    ensures forall f :: f in Raw(entries, n) ==> f.Severity().Rank() < 3
    decreases n
  {
    hide OwnFindings, Sightings;
    if n > 0 {
      EntriesAreLess(entries, n - 1);
      OwnAreLess(entries[n - 1]);
    }
  }

  // ---- In the order of the catalogue ----

  /** The place of a finding among those of one entry. */
  function Turn(f: Finding): nat {
    match f
    case IncompleteCatalog(_) => 0
    case AbsolutePath(_) => 1
    case ParentTraversal(_) => 2
    case ControlCharsInName(_) => 3
    case FutureTimestamp(_, field, _) => if field == Atime then 4 else if field == Mtime then 5 else 6
    case DuplicatePath(_) => 7
  }

  /** All about one path, each in its turn, from `lo` to before `hi`. */
  ghost predicate InTurn(fs: seq<Finding>, path: seq<byte>, lo: nat, hi: nat) {
    && (forall f :: f in fs ==> !f.IncompleteCatalog? && f.path == path && lo <= Turn(f) < hi)
    && (forall i, j :: 0 <= i < j < |fs| ==> Turn(fs[i]) < Turn(fs[j]))
  }

  lemma InTurnConcat(a: seq<Finding>, b: seq<Finding>, path: seq<byte>, lo: nat, mid: nat, hi: nat)
    requires InTurn(a, path, lo, mid) && InTurn(b, path, mid, hi) && lo <= mid <= hi
    ensures InTurn(a + b, path, lo, hi)
  {
    assert forall i :: 0 <= i < |a| ==> a[i] in a;
    assert forall i :: 0 <= i < |b| ==> b[i] in b;
  }

  lemma WhenInTurn(condition: bool, f: Finding)
    requires !f.IncompleteCatalog?
    ensures InTurn(When(condition, f), f.path, Turn(f), Turn(f) + 1)
  {
  }

  lemma NoneInTurn(path: seq<byte>, turn: nat)
    ensures InTurn([], path, turn, turn)
  {
  }

  lemma LaterTurn(fs: seq<Finding>, path: seq<byte>, lo: nat, mid: nat, hi: nat)
    requires InTurn(fs, path, lo, mid) && mid <= hi
    ensures InTurn(fs, path, lo, hi)
  {
  }

  lemma {:induction false} FuturesInTurn(e: EntryRef)
    ensures InTurn(Futures(e.path, Stamps(e)), e.path, 4, 7)
  {
    hide Futures, InTurn, When;
    var stamps, path := Stamps(e), e.path;
    NoneInTurn(path, 4);
    LastFuture(path, stamps[..0]);
    LastFuture(path, stamps[..1]);
    LastFuture(path, stamps[..2]);
    LastFuture(path, stamps);
    assert stamps[..1][..0] == stamps[..0] && stamps[..2][..1] == stamps[..1];
    WhenInTurn(stamps[0].1 > FAR_FUTURE, FutureTimestamp(path, Atime, stamps[0].1));
    WhenInTurn(stamps[1].1 > FAR_FUTURE, FutureTimestamp(path, Mtime, stamps[1].1));
    InTurnConcat(Futures(path, stamps[..0]), When(stamps[0].1 > FAR_FUTURE, FutureTimestamp(path, Atime, stamps[0].1)),
                 path, 4, 4, 5);
    InTurnConcat(Futures(path, stamps[..1]), When(stamps[1].1 > FAR_FUTURE, FutureTimestamp(path, Mtime, stamps[1].1)),
                 path, 4, 5, 6);
    if |stamps| == 3 {
      assert stamps[..|stamps| - 1] == stamps[..2];
      WhenInTurn(stamps[2].1 > FAR_FUTURE, FutureTimestamp(path, Ctime, stamps[2].1));
      InTurnConcat(Futures(path, stamps[..2]),
                   When(stamps[2].1 > FAR_FUTURE, FutureTimestamp(path, Ctime, stamps[2].1)), path, 4, 6, 7);
    } else {
      assert stamps == stamps[..2];
      LaterTurn(Futures(path, stamps), path, 4, 6, 7);
    }
  }

  lemma LastFuture(path: seq<byte>, stamps: seq<(Stamped, int)>)
    ensures stamps == [] ==> Futures(path, stamps) == []
    ensures stamps != [] ==>
              var last := stamps[|stamps| - 1];
              Futures(path, stamps) == Futures(path, stamps[..|stamps| - 1])
                                       + When(last.1 > FAR_FUTURE, FutureTimestamp(path, last.0, last.1))
  {
  }

  lemma {:induction false} PathsInTurn(path: seq<byte>)
    ensures InTurn(PathFindings(path), path, 1, 4)
  {
    hide Components, IsControl, InTurn, When;
    var absolute := When(path != [] && path[0] == SLASH, AbsolutePath(path));
    var climbs := When(DOT_DOT in Components(path, []), ParentTraversal(path));
    var controls := When(exists b :: b in path && IsControl(b), ControlCharsInName(path));
    WhenInTurn(path != [] && path[0] == SLASH, AbsolutePath(path));
    WhenInTurn(DOT_DOT in Components(path, []), ParentTraversal(path));
    WhenInTurn(exists b :: b in path && IsControl(b), ControlCharsInName(path));
    InTurnConcat(absolute, climbs, path, 1, 2, 3);
    InTurnConcat(absolute + climbs, controls, path, 1, 3, 4);
  }

  /** The findings of each entry follow those of the entries before it, each kind in its turn. */
  lemma {:induction false} RawInOrder(entries: seq<EntryRef>, n: nat)
    requires n < |entries|
    ensures Raw(entries, n) <= Raw(entries, n + 1)
    ensures InTurn(Raw(entries, n + 1)[|Raw(entries, n)|..], entries[n].path, 1, 8)
  {
    hide PathFindings, Futures, Stamps, Sightings, InTurn;
    var e := entries[n];
    var dup := When(Sightings(entries, e.path, n) == 1, DuplicatePath(e.path));
    PathsInTurn(e.path);
    FuturesInTurn(e);
    InTurnConcat(PathFindings(e.path), Futures(e.path, Stamps(e)), e.path, 1, 4, 7);
    DuplicateInTurn(Sightings(entries, e.path, n) == 1, e.path);
    InTurnConcat(OwnFindings(e), dup, e.path, 1, 7, 8);
    assert Raw(entries, n + 1) == Raw(entries, n) + (OwnFindings(e) + dup);
    assert Raw(entries, n + 1)[|Raw(entries, n)|..] == OwnFindings(e) + dup;
  }

  lemma DuplicateInTurn(condition: bool, path: seq<byte>)
    ensures InTurn(When(condition, DuplicatePath(path)), path, 7, 8)
  {
  }

  // ---- Order ----

  lemma {:induction false} InsertKeeps(f: Finding, fs: seq<Finding>)
    ensures multiset(Insert(f, fs)) == multiset(fs) + multiset{f}
    decreases |fs|
  {
    hide Finding.Severity;
    if fs != [] {
      InsertKeeps(f, fs[1..]);
      assert fs == [fs[0]] + fs[1..];
    }
  }

  lemma {:induction false} InsertSorts(f: Finding, fs: seq<Finding>)
    requires NonIncreasing(fs)
    ensures NonIncreasing(Insert(f, fs))
    decreases |fs|
  {
    hide Finding.Severity, Severity.Rank;
    if fs != [] && f.Severity().Rank() < fs[0].Severity().Rank() {
      var rest := Insert(f, fs[1..]);
      InsertSorts(f, fs[1..]);
      InsertKeeps(f, fs[1..]);
      forall g | g in rest
        ensures fs[0].Severity().Rank() >= g.Severity().Rank()
      {
        assert g in multiset(rest);
        assert g == f || g in fs[1..];
      }
    }
  }

  /** Within one severity, an inserted finding comes first and the others keep their places. */
  lemma {:induction false} InsertLevels(f: Finding, fs: seq<Finding>, s: Severity)
    ensures AtLevel(Insert(f, fs), s) == (if f.Severity() == s then [f] else []) + AtLevel(fs, s)
    decreases |fs|
  {
    hide Finding.Severity;
    if fs == [] || f.Severity().Rank() >= fs[0].Severity().Rank() {
      assert ([f] + fs)[1..] == fs;
    } else {
      InsertLevels(f, fs[1..], s);
      assert Insert(f, fs)[1..] == Insert(f, fs[1..]);
    }
  }

  /** The audit's order: nothing lost or added, most severe first, catalogue order within a severity. */
  lemma {:induction false} SortedIsStable(fs: seq<Finding>)
    ensures NonIncreasing(Sorted(fs)) && multiset(Sorted(fs)) == multiset(fs)
    ensures forall s :: AtLevel(Sorted(fs), s) == AtLevel(fs, s)
    decreases |fs|
  {
    if fs != [] {
      SortedIsStable(fs[1..]);
      InsertSorts(fs[0], Sorted(fs[1..]));
      InsertKeeps(fs[0], Sorted(fs[1..]));
      forall s
        ensures AtLevel(Sorted(fs), s) == AtLevel(fs, s)
      {
        InsertLevels(fs[0], Sorted(fs[1..]), s);
      }
      assert fs == [fs[0]] + fs[1..];
    }
  }

  lemma {:induction false} LevelHolds(fs: seq<Finding>, s: Severity)
    ensures forall f :: f in AtLevel(fs, s) <==> f in fs && f.Severity() == s
    decreases |fs|
  {
    hide Finding.Severity;
    if fs != [] {
      LevelHolds(fs[1..], s);
    }
  }

  lemma LevelSplits(fs: seq<Finding>, s: Severity)
    requires fs != []
    ensures fs[0].Severity() == s ==> AtLevel(fs, s) != [] && AtLevel(fs, s)[0] == fs[0]
    ensures AtLevel(fs[1..], s) == if fs[0].Severity() == s then AtLevel(fs, s)[1..] else AtLevel(fs, s)
  {
  }

  /** Two lists ordered by severity that agree within every severity are the same list. */
  lemma {:induction false} OrderIsUnique(a: seq<Finding>, b: seq<Finding>)
    requires NonIncreasing(a) && NonIncreasing(b) && forall s :: AtLevel(a, s) == AtLevel(b, s)
    ensures a == b
    decreases |a|
  {
    hide Finding.Severity, AtLevel;
    if a != [] {
      LevelHolds(a, a[0].Severity());
      LevelHolds(b, a[0].Severity());
      assert b != [];
      LevelHolds(a, b[0].Severity());
      LevelHolds(b, b[0].Severity());
      assert a[0].Severity() == b[0].Severity();
      LevelSplits(a, a[0].Severity());
      LevelSplits(b, a[0].Severity());
      forall s
        ensures AtLevel(a[1..], s) == AtLevel(b[1..], s)
      {
        LevelSplits(a, s);
        LevelSplits(b, s);
      }
      OrderIsUnique(a[1..], b[1..]);
    } else if b != [] {
      LevelHolds(a, b[0].Severity());
      LevelHolds(b, b[0].Severity());
    }
  }

  /** `result` is a stable sort of `fs`: most severe first, and within each severity as in `fs`. */
  ghost predicate StablySorts(result: seq<Finding>, fs: seq<Finding>) {
    NonIncreasing(result) && forall s :: AtLevel(result, s) == AtLevel(fs, s)
  }

  /** Whatever the algorithm, a stable sort by severity gives this list and no other. */
  lemma {:induction false} AnyStableSortAgrees(fs: seq<Finding>, result: seq<Finding>)
    ensures StablySorts(result, fs) <==> result == Sorted(fs)
  {
    hide Sorted, NonIncreasing, AtLevel, Finding.Severity;
    SortedIsStable(fs);
    assert StablySorts(Sorted(fs), fs);
    if StablySorts(result, fs) {
      OrderIsUnique(result, Sorted(fs));
    }
  }

  /**
   * Audited findings: the raw ones, ordered, with one duplicate finding for each path seen twice or more. An
   * incomplete catalogue is of high severity, a path that leads elsewhere of medium, and the rest of low.
   */
  lemma {:induction false} AuditIsExact(entries: seq<EntryRef>, complete: bool, path: seq<byte>)
    ensures var raw, audited := RawFindings(entries, complete), Sorted(RawFindings(entries, complete));
            && NonIncreasing(audited) && multiset(audited) == multiset(raw)
            && (forall s :: AtLevel(audited, s) == AtLevel(raw, s))
            && Count(audited, DuplicatePath(path)) == (if Sightings(entries, path, |entries|) >= 2 then 1 else 0)
            && Count(audited, IncompleteCatalog(|entries|)) == (if complete then 0 else 1)
            && (forall f :: f in audited ==>
                  && (f.Severity() == High <==> f.IncompleteCatalog?)
                  && (f.Severity() == Medium <==> f.AbsolutePath? || f.ParentTraversal?)
                  && (f.Severity() == Low <==> f.ControlCharsInName? || f.FutureTimestamp? || f.DuplicatePath?))
  {
    hide OwnFindings, NonIncreasing, Raw, Sorted;
    var raw := RawFindings(entries, complete);
    SortedIsStable(raw);
    DuplicatesReportedOnce(entries, path, |entries|);
    EntriesKnowNothingOfCompleteness(entries, |entries|, |entries|);
    var first := When(!complete, IncompleteCatalog(|entries|));
    CountConcat(first, Raw(entries, |entries|), DuplicatePath(path));
    CountConcat(first, Raw(entries, |entries|), IncompleteCatalog(|entries|));
  }

  lemma {:induction false} EntriesKnowNothingOfCompleteness(entries: seq<EntryRef>, n: nat, k: nat)
    requires n <= |entries|
    ensures Count(Raw(entries, n), IncompleteCatalog(k)) == 0
    decreases n
  {
    hide OwnFindings, Raw, Count;
    if n > 0 {
      EntriesKnowNothingOfCompleteness(entries, n - 1, k);
      OwnFindingsLackDuplicates(entries[n - 1], []);
      CountNext(entries, n, IncompleteCatalog(k));
    } else {
      NoneYet(entries, IncompleteCatalog(k));
    }
  }
}
