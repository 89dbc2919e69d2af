/** Finding the catalogue: the chunked marker scan, the tail window and the full-scan fallback. */
module Locate {
  import opened Bytes
  import opened Wire
  import opened Stream

  const ESCAPE: seq<byte> := [0xAD, 0xFD, 0xEA, 0x77, 0x21, 0x43]
  const OVERLAP := 9

  /** The least occurrence of `pat` that lies within `[lo, hi)`. */
  function FirstIn(d: seq<byte>, lo: nat, hi: nat, pat: seq<byte>): (r: Option<nat>)
    requires hi <= |d|
    ensures r.Some? ==> lo <= r.value && r.value + |pat| <= hi && At(d, r.value, pat)
    ensures forall j :: lo <= j && j + |pat| <= hi && (r.Some? ==> j < r.value) ==> !At(d, j, pat)
    decreases hi - lo
  {
    if lo + |pat| > hi then None
    else if d[lo..lo + |pat|] == pat then Some(lo)
    else if lo == hi then None
    else FirstIn(d, lo + 1, hi, pat)
  }

  /** The leftmost occurrence at or after `from`. */
  function Leftmost(d: seq<byte>, from: nat, pat: seq<byte>): Option<nat> {
    FirstIn(d, from, |d|, pat)
  }

  datatype Hit = Hit(escape: bool, at: nat) {
    function Past(): nat { at + if escape then |ESCAPE| else LABEL_SIZE }
  }

  function End(cuts: seq<nat>, from: nat): nat {
    if cuts == [] then from else cuts[|cuts| - 1]
  }

  /** Where successive reads from `from` may have ended: each gives 1 to `chunk` bytes. */
  predicate Schedule(cuts: seq<nat>, from: nat, end: nat, chunk: nat) {
    cuts == [] ||
    var init := cuts[..|cuts| - 1];
    && Schedule(init, from, end, chunk)
    && End(init, from) < End(cuts, from) <= end && End(cuts, from) <= End(init, from) + chunk
  }

  /** Some read ended with the label in view and the escape not yet. */
  ghost predicate LabelAlone(e: nat, l: nat, cuts: seq<nat>) {
    exists c :: c in cuts && l + LABEL_SIZE <= c < e + |ESCAPE|
  }

  /**
   * What a scan must answer, given the leftmost escape, the leftmost enabled mark, and the ends of
   * its reads: the escape, unless some read saw the label alone.
   */
  ghost function Choice(e: Option<nat>, l: Option<nat>, cuts: seq<nat>): Option<Hit> {
    if e.None? && l.None? then None
    else if e.None? || (l.Some? && LabelAlone(e.value, l.value, cuts)) then Some(Hit(false, l.value))
    else Some(Hit(true, e.value))
  }

  function EnabledLabel(d: seq<byte>, from: nat, mark: seq<byte>, useLabel: bool): Option<nat> {
    if useLabel then Leftmost(d, from, mark) else None
  }

  ghost function ScanResult(d: seq<byte>, from: nat, mark: seq<byte>, useLabel: bool, cuts: seq<nat>): Option<Hit> {
    Choice(Leftmost(d, from, ESCAPE), EnabledLabel(d, from, mark, useLabel), cuts)
  }

  /** Reads that went on until the scan could answer: past the marker it answers, or to the end of the input. */
  ghost predicate ScanRun(d: seq<byte>, from: nat, mark: seq<byte>, useLabel: bool, chunk: nat, cuts: seq<nat>) {
    && Schedule(cuts, from, |d|, chunk)
    && End(cuts, from) >= match ScanResult(d, from, mark, useLabel, cuts) case Some(hit) => hit.Past() case None => |d|
  }

  // ---- The scan ----

  /** The first place in view where `pat` stands. */
  method PositionOf(view: seq<byte>, pat: seq<byte>) returns (r: Option<nat>)
    ensures r == FirstIn(view, 0, |view|, pat)
  {
    var i := 0;
    while i + |pat| <= |view|
      invariant i <= |view| + 1
      invariant i <= |view| ==> FirstIn(view, 0, |view|, pat) == FirstIn(view, i, |view|, pat)
      invariant i == |view| + 1 ==> FirstIn(view, 0, |view|, pat) == None
    {
      if view[i..i + |pat|] == pat {
        return Some(i);
      }
      i := i + 1;
    }
    r := None;
  }

  /** No `pat` lies wholly inside `[from, upto)`. */
  ghost predicate Absent(d: seq<byte>, from: nat, upto: nat, pat: seq<byte>) {
    forall j :: from <= j && j + |pat| <= upto ==> !At(d, j, pat)
  }

  lemma ShiftAt(d: seq<byte>, base: nat, cut: nat, j: nat, pat: seq<byte>)
    requires base <= cut <= |d| && base + j + |pat| <= cut
    ensures At(d[base..cut], j, pat) <==> At(d, base + j, pat)
  {
    var view := d[base..cut];
    var a, b := view[j..j + |pat|], d[base + j..base + j + |pat|];
    assert forall k :: 0 <= k < |pat| ==> a[k] == b[k];
  }

  /** The carried overlap loses nothing: searching the window is searching everything read so far. */
  lemma WindowSearch(d: seq<byte>, from: nat, prev: nat, cut: nat, base: nat, view: seq<byte>, pat: seq<byte>)
    requires from <= base <= prev < cut <= |d| && view == d[base..cut]
    requires base == from || base + OVERLAP == prev
    requires 0 < |pat| <= OVERLAP + 1 && Absent(d, from, prev, pat)
    ensures match FirstIn(view, 0, |view|, pat)
            case Some(i) => Leftmost(d, from, pat) == Some(base + i) && base + i + |pat| <= cut
            case None => Absent(d, from, cut, pat)
  {
    hide At, FirstIn;
    var hit := FirstIn(view, 0, |view|, pat);
    forall j | from <= j && j + |pat| <= cut && (hit.Some? ==> j < base + hit.value)
      ensures !At(d, j, pat)
    {
      if base <= j {
        ShiftAt(d, base, cut, j - base, pat);
      }
    }
    if hit.Some? {
      ShiftAt(d, base, cut, hit.value, pat);
    }
  }

  /** The last `keep` of the bytes in view become the first. */
  method CarryTail(buf: array<byte>, total: nat, keep: nat, ghost d: seq<byte>, ghost base: nat)
    requires keep <= total <= buf.Length && base + total <= |d| && buf[..total] == d[base..base + total]
    modifies buf
    ensures buf[..keep] == d[base + total - keep..base + total]
  {
    ghost var view := buf[..total];
    forall k | 0 <= k < keep {
      buf[k] := buf[total - keep + k];
    }
    assert forall k :: 0 <= k < keep ==> buf[k] == view[total - keep + k];
  }

  /** One read behind the carried overlap: the buffer shows the file from `overlap` bytes back. */
  method FillWindow(r: Source, buf: array<byte>, overlap: nat, chunk: nat) returns (n: nat)
    requires 0 < chunk && overlap + chunk <= buf.Length && overlap <= r.Pos()
    requires overlap > 0 ==> r.Pos() <= |r.Data()| && buf[..overlap] == r.Data()[r.Pos() - overlap..r.Pos()]
    modifies r.Repr(), buf
    ensures n <= chunk && r.Pos() == old(r.Pos()) + n && (n == 0 <==> old(r.Pos()) >= |r.Data()|)
    ensures n > 0 ==> r.Pos() <= |r.Data()| && buf[..overlap + n] == r.Data()[old(r.Pos()) - overlap..r.Pos()]
  {
    ghost var kept := buf[..overlap];
    n := r.Read(buf, overlap, overlap + chunk);
    assert buf[..overlap] == kept;
    assert buf[..overlap + n] == buf[..overlap] + buf[overlap..overlap + n];
  }

  /** The escape first, then the label if it is enabled; offsets count from the start of the buffer. */
  method SearchWindow(buf: array<byte>, total: nat, mark: seq<byte>, useLabel: bool,
                      ghost d: seq<byte>, ghost from: nat, ghost prev: nat, ghost base: nat, ghost cuts: seq<nat>)
    returns (hit: Option<Hit>)
    requires |mark| == LABEL_SIZE && total <= buf.Length
    requires from <= base <= prev < base + total <= |d| && buf[..total] == d[base..base + total]
    requires base == from || base + OVERLAP == prev
    requires Absent(d, from, prev, ESCAPE) && (useLabel ==> Absent(d, from, prev, mark))
    requires forall c :: c in cuts ==> c <= prev || c == base + total
    requires base + total in cuts
    ensures match hit
            case Some(h) =>
              && ScanResult(d, from, mark, useLabel, cuts) == Some(Hit(h.escape, base + h.at))
              && Hit(h.escape, base + h.at).Past() <= base + total
            case None => Absent(d, from, base + total, ESCAPE) && (useLabel ==> Absent(d, from, base + total, mark))
  {
    hide At, FirstIn, Leftmost, ScanResult, Absent;
    WindowSearch(d, from, prev, base + total, base, buf[..total], ESCAPE);
    var i := PositionOf(buf[..total], ESCAPE);
    if i.Some? {
      EscapeWins(d, from, mark, useLabel, cuts, prev, base + i.value);
      return Some(Hit(true, i.value));
    }
    if useLabel {
      WindowSearch(d, from, prev, base + total, base, buf[..total], mark);
      i := PositionOf(buf[..total], mark);
      if i.Some? {
        LabelWins(d, from, mark, cuts, base + total, base + i.value);
        return Some(Hit(false, i.value));
      }
    }
    hit := None;
  }

  method ScanWindow(r: Source, mark: seq<byte>, useLabel: bool, chunk: nat)
    returns (found: Option<bool>, ghost cuts: seq<nat>)
    requires |mark| == LABEL_SIZE && chunk > 0
    modifies r.Repr()
    ensures ScanRun(r.Data(), old(r.Pos()), mark, useLabel, chunk, cuts)
    ensures var hit := ScanResult(r.Data(), old(r.Pos()), mark, useLabel, cuts);
            if hit.Some? then found == Some(hit.value.escape) && r.Pos() == hit.value.Past() else found == None
  {
    hide At, FirstIn, Leftmost, ScanResult, ScanRun, Schedule, Absent, End, Choice, Source.Data, Source.Repr;
    var buf := new byte[chunk + OVERLAP](_ => 0);
    var overlap := 0;
    ghost var d, from := r.Data(), r.Pos();
    cuts := [];
    NothingRead(d, from, mark, useLabel, chunk);
    while true
      invariant r.Pos() >= from && overlap == (if r.Pos() - from < OVERLAP then r.Pos() - from else OVERLAP)
      invariant r.Pos() == End(cuts, from)
      invariant overlap > 0 ==> r.Pos() <= |d| && buf[..overlap] == d[r.Pos() - overlap..r.Pos()]
      invariant Schedule(cuts, from, |d|, chunk)
      invariant Absent(d, from, r.Pos(), ESCAPE) && (useLabel ==> Absent(d, from, r.Pos(), mark))
      invariant forall c :: c in cuts ==> c <= r.Pos()
      invariant r.Data() == d
      decreases |d| - r.Pos()
    {
      var chunkPos := r.Pos();
      var n := FillWindow(r, buf, overlap, chunk);
      if n == 0 {
        NothingFound(d, from, mark, useLabel, chunk, cuts, r.Pos());
        return None, cuts;
      }
      var total := overlap + n;
      var base := chunkPos - overlap;
      ghost var before := cuts;
      cuts := cuts + [r.Pos()];
      ReadsOn(before, from, |d|, chunk, r.Pos());
      var hit := SearchWindow(buf, total, mark, useLabel, d, from, chunkPos, base, cuts);
      if hit.Some? {
        var answer := Hit(hit.value.escape, base + hit.value.at);
        AnswerSeen(d, from, mark, useLabel, chunk, cuts, answer);
        r.SeekTo(answer.Past());
        return Some(hit.value.escape), cuts;
      }
      overlap := if OVERLAP < total then OVERLAP else total;
      CarryTail(buf, total, overlap, d, base);
    }
  }

  lemma NothingFound(d: seq<byte>, from: nat, mark: seq<byte>, useLabel: bool, chunk: nat, cuts: seq<nat>, upto: nat)
    requires upto >= |d| && Absent(d, from, upto, ESCAPE) && (useLabel ==> Absent(d, from, upto, mark))
    requires Schedule(cuts, from, |d|, chunk) && End(cuts, from) == upto
    ensures ScanResult(d, from, mark, useLabel, cuts) == None && ScanRun(d, from, mark, useLabel, chunk, cuts)
  {
  }

  lemma NothingRead(d: seq<byte>, from: nat, mark: seq<byte>, useLabel: bool, chunk: nat)
    ensures Schedule([], from, |d|, chunk) && End([], from) == from
    ensures |mark| == LABEL_SIZE ==> Absent(d, from, from, ESCAPE) && Absent(d, from, from, mark)
  {
  }

  lemma ReadsOn(cuts: seq<nat>, from: nat, end: nat, chunk: nat, next: nat)
    requires Schedule(cuts, from, end, chunk) && End(cuts, from) < next <= end && next <= End(cuts, from) + chunk
    ensures Schedule(cuts + [next], from, end, chunk) && End(cuts + [next], from) == next
  {
    assert (cuts + [next])[..|cuts|] == cuts;
  }

  lemma AnswerSeen(d: seq<byte>, from: nat, mark: seq<byte>, useLabel: bool, chunk: nat, cuts: seq<nat>, hit: Hit)
    requires Schedule(cuts, from, |d|, chunk) && End(cuts, from) >= hit.Past()
    requires ScanResult(d, from, mark, useLabel, cuts) == Some(hit)
    ensures ScanRun(d, from, mark, useLabel, chunk, cuts)
  {
  }

  lemma EscapeWins(d: seq<byte>, from: nat, mark: seq<byte>, useLabel: bool, cuts: seq<nat>, prev: nat, e: nat)
    requires |mark| == LABEL_SIZE && Leftmost(d, from, ESCAPE) == Some(e)
    requires forall c :: c in cuts ==> c <= prev || c >= e + |ESCAPE|
    requires useLabel ==> Absent(d, from, prev, mark)
    ensures ScanResult(d, from, mark, useLabel, cuts) == Some(Hit(true, e))
  {
  }

  lemma LabelWins(d: seq<byte>, from: nat, mark: seq<byte>, cuts: seq<nat>, cut: nat, l: nat)
    requires |mark| == LABEL_SIZE && Leftmost(d, from, mark) == Some(l)
    requires cut in cuts && l + LABEL_SIZE <= cut <= |d| && Absent(d, from, cut, ESCAPE)
    ensures ScanResult(d, from, mark, true, cuts) == Some(Hit(false, l))
  {
    var e := Leftmost(d, from, ESCAPE);
    if e.Some? {
      assert At(d, e.value, ESCAPE);
      assert l + LABEL_SIZE <= cut < e.value + |ESCAPE|;
    }
  }

  // ---- The tail window and the fallback ----

  /** An all-zero label is too common in padding to serve as a marker. */
  predicate Usable(mark: seq<byte>) { exists k :: 0 <= k < |mark| && mark[k] != 0 }

  function TailStart(origin: nat, end: nat, tailScan: nat): nat {
    Max(origin, if end >= tailScan then end - tailScan else 0)
  }

  ghost function LocateResult(d: seq<byte>, origin: nat, tailScan: nat, mark: seq<byte>,
                              tail: seq<nat>, full: seq<nat>): Result<Hit> {
    if |d| <= origin then Err(Corrupt)
    else
      var start := TailStart(origin, |d|, tailScan);
      var first := ScanResult(d, start, mark, Usable(mark), tail);
      var second := if start > origin then ScanResult(d, origin, mark, Usable(mark), full) else None;
      if first.Some? then Ok(first.value) else if second.Some? then Ok(second.value) else Err(Corrupt)
  }

  /** The reads of a search: those of a scan of the tail and, when that finds nothing, of a scan of the whole. */
  ghost predicate LocateRun(d: seq<byte>, origin: nat, tailScan: nat, mark: seq<byte>, chunk: nat,
                            tail: seq<nat>, full: seq<nat>) {
    var start := TailStart(origin, |d|, tailScan);
    |d| > origin ==>
      && ScanRun(d, start, mark, Usable(mark), chunk, tail)
      && (start > origin && ScanResult(d, start, mark, Usable(mark), tail).None?
          ==> ScanRun(d, origin, mark, Usable(mark), chunk, full))
  }

  method FindCatalogueWithin(r: Source, mark: seq<byte>, tailScan: nat, chunk: nat)
    returns (found: Result<bool>, ghost tail: seq<nat>, ghost full: seq<nat>)
    requires |mark| == LABEL_SIZE && chunk > 0
    modifies r.Repr()
    ensures LocateRun(r.Data(), old(r.Pos()), tailScan, mark, chunk, tail, full)
    ensures var hit := LocateResult(r.Data(), old(r.Pos()), tailScan, mark, tail, full);
            if hit.Ok? then found == Ok(hit.value.escape) && r.Pos() == hit.value.Past() else found == Err(hit.error)
  {
    hide ScanResult, ScanRun;
    tail, full := [], [];
    var useLabel := Usable(mark);
    var origin := r.Pos();
    var end := r.SeekEnd();
    if end <= origin {
      return Err(Corrupt), tail, full;
    }
    var tailStart := Max(origin, if end >= tailScan then end - tailScan else 0);
    r.SeekTo(tailStart);
    var result;
    result, tail := ScanWindow(r, mark, useLabel, chunk);
    if result.Some? {
      return Ok(result.value), tail, full;
    }
    if tailStart > origin {
      r.SeekTo(origin);
      result, full := ScanWindow(r, mark, useLabel, chunk);
      if result.Some? {
        return Ok(result.value), tail, full;
      }
    }
    found := Err(Corrupt);
  }

  // ---- What the scans promise, for all schedules ----

  predicate AllZero(mark: seq<byte>) { forall k :: 0 <= k < |mark| ==> mark[k] == 0 }

  /** The escape, or a label that is not all zeros. */
  ghost predicate MarkerAt(d: seq<byte>, i: nat, mark: seq<byte>) {
    At(d, i, ESCAPE) || (!AllZero(mark) && At(d, i, mark))
  }

  lemma UsableIff(mark: seq<byte>)
    ensures Usable(mark) <==> !AllZero(mark)
  {
  }

  ghost predicate NoMarkerFrom(d: seq<byte>, from: nat, mark: seq<byte>) {
    forall i :: i >= from ==> !MarkerAt(d, i, mark)
  }

  /** One scan: nothing found means nothing there; a hit is the leftmost of its kind. */
  lemma {:induction false} ScanFinds(d: seq<byte>, from: nat, mark: seq<byte>, cuts: seq<nat>)
    requires |mark| == LABEL_SIZE
    ensures match ScanResult(d, from, mark, Usable(mark), cuts)
            case None => NoMarkerFrom(d, from, mark)
            case Some(hit) =>
              var kind := if hit.escape then ESCAPE else mark;
              && hit.at >= from && At(d, hit.at, kind) && MarkerAt(d, hit.at, mark) && (!hit.escape ==> Usable(mark))
              && forall j :: from <= j < hit.at ==> !At(d, j, kind)
  {
    UsableIff(mark);
    hide At, FirstIn, Leftmost, Usable, LabelAlone;
    LeftmostFinds(d, from, ESCAPE);
    LeftmostFinds(d, from, mark);
  }

  /** The search fails exactly when no enabled marker stands anywhere after the origin. */
  lemma {:induction false} LocateComplete(d: seq<byte>, origin: nat, tailScan: nat, mark: seq<byte>, tail: seq<nat>,
                                          full: seq<nat>)
    requires |mark| == LABEL_SIZE
    ensures LocateResult(d, origin, tailScan, mark, tail, full).Err? <==> NoMarkerFrom(d, origin, mark)
  {
    hide ScanResult, Usable;
    var start := TailStart(origin, |d|, tailScan);
    ScanFinds(d, start, mark, tail);
    ScanFinds(d, origin, mark, full);
  }

  lemma LeftmostFinds(d: seq<byte>, from: nat, pat: seq<byte>)
    requires pat != []
    ensures match Leftmost(d, from, pat)
            case Some(i) => i >= from && At(d, i, pat) && forall j :: from <= j < i ==> !At(d, j, pat)
            case None => forall j :: j >= from ==> !At(d, j, pat)
  {
    if Leftmost(d, from, pat).None? {
      forall j | j >= from
        ensures !At(d, j, pat)
      {
      }
    }
  }

  lemma LeftmostIs(d: seq<byte>, from: nat, pat: seq<byte>, i: nat)
    requires pat != [] && i >= from && At(d, i, pat) && forall j :: from <= j < i ==> !At(d, j, pat)
    ensures Leftmost(d, from, pat) == Some(i)
  {
    hide FirstIn;
    LeftmostFinds(d, from, pat);
  }

  lemma {:induction false} HitWithin(d: seq<byte>, origin: nat, tailScan: nat, mark: seq<byte>,
                                     tail: seq<nat>, full: seq<nat>)
    requires |mark| == LABEL_SIZE && LocateResult(d, origin, tailScan, mark, tail, full).Ok?
    ensures LocateResult(d, origin, tailScan, mark, tail, full).value.Past() <= |d|
  {
    hide ScanResult, Usable, At, LocateResult;
    var hit := LocateResult(d, origin, tailScan, mark, tail, full).value;
    LocateSound(d, origin, tailScan, mark, tail, full);
    AtWithin(d, hit.at, if hit.escape then ESCAPE else mark);
  }

  /** What was found is a marker of its kind, the first of that kind in the scan that found it. */
  lemma {:induction false} LocateSound(d: seq<byte>, origin: nat, tailScan: nat, mark: seq<byte>, tail: seq<nat>,
                                       full: seq<nat>)
    requires |mark| == LABEL_SIZE
    requires LocateResult(d, origin, tailScan, mark, tail, full).Ok?
    ensures var hit, start := LocateResult(d, origin, tailScan, mark, tail, full).value,
                             TailStart(origin, |d|, tailScan);
            var kind := if hit.escape then ESCAPE else mark;
            && hit.at >= origin && At(d, hit.at, kind) && (!hit.escape ==> Usable(mark))
            && (forall j :: (if hit.at >= start then start else origin) <= j < hit.at ==> !At(d, j, kind))
            && (hit.at < start <==> NoMarkerFrom(d, start, mark))
  {
    hide ScanResult, Usable, At;
    var start := TailStart(origin, |d|, tailScan);
    ScanFinds(d, start, mark, tail);
    ScanFinds(d, origin, mark, full);
  }

  /**
   * The tail comes first: a hit lies in the last `tailScan` bytes exactly when some marker behind the origin
   * does, and so outside them exactly when none does.
   */
  lemma {:induction false} TailFirstIff(d: seq<byte>, origin: nat, tailScan: nat, mark: seq<byte>,
                                        tail: seq<nat>, full: seq<nat>)
    requires |mark| == LABEL_SIZE && LocateResult(d, origin, tailScan, mark, tail, full).Ok?
    ensures LocateResult(d, origin, tailScan, mark, tail, full).value.at + tailScan >= |d|
            <==> exists i :: i >= origin && i + tailScan >= |d| && MarkerAt(d, i, mark)
  {
    hide ScanResult, Usable, At, AllZero, LocateResult, MarkerAt;
    var hit, start := LocateResult(d, origin, tailScan, mark, tail, full).value, TailStart(origin, |d|, tailScan);
    LocateSound(d, origin, tailScan, mark, tail, full);
    HitIsMarker(d, origin, tailScan, mark, tail, full);
    assert hit.at >= start <==> hit.at + tailScan >= |d|;
  }

  lemma {:induction false} HitIsMarker(d: seq<byte>, origin: nat, tailScan: nat, mark: seq<byte>,
                                       tail: seq<nat>, full: seq<nat>)
    requires |mark| == LABEL_SIZE && LocateResult(d, origin, tailScan, mark, tail, full).Ok?
    ensures MarkerAt(d, LocateResult(d, origin, tailScan, mark, tail, full).value.at, mark)
  {
    hide ScanResult, Usable, At, AllZero, LocateResult;
    UsableIff(mark);
    LocateSound(d, origin, tailScan, mark, tail, full);
  }

  // ---- When the reads' sizes can change the answer ----

  ghost predicate FullSchedule(cuts: seq<nat>, from: nat, end: nat, chunk: nat) {
    Schedule(cuts, from, end, chunk) && End(cuts, from) >= end
  }

  lemma {:induction false} ScheduleAppends(a: seq<nat>, b: seq<nat>, from: nat, end: nat, chunk: nat)
    requires Schedule(a, from, end, chunk) && Schedule(b, End(a, from), end, chunk)
    ensures Schedule(a + b, from, end, chunk) && End(a + b, from) == End(b, End(a, from))
    decreases |b|
  {
    if b == [] {
      assert a + b == a;
    } else {
      ScheduleAppends(a, b[..|b| - 1], from, end, chunk);
      assert (a + b)[..|a + b| - 1] == a + b[..|b| - 1];
    }
  }

  /** One byte at a time. */
  function Singles(from: nat, upto: nat): seq<nat>
    requires from <= upto
    decreases upto - from
  {
    if from == upto then [] else Singles(from, upto - 1) + [upto]
  }

  lemma {:induction false} SinglesSchedule(from: nat, upto: nat, end: nat, chunk: nat)
    requires from <= upto <= end && chunk > 0
    ensures Schedule(Singles(from, upto), from, end, chunk) && End(Singles(from, upto), from) == upto
    ensures forall c :: c in Singles(from, upto) <==> from < c <= upto
    decreases upto - from
  {
    if from < upto {
      SinglesSchedule(from, upto - 1, end, chunk);
      assert Singles(from, upto)[..|Singles(from, upto)| - 1] == Singles(from, upto - 1);
    }
  }

  lemma {:induction false} SomeCutBetween(cuts: seq<nat>, from: nat, end: nat, chunk: nat, lo: nat, hi: nat)
    requires Schedule(cuts, from, end, chunk) && from < lo && End(cuts, from) >= lo && lo - 1 + chunk < hi
    ensures exists c :: c in cuts && lo <= c < hi
    decreases |cuts|
  {
    var init := cuts[..|cuts| - 1];
    if End(init, from) >= lo {
      SomeCutBetween(init, from, end, chunk, lo, hi);
      var c :| c in init && lo <= c < hi;
      assert c in cuts;
    } else {
      assert End(cuts, from) in cuts;
    }
  }

  /** The label ends before the escape does, and one read can reach from before the first end past the second. */
  predicate Racing(e: Option<nat>, l: Option<nat>, chunk: nat) {
    && e.Some? && l.Some? && l.value + LABEL_SIZE < e.value + |ESCAPE|
    && e.value + |ESCAPE| < l.value + LABEL_SIZE + chunk
  }

  /** The answer that does not depend on the reads: the marker that ends first, the escape on a tie. */
  function FirstToEnd(e: Option<nat>, l: Option<nat>): Option<Hit> {
    if e.Some? && (l.None? || e.value + |ESCAPE| <= l.value + LABEL_SIZE) then Some(Hit(true, e.value))
    else if l.Some? then Some(Hit(false, l.value))
    else None
  }

  /** Unless the markers race, a scan answers the one that ends first. */
  lemma {:induction false} ScanSettles(d: seq<byte>, from: nat, mark: seq<byte>, useLabel: bool, chunk: nat,
                                       cuts: seq<nat>)
    requires |mark| == LABEL_SIZE && ScanRun(d, from, mark, useLabel, chunk, cuts)
    requires !Racing(Leftmost(d, from, ESCAPE), EnabledLabel(d, from, mark, useLabel), chunk)
    ensures ScanResult(d, from, mark, useLabel, cuts)
            == FirstToEnd(Leftmost(d, from, ESCAPE), EnabledLabel(d, from, mark, useLabel))
  {
    hide FirstIn, Leftmost;
    var e, l := Leftmost(d, from, ESCAPE), EnabledLabel(d, from, mark, useLabel);
    MarkersInside(d, from, mark);
    if e.Some? && l.Some? && l.value + LABEL_SIZE < e.value + |ESCAPE| && !LabelAlone(e.value, l.value, cuts) {
      SomeCutBetween(cuts, from, |d|, chunk, l.value + LABEL_SIZE, e.value + |ESCAPE|);
    }
  }

  /** Reading on to the end of the input, byte by byte, does not change what a scan answers. */
  lemma {:induction false} RunExtends(d: seq<byte>, from: nat, mark: seq<byte>, useLabel: bool, chunk: nat,
                                      cuts: seq<nat>)
    returns (all: seq<nat>)
    requires |mark| == LABEL_SIZE && chunk > 0 && from <= |d| && ScanRun(d, from, mark, useLabel, chunk, cuts)
    ensures FullSchedule(all, from, |d|, chunk) && cuts <= all
    ensures ScanResult(d, from, mark, useLabel, all) == ScanResult(d, from, mark, useLabel, cuts)
  {
    hide FirstIn, Leftmost;
    var upto := End(cuts, from);
    assert upto <= |d|;
    SinglesSchedule(upto, |d|, |d|, chunk);
    var rest := Singles(upto, |d|);
    ScheduleAppends(cuts, rest, from, |d|, chunk);
    all := cuts + rest;
    assert forall c :: c in all <==> c in cuts || c in rest;
  }

  lemma {:induction false} FullIsRun(d: seq<byte>, from: nat, mark: seq<byte>, useLabel: bool, chunk: nat,
                                     cuts: seq<nat>)
    requires |mark| == LABEL_SIZE && FullSchedule(cuts, from, |d|, chunk)
    ensures ScanRun(d, from, mark, useLabel, chunk, cuts)
  {
    hide FirstIn, Leftmost;
    MarkersInside(d, from, mark);
  }

  /**
   * The sizes of the reads can change the answer of a scan exactly when the two markers race, whether the
   * reads stop with the answer or go on to the end of the input.
   */
  lemma {:induction false} ChunkingMattersIff(d: seq<byte>, from: nat, mark: seq<byte>, useLabel: bool, chunk: nat)
    requires |mark| == LABEL_SIZE && chunk > 0 && from <= |d|
    ensures (exists a, b :: ScanRun(d, from, mark, useLabel, chunk, a) && ScanRun(d, from, mark, useLabel, chunk, b)
                            && ScanResult(d, from, mark, useLabel, a) != ScanResult(d, from, mark, useLabel, b))
            <==> Racing(Leftmost(d, from, ESCAPE), EnabledLabel(d, from, mark, useLabel), chunk)
    ensures (exists a, b :: FullSchedule(a, from, |d|, chunk) && FullSchedule(b, from, |d|, chunk)
                            && ScanResult(d, from, mark, useLabel, a) != ScanResult(d, from, mark, useLabel, b))
            <==> Racing(Leftmost(d, from, ESCAPE), EnabledLabel(d, from, mark, useLabel), chunk)
  {
    hide FirstIn, Leftmost, ScanRun, FullSchedule, Schedule;
    var e, l := Leftmost(d, from, ESCAPE), EnabledLabel(d, from, mark, useLabel);
    MarkersInside(d, from, mark);
    forall a | FullSchedule(a, from, |d|, chunk)
      ensures ScanRun(d, from, mark, useLabel, chunk, a)
    {
      FullIsRun(d, from, mark, useLabel, chunk, a);
    }
    if Racing(e, l, chunk) {
      var a, b := RacingSchedules(from, |d|, e.value, l.value, chunk);
    } else {
      forall a | ScanRun(d, from, mark, useLabel, chunk, a)
        ensures ScanResult(d, from, mark, useLabel, a) == FirstToEnd(e, l)
      {
        ScanSettles(d, from, mark, useLabel, chunk, a);
      }
    }
  }

  const ONES: seq<byte> := [1, 1, 1, 1, 1, 1, 1, 1, 1, 1]

  /** A label with the escape right behind it: single bytes find the label, one long read the escape. */
  lemma {:induction false} RacingExample()
    ensures var d := ONES + ESCAPE;
            && ScanRun(d, 0, ONES, true, 16, Singles(0, 10)) && ScanRun(d, 0, ONES, true, 16, [16])
            && ScanResult(d, 0, ONES, true, Singles(0, 10)) == Some(Hit(false, 0))
            && ScanResult(d, 0, ONES, true, [16]) == Some(Hit(true, 10))
  {
    hide FirstIn, Leftmost, Schedule, Singles;
    var d := ONES + ESCAPE;
    ExampleMarkers();
    SinglesSchedule(0, 10, 16, 16);
    assert 10 in Singles(0, 10);
    NothingRead(d, 0, ONES, true, 16);
    ReadsOn([], 0, 16, 16, 16);
    assert [] + [16] == [16];
  }

  lemma {:induction false} ExampleMarkers()
    ensures Leftmost(ONES + ESCAPE, 0, ONES) == Some(0) && Leftmost(ONES + ESCAPE, 0, ESCAPE) == Some(10)
  {
    hide FirstIn, Leftmost;
    var d := ONES + ESCAPE;
    assert d[0..10] == ONES && d[10..16] == ESCAPE;
    LeftmostIs(d, 0, ONES, 0);
    forall j | 0 <= j < 10
      ensures !At(d, j, ESCAPE)
    {
      assert d[j..j + 6][0] == d[j] == 1 != ESCAPE[0];
    }
    LeftmostIs(d, 0, ESCAPE, 10);
  }

  lemma MarkersInside(d: seq<byte>, from: nat, mark: seq<byte>)
    ensures Leftmost(d, from, ESCAPE).Some? ==> from <= Leftmost(d, from, ESCAPE).value <= |d| - |ESCAPE|
    ensures Leftmost(d, from, mark).Some? ==> from <= Leftmost(d, from, mark).value <= |d| - |mark|
  {
  }

  lemma {:induction false} RacingSchedules(from: nat, end: nat, e: nat, l: nat, chunk: nat)
    returns (a: seq<nat>, b: seq<nat>)
    requires from <= l && l + LABEL_SIZE < e + |ESCAPE| <= end && e + |ESCAPE| < l + LABEL_SIZE + chunk
    ensures FullSchedule(a, from, end, chunk) && LabelAlone(e, l, a)
    ensures FullSchedule(b, from, end, chunk) && !LabelAlone(e, l, b)
  {
    var before, past := l + LABEL_SIZE - 1, e + |ESCAPE|;
    a := Singles(from, end);
    SinglesSchedule(from, end, end, chunk);
    assert before + 1 in a;
    SinglesSchedule(from, before, end, chunk);
    SinglesSchedule(past, end, end, chunk);
    var s, t := Singles(from, before), Singles(past, end);
    var jump := s + [past];
    assert jump[..|jump| - 1] == s;
    ScheduleAppends(jump, t, from, end, chunk);
    b := jump + t;
  }

  function AsResult(hit: Option<Hit>): Result<Hit> { match hit case Some(h) => Ok(h) case None => Err(Corrupt) }

  /**
   * With every marker inside the tail, the answer is one that a scan of the whole could have given, and
   * the one that every scan of the whole gives unless the two markers race; of one kind alone they never do.
   */
  lemma {:induction false} TailAgreesWithFull(d: seq<byte>, origin: nat, tailScan: nat, mark: seq<byte>, chunk: nat,
                                              tail: seq<nat>, full: seq<nat>)
    returns (cuts: seq<nat>)
    requires |mark| == LABEL_SIZE && origin < |d| && chunk > 0
    requires LocateRun(d, origin, tailScan, mark, chunk, tail, full)
    requires forall i :: origin <= i < TailStart(origin, |d|, tailScan) ==> !MarkerAt(d, i, mark)
    ensures ScanRun(d, origin, mark, Usable(mark), chunk, cuts)
    ensures LocateResult(d, origin, tailScan, mark, tail, full)
            == AsResult(ScanResult(d, origin, mark, Usable(mark), cuts))
    ensures !Racing(Leftmost(d, origin, ESCAPE), EnabledLabel(d, origin, mark, Usable(mark)), chunk) ==>
              forall other :: ScanRun(d, origin, mark, Usable(mark), chunk, other) ==>
                LocateResult(d, origin, tailScan, mark, tail, full)
                == AsResult(ScanResult(d, origin, mark, Usable(mark), other))
  {
    hide At, FirstIn, Leftmost, Usable, ScanResult;
    var start := TailStart(origin, |d|, tailScan);
    SinglesSchedule(origin, start, |d|, chunk);
    ScheduleAppends(Singles(origin, start), tail, origin, |d|, chunk);
    cuts := Singles(origin, start) + tail;
    SameScan(d, origin, start, mark, tail);
    ScanFinds(d, origin, mark, full);
    if !Racing(Leftmost(d, origin, ESCAPE), EnabledLabel(d, origin, mark, Usable(mark)), chunk) {
      ScanSettles(d, origin, mark, Usable(mark), chunk, cuts);
      forall other | ScanRun(d, origin, mark, Usable(mark), chunk, other)
        ensures ScanResult(d, origin, mark, Usable(mark), other) == ScanResult(d, origin, mark, Usable(mark), cuts)
      {
        ScanSettles(d, origin, mark, Usable(mark), chunk, other);
      }
    }
  }

  /** No race in the window that the search settles in. */
  ghost predicate RaceFree(d: seq<byte>, origin: nat, tailScan: nat, mark: seq<byte>, chunk: nat) {
    var start := TailStart(origin, |d|, tailScan);
    && !Racing(Leftmost(d, start, ESCAPE), EnabledLabel(d, start, mark, Usable(mark)), chunk)
    && (NoMarkerFrom(d, start, mark)
        ==> !Racing(Leftmost(d, origin, ESCAPE), EnabledLabel(d, origin, mark, Usable(mark)), chunk))
  }

  /** Without a race, every two searches answer the same. */
  lemma {:induction false} LocateSettles(d: seq<byte>, origin: nat, tailScan: nat, mark: seq<byte>, chunk: nat,
                                         tail: seq<nat>, full: seq<nat>, tail': seq<nat>, full': seq<nat>)
    requires |mark| == LABEL_SIZE && RaceFree(d, origin, tailScan, mark, chunk)
    requires LocateRun(d, origin, tailScan, mark, chunk, tail, full)
    requires LocateRun(d, origin, tailScan, mark, chunk, tail', full')
    ensures LocateResult(d, origin, tailScan, mark, tail, full) == LocateResult(d, origin, tailScan, mark, tail', full')
  {
    hide Leftmost, EnabledLabel, Racing, ScanResult, ScanRun, Usable, MarkerAt;
    var start := TailStart(origin, |d|, tailScan);
    if |d| > origin {
      ScanSettles(d, start, mark, Usable(mark), chunk, tail);
      ScanSettles(d, start, mark, Usable(mark), chunk, tail');
      ScanFinds(d, start, mark, tail);
      if ScanResult(d, start, mark, Usable(mark), tail).None? && start > origin {
        ScanSettles(d, origin, mark, Usable(mark), chunk, full);
        ScanSettles(d, origin, mark, Usable(mark), chunk, full');
      }
    }
  }

  /** No race, and `hit` ends first. */
  ghost predicate Settled(d: seq<byte>, from: nat, mark: seq<byte>, chunk: nat, hit: Hit) {
    var e, l := Leftmost(d, from, ESCAPE), EnabledLabel(d, from, mark, Usable(mark));
    FirstToEnd(e, l) == Some(hit) && !Racing(e, l, chunk)
  }

  /** `hit` settles the tail window or, where the tail holds no marker, the whole. */
  ghost predicate Decisive(d: seq<byte>, origin: nat, tailScan: nat, mark: seq<byte>, chunk: nat, hit: Hit) {
    var start := TailStart(origin, |d|, tailScan);
    && origin < |d|
    && (Settled(d, start, mark, chunk, hit)
        || (start > origin && NoMarkerFrom(d, start, mark) && Settled(d, origin, mark, chunk, hit)))
  }

  lemma {:induction false} DecisiveIsFound(d: seq<byte>, origin: nat, tailScan: nat, mark: seq<byte>, chunk: nat,
                                           hit: Hit,
                                           tail: seq<nat>, full: seq<nat>)
    requires |mark| == LABEL_SIZE && LocateRun(d, origin, tailScan, mark, chunk, tail, full)
    requires Decisive(d, origin, tailScan, mark, chunk, hit)
    ensures LocateResult(d, origin, tailScan, mark, tail, full) == Ok(hit)
  {
    hide Leftmost, EnabledLabel, FirstToEnd, Racing, ScanResult, ScanRun, Usable, MarkerAt;
    var start := TailStart(origin, |d|, tailScan);
    ScanFinds(d, start, mark, tail);
    if Settled(d, start, mark, chunk, hit) {
      ScanSettles(d, start, mark, Usable(mark), chunk, tail);
    } else {
      ScanSettles(d, origin, mark, Usable(mark), chunk, full);
    }
  }

  /** A scan that some sizes of reads make, and one that misses `hit` unless `hit` is settled. */
  lemma {:induction false} UnsettledRun(d: seq<byte>, from: nat, mark: seq<byte>, chunk: nat, hit: Hit)
    returns (cuts: seq<nat>)
    requires |mark| == LABEL_SIZE && chunk > 0 && from <= |d|
    ensures ScanRun(d, from, mark, Usable(mark), chunk, cuts)
    ensures !Settled(d, from, mark, chunk, hit) ==> ScanResult(d, from, mark, Usable(mark), cuts) != Some(hit)
  {
    hide Leftmost, EnabledLabel, FirstToEnd, Racing, ScanResult, ScanRun, Usable;
    var e, l := Leftmost(d, from, ESCAPE), EnabledLabel(d, from, mark, Usable(mark));
    if Racing(e, l, chunk) {
      ChunkingMattersIff(d, from, mark, Usable(mark), chunk);
      var a, b :| ScanRun(d, from, mark, Usable(mark), chunk, a) && ScanRun(d, from, mark, Usable(mark), chunk, b)
                  && ScanResult(d, from, mark, Usable(mark), a) != ScanResult(d, from, mark, Usable(mark), b);
      cuts := if ScanResult(d, from, mark, Usable(mark), a) == Some(hit) then b else a;
    } else {
      cuts := Singles(from, |d|);
      SinglesSchedule(from, |d|, |d|, chunk);
      FullIsRun(d, from, mark, Usable(mark), chunk, cuts);
      ScanSettles(d, from, mark, Usable(mark), chunk, cuts);
    }
  }

  /** Every search finds `hit`, whatever the sizes of its reads, if and only if `hit` is decisive. */
  lemma {:induction false} DecisiveIff(d: seq<byte>, origin: nat, tailScan: nat, mark: seq<byte>, chunk: nat, hit: Hit)
    requires |mark| == LABEL_SIZE && chunk > 0
    ensures Decisive(d, origin, tailScan, mark, chunk, hit)
            <==> forall tail, full :: LocateRun(d, origin, tailScan, mark, chunk, tail, full)
                                      ==> LocateResult(d, origin, tailScan, mark, tail, full) == Ok(hit)
  {
    hide Settled, ScanResult, ScanRun, Usable, MarkerAt;
    if Decisive(d, origin, tailScan, mark, chunk, hit) {
      forall tail, full | LocateRun(d, origin, tailScan, mark, chunk, tail, full)
        ensures LocateResult(d, origin, tailScan, mark, tail, full) == Ok(hit)
      {
        DecisiveIsFound(d, origin, tailScan, mark, chunk, hit, tail, full);
      }
    } else {
      var start, tail, full := TailStart(origin, |d|, tailScan), [], [];
      if origin < |d| {
        tail := UnsettledRun(d, start, mark, chunk, hit);
        full := UnsettledRun(d, origin, mark, chunk, hit);
        ScanFinds(d, start, mark, tail);
      }
      assert LocateRun(d, origin, tailScan, mark, chunk, tail, full);
      assert LocateResult(d, origin, tailScan, mark, tail, full) != Ok(hit);
    }
  }

  lemma {:induction false} SameScan(d: seq<byte>, origin: nat, start: nat, mark: seq<byte>, tail: seq<nat>)
    requires |mark| == LABEL_SIZE && origin <= start
    requires forall i :: origin <= i < start ==> !MarkerAt(d, i, mark)
    ensures ScanResult(d, start, mark, Usable(mark), tail)
            == ScanResult(d, origin, mark, Usable(mark), Singles(origin, start) + tail)
    ensures forall full :: ScanResult(d, origin, mark, Usable(mark), full).None?
                           <==> ScanResult(d, start, mark, Usable(mark), tail).None?
  {
    UsableIff(mark);
    hide At, FirstIn, Leftmost, Usable;
    assert forall i :: origin <= i < start ==> !At(d, i, ESCAPE) by {
      forall i | origin <= i < start ensures !At(d, i, ESCAPE) { assert !MarkerAt(d, i, mark); }
    }
    SameLeftmost(d, origin, start, ESCAPE);
    var l := EnabledLabel(d, origin, mark, Usable(mark));
    if Usable(mark) {
      forall i | origin <= i < start ensures !At(d, i, mark) { assert !MarkerAt(d, i, mark); }
      SameLeftmost(d, origin, start, mark);
      LeftmostFinds(d, start, mark);
    }
    SinglesSchedule(origin, start, start, 1);
    var e := Leftmost(d, start, ESCAPE);
    if e.Some? && l.Some? {
      SameRace(e.value, l.value, origin, start, tail);
    }
  }

  lemma SameRace(e: nat, l: nat, origin: nat, start: nat, tail: seq<nat>)
    requires origin <= start <= l
    requires forall c :: c in Singles(origin, start) <==> origin < c <= start
    ensures LabelAlone(e, l, Singles(origin, start) + tail) <==> LabelAlone(e, l, tail)
  {
    var s := Singles(origin, start);
    assert forall c :: c in s + tail <==> c in s || c in tail;
  }

  lemma {:induction false} SameLeftmost(d: seq<byte>, origin: nat, start: nat, pat: seq<byte>)
    requires origin <= start && pat != [] && forall i :: origin <= i < start ==> !At(d, i, pat)
    ensures Leftmost(d, origin, pat) == Leftmost(d, start, pat)
  {
    hide At, FirstIn;
    LeftmostFinds(d, origin, pat);
    LeftmostFinds(d, start, pat);
  }
}
