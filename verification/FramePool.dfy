// Physical frame bookkeeping: bump regions, a sorted recycled list, and the set
// of frames handed out (kernel/src/frame_pool.rs).
module FramePool {
  import opened Wrappers

  const PAGE_BYTES: nat := 4096
  const U64_LIMIT: nat := 0x1_0000_0000_0000_0000

  datatype Region = Region(start: nat, end: nat)

  // ---------------------------------------------------------------- extents

  // The frames of a contiguous extent of `count` pages.
  ghost function Extent(first: nat, count: nat): set<nat> {
    set k | 0 <= k < count :: first + k * PAGE_BYTES
  }

  lemma ExtentGrows(first: nat, k: nat)
    ensures Extent(first, k + 1) == Extent(first, k) + {first + k * PAGE_BYTES}
    ensures first + k * PAGE_BYTES !in Extent(first, k)
    ensures Extent(first, 0) == {}
  {
  }

  // `a` is a whole frame that a bump region can still hand out.
  ghost predicate InRegion(r: Region, a: nat) {
    r.start <= a && a + PAGE_BYTES <= r.end && (a - r.start) % PAGE_BYTES == 0
  }

  ghost function RegionFrames(r: Region): set<nat> {
    set a | r.start <= a < r.end && InRegion(r, a)
  }

  ghost function AllRegionFrames(rs: seq<Region>): set<nat> {
    set i, a | 0 <= i < |rs| && a in RegionFrames(rs[i]) :: a
  }

  ghost function Elements(s: seq<nat>): set<nat> {
    set i | 0 <= i < |s| :: s[i]
  }

  ghost predicate Sorted(s: seq<nat>) {
    forall i, j :: 0 <= i < j < |s| ==> s[i] < s[j]
  }

  // Two different frames never share a byte.
  ghost predicate Spaced(frames: set<nat>) {
    forall a, b :: a in frames && b in frames && a < b ==> a + PAGE_BYTES <= b
  }

  // What a boot memory map guarantees: regions are ordinary half-open ranges of
  // 64-bit addresses and no two of them overlap.
  ghost predicate WellFormedRegions(rs: seq<Region>) {
    && (forall i :: 0 <= i < |rs| ==> rs[i].start <= rs[i].end < U64_LIMIT)
    && (forall i, j :: 0 <= i < |rs| && 0 <= j < |rs| && i != j ==>
         rs[i].end <= rs[j].start || rs[j].end <= rs[i].start)
  }

  // ------------------------------------------------------------ region lemmas

  lemma FramesBelow(rs: seq<Region>)
    requires WellFormedRegions(rs)
    ensures forall a :: a in AllRegionFrames(rs) ==> a + PAGE_BYTES < U64_LIMIT
  {
    forall a | a in AllRegionFrames(rs) ensures a + PAGE_BYTES < U64_LIMIT {
      var i :| 0 <= i < |rs| && a in RegionFrames(rs[i]);
      assert InRegion(rs[i], a);
    }
  }

  lemma RegionFramesSpaced(rs: seq<Region>)
    requires WellFormedRegions(rs)
    ensures Spaced(AllRegionFrames(rs))
  {
    var all := AllRegionFrames(rs);
    forall a, b | a in all && b in all && a < b
      ensures a + PAGE_BYTES <= b
    {
      var i :| 0 <= i < |rs| && a in RegionFrames(rs[i]);
      var j :| 0 <= j < |rs| && b in RegionFrames(rs[j]);
      assert InRegion(rs[i], a) && InRegion(rs[j], b);
      if i == j {
        assert (b - rs[i].start) % PAGE_BYTES == 0;
      }
    }
  }

  // Bumping a region's start takes exactly one extent out of it.
  lemma BumpTakesExtent(r: Region, count: nat)
    requires r.start + count * PAGE_BYTES <= r.end
    ensures Extent(r.start, count) <= RegionFrames(r)
    ensures RegionFrames(Region(r.start + count * PAGE_BYTES, r.end))
         == RegionFrames(r) - Extent(r.start, count)
  {
    var next := Region(r.start + count * PAGE_BYTES, r.end);
    forall a | a in Extent(r.start, count)
      ensures a in RegionFrames(r) && a !in RegionFrames(next)
    {
      var k :| 0 <= k < count && a == r.start + k * PAGE_BYTES;
      assert a + PAGE_BYTES <= next.start;
    }
    forall a | a in RegionFrames(r)
      ensures a in Extent(r.start, count) || a in RegionFrames(next)
    {
      var k := (a - r.start) / PAGE_BYTES;
      assert a == r.start + k * PAGE_BYTES;
      if count <= k {
        assert a - next.start == (k - count) * PAGE_BYTES;
        assert InRegion(next, a);
      } else {
        assert a in Extent(r.start, count);
      }
    }
    forall a | a in RegionFrames(next)
      ensures a in RegionFrames(r)
    {
      assert InRegion(next, a);
      assert (a - r.start) == (a - next.start) + count * PAGE_BYTES;
      assert InRegion(r, a);
    }
  }

  lemma RegionsApart(r: Region, t: Region)
    requires r.end <= t.start || t.end <= r.start
    ensures RegionFrames(r) !! RegionFrames(t)
  {
    assert forall a :: InRegion(r, a) ==> !InRegion(t, a);
  }

  lemma BumpOneRegion(rs: seq<Region>, i: nat, count: nat)
    requires WellFormedRegions(rs) && i < |rs|
    requires rs[i].start + count * PAGE_BYTES <= rs[i].end
    ensures var next := rs[i := Region(rs[i].start + count * PAGE_BYTES, rs[i].end)];
            && WellFormedRegions(next)
            && Extent(rs[i].start, count) <= AllRegionFrames(rs)
            && AllRegionFrames(next) == AllRegionFrames(rs) - Extent(rs[i].start, count)
  {
    var bumped := Region(rs[i].start + count * PAGE_BYTES, rs[i].end);
    var next := rs[i := bumped];
    BumpTakesExtent(rs[i], count);
    forall a | a in AllRegionFrames(next)
      ensures a in AllRegionFrames(rs) && a !in Extent(rs[i].start, count)
    {
      var j :| 0 <= j < |next| && a in RegionFrames(next[j]);
      if j == i {
        assert a in RegionFrames(rs[i]);
      } else {
        assert a in RegionFrames(rs[j]);
        RegionsApart(rs[i], rs[j]);
      }
    }
    forall a | a in AllRegionFrames(rs) && a !in Extent(rs[i].start, count)
      ensures a in AllRegionFrames(next)
    {
      var j :| 0 <= j < |rs| && a in RegionFrames(rs[j]);
      assert a in RegionFrames(next[j]);
    }
    forall a | a in Extent(rs[i].start, count) ensures a in AllRegionFrames(rs) {
      assert a in RegionFrames(rs[i]);
    }
  }

  // -------------------------------------------------------------- run lemmas

  // `count` consecutive list positions from `from` on hold adjacent frames.
  ghost predicate IsRun(s: seq<nat>, from: nat, count: nat) {
    && from + count <= |s|
    && forall k :: from < k < from + count ==> s[k - 1] + PAGE_BYTES == s[k]
  }

  lemma {:induction false} RunAddresses(s: seq<nat>, from: nat, count: nat, k: nat)
    requires IsRun(s, from, count) && k < count
    ensures s[from + k] == s[from] + k * PAGE_BYTES
  {
    if k > 0 {
      RunAddresses(s, from, count, k - 1);
      assert s[from + k - 1] + PAGE_BYTES == s[from + k];
    }
  }

  lemma RunIsExtent(s: seq<nat>, from: nat, count: nat)
    requires IsRun(s, from, count) && 0 < count
    ensures Elements(s[from..from + count]) == Extent(s[from], count)
  {
    var run := s[from..from + count];
    forall k | 0 <= k < count ensures run[k] == s[from] + k * PAGE_BYTES {
      RunAddresses(s, from, count, k);
    }
    forall a | a in Extent(s[from], count) ensures a in Elements(run) {
      var k :| 0 <= k < count && a == s[from] + k * PAGE_BYTES;
      assert run[k] == a;
    }
  }

  // In a sorted list of non-overlapping frames the successor frame, if it is
  // there at all, is the next list entry.
  lemma SuccessorIsNext(s: seq<nat>, i: nat)
    requires Sorted(s) && Spaced(Elements(s)) && i < |s|
    requires s[i] + PAGE_BYTES in Elements(s)
    ensures i + 1 < |s| && s[i + 1] == s[i] + PAGE_BYTES
  {
    var j :| 0 <= j < |s| && s[j] == s[i] + PAGE_BYTES;
    assert i < j;
    assert s[i] in Elements(s) && s[i + 1] in Elements(s);
  }

  // A set-level extent inside the recycled list is a list-level run.
  lemma {:induction false} ExtentIsRun(s: seq<nat>, from: nat, count: nat)
    requires Sorted(s) && Spaced(Elements(s)) && from < |s| && 0 < count
    requires Extent(s[from], count) <= Elements(s)
    ensures IsRun(s, from, count)
  {
    if count > 1 {
      forall a | a in Extent(s[from], count - 1) ensures a in Elements(s) {
        assert a in Extent(s[from], count);
      }
      ExtentIsRun(s, from, count - 1);
      RunAddresses(s, from, count - 1, count - 2);
      assert s[from] + (count - 1) * PAGE_BYTES in Extent(s[from], count);
      SuccessorIsNext(s, from + count - 2);
    }
  }

  // No run in the list means no such extent among the recycled frames.
  lemma NoRunNoExtent(s: seq<nat>, count: nat)
    requires Sorted(s) && Spaced(Elements(s)) && 0 < count
    requires forall from: nat :: !IsRun(s, from, count)
    ensures forall first: nat :: !(Extent(first, count) <= Elements(s))
  {
    forall first: nat ensures !(Extent(first, count) <= Elements(s)) {
      if Extent(first, count) <= Elements(s) {
        assert first + 0 * PAGE_BYTES in Extent(first, count);
        var from :| 0 <= from < |s| && s[from] == first;
        ExtentIsRun(s, from, count);
      }
    }
  }

  lemma ElementsAppend(s: seq<nat>, a: nat)
    ensures Elements(s + [a]) == Elements(s) + {a} && Elements([]) == {}
  {
    ElementsConcat(s, [a]);
    assert [a][0] in Elements([a]);
  }

  lemma ElementsConcat(s: seq<nat>, t: seq<nat>)
    ensures Elements(s + t) == Elements(s) + Elements(t)
  {
    forall a | a in Elements(s) + Elements(t) ensures a in Elements(s + t) {
      if a in Elements(s) {
        var i :| 0 <= i < |s| && s[i] == a;
        assert (s + t)[i] == a;
      } else {
        var i :| 0 <= i < |t| && t[i] == a;
        assert (s + t)[|s| + i] == a;
      }
    }
  }

  // Cutting a run out of a sorted list.
  lemma CutRun(s: seq<nat>, from: nat, to: nat)
    requires Sorted(s) && from <= to <= |s|
    ensures Sorted(s[..from] + s[to..])
    ensures Elements(s[..from] + s[to..]) == Elements(s) - Elements(s[from..to])
    ensures Elements(s[from..to]) <= Elements(s)
  {
    var low, run, high := s[..from], s[from..to], s[to..];
    assert s == (low + run) + high;
    ElementsConcat(low, run);
    ElementsConcat(low + run, high);
    ElementsConcat(low, high);
    assert Elements(low) !! Elements(run);
    assert Elements(high) !! Elements(run);
  }

  lemma InsertSorted(s: seq<nat>, at: nat, a: nat)
    requires Sorted(s) && at <= |s|
    requires forall i :: 0 <= i < at ==> s[i] < a
    requires forall i :: at <= i < |s| ==> a < s[i]
    ensures Sorted(s[..at] + [a] + s[at..])
    ensures Elements(s[..at] + [a] + s[at..]) == Elements(s) + {a}
  {
    assert s == s[..at] + s[at..];
    ElementsConcat(s[..at], [a]);
    assert a in Elements([a]) by { assert [a][0] == a; }
    ElementsConcat(s[..at] + [a], s[at..]);
    ElementsConcat(s[..at], s[at..]);
  }

  // Neither the recycled list nor any single region can supply `count`
  // adjacent frames.
  ghost predicate NoRunLeft(recycled: seq<nat>, regions: seq<Region>, count: nat) {
    && (forall first: nat :: !(Extent(first, count) <= Elements(recycled)))
    && (forall i :: 0 <= i < |regions| ==>
         regions[i].end - regions[i].start < count * PAGE_BYTES)
  }

  // Three disjoint sets that make up the fourth.
  ghost predicate Splits(a: set<nat>, b: set<nat>, c: set<nat>, all: set<nat>) {
    a + b + c == all && a !! b && a !! c && b !! c
  }

  lemma SplitsSwap(a: set<nat>, b: set<nat>, c: set<nat>, all: set<nat>)
    requires Splits(a, b, c, all)
    ensures Splits(b, a, c, all)
  {
  }

  lemma MoveIn(a: set<nat>, b: set<nat>, c: set<nat>, all: set<nat>, f: nat)
    requires Splits(a, b, c, all) && f in c
    ensures Splits(a, b + {f}, c - {f}, all) && f !in b
    ensures (b + {f}) + a == (b + a) + {f}
  {
  }

  lemma MoveOut(a: set<nat>, b: set<nat>, c: set<nat>, all: set<nat>, moved: set<nat>)
    requires Splits(a, b, c, all) && moved <= a
    ensures Splits(a - moved, b, c + moved, all) && Splits(b, a - moved, c + moved, all)
    ensures b + (a - moved) == b + a - moved && (a - moved) + b == a + b - moved
  {
  }

  // What draining a run of the recycled list does to the three parts.
  lemma RunTaken(s: seq<nat>, from: nat, count: nat, a: set<nat>, taken: set<nat>, all: set<nat>)
    requires Sorted(s) && 0 < count && IsRun(s, from, count) && Splits(a, Elements(s), taken, all)
    ensures from + count <= |s|
    ensures var (run, rest) := (Extent(s[from], count), s[..from] + s[from + count..]);
            && Sorted(rest) && Elements(s[from..from + count]) == run && run <= Elements(s) + a
            && Splits(a, Elements(rest), taken + run, all)
            && Elements(rest) + a == Elements(s) + a - run
  {
    RunIsExtent(s, from, count);
    CutRun(s, from, from + count);
    hide Sorted, IsRun, Elements, Extent;
    SplitsSwap(a, Elements(s), taken, all);
    MoveOut(Elements(s), a, taken, all, Extent(s[from], count));
    SplitsSwap(Elements(s) - Extent(s[from], count), a, taken + Extent(s[from], count), all);
  }

  // ---------------------------------------------------------------- counting

  function RegionBytes(rs: seq<Region>): nat
    requires forall i :: 0 <= i < |rs| ==> rs[i].start <= rs[i].end
  {
    if rs == [] then 0 else rs[0].end - rs[0].start + RegionBytes(rs[1..])
  }

  ghost predicate IsWhole(r: Region) {
    (r.end - r.start) % PAGE_BYTES == 0
  }

  ghost predicate WholePages(rs: seq<Region>) {
    forall i :: 0 <= i < |rs| ==> IsWhole(rs[i])
  }

  ghost predicate Counted(frames: set<nat>, bytes: nat, whole: bool) {
    && |frames| * PAGE_BYTES <= bytes
    && (whole ==> |frames| * PAGE_BYTES == bytes)
  }

  lemma {:induction false} ExtentCount(first: nat, count: nat)
    ensures |Extent(first, count)| == count
  {
    ExtentGrows(first, 0);
    if count > 0 {
      ExtentGrows(first, count - 1);
      ExtentCount(first, count - 1);
    }
  }

  lemma RegionCount(r: Region)
    requires r.start <= r.end
    ensures |RegionFrames(r)| == (r.end - r.start) / PAGE_BYTES
  {
    var n := (r.end - r.start) / PAGE_BYTES;
    forall a | a in RegionFrames(r) ensures a in Extent(r.start, n) {
      var k := (a - r.start) / PAGE_BYTES;
      assert a == r.start + k * PAGE_BYTES && k < n;
    }
    assert RegionFrames(r) == Extent(r.start, n);
    ExtentCount(r.start, n);
  }

  // The boot regions hold one frame for each whole page.
  lemma {:induction false} AllCount(rs: seq<Region>)
    requires WellFormedRegions(rs)
    ensures Counted(AllRegionFrames(rs), RegionBytes(rs), WholePages(rs))
  {
    hide Counted, IsWhole;
    if rs == [] {
      NothingCounted();
      assert AllRegionFrames(rs) == {};
    } else {
      FirstApart(rs);
      WholeFirst(rs);
      AllCount(rs[1..]);
      assert RegionBytes(rs) == rs[0].end - rs[0].start + RegionBytes(rs[1..]);
      hide *;
      CountedSum(rs[0], AllRegionFrames(rs[1..]), RegionBytes(rs[1..]), WholePages(rs[1..]));
    }
  }

  lemma NothingCounted()
    ensures Counted({}, 0, true)
  {
  }

  lemma WholeFirst(rs: seq<Region>)
    requires rs != []
    ensures WholePages(rs) ==> WholePages(rs[1..]) && IsWhole(rs[0])
  {
    hide IsWhole;
  }

  lemma CountedSum(r: Region, rest: set<nat>, bytes: nat, whole: bool)
    requires r.start <= r.end && RegionFrames(r) !! rest && Counted(rest, bytes, whole)
    ensures Counted(RegionFrames(r) + rest, r.end - r.start + bytes, whole && IsWhole(r))
  {
    RegionCount(r);
    CountApart(RegionFrames(r), rest);
    hide RegionFrames;
  }

  lemma CountApart(a: set<nat>, b: set<nat>)
    requires a !! b
    ensures |a + b| == |a| + |b|
  {
  }

  lemma FirstApart(rs: seq<Region>)
    requires WellFormedRegions(rs) && rs != []
    ensures WellFormedRegions(rs[1..]) && rs[0].start <= rs[0].end
    ensures AllRegionFrames(rs) == RegionFrames(rs[0]) + AllRegionFrames(rs[1..])
    ensures RegionFrames(rs[0]) !! AllRegionFrames(rs[1..])
  {
    forall i | 0 < i < |rs| ensures RegionFrames(rs[0]) !! RegionFrames(rs[i]) {
      RegionsApart(rs[0], rs[i]);
    }
    hide RegionFrames;
    forall a | a in AllRegionFrames(rs) ensures a in RegionFrames(rs[0]) + AllRegionFrames(rs[1..]) {
      var i :| 0 <= i < |rs| && a in RegionFrames(rs[i]);
      if i > 0 { assert rs[1..][i - 1] == rs[i]; }
    }
    forall a | a in AllRegionFrames(rs[1..]) ensures a in AllRegionFrames(rs) && a !in RegionFrames(rs[0]) {
      var i :| 0 <= i < |rs[1..]| && a in RegionFrames(rs[1..][i]);
      assert rs[i + 1] == rs[1..][i];
    }
    forall a | a in RegionFrames(rs[0]) ensures a in AllRegionFrames(rs) {
    }
  }

  // -------------------------------------------------------------------- class

  class FramePool {
    var regions: seq<Region>
    var recycled: seq<nat>
    var taken: set<nat>
    const totalBytes: nat
    // Every frame the boot regions contain, and whether they are whole pages.
    ghost const universe: set<nat>
    ghost const whole: bool

    ghost function Free(): set<nat>
      reads this
    {
      Elements(recycled) + AllRegionFrames(regions)
    }

    // Remaining regions, recycled list and taken set partition the frames.
    ghost predicate Valid()
      reads this
    {
      && WellFormedRegions(regions)
      && Sorted(recycled)
      && Spaced(universe)
      && (forall a :: a in universe ==> a + PAGE_BYTES < U64_LIMIT)
      && Splits(AllRegionFrames(regions), Elements(recycled), taken, universe)
      && Counted(universe, totalBytes, whole)
    }

    ghost predicate Unchanged(rs: seq<Region>, rc: seq<nat>, al: set<nat>)
      reads this
    {
      regions == rs && recycled == rc && taken == al
    }

    constructor (boot: seq<Region>)
      requires WellFormedRegions(boot)
      ensures Valid() && universe == AllRegionFrames(boot)
      ensures taken == {} && Free() == universe
      ensures totalBytes == RegionBytes(boot) && whole == WholePages(boot)
    {
      regions, recycled, taken := boot, [], {};
      universe, whole := AllRegionFrames(boot), WholePages(boot);
      totalBytes := RegionBytes(boot);
      new;
      AllCount(boot);
      RegionFramesSpaced(boot);
      FramesBelow(boot);
      hide AllRegionFrames, WellFormedRegions, Spaced, Counted, WholePages, RegionBytes;
      assert Elements([]) == {};
    }

    // Take `count` adjacent frames: first run of the recycled list, else first
    // region that is long enough. A failed request changes nothing, and fails
    // only when neither source has such a run.
    method Allocate(count: nat) returns (r: Option<nat>)
      requires Valid()
      requires count < U64_LIMIT
      modifies this`regions, this`recycled, this`taken
      ensures Valid()
      ensures r.Some? ==>
        && 0 < count
        && Extent(r.value, count) <= old(Free())
        && taken == old(taken) + Extent(r.value, count)
        && Free() == old(Free()) - Extent(r.value, count)
      ensures r.None? ==> Unchanged(old(regions), old(recycled), old(taken))
      ensures r.None? <==>
        count == 0 || NoRunLeft(old(recycled), old(regions), count)
    {
      hide AllRegionFrames, Splits, Counted, Spaced, IsRun, RegionFrames, Elements, Extent;
      if count == 0 { return None; }
      if count * PAGE_BYTES >= U64_LIMIT {
        HugeRequestHasNoRun(count);
        return None;
      }
      var from := FindRun(recycled, count);
      if from.Some? {
        var first := TakeRecycled(from.value, count);
        return Some(first);
      }
      RecycledSpaced();
      NoRunNoExtent(recycled, count);
      var i := 0;
      while i < |regions|
        invariant 0 <= i <= |regions|
        invariant Unchanged(old(regions), old(recycled), old(taken))
        invariant forall j :: 0 <= j < i ==> regions[j].end - regions[j].start < count * PAGE_BYTES
      {
        var next := regions[i].start + count * PAGE_BYTES;
        if next < U64_LIMIT && next <= regions[i].end {
          var first := TakeRegion(i, count);
          return Some(first);
        }
        i := i + 1;
      }
      return None;
    }

    // Move a run of the recycled list to the frames handed out.
    method TakeRecycled(from: nat, count: nat) returns (first: nat)
      requires Valid() && 0 < count && IsRun(recycled, from, count)
      modifies this`recycled, this`taken
      ensures Valid()
      ensures Extent(first, count) <= old(Free())
      ensures taken == old(taken) + Extent(first, count)
      ensures Free() == old(Free()) - Extent(first, count)
    {
      hide AllRegionFrames, Extent, WellFormedRegions, Spaced, Sorted, IsRun, Elements, Splits, Counted;
      RunTaken(recycled, from, count, AllRegionFrames(regions), taken, universe);
      first := recycled[from];
      var drained := recycled[from..from + count];
      recycled := recycled[..from] + recycled[from + count..];
      MarkTaken(drained);
    }

    method MarkTaken(drained: seq<nat>)
      modifies this`taken
      ensures taken == old(taken) + Elements(drained)
    {
      ElementsAppend([], 0);
      for i := 0 to |drained|
        invariant taken == old(taken) + Elements(drained[..i])
      {
        taken := taken + {drained[i]};
        assert drained[..i + 1] == drained[..i] + [drained[i]];
        ElementsAppend(drained[..i], drained[i]);
      }
      assert drained[..|drained|] == drained;
    }

    // Bump a region that is long enough.
    method TakeRegion(i: nat, count: nat) returns (first: nat)
      requires Valid() && 0 < count && i < |regions|
      requires regions[i].start + count * PAGE_BYTES <= regions[i].end
      modifies this`regions, this`taken
      ensures Valid()
      ensures Extent(first, count) <= old(Free())
      ensures taken == old(taken) + Extent(first, count)
      ensures Free() == old(Free()) - Extent(first, count)
    {
      hide AllRegionFrames, WellFormedRegions, Spaced, Sorted, Elements, Splits, Extent, Counted;
      first := regions[i].start;
      ExtentGrows(first, 0);
      BumpOneRegion(regions, i, count);
      MoveOut(AllRegionFrames(regions), Elements(recycled), taken, universe, Extent(first, count));
      regions := regions[i := Region(first + count * PAGE_BYTES, regions[i].end)];
      var k := 0;
      while k < count
        invariant 0 <= k <= count
        invariant regions == old(regions)[i := Region(first + count * PAGE_BYTES, old(regions)[i].end)]
        invariant taken == old(taken) + Extent(first, k)
      {
        taken := taken + {first + k * PAGE_BYTES};
        ExtentGrows(first, k);
        k := k + 1;
      }
    }

    // Give one frame back. A frame that is not handed out is ignored.
    method Release(addr: nat)
      requires Valid()
      modifies this`recycled, this`taken
      ensures Valid()
      ensures taken == old(taken) - {addr}
      ensures Free() == old(Free()) + (if addr in old(taken) then {addr} else {})
    {
      hide AllRegionFrames, WellFormedRegions, Spaced, Sorted, Splits, Counted;
      if addr in taken {
        MoveIn(AllRegionFrames(regions), Elements(recycled), taken, universe, addr);
        taken := taken - {addr};
        var found, index := BinarySearch(recycled, addr);
        // A taken frame is never in the recycled list, so taking the
        // insertion index cannot fail.
        assert !found;
        InsertSorted(recycled, index, addr);
        hide Elements;
        recycled := recycled[..index] + [addr] + recycled[index..];
      }
    }

    lemma Bounds()
      requires Valid()
      ensures taken <= universe && Free() <= universe && Free() !! taken
    {
      hide AllRegionFrames, Elements, WellFormedRegions, Sorted, Spaced;
    }

    lemma RecycledSpaced()
      requires Valid()
      ensures Spaced(Elements(recycled))
    {
      hide AllRegionFrames, Elements, WellFormedRegions;
    }

    // A request whose byte size overflows 64 bits could not have been met.
    lemma HugeRequestHasNoRun(count: nat)
      requires Valid() && count * PAGE_BYTES >= U64_LIMIT
      ensures NoRunLeft(recycled, regions, count)
    {
      assert Elements(recycled) <= universe by { hide AllRegionFrames, Elements; }
      forall first: nat ensures !(Extent(first, count) <= Elements(recycled)) {
        HugeExtent(first, count, universe);
      }
      SmallRegions(regions, count);
      hide Valid, Extent, Elements;
    }

    // Bytes handed out and bytes in all. Together with the free frames the former
    // never exceed the latter, and make it up exactly if the regions were whole
    // pages.
    function Stats(): (r: (nat, nat))
      reads this
      requires Valid()
      ensures r.0 + |Free()| * PAGE_BYTES <= r.1
      ensures whole ==> r.0 + |Free()| * PAGE_BYTES == r.1
    {
      FramesCount(AllRegionFrames(regions), Elements(recycled), taken, universe);
      assert AllRegionFrames(regions) + Elements(recycled) == Free();
      (|taken| * PAGE_BYTES, totalBytes)
    }
  }

  lemma HugeExtent(first: nat, count: nat, frames: set<nat>)
    requires count * PAGE_BYTES >= U64_LIMIT && forall a :: a in frames ==> a + PAGE_BYTES < U64_LIMIT
    ensures !(Extent(first, count) <= frames)
  {
    var last := first + (count - 1) * PAGE_BYTES;
    assert last in Extent(first, count);
  }

  lemma SmallRegions(rs: seq<Region>, count: nat)
    requires WellFormedRegions(rs) && count * PAGE_BYTES >= U64_LIMIT
    ensures forall i :: 0 <= i < |rs| ==> rs[i].end - rs[i].start < count * PAGE_BYTES
  {
  }

  lemma FramesCount(a: set<nat>, b: set<nat>, c: set<nat>, all: set<nat>)
    requires Splits(a, b, c, all)
    ensures |a + b| + |c| == |all|
  {
    assert (a + b) + c == all;
  }

  // The earliest position where `count` adjacent frames end first.
  method FindRun(recycled: seq<nat>, count: nat) returns (from: Option<nat>)
    requires 0 < count
    ensures from.Some? ==> IsRun(recycled, from.value, count)
    ensures from.Some? ==> forall s: nat :: s < from.value ==> !IsRun(recycled, s, count)
    ensures from.None? ==> forall s: nat :: !IsRun(recycled, s, count)
  {
    if count <= |recycled| {
      var runStart, end := 0, 0;
      while end < |recycled|
        invariant 0 <= runStart <= end <= |recycled|
        invariant end - runStart < count
        invariant end == 0 || runStart < end
        invariant forall k :: runStart < k < end ==> recycled[k - 1] + PAGE_BYTES == recycled[k]
        invariant 0 < runStart ==> recycled[runStart - 1] + PAGE_BYTES != recycled[runStart]
        invariant forall s: nat :: s + count <= end ==> !IsRun(recycled, s, count)
      {
        if end > 0 && recycled[end - 1] + PAGE_BYTES != recycled[end] {
          runStart := end;
        }
        if end - runStart + 1 == count {
          return Some(runStart);
        }
        forall s: nat | s + count <= end + 1 ensures !IsRun(recycled, s, count) {
          if s + count == end + 1 {
            assert s < runStart < s + count;
          }
        }
        end := end + 1;
      }
    }
    return None;
  }

  // Position of `a` in a sorted list, or the position where it would go.
  method BinarySearch(s: seq<nat>, a: nat) returns (found: bool, index: nat)
    requires Sorted(s)
    ensures index <= |s|
    ensures found <==> a in s
    ensures found ==> index < |s| && s[index] == a
    ensures !found ==> forall i :: 0 <= i < index ==> s[i] < a
    ensures !found ==> forall i :: index <= i < |s| ==> a < s[i]
  {
    var lo, hi := 0, |s|;
    while lo < hi
      invariant 0 <= lo <= hi <= |s|
      invariant forall i :: 0 <= i < lo ==> s[i] < a
      invariant forall i :: hi <= i < |s| ==> a < s[i]
    {
      var mid := (lo + hi) / 2;
      if s[mid] == a {
        return true, mid;
      } else if s[mid] < a {
        lo := mid + 1;
      } else {
        hi := mid;
      }
    }
    return false, lo;
  }
}
