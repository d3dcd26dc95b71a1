// Dirty rectangles and their merging (kernel/src/damage.rs).
module Damage {
  import opened Bytes
  import opened Wrappers

  type i32 = x: int | -0x8000_0000 <= x < 0x8000_0000

  // What a sum leaves in 32 signed bits.
  function Wrap(n: int): i32 {
    (n + 0x8000_0000) % 0x1_0000_0000 - 0x8000_0000
  }

  function Min(a: int, b: int): int {
    if a < b then a else b
  }

  function Max(a: int, b: int): int {
    if a < b then b else a
  }

  datatype Region = Region(x: i32, y: i32, width: u32, height: u32) {
    predicate IsEmpty() {
      width == 0 || height == 0
    }

    function Right(): i32 {
      Wrap(x + Wrap(width))
    }

    function Bottom(): i32 {
      Wrap(y + Wrap(height))
    }

    function Union(other: Region): Region {
      if IsEmpty() then other
      else if other.IsEmpty() then this
      else
        var (minX, minY) := (Min(x, other.x), Min(y, other.y));
        var (maxX, maxY) := (Max(Right(), other.Right()), Max(Bottom(), other.Bottom()));
        Region(minX, minY, Wrap(maxX - minX) % 0x1_0000_0000, Wrap(maxY - minY) % 0x1_0000_0000)
    }

    function ClampToScreen(w: u32, h: u32): Region {
      if IsEmpty() || x >= Wrap(w) || y >= Wrap(h) then EMPTY
      else
        var (left, top) := (Max(x, 0), Max(y, 0));
        var (right, bottom) := (Min(Max(Right(), 0), Wrap(w)), Min(Max(Bottom(), 0), Wrap(h)));
        if right <= left || bottom <= top then EMPTY else Region(left, top, right - left, bottom - top)
    }

    predicate Contains(px: int, py: int) {
      x <= px < Right() && y <= py < Bottom()
    }

    function Area(): nat {
      width * height
    }

    // Its edges are 32-bit numbers, so that no edge sum wraps.
    predicate InPlane() {
      x + width < 0x8000_0000 && y + height < 0x8000_0000
    }

    // No edge of this region lies outside the other.
    predicate Inside(other: Region) {
      && other.x <= x && Right() <= other.Right()
      && other.y <= y && Bottom() <= other.Bottom()
    }
  }

  const EMPTY: Region := Region(0, 0, 0, 0)

  lemma NoWrap(r: Region)
    requires r.InPlane()
    ensures r.Right() == r.x + r.width && r.Bottom() == r.y + r.height
  {
  }

  lemma Wrapless(n: int)
    ensures -0x8000_0000 <= n < 0x8000_0000 ==> Wrap(n) == n
    ensures 0 <= n < 0x8000_0000 ==> n % 0x1_0000_0000 == n
  {
  }

  // A side that wraps is taken back by the sum that uses it.
  lemma WrapBack(lo: i32, hi: i32)
    ensures Wrap(lo + Wrap(Wrap(hi - lo) % 0x1_0000_0000)) == hi
    ensures lo <= hi ==> Wrap(hi - lo) % 0x1_0000_0000 == hi - lo
  {
  }

  // A rectangle holds its own corner exactly if its edges do not wrap; otherwise
  // it holds no point at all.
  lemma HoldsCorner(r: Region)
    requires !r.IsEmpty()
    ensures r.Contains(r.x, r.y) <==> r.InPlane()
    ensures !r.InPlane() ==> forall px, py :: !r.Contains(px, py)
  {
  }

  lemma EmptyHoldsNothing(r: Region)
    requires r.IsEmpty()
    ensures forall px, py :: !r.Contains(px, py)
  {
  }

  lemma UnionEdges(a: Region, b: Region)
    requires !a.IsEmpty() && !b.IsEmpty()
    ensures var u := a.Union(b);
            && u.x == Min(a.x, b.x) && u.Right() == Max(a.Right(), b.Right())
            && u.y == Min(a.y, b.y) && u.Bottom() == Max(a.Bottom(), b.Bottom())
  {
    hide Wrap;
    var u := a.Union(b);
    WrapBack(Min(a.x, b.x), Max(a.Right(), b.Right()));
    WrapBack(Min(a.y, b.y), Max(a.Bottom(), b.Bottom()));
    UnionFields(a, b);
    hide Region.Union, Min, Max;
  }

  lemma UnionFields(a: Region, b: Region)
    requires !a.IsEmpty() && !b.IsEmpty()
    ensures var u := a.Union(b);
            && u.x == Min(a.x, b.x) && u.y == Min(a.y, b.y)
            && u.width == Wrap(Max(a.Right(), b.Right()) - Min(a.x, b.x)) % 0x1_0000_0000
            && u.height == Wrap(Max(a.Bottom(), b.Bottom()) - Min(a.y, b.y)) % 0x1_0000_0000
  {
    hide Wrap, Min, Max, Region.Right, Region.Bottom;
  }

  // The union holds every point of both, whatever wraps.
  lemma UnionHolds(a: Region, b: Region, px: int, py: int)
    requires a.Contains(px, py) || b.Contains(px, py)
    ensures a.Union(b).Contains(px, py)
  {
    if a.IsEmpty() {
      EmptyHoldsNothing(a);
    } else if b.IsEmpty() {
      EmptyHoldsNothing(b);
    } else {
      UnionEdges(a, b);
      hide Region.Union, Region.Right, Region.Bottom;
    }
  }

  // Being inside is containing every point.
  lemma InsideIsPoints(r: Region, b: Region)
    requires r.InPlane() && !r.IsEmpty()
    ensures r.Inside(b) <==> forall px, py :: r.Contains(px, py) ==> b.Contains(px, py)
  {
    NoWrap(r);
    var right, bottom := r.Right(), r.Bottom();
    assert r.Contains(r.x, r.y) && r.Contains(right - 1, bottom - 1);
    hide Region.Right, Region.Bottom;
    if forall px, py :: r.Contains(px, py) ==> b.Contains(px, py) {
      assert b.Contains(r.x, r.y) && b.Contains(right - 1, bottom - 1);
    }
  }

  ghost function Grid(x: int, y: int, w: nat, h: nat): set<(int, int)> {
    set px: int, py: int | x <= px < x + w && y <= py < y + h :: (px, py)
  }

  lemma {:induction false} RowCount(x: int, y: int, w: nat)
    ensures |Grid(x, y, w, 1)| == w
  {
    if w == 0 {
      assert Grid(x, y, 0, 1) == {};
    } else {
      RowCount(x, y, w - 1);
      assert Grid(x, y, w, 1) == Grid(x, y, w - 1, 1) + {(x + w - 1, y)};
    }
  }

  lemma {:induction false} GridCount(x: int, y: int, w: nat, h: nat)
    ensures |Grid(x, y, w, h)| == w * h
  {
    if h == 0 {
      assert Grid(x, y, w, 0) == {};
    } else {
      GridCount(x, y, w, h - 1);
      RowCount(x, y + h - 1, w);
      assert Grid(x, y, w, h) == Grid(x, y, w, h - 1) + Grid(x, y + h - 1, w, 1);
      assert w * h == w * (h - 1) + w;
    }
  }

  // The area is the number of points, as long as no edge wraps.
  lemma AreaIsPoints(r: Region)
    requires r.InPlane()
    ensures forall px, py :: (px, py) in Grid(r.x, r.y, r.width, r.height) <==> r.Contains(px, py)
    ensures |Grid(r.x, r.y, r.width, r.height)| == r.Area()
  {
    NoWrap(r);
    hide Region.Right, Region.Bottom;
    GridCount(r.x, r.y, r.width, r.height);
  }

  ghost predicate Around(c: Region, a: Region) {
    forall px, py :: a.Contains(px, py) ==> c.Contains(px, py)
  }

  // The union is the least rectangle around both.
  lemma UnionIsLeast(a: Region, b: Region, c: Region)
    requires Good(a) && Good(b)
    ensures var u := a.Union(b);
            Good(u) && Around(u, a) && Around(u, b) && (Around(c, a) && Around(c, b) ==> Around(c, u))
  {
    var u := a.Union(b);
    UnionInPlane(a, b);
    UnionEdges(a, b);
    InsideIsPoints(a, u);
    InsideIsPoints(b, u);
    InsideIsPoints(a, c);
    InsideIsPoints(b, c);
    InsideIsPoints(u, c);
    hide Region.Union, Region.Right, Region.Bottom, Region.Contains, Region.InPlane;
  }

  lemma UnionInPlane(a: Region, b: Region)
    requires Good(a) && Good(b)
    ensures Good(a.Union(b))
  {
    NoWrap(a);
    NoWrap(b);
    WrapBack(Min(a.x, b.x), Max(a.Right(), b.Right()));
    WrapBack(Min(a.y, b.y), Max(a.Bottom(), b.Bottom()));
    hide Wrap, Region.Right, Region.Bottom;
  }

  lemma ClampEdges(r: Region, w: u32, h: u32)
    requires w < 0x8000_0000 && h < 0x8000_0000
    ensures var c := r.ClampToScreen(w, h);
            var (left, top) := (Max(r.x, 0), Max(r.y, 0));
            var (right, bottom) := (Min(r.Right(), w), Min(r.Bottom(), h));
            && (c == EMPTY <==> r.IsEmpty() || right <= left || bottom <= top)
            && (c != EMPTY ==> c == Region(left, top, right - left, bottom - top))
  {
    Wrapless(w);
    Wrapless(h);
    hide Wrap, Region.Right, Region.Bottom;
  }

  // Clamping keeps exactly the points on the screen, whatever wraps.
  lemma ClampKeepsScreen(r: Region, w: u32, h: u32, px: int, py: int)
    requires w < 0x8000_0000 && h < 0x8000_0000
    ensures r.ClampToScreen(w, h).Contains(px, py) <==> r.Contains(px, py) && 0 <= px < w && 0 <= py < h
    ensures r.ClampToScreen(w, h) != EMPTY ==> r.ClampToScreen(w, h).Inside(Region(0, 0, w, h))
  {
    ClampEdges(r, w, h);
    var c := r.ClampToScreen(w, h);
    if r.IsEmpty() { EmptyHoldsNothing(r); }
    EmptyHoldsNothing(EMPTY);
    if c != EMPTY {
      NoWrap(c);
      NoWrap(Region(0, 0, w, h));
    }
    hide Region.ClampToScreen, Region.Right, Region.Bottom, Region.InPlane;
  }

  // --------------------------------------------------------------- rectangles

  predicate Covered(rects: seq<Region>, px: int, py: int) {
    exists i :: 0 <= i < |rects| && rects[i].Contains(px, py)
  }

  function TotalArea(rects: seq<Region>): nat {
    if rects == [] then 0 else TotalArea(rects[..|rects| - 1]) + rects[|rects| - 1].Area()
  }

  lemma {:induction false} TotalWith(rects: seq<Region>, i: nat, r: Region)
    requires i < |rects|
    ensures TotalArea(rects[i := r]) == TotalArea(rects) - rects[i].Area() + r.Area()
  {
    var last := |rects| - 1;
    if i < last {
      assert rects[i := r][..last] == rects[..last][i := r];
      TotalWith(rects[..last], i, r);
    } else {
      assert rects[i := r][..last] == rects[..last];
    }
  }

  // Rectangle i gives its place to the last one.
  function WithoutOne(rects: seq<Region>, i: nat): (r: seq<Region>)
    requires i < |rects|
    ensures |r| == |rects| - 1
  {
    rects[i := rects[|rects| - 1]][..|rects| - 1]
  }

  lemma WithoutOneArea(rects: seq<Region>, i: nat)
    requires i < |rects|
    ensures TotalArea(WithoutOne(rects, i)) == TotalArea(rects) - rects[i].Area()
    ensures TotalArea(rects) >= rects[i].Area()
  {
    var last := |rects| - 1;
    if i < last {
      TotalWith(rects[..last], i, rects[last]);
      assert WithoutOne(rects, i) == rects[..last][i := rects[last]];
    } else {
      assert WithoutOne(rects, i) == rects[..last];
    }
  }

  lemma WithoutOneCovers(rects: seq<Region>, i: nat, px: int, py: int)
    requires i < |rects| && Covered(rects, px, py)
    ensures Covered(WithoutOne(rects, i), px, py) || rects[i].Contains(px, py)
  {
    var k :| 0 <= k < |rects| && rects[k].Contains(px, py);
    if k != i { assert WithoutOne(rects, i)[if k == |rects| - 1 then i else k] == rects[k]; }
  }

  // What repeated merging leads to: the pending rectangle and the ones left hold
  // every point of the ones before, and no more area.
  ghost predicate Merged(before: seq<Region>, rect: Region, now: seq<Region>, pending: Region) {
    && |now| <= |before|
    && (AllGood(before) && Good(rect) ==> AllGood(now) && Good(pending))
    && (|now| == |before| ==> now == before && pending == rect)
    && StillCovered(before, rect, now, pending)
    && TotalArea(now) + pending.Area() <= TotalArea(before) + rect.Area()
  }

  ghost predicate StillCovered(before: seq<Region>, rect: Region, now: seq<Region>, pending: Region) {
    forall px, py :: Covered(before, px, py) || rect.Contains(px, py) ==>
      Covered(now, px, py) || pending.Contains(px, py)
  }

  predicate Good(r: Region) {
    !r.IsEmpty() && r.InPlane()
  }

  predicate AllGood(rects: seq<Region>) {
    forall i :: 0 <= i < |rects| ==> Good(rects[i])
  }

  // The bounding rectangle costs no more than two draws, in 64-bit sums.
  predicate Cheap(r: Region, pending: Region) {
    r.Union(pending).Area() <= (r.Area() + pending.Area()) % 0x1_0000_0000_0000_0000
  }

  // A sum that wraps only makes merging rarer.
  lemma CheapAddsNothing(r: Region, pending: Region)
    ensures Cheap(r, pending) ==> r.Union(pending).Area() <= r.Area() + pending.Area()
    ensures r.Area() + pending.Area() < 0x1_0000_0000_0000_0000 ==>
      (Cheap(r, pending) <==> r.Union(pending).Area() <= r.Area() + pending.Area())
  {
    hide Region.Area, Region.Union;
  }

  lemma MergeOne(before: seq<Region>, rect: Region, now: seq<Region>, pending: Region, i: nat)
    requires Merged(before, rect, now, pending) && i < |now| && Cheap(now[i], pending)
    ensures Merged(before, rect, WithoutOne(now, i), now[i].Union(pending))
  {
    CheapAddsNothing(now[i], pending);
    if Good(now[i]) && Good(pending) { UnionInPlane(now[i], pending); }
    WithoutOneArea(now, i);
    MergeStillCovers(before, rect, now, pending, i);
    hide TotalArea, Region.Area, Region.Union, Region.Contains, StillCovered, Cheap, Good;
  }

  lemma MergeStillCovers(before: seq<Region>, rect: Region, now: seq<Region>, pending: Region, i: nat)
    requires StillCovered(before, rect, now, pending) && i < |now|
    ensures StillCovered(before, rect, WithoutOne(now, i), now[i].Union(pending))
  {
    var u := now[i].Union(pending);
    hide Region.Union, Region.Contains, Covered, WithoutOne;
    forall px, py | Covered(before, px, py) || rect.Contains(px, py)
      ensures Covered(WithoutOne(now, i), px, py) || u.Contains(px, py)
    {
      if Covered(now, px, py) { WithoutOneCovers(now, i, px, py); }
      if now[i].Contains(px, py) || pending.Contains(px, py) { UnionHolds(now[i], pending, px, py); }
    }
  }

  // The growth that putting `pending` into rectangle i would cost.
  function Growth(r: Region, pending: Region): nat {
    var u := r.Union(pending).Area();
    if u > r.Area() then u - r.Area() else 0
  }

  // Drawing both apart takes less than drawing the rectangle around both, in 64-bit
  // sums.
  ghost predicate BetterApart(r: Region, s: Region) {
    (r.Area() + s.Area()) % 0x1_0000_0000_0000_0000 < r.Union(s).Area()
  }

  lemma CheapOrApart(r: Region, s: Region)
    ensures Cheap(r, s) <==> !BetterApart(r, s)
  {
    hide Region.Area, Region.Union;
  }

  lemma UnionNotSmaller(a: Region, b: Region)
    requires Good(a) && Good(b)
    ensures a.Union(b).Area() >= a.Area()
  {
    UnionEdges(a, b);
    UnionInPlane(a, b);
    NoWrap(a);
    NoWrap(a.Union(b));
    hide Region.Union, Region.Right, Region.Bottom, Wrap;
    var u := a.Union(b);
    ProductGrows(a.width, u.width, a.height, u.height);
  }

  lemma ProductGrows(v: nat, w: nat, g: nat, h: nat)
    requires v <= w && g <= h
    ensures v * g <= w * h
  {
    assert v * g <= w * g <= w * h;
  }

  // Of rectangles whose edges do not wrap none shrinks in a union, so the growth is
  // the difference of the areas.
  lemma GrowthIsExtra(r: Region, pending: Region)
    requires Good(r) && Good(pending)
    ensures Growth(r, pending) == r.Union(pending).Area() - r.Area()
  {
    UnionInPlane(r, pending);
    UnionNotSmaller(r, pending);
    hide Region.Union;
  }

  // The last rectangle is better kept apart from every other.
  ghost predicate LastApart(rects: seq<Region>) {
    rects != [] && forall k :: 0 <= k < |rects| - 1 ==> BetterApart(rects[k], rects[|rects| - 1])
  }

  // No merge is cheap, and the first that adds least has been made.
  ghost predicate CheapestGrew(before: seq<Region>, rect: Region, after: seq<Region>) {
    && (forall k :: 0 <= k < |before| ==> BetterApart(before[k], rect))
    && exists best :: 0 <= best < |before|
         && (forall k :: 0 <= k < |before| ==> Growth(before[best], rect) <= Growth(before[k], rect))
         && (forall k :: 0 <= k < best ==> Growth(before[best], rect) < Growth(before[k], rect))
         && after == before[best := before[best].Union(rect)]
  }

  // Every point damaged before or now is still covered.
  ghost predicate NothingLost(before: seq<Region>, rect: Region, after: seq<Region>) {
    forall px, py :: Covered(before, px, py) || rect.Contains(px, py) ==> Covered(after, px, py)
  }

  ghost predicate Covers(rects: seq<Region>, added: seq<Region>) {
    forall px, py :: Covered(added, px, py) ==> Covered(rects, px, py)
  }

  lemma AppendKeeps(before: seq<Region>, rect: Region, now: seq<Region>, pending: Region)
    requires Merged(before, rect, now, pending)
    ensures AllGood(before) && Good(rect) ==> AllGood(now + [pending])
    ensures NothingLost(before, rect, now + [pending])
    ensures TotalArea(now + [pending]) <= TotalArea(before) + rect.Area()
  {
    var after := now + [pending];
    assert after[..|now|] == now;
    assert TotalArea(after) == TotalArea(now) + pending.Area();
    hide TotalArea, Region.Area, Region.Contains, Good;
    forall px, py | Covered(before, px, py) || rect.Contains(px, py)
      ensures Covered(after, px, py)
    {
      if Covered(now, px, py) {
        var k :| 0 <= k < |now| && now[k].Contains(px, py);
        assert after[k] == now[k];
      } else {
        assert after[|now|] == pending;
      }
    }
  }

  lemma ReplaceKeeps(before: seq<Region>, rect: Region, now: seq<Region>, pending: Region, best: nat)
    requires Merged(before, rect, now, pending) && best < |now|
    ensures var after := now[best := now[best].Union(pending)];
            NothingLost(before, rect, after) && (AllGood(before) && Good(rect) ==> AllGood(after))
  {
    var u := now[best].Union(pending);
    var after := now[best := u];
    if Good(now[best]) && Good(pending) { UnionInPlane(now[best], pending); }
    hide TotalArea, Region.Area, Region.Contains, Region.Union, Good;
    forall px, py | Covered(before, px, py) || rect.Contains(px, py)
      ensures Covered(after, px, py)
    {
      if pending.Contains(px, py) || now[best].Contains(px, py) {
        UnionHolds(now[best], pending, px, py);
        assert after[best].Contains(px, py);
      } else {
        var k :| 0 <= k < |now| && now[k].Contains(px, py);
        assert after[k].Contains(px, py);
      }
    }
  }

  // The least rectangle around all of these.
  function Hull(added: seq<Region>): Option<Region> {
    if added == [] then None
    else
      match Hull(added[..|added| - 1])
      case None => Some(added[|added| - 1])
      case Some(h) => Some(h.Union(added[|added| - 1]))
  }

  // Nothing added sticks out of it, whatever wraps.
  lemma {:induction false} HullHolds(added: seq<Region>, px: int, py: int)
    requires Covered(added, px, py)
    ensures Hull(added).Some? && Hull(added).value.Contains(px, py)
  {
    var last := |added| - 1;
    var k :| 0 <= k < |added| && added[k].Contains(px, py);
    hide Region.Contains, Region.Union;
    if last > 0 {
      if k < last {
        assert added[..last][k] == added[k];
        HullHolds(added[..last], px, py);
      }
      if Hull(added[..last]).Some? { UnionHolds(Hull(added[..last]).value, added[last], px, py); }
    }
  }

  lemma {:induction false} HullIsLeast(added: seq<Region>, c: Region)
    requires AllGood(added) && added != []
    ensures Hull(added).Some? && Good(Hull(added).value)
    ensures (forall i :: 0 <= i < |added| ==> Around(c, added[i])) ==> Around(c, Hull(added).value)
  {
    var last := |added| - 1;
    hide Region.Union, Around, Good;
    if last > 0 {
      HullIsLeast(added[..last], c);
      UnionIsLeast(Hull(added[..last]).value, added[last], c);
      if forall i :: 0 <= i < |added| ==> Around(c, added[i]) {
        assert forall i :: 0 <= i < last ==> added[..last][i] == added[i];
      }
    }
  }

  class DamageTracker {
    const rects: array<Region>
    var count: nat
    var currentDamage: Option<Region>
    var forceFullRedraw: bool
    // The rectangles added since the last reset, and whether one of them had to be
    // merged at a cost since then.
    ghost var added: seq<Region>
    ghost var forced: bool

    // At most four rectangles; they cover everything added, at no more area unless
    // a merge was forced; the current damage is the rectangle around all of it.
    ghost predicate Valid()
      reads this, rects
    {
      && rects.Length == 4 && count <= 4
      && (AllGood(added) ==> AllGood(rects[..count]))
      && currentDamage == Hull(added)
      && (!forced ==> TotalArea(rects[..count]) <= TotalArea(added))
      && Covers(rects[..count], added)
    }

    constructor ()
      ensures Valid() && added == [] && !forced && count == 0 && forceFullRedraw && fresh(rects)
    {
      rects := new Region[4](_ => EMPTY);
      count, currentDamage, forceFullRedraw, added, forced := 0, None, true, [], false;
    }

    // Merges the rectangle with others as long as the bounding rectangle costs no
    // more than two draws.
    method MergePending(rect: Region) returns (pending: Region)
      requires rects.Length == 4 && count <= 4
      modifies this`count, rects
      ensures count <= 4 && Merged(old(rects[..count]), rect, rects[..count], pending)
      ensures forall k :: 0 <= k < count ==> !Cheap(rects[k], pending) && BetterApart(rects[k], pending)
    {
      hide Region.Union, TotalArea, Region.Contains, Good, Merged, Cheap;
      ghost var before := rects[..count];
      pending := rect;
      NothingMerged(before, rect);
      var i := 0;
      while i < count
        invariant i <= count <= 4 && Merged(before, rect, rects[..count], pending)
        invariant forall k :: 0 <= k < i ==> !Cheap(rects[k], pending)
        decreases count, count - i
      {
        if Cheap(rects[i], pending) {
          ghost var now := rects[..count];
          MergeOne(before, rect, now, pending, i);
          pending := rects[i].Union(pending);
          count := count - 1;
          rects[i] := rects[count];
          assert rects[..count] == WithoutOne(now, i);
          i := 0;
        } else {
          i := i + 1;
        }
      }
      forall k | 0 <= k < count ensures BetterApart(rects[k], pending) {
        CheapOrApart(rects[k], pending);
      }
    }

    // The first rectangle that grows least.
    method CheapestMerge(pending: Region) returns (best: nat)
      requires rects.Length == 4 && count == 4
      ensures best < 4
      ensures forall k :: 0 <= k < 4 ==> Growth(rects[best], pending) <= Growth(rects[k], pending)
      ensures forall k :: 0 <= k < best ==> Growth(rects[best], pending) < Growth(rects[k], pending)
    {
      hide Growth;
      best := 0;
      for i := 1 to count
        invariant best < i
        invariant forall k :: 0 <= k < i ==> Growth(rects[best], pending) <= Growth(rects[k], pending)
        invariant forall k :: 0 <= k < best ==> Growth(rects[best], pending) < Growth(rects[k], pending)
      {
        if Growth(rects[i], pending) < Growth(rects[best], pending) { best := i; }
      }
    }

    // No damaged point is lost. The rectangles together cost no more area than
    // those before and the new one, unless all four slots are taken and no merge
    // is cheap: then the one that adds least is made.
    method AddRect(rect: Region)
      requires Valid()
      modifies this`count, this`currentDamage, this`added, this`forced, rects
      ensures Valid()
      ensures rect.IsEmpty() ==>
        count == old(count) && rects[..] == old(rects[..]) && added == old(added) && forced == old(forced)
      ensures !rect.IsEmpty() ==> added == old(added) + [rect] && NothingLost(old(rects[..count]), rect, rects[..count])
      ensures !rect.IsEmpty() ==>
        || TotalArea(rects[..count]) <= TotalArea(old(rects[..count])) + rect.Area()
        || (old(count) == 4 && CheapestGrew(old(rects[..count]), rect, rects[..count]))
      ensures !rect.IsEmpty() ==>
        LastApart(rects[..count]) || (old(count) == 4 && CheapestGrew(old(rects[..count]), rect, rects[..count]))
      ensures !rect.IsEmpty() ==>
        forced == (old(forced) || TotalArea(rects[..count]) > TotalArea(old(rects[..count])) + rect.Area())
    {
      hide Region.Area, Region.Union, TotalArea, Region.Contains, Hull, NothingLost, CheapestGrew, AllGood, Covers,
        Good, LastApart;
      if rect.IsEmpty() { return; }
      ghost var before := rects[..count];
      HullGrows(added, rect);
      AreaGrows(added, rect);
      GoodGrows(added, rect);
      currentDamage := match currentDamage case Some(c) => Some(c.Union(rect)) case None => Some(rect);
      Place(rect);
      AddedCovered(added, before, rect, rects[..count]);
      added := added + [rect];
      forced := forced || TotalArea(rects[..count]) > TotalArea(before) + rect.Area();
    }

    method Place(rect: Region)
      requires rects.Length == 4 && count <= 4
      modifies this`count, rects
      ensures count <= 4 && NothingLost(old(rects[..count]), rect, rects[..count])
      ensures AllGood(old(rects[..count])) && Good(rect) ==> AllGood(rects[..count])
      ensures || TotalArea(rects[..count]) <= TotalArea(old(rects[..count])) + rect.Area()
              || (old(count) == 4 && CheapestGrew(old(rects[..count]), rect, rects[..count]))
      ensures || LastApart(rects[..count])
              || (old(count) == 4 && CheapestGrew(old(rects[..count]), rect, rects[..count]))
    {
      hide *;
      ghost var before := rects[..count];
      var pending := MergePending(rect);
      Insert(before, rect, pending);
    }

    // Puts the merged rectangle into a free slot or into the cheapest one.
    method Insert(ghost before: seq<Region>, ghost rect: Region, pending: Region)
      requires rects.Length == 4 && count <= 4 && |before| <= 4 && Merged(before, rect, rects[..count], pending)
      requires forall k :: 0 <= k < count ==> !Cheap(rects[k], pending) && BetterApart(rects[k], pending)
      modifies this`count, rects
      ensures count <= 4 && NothingLost(before, rect, rects[..count])
      ensures AllGood(before) && Good(rect) ==> AllGood(rects[..count])
      ensures || TotalArea(rects[..count]) <= TotalArea(before) + rect.Area()
              || (|before| == 4 && CheapestGrew(before, rect, rects[..count]))
      ensures LastApart(rects[..count]) || (|before| == 4 && CheapestGrew(before, rect, rects[..count]))
    {
      hide Region.Area, Region.Union, TotalArea, Region.Contains, Merged, Growth, NothingLost, AllGood, Cheap, Good,
        BetterApart;
      ghost var now := rects[..count];
      if count < rects.Length {
        AppendKeeps(before, rect, now, pending);
        rects[count] := pending;
        count := count + 1;
        assert rects[..count] == now + [pending];
      } else {
        MergedCount(before, rect, now, pending);
        var best := CheapestMerge(pending);
        ReplaceKeeps(before, rect, now, pending, best);
        rects[best] := rects[best].Union(pending);
        assert rects[..count] == now[best := now[best].Union(pending)];
        assert CheapestGrew(before, rect, rects[..count]);
      }
    }

    // Exactly the tracked points that lie on the screen, or the whole screen.
    method TakeRegions(w: u32, h: u32) returns (result: seq<Region>)
      requires Valid() && w < 0x8000_0000 && h < 0x8000_0000
      modifies this`count, this`currentDamage, this`forceFullRedraw, this`added, this`forced
      ensures Valid() && count == 0 && currentDamage == None && !forceFullRedraw && added == [] && !forced
      ensures |result| <= 4
      ensures old(forceFullRedraw) ==> result == [Region(0, 0, w, h)]
      ensures !old(forceFullRedraw) ==>
                OnScreen(result, w, h) && CutTo(result, old(rects[..count]), w, h)
    {
      if forceFullRedraw {
        result := [Region(0, 0, w, h)];
      } else {
        result := Clipped(w, h);
      }
      count, currentDamage, forceFullRedraw, added, forced := 0, None, false, [], false;
    }

    // The tracked rectangles cut to the screen, without the ones beside it.
    method Clipped(w: u32, h: u32) returns (result: seq<Region>)
      requires rects.Length == 4 && count <= 4 && w < 0x8000_0000 && h < 0x8000_0000
      ensures |result| <= 4
      ensures OnScreen(result, w, h)
      ensures CutTo(result, rects[..count], w, h)
    {
      hide Region.Contains, Region.ClampToScreen, Region.Inside, OnScreen, CutTo;
      NothingOnScreen(w, h);
      assert rects[..0] == [];
      result := [];
      for i := 0 to count
        invariant |result| <= i
        invariant OnScreen(result, w, h)
        invariant CutTo(result, rects[..i], w, h)
      {
        var clipped := rects[i].ClampToScreen(w, h);
        ClampedOne(rects[..i], rects[i], result, w, h);
        assert rects[..i + 1] == rects[..i] + [rects[i]];
        if !clipped.IsEmpty() {
          result := result + [clipped];
        }
      }
    }
  }

  // Every rectangle has points and all of them are on the screen.
  predicate OnScreen(rects: seq<Region>, w: u32, h: u32) {
    forall i :: 0 <= i < |rects| ==> !rects[i].IsEmpty() && rects[i].Inside(Region(0, 0, w, h))
  }

  // Together they cover exactly what these others cover of the screen.
  ghost predicate CutTo(result: seq<Region>, rects: seq<Region>, w: u32, h: u32) {
    forall px, py :: Covered(result, px, py) <==> Covered(rects, px, py) && 0 <= px < w && 0 <= py < h
  }

  lemma NothingOnScreen(w: u32, h: u32)
    ensures OnScreen([], w, h) && CutTo([], [], w, h)
  {
  }

  lemma NothingMerged(before: seq<Region>, rect: Region)
    ensures Merged(before, rect, before, rect)
  {
  }

  lemma MergedCount(before: seq<Region>, rect: Region, now: seq<Region>, pending: Region)
    requires Merged(before, rect, now, pending)
    ensures |now| <= |before| && (|now| == |before| ==> now == before && pending == rect)
  {
  }

  lemma AreaGrows(added: seq<Region>, rect: Region)
    ensures TotalArea(added + [rect]) == TotalArea(added) + rect.Area()
  {
    assert (added + [rect])[..|added|] == added;
  }

  lemma GoodGrows(added: seq<Region>, rect: Region)
    ensures AllGood(added + [rect]) <==> AllGood(added) && Good(rect)
  {
    hide Good;
    if AllGood(added + [rect]) {
      forall i | 0 <= i < |added| ensures Good(added[i]) {
        assert (added + [rect])[i] == added[i];
      }
      assert (added + [rect])[|added|] == rect;
    }
  }

  lemma HullGrows(added: seq<Region>, rect: Region)
    ensures Hull(added + [rect]) == match Hull(added) case None => Some(rect) case Some(h) => Some(h.Union(rect))
  {
    assert (added + [rect])[..|added|] == added;
  }

  lemma AddedCovered(added: seq<Region>, before: seq<Region>, rect: Region, after: seq<Region>)
    requires NothingLost(before, rect, after) && Covers(before, added)
    ensures Covers(after, added + [rect])
  {
    forall px, py | Covered(added + [rect], px, py)
      ensures Covered(after, px, py)
    {
      var k :| 0 <= k < |added| + 1 && (added + [rect])[k].Contains(px, py);
      if k < |added| { assert added[k].Contains(px, py); }
    }
  }

  lemma ClampedOne(done: seq<Region>, r: Region, result: seq<Region>, w: u32, h: u32)
    requires w < 0x8000_0000 && h < 0x8000_0000 && OnScreen(result, w, h)
    requires CutTo(result, done, w, h)
    ensures var c := r.ClampToScreen(w, h); var more := if c.IsEmpty() then result else result + [c];
            OnScreen(more, w, h) && CutTo(more, done + [r], w, h)
  {
    var c := r.ClampToScreen(w, h);
    var more := if c.IsEmpty() then result else result + [c];
    ClampKeepsScreen(r, w, h, 0, 0);
    forall px, py
      ensures Covered(more, px, py) <==> Covered(done + [r], px, py) && 0 <= px < w && 0 <= py < h
    {
      ClampKeepsScreen(r, w, h, px, py);
      if c.IsEmpty() { EmptyHoldsNothing(c); }
      CoveredMore(done, r, px, py);
      CoveredMore(result, c, px, py);
    }
  }

  lemma CoveredMore(rects: seq<Region>, r: Region, px: int, py: int)
    ensures Covered(rects + [r], px, py) <==> Covered(rects, px, py) || r.Contains(px, py)
  {
    if Covered(rects, px, py) {
      var k :| 0 <= k < |rects| && rects[k].Contains(px, py);
      assert (rects + [r])[k] == rects[k];
    }
    if r.Contains(px, py) { assert (rects + [r])[|rects|] == r; }
  }
}
