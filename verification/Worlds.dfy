/**
 What the growth of the two tables depends on and does, on values: where a new array lands,
 what it meets, and how the reserved table and the arrays look afterwards.
 */
module Worlds {
  import opened Basics
  import opened Regions
  import opened RegionOps
  import opened FreeRanges
  import opened Bits
  import opened Search
  import opened Growth

  const INIT_MEMBLOCK_REGIONS: nat := 128
  const SMP_CACHE_BYTES: nat := 64
  const MEMBLOCK_ALLOC_ACCESSIBLE: nat := 0
  const MEMBLOCK_ALLOC_NOLEAKTRACE: nat := 1

  /** Longest array the model follows; beyond it the C int indices stop being meaningful. */
  const MAX_REGIONS: nat := 0x4000_0000

  /**
   Bug is a failed BUG_ON; TooLarge is an array that would pass MAX_REGIONS; Clobbered is a new
   array copied over an array that is in use, whose entries are lost.  The model ends at all three.
   */
  datatype Status = Done | NoMemory | Bug | TooLarge | Clobbered {
    /** The tables are no longer what the contracts describe. */
    predicate Halted() { Bug? || Clobbered? }
  }

  const KERN := Attr(NUMA_NO_NODE, MEMBLOCK_RSRV_KERN)

  /** The range that an operation on [base, base + size) works on. */
  function Capped(base: nat, size: nat): Span
    requires base <= PHYS_ADDR_MAX
  {
    Span(base, base + CapSize(base, size))
  }

  lemma {:induction false} CappedIs(base: nat, size: nat)
    requires base <= PHYS_ADDR_MAX
    ensures Capped(base, size) == Span(base, base + CapSize(base, size))
  {
  }

  /** The alignment that memblock_alloc_range_nid works with. */
  function CacheAlign(align: nat): (r: nat)
    ensures 0 < align ==> r == align
    ensures 0 < r
  {
    if align == 0 then SMP_CACHE_BYTES else align
  }


  /** The bounds that memblock_find_in_range_node hands to the search. */
  function NodeBounds(size: nat, align: nat, start: nat, end: nat, limit: nat): Bounds {
    var e := if end == MEMBLOCK_ALLOC_ACCESSIBLE || end == MEMBLOCK_ALLOC_NOLEAKTRACE then limit else end;
    var s := Max(start, PAGE_SIZE);
    Bounds(s, Max(s, e), size, align)
  }

  /** r is what memblock_find_in_range returns: mirrored memory goes first. */
  ghost predicate Picks(mirror: bool, m: seq<Region>, s: seq<Region>, q: Bounds, r: nat)
    requires 0 < q.align
  {
    var mirrored := Selector(true, NUMA_NO_NODE, MEMBLOCK_MIRROR);
    if mirror && !IsBest(mirrored, m, s, q, 0) then IsBest(mirrored, m, s, q, r) else IsBest(AnyMemory(), m, s, q, r)
  }

  lemma {:induction false} PicksOnce(mirror: bool, m: seq<Region>, s: seq<Region>, q: Bounds, x: nat, y: nat)
    requires 0 < q.align && Picks(mirror, m, s, q, x) && Picks(mirror, m, s, q, y)
    ensures x == y
  {
  }

  /** Ordinary memory of any node. */
  function AnyMemory(): Selector {
    Selector(true, NUMA_NO_NODE, MEMBLOCK_NONE)
  }

  lemma {:induction false} PageIsPow2()
    ensures IsPow2(PAGE_SIZE) && IsPow2(SMP_CACHE_BYTES)
  {
    assert Pow2(6) == 64;
    assert Pow2(12) == 0x1000;
  }

  /** What the growth of a table depends on. */
  datatype Scene = Scene(mirror: bool, limit: nat, resizable: bool, mem: seq<Region>, res: seq<Region>, max: nat) {
    /** p is where memblock_double_array finds room above or below the pending range, or 0. */
    ghost predicate Lands(area: Span, bytes: nat, p: nat) {
      var above := NodeBounds(bytes, PAGE_SIZE, area.hi, limit, limit);
      var below := NodeBounds(bytes, PAGE_SIZE, 0, Min(area.lo, limit), limit);
      || (p != 0 && Picks(mirror, mem, res, above, p))
      || (Picks(mirror, mem, res, above, 0) && if area.lo < area.hi then Picks(mirror, mem, res, below, p) else p == 0)
    }

    /** There is one such place. */
    lemma {:induction false} LandsOnce(area: Span, bytes: nat, p: nat, r: nat)
      requires Lands(area, bytes, p) && Lands(area, bytes, r)
      ensures p == r
    {
      var above := NodeBounds(bytes, PAGE_SIZE, area.hi, limit, limit);
      var below := NodeBounds(bytes, PAGE_SIZE, 0, Min(area.lo, limit), limit);
      forall q, x: nat, y: nat | q in {above, below} && Picks(mirror, mem, res, q, x) && Picks(mirror, mem, res, q, y)
        ensures x == y
      {
        PicksOnce(mirror, mem, res, q, x, y);
      }
    }

    /** The place the search finds is not apart from both arrays. */
    ghost predicate Meets(area: Span, bytes: nat, m: Span, a: Span) {
      exists p: nat :: 0 < p && Lands(area, bytes, p) && !(Span(p, p + bytes).Apart(m) && Span(p, p + bytes).Apart(a))
    }

    /** What the search finds is free. */
    lemma {:induction false} LandsFree(area: Span, bytes: nat, p: nat)
      requires Canonical(mem) && 0 < p && Lands(area, bytes, p)
      ensures Avoids(res, p, p + bytes)
    {
      hide Picks, Avoids;
      var above := NodeBounds(bytes, PAGE_SIZE, area.hi, limit, limit);
      var below := NodeBounds(bytes, PAGE_SIZE, 0, Min(area.lo, limit), limit);
      if Picks(mirror, mem, res, above, p) {
        PickedFits(mirror, mem, res, above, above, p);
      } else {
        PickedFits(mirror, mem, res, below, below, p);
      }
    }

    /** The reserved table cannot grow while area is pending: it must not, or there is no place for a larger array. */
    ghost predicate Jammed(area: Span) {
      resizable ==> Lands(area, ArrayBytes(2 * max), 0)
    }

    /** The reserved table cannot grow for some block of that size. */
    ghost predicate SomeJam(size: nat) {
      exists area: Span :: 0 < area.lo && area.hi == area.lo + size && Jammed(area)
    }

    lemma {:induction false} JamAt(area: Span, size: nat)
      requires 0 < area.lo && area.hi == area.lo + size && Jammed(area)
      ensures SomeJam(size)
    {
    }

    /** Releasing o does not make the reserved table grow into n. */
    ghost predicate Spares(o: Span, n: Span) {
      || o.hi <= o.lo
      || |res| + 2 <= max
      || forall r: nat | 0 < r && Lands(o, ArrayBytes(2 * max), r) :: n.Apart(Span(r, r + ArrayBytes(2 * max)))
    }

    /**
     The memory table, with max regions at m, can grow without the two arrays meeting: its
     array is the static one, or the old array can be released without growing the reserved
     table, or the place the grown reserved table takes is apart from the one the memory table takes.
     */
    ghost predicate ClearFor(m: Span, memMax: nat) {
      var bytes := ArrayBytes(2 * memMax);
      forall p: nat | 0 < p && Lands(Span(0, 0), bytes, p) :: Spares(m, Span(p, p + bytes))
    }

    lemma {:induction false} ClearIs(m: Span, memMax: nat, p: nat)
      requires 0 < p && Lands(Span(0, 0), ArrayBytes(2 * memMax), p)
      ensures ClearFor(m, memMax) <==> Spares(m, Span(p, p + ArrayBytes(2 * memMax)))
    {
      hide Lands, Spares;
      forall r: nat | Lands(Span(0, 0), ArrayBytes(2 * memMax), r) ensures r == p {
        LandsOnce(Span(0, 0), ArrayBytes(2 * memMax), p, r);
      }
    }

    /** With two free slots nothing can be met. */
    lemma {:induction false} ClearWithSlots(m: Span, memMax: nat)
      requires |res| + 2 <= max
      ensures ClearFor(m, memMax)
    {
    }

    /** Whether the memory array can be doubled, decided by the place that is found. */
    lemma {:induction false} ClearAt(m: Span, memMax: nat, p: nat)
      requires Lands(Span(0, 0), ArrayBytes(2 * memMax), p)
      ensures ClearFor(m, memMax) <==> p == 0 || Spares(m, Span(p, p + ArrayBytes(2 * memMax)))
    {
      hide Lands, Spares;
      if p == 0 {
        forall r: nat | Lands(Span(0, 0), ArrayBytes(2 * memMax), r) ensures r == p {
          LandsOnce(Span(0, 0), ArrayBytes(2 * memMax), p, r);
        }
      } else {
        ClearIs(m, memMax, p);
      }
    }

    lemma {:induction false} MeetsAt(area: Span, bytes: nat, m: Span, a: Span, p: nat)
      requires 0 < p && Lands(area, bytes, p) && !(Span(p, p + bytes).Apart(m) && Span(p, p + bytes).Apart(a))
      ensures Meets(area, bytes, m, a)
    {
    }

    /** Reserved arrays are not met, and neither is a pending range that starts above 1. */
    lemma {:induction false} NotMet(area: Span, bytes: nat, m: Span, a: Span)
      requires Canonical(mem) && 0 < bytes && CoversSpan(res, a) && (CoversSpan(res, m) || (2 <= area.lo && m == area))
      ensures !Meets(area, bytes, m, a)
    {
      hide Avoids, CoversSpan, Canonical;
      forall p: nat | 0 < p && Lands(area, bytes, p)
        ensures Span(p, p + bytes).Apart(m) && Span(p, p + bytes).Apart(a)
      {
        LandsFree(area, bytes, p);
        AvoidsApart(res, a, Span(p, p + bytes));
        if CoversSpan(res, m) { AvoidsApart(res, m, Span(p, p + bytes)); } else { LandsBeside(area, bytes, p); }
      }
    }

    lemma {:induction false} LandsBeside(area: Span, bytes: nat, p: nat)
      requires 0 < p && Lands(area, bytes, p) && 2 <= area.lo
      ensures Span(p, p + bytes).Apart(area)
    {
    }

    lemma {:induction false} SparesStatic(o: Span, n: Span)
      requires o.hi <= o.lo
      ensures Spares(o, n)
    {
    }
  }

  /** Both tables: the scene, the memory array m of memMax regions, and the reserved array a. */
  datatype World = World(scene: Scene, m: Span, memMax: nat, a: Span) {
    /** The reserved array is reserved memory. */
    ghost predicate Ready() { CoversSpan(scene.res, a) && CoversSpan(scene.mem, a) }

    /** Both arrays are reserved memory. */
    ghost predicate Valid() { Ready() && CoversSpan(scene.res, m) && CoversSpan(scene.mem, m) }

    /** The memory array can be doubled without being overwritten. */
    ghost predicate Clear() { scene.ClearFor(m, memMax) }

    /** The same with another reserved table. */
    function Seen(res: seq<Region>): World { this.(scene := scene.(res := res)) }

    /** The reserved array has moved, if at all, while pend was pending. */
    ghost predicate Moved(w: World, pend: Span) {
      && w == World(scene.(res := w.scene.res, max := w.scene.max), m, memMax, w.a)
      && scene.max <= w.scene.max && (w.scene.max == scene.max ==> w == this)
      && (Ready() ==> w.Ready() && Regrown(scene.res, a, w.scene.res, w.a))
      && (Valid() ==> w.Valid())
      && (2 <= pend.lo && a.Apart(pend) ==> w.a.Apart(pend))
    }

    lemma {:induction false} MovedSelf(pend: Span)
      ensures Moved(this, pend)
    {
      if Ready() { RegrownSame(scene.res, a); }
    }

    lemma {:induction false} MovedThen(v: World, w: World, pend: Span)
      requires Moved(v, pend) && v.Moved(w, pend)
      ensures Moved(w, pend)
    {
      hide Regrown, CoversSpan;
      if Ready() { RegrownTwice(scene.res, a, v.scene.res, v.a, w.scene.res, w.a); }
    }

    /** One doubling of the reserved array. */
    lemma {:induction false} MovedOnce(w: World, pend: Span)
      requires w == World(scene.(res := w.scene.res, max := w.scene.max), m, memMax, w.a) && scene.max < w.scene.max
      requires Regrown(scene.res, a, w.scene.res, w.a) && CoversSpan(scene.mem, w.a) && a.Apart(m)
      requires 2 <= pend.lo ==> w.a.Apart(pend)
      ensures Moved(w, pend)
    {
      hide Regrown, CoversSpan;
      RegrownCovers(scene.res, a, w.scene.res, w.a);
      if Valid() { RegrownKeeps(scene.res, a, w.scene.res, w.a, m); }
    }

    lemma {:induction false} ValidKnows()
      requires Valid()
      ensures Ready() && CoversSpan(scene.res, a)
    {
    }

    lemma {:induction false} MovedKnows(w: World, pend: Span)
      requires Moved(w, pend)
      ensures w.m == m && w.memMax == memMax && w.scene.mem == scene.mem && scene.max <= w.scene.max
      ensures w.scene.max == scene.max ==> w == this
      ensures Ready() ==> w.Ready() && CoversSpan(w.scene.res, w.a) && Regrown(scene.res, a, w.scene.res, w.a)
      ensures Valid() ==> w.Valid()
      ensures 2 <= pend.lo && a.Apart(pend) ==> w.a.Apart(pend)
    {
    }

    /** The counting pass is right also after the growth it has asked for, when pend is apart from the array. */
    lemma {:induction false} RoomStays(w: World, pend: Span, nrNew: nat)
      requires Moved(w, pend) && Canonical(scene.res) && Canonical(w.scene.res)
      requires |Fill(scene.res, pend.lo, pend.hi, KERN)| <= |scene.res| + nrNew && |w.scene.res| + nrNew <= w.scene.max
      ensures Ready() && 2 <= pend.lo && a.Apart(pend) ==> |Fill(w.scene.res, pend.lo, pend.hi, KERN)| <= w.scene.max
    {
      hide Regrown, CoversSpan, Canonical, Fill, Holes;
      FillSizes(scene.res, pend.lo, pend.hi, KERN);
      FillSizes(w.scene.res, pend.lo, pend.hi, KERN);
      if Ready() && 2 <= pend.lo && a.Apart(pend) { RegrownHoles(scene.res, a, w.scene.res, w.a, pend); }
    }

    lemma {:induction false} KeepsReserved(base: nat, size: nat, x: Attr)
      requires Canonical(scene.res) && base <= PHYS_ADDR_MAX
      ensures Ready() ==> Seen(Added(scene.res, base, size, x)).Ready()
      ensures Valid() ==> Seen(Added(scene.res, base, size, x)).Valid()
    {
      hide CoversSpan, Added;
      if CoversSpan(scene.res, a) { AddedKeeps(scene.res, base, size, x, a); }
      if CoversSpan(scene.res, m) { AddedKeeps(scene.res, base, size, x, m); }
    }

    lemma {:induction false} KeepsRemoved(base: nat, size: nat)
      requires Canonical(scene.res) && base <= PHYS_ADDR_MAX
      ensures Ready() && a.Apart(Capped(base, size)) ==> Seen(Removed(scene.res, base, size)).Ready()
    {
      hide CoversSpan, Removed;
      if CoversSpan(scene.res, a) && a.Apart(Capped(base, size)) { RemovedKeeps(scene.res, base, size, a); }
    }

    lemma {:induction false} KeepsMemory(base: nat, size: nat, x: Attr)
      requires Canonical(scene.mem) && base <= PHYS_ADDR_MAX
      ensures Valid() ==> this.(scene := scene.(mem := Added(scene.mem, base, size, x))).Valid()
    {
      hide CoversSpan, Added;
      if CoversSpan(scene.mem, a) { AddedKeeps(scene.mem, base, size, x, a); }
      if CoversSpan(scene.mem, m) { AddedKeeps(scene.mem, base, size, x, m); }
    }

    /** A growth while pend is pending cannot run into an array. */
    ghost predicate Spared(pend: Span) {
      Valid() || (Ready() && 2 <= pend.lo && m == pend)
    }

    lemma {:induction false} SparedStays(w: World, pend: Span)
      requires Spared(pend) && Moved(w, pend)
      ensures w.Spared(pend)
    {
    }

    lemma {:induction false} SparedNotMet(pend: Span)
      requires Spared(pend) && Canonical(scene.mem) && 0 < scene.max
      ensures !scene.Meets(pend, ArrayBytes(2 * scene.max), m, a)
    {
      ArrayBytesPositive(2 * scene.max);
      scene.NotMet(pend, ArrayBytes(2 * scene.max), m, a);
    }

    /** One doubling of the reserved array while pend is pending. */
    ghost predicate Doubles(pend: Span, st: Status, storage: Option<nat>) {
      var bytes := ArrayBytes(2 * scene.max);
      && (st == Done ==> storage.Some? && 0 < storage.value && scene.Lands(pend, bytes, storage.value)
                         && Span(storage.value, storage.value + bytes).Apart(m))
      && (st == NoMemory && scene.resizable ==> scene.Lands(pend, bytes, 0))
      && (st == Clobbered ==> scene.Meets(pend, bytes, m, a))
    }

    /** How the reserved table makes room for `need` regions: not at all, or by one doubling. */
    ghost predicate GrowsBy(pend: Span, need: nat, st: Status, max: nat, storage: Option<nat>) {
      && (max != scene.max && st != Clobbered ==>
            st == Done && max == 2 * scene.max && |scene.res| + need > scene.max && Doubles(pend, Done, storage))
      && (max == scene.max && st == Done ==> |scene.res| + need <= scene.max)
      && (st == NoMemory ==> Doubles(pend, st, storage))
      && (st == Clobbered ==> |scene.res| + need > scene.max && Doubles(pend, st, storage))
    }

    /**
     Why an addition of pend that ends in the world w is not carried out: the reserved array would be too
     long, or it cannot grow; and if one doubling would be enough, then it has not grown.
     */
    ghost predicate Reports(w: World, pend: Span, st: Status) {
      && (st == TooLarge ==> MAX_REGIONS < 2 * w.scene.max)
      && (st == NoMemory ==> w.scene.Jammed(pend))
      && (st in {NoMemory, TooLarge} && |Fill(scene.res, pend.lo, pend.hi, KERN)| + 2 <= |scene.res| + scene.max ==>
            w.scene.max == scene.max)
    }

    lemma {:induction false} ReportsNothing(w: World, pend: Span, st: Status)
      requires st in {Done, Bug, Clobbered}
      ensures Reports(w, pend, st)
    {
    }

    lemma {:induction false} ReportsKnow(w: World, pend: Span, st: Status)
      requires Reports(w, pend, st)
      ensures st == TooLarge ==> MAX_REGIONS < 2 * w.scene.max
      ensures st == NoMemory ==> w.scene.Jammed(pend)
      ensures st in {NoMemory, TooLarge} && |Fill(scene.res, pend.lo, pend.hi, KERN)| + 2 <= |scene.res| + scene.max ==>
                w.scene.max == scene.max
    {
    }

    lemma {:induction false} ReportsGrowth(w: World, pend: Span, st: Status, need: nat, storage: Option<nat>)
      requires |Fill(scene.res, pend.lo, pend.hi, KERN)| == |scene.res| + need
      requires st == TooLarge ==> MAX_REGIONS < 2 * w.scene.max
      requires st == NoMemory ==> w.scene.Jammed(pend)
      requires need + 2 <= scene.max ==> GrowsBy(pend, need, st, w.scene.max, storage)
      ensures Reports(w, pend, st)
    {
      if need + 2 <= scene.max { GrowsOrStays(pend, need, st, w.scene.max, storage); }
    }

    lemma {:induction false} GrowsOrStays(pend: Span, need: nat, st: Status, max: nat, storage: Option<nat>)
      requires GrowsBy(pend, need, st, max, storage)
      ensures st in {NoMemory, TooLarge} ==> max == scene.max
    {
    }

    lemma {:induction false} NotClobbered(pend: Span, st: Status, storage: Option<nat>)
      requires Spared(pend) && Canonical(scene.mem) && 0 < scene.max && Doubles(pend, st, storage)
      ensures st != Clobbered
    {
      hide Scene.Meets;
      SparedNotMet(pend);
    }

    /** The memory array has been copied from o to the free place m. */
    ghost predicate Leaving(o: Span) {
      && Ready() && CoversSpan(scene.res, o) && o.Apart(a) && (o.lo < o.hi ==> PAGE_SIZE <= o.lo) && scene.resizable
      && PAGE_SIZE <= m.lo < m.hi <= PHYS_ADDR_MAX && Avoids(scene.res, m.lo, m.hi)
    }

    lemma {:induction false} LeavingKnows(o: Span)
      requires Leaving(o)
      ensures Ready() && o.Apart(a) && (o.lo < o.hi ==> PAGE_SIZE <= o.lo) && scene.resizable
      ensures PAGE_SIZE <= m.lo < m.hi <= PHYS_ADDR_MAX && Avoids(scene.res, m.lo, m.hi) && CoversSpan(scene.res, a)
    {
    }

    /** A release of o that comes to an end spares m, and one that does not ran into m. */
    lemma {:induction false} SparesExactly(o: Span, st: Status, max: nat, storage: Option<nat>)
      requires Leaving(o) && GrowsBy(o, 2, st, max, storage) && st != TooLarge && st != Bug && o.lo < o.hi
      requires Canonical(scene.mem)
      ensures scene.Spares(o, m) <==> st != Clobbered
      ensures st != Clobbered ==>
                || max == 2 * scene.max
                || (max == scene.max && (st == Done ==> |scene.res| + 2 <= scene.max))
    {
      hide Scene.Lands, Avoids, CoversSpan, Canonical, ArrayBytes;
      var bytes := ArrayBytes(2 * scene.max);
      if st == Clobbered {
        var p: nat :| 0 < p && scene.Lands(o, bytes, p)
          && !(Span(p, p + bytes).Apart(m) && Span(p, p + bytes).Apart(a));
        scene.LandsFree(o, bytes, p);
        AvoidsApart(scene.res, a, Span(p, p + bytes));
      } else if |scene.res| + 2 > scene.max {
        forall r: nat | 0 < r && scene.Lands(o, bytes, r) ensures m.Apart(Span(r, r + bytes)) {
          scene.LandsOnce(o, bytes, r, if max == scene.max then 0 else storage.value);
        }
      }
    }

    /** The end of a growth of the memory array, which came from o. */
    ghost predicate Swaps(o: Span, st: Status) {
      Leaving(o) ==>
        && (st == Bug ==> |scene.res| == scene.max)
        && (st != TooLarge ==> (st == Clobbered <==> !scene.Spares(o, m)))
    }

    ghost predicate Swapped(o: Span, w: World) {
      Leaving(o) ==>
        && w.Ready() && w.m == m && w.scene.mem == scene.mem && CoversSpan(w.scene.res, m)
        && Remade(scene.res, a, o, w.scene.res, w.a, m)
    }

    lemma {:induction false} SparedHere()
      requires Ready() && 2 <= m.lo
      ensures Spared(m)
    {
    }

    /** The release of o from mid, giving v, and the reservation of m in mid2, giving w. */
    lemma {:induction false} SwappedBy(o: Span, mid: seq<Region>, v: World, mid2: seq<Region>, w: World)
      requires Leaving(o) && Moved(v.Seen(mid), o) && MaybeRemoved(mid, o, v.scene.res)
      requires v.Ready() && v.Moved(w.Seen(mid2), m) && Canonical(mid2) && w.Ready()
      requires w.scene.res == Added(mid2, m.lo, m.hi - m.lo, KERN)
      ensures Swapped(o, w)
    {
      hide Regrown, CoversSpan, Remade, MaybeRemoved, Canonical, Avoids, Added;
      RemadeSteps(scene.res, a, o, mid, v.a, v.scene.res, mid2, w.a, m, KERN);
    }

    /** How a doubling of the memory array ends: the cases in which it does not come back. */
    ghost predicate Halts(st: Status) {
      Valid() ==> (st == Bug ==> |scene.res| == scene.max) && (st == Clobbered ==> !Clear())
    }

    /** A doubling of the memory array that comes back. */
    ghost predicate Relocates(st: Status, w: World) {
      && w.scene.mem == scene.mem
      && (st == NoMemory ==> w == this && (Valid() && scene.resizable ==> Clear()))
      && (st == Done ==>
            && w.memMax == 2 * memMax
            && (Valid() ==> Clear() && w.Valid() && Remade(scene.res, a, m, w.scene.res, w.a, w.m))
            && (|scene.res| + 2 <= scene.max ==>
                  && w.scene.max == scene.max && w.a == a && |w.scene.res| <= |scene.res| + 2
                  && Regrown(scene.res, m, w.scene.res, w.m)))
    }

    lemma {:induction false} Stays(st: Status)
      requires st == TooLarge || (st == NoMemory && (scene.resizable ==> Clear()))
      ensures Relocates(st, this)
    {
      hide Scene.ClearFor;
    }

    /** A free place is in use only where the arrays are not reserved. */
    lemma {:induction false} FreePlace(n: Span)
      requires Avoids(scene.res, n.lo, n.hi)
      ensures !n.Apart(m) || !n.Apart(a) ==> Halts(Clobbered)
    {
      if Valid() { AvoidsBoth(scene.res, n, m, a); }
    }

    /** The world after the memory array has been copied to its new place. */
    lemma {:induction false} Starts(v: World)
      requires v == World(scene, v.m, 2 * memMax, a) && v.m.lo < v.m.hi <= PHYS_ADDR_MAX && PAGE_SIZE <= v.m.lo
      requires Avoids(scene.res, v.m.lo, v.m.hi) && scene.resizable && m.Apart(a) && (m.lo < m.hi ==> PAGE_SIZE <= m.lo)
      ensures Valid() ==> v.Leaving(m)
    {
    }

    lemma {:induction false} Ends(v: World, st: Status)
      requires (Valid() ==> v.Leaving(m)) && v.Swaps(m, st) && v.scene == scene
      requires Clear() <==> scene.Spares(m, v.m)
      ensures Halts(st)
    {
    }

    lemma {:induction false} Lands(v: World, st: Status, w: World)
      requires (Valid() ==> v.Leaving(m)) && v.Swaps(m, st) && v.scene == scene && v.a == a
      requires Clear() <==> scene.Spares(m, v.m)
      requires st != NoMemory && w.scene.mem == scene.mem && w.m == v.m && w.memMax == 2 * memMax
      requires CoversSpan(scene.mem, v.m)
      requires st == Done ==> v.Swapped(m, w)
      requires |scene.res| + 2 <= scene.max && st == Done ==>
                 && w.scene.max == scene.max && w.a == a && |w.scene.res| <= |scene.res| + 2
                 && Regrown(scene.res, m, w.scene.res, w.m)
      ensures Relocates(st, w)
    {
      hide Regrown, Remade, CoversSpan, Scene.Spares, Scene.ClearFor, Leaving;
    }
  }

  /**
   The worlds before the doublings of the memory array that give it room for `wanted` regions,
   and the last one: how the growth loop goes and how it ends.
   */
  ghost predicate Doublings(ws: seq<World>, st: Status, wanted: nat) {
    && ws != [] && Chain(ws, ws[|ws| - 1], wanted) && (st == Done <==> wanted <= ws[|ws| - 1].memMax)
    && (st.Halted() ==> ws[|ws| - 1].Halts(st))
    && (st == NoMemory ==> ws[|ws| - 1].Relocates(NoMemory, ws[|ws| - 1]))
  }

  lemma {:induction false} DoublingsKnow(ws: seq<World>, st: Status, wanted: nat)
    requires Doublings(ws, st, wanted)
    ensures ws != [] && (st == Done <==> wanted <= ws[|ws| - 1].memMax) && (wanted <= ws[0].memMax ==> |ws| == 1)
  {
    if |ws| > 1 { assert ws[0].Relocates(Done, ws[1]); }
  }

  /** One doubling after the other, each from an array of fewer than `wanted` regions, ending at w. */
  ghost predicate Chain(ws: seq<World>, w: World, wanted: nat) {
    && ws != [] && ws[|ws| - 1] == w
    && forall i | 0 <= i < |ws| - 1 :: ws[i].Relocates(Done, ws[i + 1]) && ws[i].memMax < wanted
  }

  lemma {:induction false} ChainStart(w: World, wanted: nat)
    ensures Chain([w], w, wanted)
  {
  }

  lemma {:induction false} ChainMore(ws: seq<World>, v: World, w: World, wanted: nat)
    requires Chain(ws, v, wanted) && v.Relocates(Done, w) && v.memMax < wanted
    ensures Chain(ws + [w], w, wanted) && (ws + [w])[0] == ws[0]
  {
    hide World.Relocates;
  }

  lemma {:induction false} ChainEnds(ws: seq<World>, w: World, wanted: nat, st: Status)
    requires Chain(ws, w, wanted) && (st.Halted() ==> w.Halts(st)) && (st == NoMemory ==> w.Relocates(st, w))
    requires st == Done <==> wanted <= w.memMax
    ensures Doublings(ws, st, wanted) && ws != [] && ws[|ws| - 1] == w
  {
    hide World.Relocates, World.Halts;
  }

  lemma {:induction false} RelocatesKnows(v: World, st: Status, w: World)
    requires v.Relocates(st, w)
    ensures w.scene.mem == v.scene.mem && (st == Done ==> w.memMax == 2 * v.memMax) && (st == NoMemory ==> w == v)
  {
  }

  lemma {:induction false} ValidRegrown(w: World)
    requires w.Valid()
    ensures Regrown(w.scene.res, w.m, w.scene.res, w.m)
  {
    RegrownSame(w.scene.res, w.m);
  }

  /** After k doublings of a memory array that began with four free reserved slots. */
  ghost predicate Slack(w: World, v: World, k: nat) {
    && w.Valid() && v.Valid() && Regrown(w.scene.res, w.m, v.scene.res, v.m) && v.scene.max == w.scene.max
    && |w.scene.res| + 4 <= w.scene.max && |v.scene.res| <= |w.scene.res| + 2 * k
    && (k == 0 ==> v.memMax == w.memMax) && (k == 1 ==> v.memMax == 2 * w.memMax)
    && (k >= 2 ==> v.memMax >= 4 * w.memMax)
  }

  lemma {:induction false} SlackStart(w: World)
    ensures w.Valid() && |w.scene.res| + 4 <= w.scene.max ==> Slack(w, w, 0)
  {
    if w.Valid() { ValidRegrown(w); }
  }

  /** Two doublings are enough, and while one is needed there are two free slots. */
  lemma {:induction false} SlackClear(w: World, v: World, k: nat, wanted: nat)
    requires Slack(w, v, k) && 0 < w.memMax && v.memMax < wanted <= 2 * w.memMax + 1
    ensures k <= 1 && |v.scene.res| + 2 <= v.scene.max && v.Clear() && v.Valid()
  {
    v.scene.ClearWithSlots(v.m, v.memMax);
  }

  lemma {:induction false} SlackStep(w: World, v: World, u: World, k: nat)
    requires Slack(w, v, k) && k <= 1 && |v.scene.res| + 2 <= v.scene.max && v.Relocates(Done, u)
    ensures Slack(w, u, k + 1)
  {
    hide Regrown, CoversSpan, Remade, World.Clear;
    RegrownTwice(w.scene.res, w.m, v.scene.res, v.m, u.scene.res, u.m);
  }

  lemma {:induction false} SlackAlong(ws: seq<World>, k: nat, wanted: nat)
    requires k < |ws| && Chain(ws, ws[|ws| - 1], wanted) && Slack(ws[0], ws[0], 0)
    requires 0 < ws[0].memMax && wanted <= 2 * ws[0].memMax + 1
    ensures Slack(ws[0], ws[k], k)
  {
    hide Slack, World.Relocates;
    if k > 0 {
      SlackAlong(ws, k - 1, wanted);
      assert ws[k - 1].Relocates(Done, ws[k - 1 + 1]);
      SlackClear(ws[0], ws[k - 1], k - 1, wanted);
      SlackStep(ws[0], ws[k - 1], ws[k], k - 1);
    }
  }

  /** With four free reserved slots an addition to the memory table does not halt, and moves only the memory array. */
  lemma {:induction false} FourSlots(ws: seq<World>, st: Status, wanted: nat)
    requires Doublings(ws, st, wanted) && ws[0].Valid() && |ws[0].scene.res| + 4 <= ws[0].scene.max
    requires 0 < ws[0].memMax && wanted <= 2 * ws[0].memMax + 1
    ensures var w := ws[|ws| - 1]; !st.Halted() && w.Valid() && Regrown(ws[0].scene.res, ws[0].m, w.scene.res, w.m)
  {
    hide Regrown, CoversSpan, World.Clear, World.Relocates;
    var k := |ws| - 1;
    SlackStart(ws[0]);
    SlackAlong(ws, k, wanted);
    if st != Done { SlackClear(ws[0], ws[k], k, wanted); }
  }

  /** All worlds of a growth that starts with both arrays reserved have them reserved, and each doubling was clear. */
  lemma {:induction false} DoublingsValid(ws: seq<World>, st: Status, wanted: nat, k: nat)
    requires Doublings(ws, st, wanted) && ws[0].Valid() && k < |ws|
    ensures ws[k].Valid() && (k < |ws| - 1 ==> ws[k].Clear()) && (k == |ws| - 1 && st == Clobbered ==> !ws[k].Clear())
    ensures k == |ws| - 1 && st == NoMemory && ws[k].scene.resizable ==> ws[k].Clear()
  {
    hide World.Valid, World.Clear;
    if k > 0 {
      DoublingsValid(ws, st, wanted, k - 1);
      assert ws[k - 1].Relocates(Done, ws[k - 1 + 1]);
    }
    if k < |ws| - 1 { assert ws[k].Relocates(Done, ws[k + 1]); }
  }

  /** Mirrored memory is ordinary memory. */
  lemma {:induction false} MirroredFits(m: seq<Region>, s: seq<Region>, q: Bounds, c: nat)
    requires 0 < q.align
    ensures Fits(Selector(true, NUMA_NO_NODE, MEMBLOCK_MIRROR), m, s, q, c) ==> Fits(AnyMemory(), m, s, q, c)
  {
    var mirrored := Selector(true, NUMA_NO_NODE, MEMBLOCK_MIRROR);
    if Fits(mirrored, m, s, q, c) {
      var i :| 0 <= i < |m| && !mirrored.Skips(m[i]) && m[i].base <= c && c + q.size <= m[i].End();
      assert !AnyMemory().Skips(m[i]);
    }
  }

  /** What a search returns is free memory, and it is 0 only when nothing fits. */
  lemma {:induction false} PickedFits(mirror: bool, m: seq<Region>, s: seq<Region>, q: Bounds, q': Bounds, r: nat)
    requires 0 < q.align && q'.align == q.align && q'.size == q.size && Canonical(m) && Picks(mirror, m, s, q, r)
    ensures r == 0 ==> IsBest(AnyMemory(), m, s, q, 0)
    ensures r != 0 ==>
              && q.Admits(r) && Avoids(s, r, r + q.size) && CoversSpan(m, Span(r, r + q.size))
              && (q'.Admits(r) ==> !IsBest(AnyMemory(), m, s, q', 0))
  {
    if r != 0 {
      MirroredFits(m, s, q, r);
      FitsAbove(m, s, q, q', r);
      OneRegionCovers(m, r, r + q.size);
    }
  }

  lemma {:induction false} FitsAbove(m: seq<Region>, s: seq<Region>, q: Bounds, q': Bounds, c: nat)
    requires 0 < q.align && q'.align == q.align && q'.size == q.size
    ensures Fits(AnyMemory(), m, s, q, c) && q'.Admits(c) ==> Fits(AnyMemory(), m, s, q', c)
  {
  }

  lemma {:induction false} OneRegionCovers(s: seq<Region>, lo: nat, hi: nat)
    requires WellFormed(s) && exists i :: 0 <= i < |s| && s[i].base <= lo && hi <= s[i].End()
    ensures Covers(s, lo, hi)
  {
    var i :| 0 <= i < |s| && s[i].base <= lo && hi <= s[i].End();
    forall x: int | lo <= x < hi ensures Lookup(s, x).Some? { LookupAt(s, i, x); }
  }

  lemma {:induction false} RemovedNothing(s: seq<Region>, base: nat, size: nat)
    requires base <= PHYS_ADDR_MAX && CapSize(base, size) == 0
    ensures Removed(s, base, size) == s
  {
  }

  lemma {:induction false} RemovedSomething(s: seq<Region>, base: nat, size: nat)
    requires base <= PHYS_ADDR_MAX && CapSize(base, size) > 0
    ensures Removed(s, base, size) == Erased(s, base, base + CapSize(base, size))
  {
  }

  lemma {:induction false} ErasedSize(s: seq<Region>, lo: nat, hi: nat)
    requires Canonical(s) && lo < hi
    ensures |Erased(s, lo, hi)| <= |s| + 1
  {
    ErasedGrowth(s, lo, hi);
  }

  lemma {:induction false} RegrownCovers(s: seq<Region>, a: Span, s': seq<Region>, a': Span)
    requires Regrown(s, a, s', a')
    ensures CoversSpan(s', a')
  {
    forall x: int | a'.lo <= x < a'.hi ensures Lookup(s', x).Some? {
      assert RegrownAt(s, a, s', a', x);
    }
  }

  lemma {:induction false} ArrayBytesPositive(max: nat)
    requires 0 < max
    ensures 0 < ArrayBytes(max)
  {
  }

  /** The reserved table after the old array has been released. */
  ghost function Released(s: seq<Region>, storage: Option<nat>, max: nat): seq<Region> {
    if storage.Some? && storage.value <= PHYS_ADDR_MAX then Removed(s, storage.value, ArrayBytes(max)) else s
  }

  /** Moving an array is a growth and leaves at most two more regions. */
  lemma {:induction false} MoveArray(s: seq<Region>, storage: Option<nat>, max: nat, addr: nat)
    requires Canonical(s) && 0 < max && ArraySpan(storage, max).hi <= PHYS_ADDR_MAX
    requires addr + ArrayBytes(2 * max) <= PHYS_ADDR_MAX && Avoids(s, addr, addr + ArrayBytes(2 * max))
    ensures var r, n := Released(s, storage, max), ArrayBytes(2 * max);
            && |r| <= |s| + 1
            && Capped(addr, n).hi == addr + n
            && |Fill(r, addr, addr + n, KERN)| <= |s| + 2
            && |Added(r, addr, n, KERN)| <= |s| + 2
            && Regrown(s, ArraySpan(storage, max), Added(r, addr, n, KERN), ArraySpan(Some(addr), 2 * max))
  {
    hide ArrayBytes, Regrown;
    ArrayBytesPositive(max);
    ArrayBytesPositive(2 * max);
    var a, a' := ArraySpan(storage, max), ArraySpan(Some(addr), 2 * max);
    MoveIsGrowth(s, a, a', Released(s, storage, max), KERN);
    MoveFits(s, a, a', Released(s, storage, max));
  }

  /** Moving an array leaves at most two more regions. */
  lemma {:induction false} MoveFits(s: seq<Region>, a: Span, a': Span, released: seq<Region>)
    requires Canonical(s) && a'.lo < a'.hi <= PHYS_ADDR_MAX && Avoids(released, a'.lo, a'.hi)
    requires released == if a.lo < a.hi then Erased(s, a.lo, a.hi) else s
    ensures |released| <= |s| + 1
    ensures |Fill(released, a'.lo, a'.hi, KERN)| <= |s| + 2
    ensures |Added(released, a'.lo, a'.hi - a'.lo, KERN)| <= |s| + 2
  {
    if a.lo < a.hi {
      ErasedGrowth(s, a.lo, a.hi);
      ErasedIsRestriction(s, a.lo, a.hi);
    }
    FillFree(released, a'.lo, a'.hi, KERN);
    MergeShrinks(Fill(released, a'.lo, a'.hi, KERN));
  }

  lemma {:induction false} RemovedOrNot(s: seq<Region>, o: Span, s': seq<Region>, done: bool)
    requires Canonical(s) && o.lo <= o.hi <= PHYS_ADDR_MAX
    requires if done then o.lo < o.hi && s' == Removed(s, o.lo, o.hi - o.lo) else s' == s
    ensures MaybeRemoved(s, o, s')
  {
  }

  /** The reservation of n takes one slot after the release of o. */
  lemma {:induction false} ReserveNeeds(s: seq<Region>, a: Span, o: Span, mid: seq<Region>, a': Span, s': seq<Region>,
                                        n: Span)
    requires Regrown(s, a, mid, a') && MaybeRemoved(mid, o, s') && Canonical(s') && a'.Apart(n)
    requires n.lo < n.hi <= PHYS_ADDR_MAX && Avoids(s, n.lo, n.hi)
    ensures Capped(n.lo, n.hi - n.lo) == n && |Fill(s', n.lo, n.hi, KERN)| == |s'| + 1
  {
    StillFree(s, a, o, mid, a', s', n);
    FreeBlock(s', n);
  }

  lemma {:induction false} FillSizes(s: seq<Region>, base: nat, end: nat, t: Attr)
    requires Canonical(s)
    ensures WellFormed(s)
    ensures |Fill(s, base, end, t)| == |Fill(s, base, end, KERN)| == |s| + Holes(s, base, end, false) <= 2 * |s| + 1
  {
    FillCountsHoles(s, base, end, t);
    FillCountsHoles(s, base, end, KERN);
    FillGrowth(s, base, end, t);
  }

  lemma {:induction false} AddedNothing(s: seq<Region>, base: nat, size: nat, t: Attr)
    requires Canonical(s) && base <= PHYS_ADDR_MAX
    requires CapSize(base, size) == 0 || |Fill(s, base, base + CapSize(base, size), t)| == |s|
    ensures Added(s, base, size, t) == s && |Fill(s, base, base + CapSize(base, size), KERN)| == |s|
    ensures |Fill(s, base, base + CapSize(base, size), t)| == |s|
  {
    FillCountsHoles(s, base, base + CapSize(base, size), t);
    FillCountsHoles(s, base, base + CapSize(base, size), KERN);
    FillNothing(s, base, base + CapSize(base, size), t);
    MergeAllMinimal(s);
  }

  lemma {:induction false} AddedIs(s: seq<Region>, base: nat, size: nat, t: Attr)
    requires base <= PHYS_ADDR_MAX
    ensures Added(s, base, size, t) == MergeAll(Fill(s, base, base + CapSize(base, size), t))
  {
  }

  lemma {:induction false} EmptyTable(s: seq<Region>)
    requires Canonical(s)
    ensures forall i | 0 <= i < |s| :: s[i].size > 0
  {
  }

  lemma {:induction false} BestFits(sel: Selector, m: seq<Region>, s: seq<Region>, q: Bounds, r: nat)
    requires 0 < q.align && IsBest(sel, m, s, q, r) && r != 0
    ensures Fits(sel, m, s, q, r) && r + q.size <= q.hi && Avoids(s, r, r + q.size)
  {
  }

  lemma {:induction false} AvoidsApart(s: seq<Region>, a: Span, o: Span)
    requires CoversSpan(s, a) && Avoids(s, o.lo, o.hi)
    ensures a.Apart(o)
  {
    var x := Max(a.lo, o.lo);
    assert a.Has(x) ==> Lookup(s, x).Some?;
    assert o.Has(x) ==> Lookup(s, x).None?;
  }

  lemma {:induction false} AvoidsBoth(s: seq<Region>, n: Span, m: Span, a: Span)
    requires CoversSpan(s, m) && CoversSpan(s, a) && Avoids(s, n.lo, n.hi)
    ensures n.Apart(m) && n.Apart(a)
  {
    AvoidsApart(s, m, n);
    AvoidsApart(s, a, n);
  }

  lemma {:induction false} FreeBlock(s: seq<Region>, o: Span)
    requires Canonical(s) && o.lo < o.hi <= PHYS_ADDR_MAX && Avoids(s, o.lo, o.hi)
    ensures Capped(o.lo, o.hi - o.lo) == o
    ensures |Fill(s, o.lo, o.hi, KERN)| == |s| + 1
  {
    FillFree(s, o.lo, o.hi, KERN);
  }

  lemma {:induction false} RegrownAvoids(s: seq<Region>, a: Span, s': seq<Region>, a': Span, o: Span)
    requires Regrown(s, a, s', a') && Avoids(s, o.lo, o.hi) && a'.Apart(o)
    ensures Avoids(s', o.lo, o.hi)
  {
    forall x: int | o.lo <= x < o.hi ensures Lookup(s', x).None? {
      assert RegrownAt(s, a, s', a', x);
      assert Lookup(s, x).None?;
    }
  }
}
