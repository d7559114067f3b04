/**
 What the walks cover, and the top-down search for a free aligned block.
 */
module Search {
  import opened Basics
  import opened Regions
  import opened RegionOps
  import opened RegionTable
  import opened FreeRanges
  import opened Bits

  // ----- What a walk covers -----

  lemma {:induction false} RowMember(sel: Selector, a: seq<Region>, b: seq<Region>, i: nat, j: nat, r: Range)
    requires i < |a| && j <= |b| + 1
    ensures r in Row(sel, a, b, i, j) <==>
            exists j' :: j <= j' <= |b| && Hits(sel, a, b, i, j') && r == RangeAt(a, b, i, j')
    decreases |b| + 1 - j
  {
    if j <= |b| {
      RowMember(sel, a, b, i, j + 1, r);
    }
  }

  lemma {:induction false} RowsMember(sel: Selector, a: seq<Region>, b: seq<Region>, i: nat, r: Range)
    requires i <= |a|
    ensures r in Rows(sel, a, b, i) <==>
            exists i', j' :: i <= i' < |a| && 0 <= j' <= |b| && Hits(sel, a, b, i', j') && r == RangeAt(a, b, i', j')
    decreases |a| - i
  {
    if i < |a| {
      RowMember(sel, a, b, i, 0, r);
      RowsMember(sel, a, b, i + 1, r);
    }
  }

  /** An uncovered stretch of addresses lies in one gap. */
  lemma {:induction false} FindGap(b: seq<Region>, lo: nat, hi: nat) returns (j: nat)
    requires WellFormed(b) && lo < hi <= PHYS_ADDR_MAX && Avoids(b, lo, hi)
    ensures j <= |b| && GapStart(b, j) <= lo && hi <= GapEnd(b, j)
  {
    j := 0;
    while j < |b| && b[j].End() <= lo
      invariant j <= |b| && GapStart(b, j) <= lo
    {
      j := j + 1;
    }
    if j < |b| && b[j].base < hi {
      var x := Max(b[j].base, lo);
      LookupAt(b, j, x);
      assert false;
    }
  }

  /** Nothing in a gap is covered. */
  lemma {:induction false} GapAvoids(b: seq<Region>, j: nat, x: int)
    requires WellFormed(b) && j <= |b| && GapStart(b, j) <= x < GapEnd(b, j)
    ensures Lookup(b, x).None?
  {
    LookupSome(b, x);
    forall k | 0 <= k < |b| ensures !b[k].Has(x) {
      if k < j - 1 { assert b[k].End() <= b[j - 1].base; }
      if j < k { assert b[j].End() <= b[k].base; }
    }
  }

  ghost predicate Selected(sel: Selector, a: seq<Region>, x: int) {
    exists i :: 0 <= i < |a| && a[i].Has(x) && !sel.Skips(a[i])
  }

  ghost predicate InSome(rs: seq<Range>, x: int) {
    exists r :: r in rs && r.start <= x < r.end
  }

  /** A walk covers exactly the selected addresses of a that b does not cover. */
  lemma {:induction false} WalkCovers(sel: Selector, a: seq<Region>, b: seq<Region>, x: int)
    requires WellFormed(a) && WellFormed(b)
    ensures InSome(AllRanges(sel, a, b), x) <==> Selected(sel, a, x) && Lookup(b, x).None?
  {
    hide Selector.Skips, AllRanges, Lookup, Sorted;
    if InSome(AllRanges(sel, a, b), x) {
      var r :| r in AllRanges(sel, a, b) && r.start <= x < r.end;
      var i, j := YieldedFrom(sel, a, b, r);
      assert a[i].Has(x);
      GapAvoids(b, j, x);
    }
    if Selected(sel, a, x) && Lookup(b, x).None? {
      var i :| 0 <= i < |a| && a[i].Has(x) && !sel.Skips(a[i]);
      assert a[i].Proper();
      var j := FindGap(b, x, x + 1);
      Yielded(sel, a, b, i, j);
    }
  }

  lemma {:induction false} Yielded(sel: Selector, a: seq<Region>, b: seq<Region>, i: nat, j: nat)
    requires i < |a| && j <= |b| && Hits(sel, a, b, i, j)
    ensures RangeAt(a, b, i, j) in AllRanges(sel, a, b)
  {
    RowsMember(sel, a, b, 0, RangeAt(a, b, i, j));
  }

  lemma {:induction false} YieldedFrom(sel: Selector, a: seq<Region>, b: seq<Region>, r: Range) returns (i: nat, j: nat)
    requires r in AllRanges(sel, a, b)
    ensures i < |a| && j <= |b| && Hits(sel, a, b, i, j) && r == RangeAt(a, b, i, j)
  {
    RowsMember(sel, a, b, 0, r);
    i, j :| 0 <= i < |a| && 0 <= j <= |b| && Hits(sel, a, b, i, j) && r == RangeAt(a, b, i, j);
  }

  /** A range that a walk yields is a part of one selected region, and carries the node of that region. */
  lemma {:induction false} YieldedPart(sel: Selector, a: seq<Region>, b: seq<Region>, r: Range)
    requires r in AllRanges(sel, a, b)
    ensures exists i :: 0 <= i < |a| && !sel.Skips(a[i]) && a[i].nid == r.nid && a[i].base <= r.start
                     && r.end <= a[i].base + a[i].size
  {
    hide Selector.Skips, AllRanges;
    var i, j := YieldedFrom(sel, a, b, r);
    assert a[i].nid == r.nid;
  }

  ghost predicate Within(rs: seq<Range>, lo: nat, hi: nat) {
    forall k | 0 <= k < |rs| :: lo <= rs[k].start <= rs[k].end <= hi
  }

  ghost predicate Ordered(rs: seq<Range>) {
    forall p, q | 0 <= p < q < |rs| :: rs[p].end <= rs[q].start
  }

  lemma {:induction false} ConcatOrdered(rs: seq<Range>, qs: seq<Range>, m: nat)
    requires Ordered(rs) && Ordered(qs) && Within(rs, 0, m) && Within(qs, m, PHYS_ADDR_MAX)
    ensures Ordered(rs + qs)
  {
  }

  lemma {:induction false} RowOrdered(sel: Selector, a: seq<Region>, b: seq<Region>, i: nat, j: nat)
    requires WellFormed(a) && WellFormed(b) && i < |a| && j <= |b| + 1
    ensures Ordered(Row(sel, a, b, i, j)) && Within(Row(sel, a, b, i, j), a[i].base, a[i].End())
    ensures j <= |b| ==> Within(Row(sel, a, b, i, j), GapStart(b, j), PHYS_ADDR_MAX)
    decreases |b| + 1 - j
  {
    hide Selector.Skips;
    if j <= |b| {
      RowOrdered(sel, a, b, i, j + 1);
      GapOrder(b, j);
      CellWithin(sel, a, b, i, j);
      if j < |b| {
        GapOrder(b, j + 1);
        GapStartGrows(b, j, j + 1);
        ConcatOrdered(Cell(sel, a, b, i, j), Row(sel, a, b, i, j + 1), GapEnd(b, j));
      }
    }
  }

  lemma {:induction false} CellWithin(sel: Selector, a: seq<Region>, b: seq<Region>, i: nat, j: nat)
    requires WellFormed(a) && WellFormed(b) && i < |a| && j <= |b|
    ensures Within(Cell(sel, a, b, i, j), a[i].base, a[i].End())
    ensures Within(Cell(sel, a, b, i, j), GapStart(b, j), GapEnd(b, j))
  {
    GapOrder(b, j);
  }

  lemma {:induction false} RowsOrdered(sel: Selector, a: seq<Region>, b: seq<Region>, i: nat)
    requires WellFormed(a) && WellFormed(b) && i <= |a|
    ensures Ordered(Rows(sel, a, b, i))
    ensures Within(Rows(sel, a, b, i), if i < |a| then a[i].base else 0, PHYS_ADDR_MAX)
    decreases |a| - i
  {
    if i < |a| {
      RowOrdered(sel, a, b, i, 0);
      RowsOrdered(sel, a, b, i + 1);
      if i + 1 < |a| {
        assert a[i].End() <= a[i + 1].base;
        ConcatOrdered(Row(sel, a, b, i, 0), Rows(sel, a, b, i + 1), a[i + 1].base);
      } else {
        assert Row(sel, a, b, i, 0) + [] == Row(sel, a, b, i, 0);
      }
    }
  }

  /** A walk yields disjoint ranges from low to high. */
  lemma {:induction false} WalkOrdered(sel: Selector, a: seq<Region>, b: seq<Region>)
    requires WellFormed(a) && WellFormed(b)
    ensures Ordered(AllRanges(sel, a, b)) && Within(AllRanges(sel, a, b), 0, PHYS_ADDR_MAX)
  {
    RowsOrdered(sel, a, b, 0);
  }

  // ----- The top-down search -----

  /** Where a search may place a block. */
  datatype Bounds = Bounds(lo: nat, hi: nat, size: nat, align: nat) {

    predicate Valid() { lo <= hi <= PHYS_ADDR_MAX && 0 < size && 0 < align && IsPow2(align) }

    predicate Admits(c: nat)
      requires 0 < align
    {
      c % align == 0 && lo <= c && c + size <= hi
    }
  }

  /** c is an aligned block in the bounds, inside one selected region of a and disjoint from b. */
  ghost predicate Fits(sel: Selector, a: seq<Region>, b: seq<Region>, q: Bounds, c: nat)
    requires 0 < q.align
  {
    && q.Admits(c)
    && InOneRegion(sel, a, c, c + q.size)
    && Avoids(b, c, c + q.size)
  }

  ghost predicate InOneRegion(sel: Selector, a: seq<Region>, lo: nat, hi: nat) {
    exists i :: 0 <= i < |a| && !sel.Skips(a[i]) && a[i].base <= lo && hi <= a[i].End()
  }

  /** r is the highest block that fits, or 0 when none does. */
  ghost predicate IsBest(sel: Selector, a: seq<Region>, b: seq<Region>, q: Bounds, r: nat)
    requires 0 < q.align
  {
    && (r == 0 ==> forall c: nat :: !Fits(sel, a, b, q, c))
    && (r != 0 ==> Fits(sel, a, b, q, r) && forall c: nat | c > r :: !Fits(sel, a, b, q, c))
  }

  predicate RangeFits(r: Range, q: Bounds, c: nat)
    requires 0 < q.align
  {
    q.Admits(c) && r.start <= c && c + q.size <= r.end
  }

  /** A block fits exactly when it fits into one range of the walk. */
  lemma {:induction false} FitYields(sel: Selector, a: seq<Region>, b: seq<Region>, q: Bounds, c: nat)
    returns (r: Range)
    requires WellFormed(a) && WellFormed(b) && q.Valid() && Fits(sel, a, b, q, c)
    ensures r in AllRanges(sel, a, b) && RangeFits(r, q, c)
  {
    hide Selector.Skips, AllRanges, Bounds.Admits;
    var i :| 0 <= i < |a| && !sel.Skips(a[i]) && a[i].base <= c && c + q.size <= a[i].End();
    assert a[i].Proper();
    var j := FindGap(b, c, c + q.size);
    assert Hits(sel, a, b, i, j);
    Yielded(sel, a, b, i, j);
    r := RangeAt(a, b, i, j);
  }

  lemma {:induction false} YieldFits(sel: Selector, a: seq<Region>, b: seq<Region>, q: Bounds, c: nat, r: Range)
    requires WellFormed(a) && WellFormed(b) && q.Valid() && r in AllRanges(sel, a, b) && RangeFits(r, q, c)
    ensures Fits(sel, a, b, q, c)
  {
    hide Selector.Skips, AllRanges, Bounds.Admits, Lookup;
    var i, j := YieldedFrom(sel, a, b, r);
    forall x: int | c <= x < c + q.size ensures Lookup(b, x).None? { GapAvoids(b, j, x); }
  }

  lemma {:induction false} FitsInRange(sel: Selector, a: seq<Region>, b: seq<Region>, q: Bounds, c: nat)
    requires WellFormed(a) && WellFormed(b) && q.Valid()
    ensures Fits(sel, a, b, q, c) <==> exists r :: r in AllRanges(sel, a, b) && RangeFits(r, q, c)
  {
    hide WellFormed, AllRanges, RangeFits, Fits;
    if Fits(sel, a, b, q, c) {
      var r := FitYields(sel, a, b, q, c);
    }
    if r :| r in AllRanges(sel, a, b) && RangeFits(r, q, c) {
      YieldFits(sel, a, b, q, c, r);
    }
  }

  function Clamp(x: nat, lo: nat, hi: nat): nat {
    if x < lo then lo else if x > hi then hi else x
  }

  /** The candidate that the search computes is the highest block that fits into the range. */
  lemma {:induction false} CandidateIsHighest(r: Range, q: Bounds, c: nat)
    requires q.Valid() && r.start <= r.end
    requires RangeFits(r, q, c)
    ensures q.align <= Pow2(64) && q.size <= Clamp(r.end, q.lo, q.hi)
    ensures var cand := RoundDown(Clamp(r.end, q.lo, q.hi) - q.size, q.align);
            Clamp(r.start, q.lo, q.hi) <= cand && c <= cand
  {
    Pow64();
    var x := Clamp(r.end, q.lo, q.hi) - q.size;
    RoundDownIsFloor(x, q.align);
    FloorGreatest(x, q.align, c);
  }

  lemma {:induction false} CandidateFits(r: Range, q: Bounds)
    requires q.Valid() && r.start <= r.end && q.size <= Clamp(r.end, q.lo, q.hi)
    ensures q.align <= Pow2(64)
    ensures var cand := RoundDown(Clamp(r.end, q.lo, q.hi) - q.size, q.align);
            Clamp(r.start, q.lo, q.hi) <= cand ==> RangeFits(r, q, cand)
  {
    Pow64();
    var x := Clamp(r.end, q.lo, q.hi) - q.size;
    RoundDownIsFloor(x, q.align);
    FloorGreatest(x, q.align, 0);
  }

  /** No range of the list takes a block. */
  ghost predicate NoneFits(rs: seq<Range>, q: Bounds)
    requires 0 < q.align
  {
    forall k, c: nat | 0 <= k < |rs| :: !RangeFits(rs[k], q, c)
  }

  /** The range r at the end of the unvisited part takes no block: go on below it. */
  lemma {:induction false} SkipRange(all: seq<Range>, n: nat, r: Range, q: Bounds)
    requires q.Valid() && n < |all| && all[n] == r && r.start <= r.end
    requires NoneFits(all[n + 1..], q)
    requires 0 < q.align <= Pow2(64) && q.size <= Clamp(r.end, q.lo, q.hi) ==>
               RoundDown(Clamp(r.end, q.lo, q.hi) - q.size, q.align) < Clamp(r.start, q.lo, q.hi)
    ensures NoneFits(all[n..], q)
  {
    forall k, c: nat | 0 <= k < |all[n..]| ensures !RangeFits(all[n..][k], q, c) {
      if k == 0 {
        if RangeFits(r, q, c) { CandidateIsHighest(r, q, c); }
      } else {
        assert all[n..][k] == all[n + 1..][k - 1];
      }
    }
  }

  /** The range r takes the candidate: it is the best block of all. */
  lemma {:induction false} TakeRange(sel: Selector, a: seq<Region>, b: seq<Region>, n: nat, r: Range, q: Bounds)
    requires WellFormed(a) && WellFormed(b) && q.Valid() && PAGE_SIZE <= q.lo
    requires var all := AllRanges(sel, a, b); n < |all| && all[n] == r && NoneFits(all[n + 1..], q)
    requires q.align <= Pow2(64) && q.size <= Clamp(r.end, q.lo, q.hi)
    requires Clamp(r.start, q.lo, q.hi) <= RoundDown(Clamp(r.end, q.lo, q.hi) - q.size, q.align)
    ensures IsBest(sel, a, b, q, RoundDown(Clamp(r.end, q.lo, q.hi) - q.size, q.align))
    ensures RoundDown(Clamp(r.end, q.lo, q.hi) - q.size, q.align) >= PAGE_SIZE
  {
    hide AllRanges, Avoids, InOneRegion, RoundDown;
    var all := AllRanges(sel, a, b);
    var best := RoundDown(Clamp(r.end, q.lo, q.hi) - q.size, q.align);
    WalkOrdered(sel, a, b);
    assert r.start <= r.end;
    CandidateFits(r, q);
    FitsInRange(sel, a, b, q, best);
    forall c: nat | c > best ensures !Fits(sel, a, b, q, c) {
      FitsInRange(sel, a, b, q, c);
      NothingHigher(all, n, q, best, c);
    }
  }

  /** Every range that takes a block above the candidate comes later in the walk. */
  lemma {:induction false} NothingHigher(all: seq<Range>, n: nat, q: Bounds, best: nat, c: nat)
    requires Ordered(all) && Within(all, 0, PHYS_ADDR_MAX) && n < |all| && q.Valid() && best < c
    requires RangeFits(all[n], q, best) && NoneFits(all[n + 1..], q)
    requires q.align <= Pow2(64) && q.size <= Clamp(all[n].end, q.lo, q.hi)
    requires best == RoundDown(Clamp(all[n].end, q.lo, q.hi) - q.size, q.align)
    ensures forall r | r in all :: !RangeFits(r, q, c)
  {
    hide RoundDown, Pow2;
    forall k | 0 <= k < |all| ensures !RangeFits(all[k], q, c) {
      if k < n {
        assert all[k].end <= all[n].start;
      } else if k == n {
        if RangeFits(all[n], q, c) { CandidateIsHighest(all[n], q, c); }
      } else {
        assert all[k] == all[n + 1..][k - (n + 1)];
      }
    }
  }

  lemma {:induction false} NoneFitsIsBest(sel: Selector, a: seq<Region>, b: seq<Region>, q: Bounds)
    requires WellFormed(a) && WellFormed(b) && q.Valid() && NoneFits(AllRanges(sel, a, b), q)
    ensures IsBest(sel, a, b, q, 0)
  {
    hide AllRanges;
    forall c: nat ensures !Fits(sel, a, b, q, c) {
      FitsInRange(sel, a, b, q, c);
    }
  }

  /** __memblock_find_range_top_down. */
  method FindRangeTopDown(q: Bounds, sel: Selector, a: MemblockType, b: MemblockType) returns (r: nat)
    requires Walkable(a, b) && q.Valid() && PAGE_SIZE <= q.lo
    ensures IsBest(sel, a.Contents(), b.Contents(), q, r)
    ensures r != 0 ==> PAGE_SIZE <= r
  {
    hide Behind, AllRanges, PassedGapsRev, IsBest, RoundDown, NoneFits, Ordered, Pow2, IsPow2;
    ghost var s, t := a.Contents(), b.Contents();
    ghost var all := AllRanges(sel, s, t);
    WalkOrdered(sel, s, t);
    WalkStartRev(sel, s, t);
    NoneFitsNone(all, q);
    Pow2Bound(q.align);
    var i, range := NextMemRangeRev(ULLONG_MAX, sel, a, b);
    ghost var todo := all;
    while i != ULLONG_MAX
      invariant |todo| <= |all| && todo == all[..|todo|] && NoneFits(all[|todo|..], q)
      invariant i == ULLONG_MAX ==> todo == []
      invariant i != ULLONG_MAX ==>
                  && -1 <= CursorA(i) < a.cnt && 0 <= CursorB(i) <= |t|
                  && PassedGapsRev(sel, s, t, CursorA(i), CursorB(i))
                  && todo == Behind(sel, s, t, CursorA(i), CursorB(i)) + [range]
      decreases |todo|
    {
      ghost var n := |todo| - 1;
      assert all[n] == range == todo[n];
      var thisStart, thisEnd := Clamp(range.start, q.lo, q.hi), Clamp(range.end, q.lo, q.hi);
      if thisEnd >= q.size {
        var cand := RoundDown(thisEnd - q.size, q.align);
        if cand >= thisStart {
          TakeRange(sel, s, t, n, range, q);
          return cand;
        }
      }
      SkipRange(all, n, range, q);
      todo := Behind(sel, s, t, CursorA(i), CursorB(i));
      i, range := NextMemRangeRev(i, sel, a, b);
    }
    assert all[0..] == all;
    NoneFitsIsBest(sel, s, t, q);
    return 0;
  }

  lemma {:induction false} NoneFitsNone(all: seq<Range>, q: Bounds)
    requires 0 < q.align
    ensures all[..|all|] == all && NoneFits(all[|all|..], q)
  {
  }

  lemma {:induction false} Pow2Bound(align: nat)
    requires IsPow2(align)
    ensures 0 < align <= Pow2(64)
  {
    var k :| 0 <= k < 64 && align == Pow2(k);
    PowMonotone(k, 64);
  }
}
