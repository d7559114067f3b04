/**
 Iteration over the addresses of one table that are not in another:
 __next_mem_range and __next_mem_range_rev with their packed cursors.
 */
module FreeRanges {
  import opened Regions
  import opened RegionOps
  import opened RegionTable

  const MEMBLOCK_NONE: Flags := 0x0
  const MEMBLOCK_MIRROR: Flags := 0x2
  const MEMBLOCK_NOMAP: Flags := 0x4
  const MEMBLOCK_DRIVER_MANAGED: Flags := 0x8
  const MEMBLOCK_RSRV_KERN: Flags := 0x20
  const MEMBLOCK_KHO_SCRATCH: Flags := 0x40

  const NUMA_NO_NODE := -1

  predicate NumaValidNode(nid: int) { 0 <= nid < MAX_NUMNODES }

  /** What a walk selects: a node and attributes, which are checked for the memory table only. */
  datatype Selector = Selector(memory: bool, nid: int, flags: Flags) {

    /** should_skip_region. */
    predicate Skips(m: Region) {
      && memory
      && ( || (NumaValidNode(nid) && nid != m.nid)
           || (flags & MEMBLOCK_MIRROR != 0 && m.flags & MEMBLOCK_MIRROR == 0)
           || (flags & MEMBLOCK_NOMAP == 0 && m.flags & MEMBLOCK_NOMAP != 0)
           || (flags & MEMBLOCK_DRIVER_MANAGED == 0 && m.flags & MEMBLOCK_DRIVER_MANAGED != 0)
           || (flags & MEMBLOCK_KHO_SCRATCH != 0 && m.flags & MEMBLOCK_KHO_SCRATCH == 0))
    }
  }

  datatype Range = Range(start: nat, end: nat, nid: int)

  // ----- Packed cursors -----

  const WORD: nat := 0x1_0000_0000
  const ULLONG_MAX: nat := 0xFFFF_FFFF_FFFF_FFFF
  const INT_LIMIT: nat := 0x8000_0000

  function ToWord(i: int): nat
    requires -1 <= i < INT_LIMIT
  {
    if i < 0 then i + WORD else i
  }

  function ToInt(w: nat): int {
    if w < INT_LIMIT then w else w - WORD
  }

  /** (u32)idx_a | (u64)idx_b << 32. */
  function Pack(a: int, b: int): nat
    requires -1 <= a < INT_LIMIT && -1 <= b < INT_LIMIT
  {
    ToWord(a) + ToWord(b) * WORD
  }

  function CursorA(c: nat): int { ToInt(c % WORD) }

  function CursorB(c: nat): int { ToInt(c / WORD) }

  /** A packed cursor gives back its two indices, and only (-1, -1) is the end mark. */
  lemma {:induction false} PackInverse(a: int, b: int)
    requires -1 <= a < INT_LIMIT && -1 <= b < INT_LIMIT
    ensures CursorA(Pack(a, b)) == a && CursorB(Pack(a, b)) == b
    ensures Pack(a, b) <= ULLONG_MAX
    ensures Pack(a, b) == ULLONG_MAX <==> a == -1 && b == -1
    ensures 0 <= a && 0 <= b ==> Pack(a, b) == a + 0x1_0000_0000 * b
  {
    assert Pack(a, b) / WORD == ToWord(b) && Pack(a, b) % WORD == ToWord(a);
  }

  // ----- What a walk yields -----

  /** The j-th gap of b ends where region j starts; the last one ends at PHYS_ADDR_MAX. */
  function GapStart(b: seq<Region>, j: nat): nat
    requires j <= |b|
  {
    if j == 0 then 0 else b[j - 1].End()
  }

  function GapEnd(b: seq<Region>, j: nat): nat
    requires j <= |b|
  {
    if j < |b| then b[j].base else PHYS_ADDR_MAX
  }

  /** Region i of a is selected and meets gap j of b. */
  predicate Hits(sel: Selector, a: seq<Region>, b: seq<Region>, i: nat, j: nat)
    requires i < |a| && j <= |b|
  {
    !sel.Skips(a[i]) && GapStart(b, j) < a[i].End() && a[i].base < GapEnd(b, j)
  }

  function RangeAt(a: seq<Region>, b: seq<Region>, i: nat, j: nat): Range
    requires i < |a| && j <= |b|
  {
    Range(Max(a[i].base, GapStart(b, j)), Min(a[i].End(), GapEnd(b, j)), a[i].nid)
  }

  function Cell(sel: Selector, a: seq<Region>, b: seq<Region>, i: nat, j: nat): seq<Range>
    requires i < |a| && j <= |b|
  {
    if Hits(sel, a, b, i, j) then [RangeAt(a, b, i, j)] else []
  }

  /** The ranges of region i in the gaps from j on. */
  function Row(sel: Selector, a: seq<Region>, b: seq<Region>, i: nat, j: nat): seq<Range>
    requires i < |a| && j <= |b| + 1
    decreases |b| + 1 - j
  {
    if j == |b| + 1 then [] else Cell(sel, a, b, i, j) + Row(sel, a, b, i, j + 1)
  }

  /** The ranges of the regions from i on. */
  function Rows(sel: Selector, a: seq<Region>, b: seq<Region>, i: nat): seq<Range>
    requires i <= |a|
    decreases |a| - i
  {
    if i == |a| then [] else Row(sel, a, b, i, 0) + Rows(sel, a, b, i + 1)
  }

  /** All ranges of a outside b, from the lowest to the highest. */
  function AllRanges(sel: Selector, a: seq<Region>, b: seq<Region>): seq<Range> {
    Rows(sel, a, b, 0)
  }

  /** What a forward walk has still to yield at cursor (i, j). */
  function Ahead(sel: Selector, a: seq<Region>, b: seq<Region>, i: nat, j: nat): seq<Range>
    requires i <= |a| && j <= |b|
  {
    if i == |a| then [] else Row(sel, a, b, i, j) + Rows(sel, a, b, i + 1)
  }

  /** No region after i meets a gap before j, so the walk may forget those gaps. */
  ghost predicate PassedGaps(sel: Selector, a: seq<Region>, b: seq<Region>, i: nat, j: nat)
    requires j <= |b|
  {
    forall i', j' | i < i' < |a| && 0 <= j' < j :: !Hits(sel, a, b, i', j')
  }

  lemma {:induction false} RowPassed(sel: Selector, a: seq<Region>, b: seq<Region>, i: nat, j: nat)
    requires i < |a| && j <= |b| + 1
    requires forall j' | 0 <= j' < j :: !Hits(sel, a, b, i, j')
    ensures Row(sel, a, b, i, 0) == Row(sel, a, b, i, j)
    decreases j
  {
    if j > 0 {
      RowPassed(sel, a, b, i, j - 1);
      assert !Hits(sel, a, b, i, j - 1);
    }
  }

  lemma {:induction false} RowEmpty(sel: Selector, a: seq<Region>, b: seq<Region>, i: nat, j: nat)
    requires i < |a| && j <= |b| + 1
    requires forall j' | j <= j' <= |b| :: !Hits(sel, a, b, i, j')
    ensures Row(sel, a, b, i, j) == []
    decreases |b| + 1 - j
  {
    if j <= |b| { RowEmpty(sel, a, b, i, j + 1); }
  }

  lemma {:induction false} GapStartGrows(b: seq<Region>, j: nat, k: nat)
    requires WellFormed(b) && j < k <= |b|
    ensures GapEnd(b, j) <= GapStart(b, k)
  {
    if j < k - 1 { assert b[j].End() <= b[k - 1].base; }
  }

  /** Region i yields nothing more from gap j on: go to region i + 1 and keep the gap. */
  lemma {:induction false} NextRegion(sel: Selector, a: seq<Region>, b: seq<Region>, i: nat, j: nat)
    requires i < |a| && j <= |b| && PassedGaps(sel, a, b, i, j)
    requires forall j' | j <= j' <= |b| :: !Hits(sel, a, b, i, j')
    ensures Ahead(sel, a, b, i, j) == Ahead(sel, a, b, i + 1, j)
    ensures PassedGaps(sel, a, b, i + 1, j)
  {
    RowEmpty(sel, a, b, i, j);
    if i + 1 < |a| { RowPassed(sel, a, b, i + 1, j); }
  }

  /** Gap j ends before region i starts: go to gap j + 1. */
  lemma {:induction false} NextGap(sel: Selector, a: seq<Region>, b: seq<Region>, i: nat, j: nat)
    requires WellFormed(a) && i < |a| && j < |b| && PassedGaps(sel, a, b, i, j)
    requires GapEnd(b, j) <= a[i].base
    ensures Ahead(sel, a, b, i, j) == Ahead(sel, a, b, i, j + 1)
    ensures PassedGaps(sel, a, b, i, j + 1)
  {
    forall i' | i < i' < |a| ensures !Hits(sel, a, b, i', j) {
      assert a[i].End() <= a[i'].base;
    }
  }

  /** A hit that ends with the region: the walk goes on at region i + 1. */
  lemma {:induction false} HitEndsRegion(sel: Selector, a: seq<Region>, b: seq<Region>, i: nat, j: nat)
    requires WellFormed(b) && i < |a| && j <= |b| && PassedGaps(sel, a, b, i, j)
    requires Hits(sel, a, b, i, j) && a[i].End() <= GapEnd(b, j)
    ensures Ahead(sel, a, b, i, j) == [RangeAt(a, b, i, j)] + Ahead(sel, a, b, i + 1, j)
    ensures PassedGaps(sel, a, b, i + 1, j)
  {
    forall j' | j < j' <= |b| ensures !Hits(sel, a, b, i, j') { GapStartGrows(b, j, j'); }
    RowEmpty(sel, a, b, i, j + 1);
    if i + 1 < |a| { RowPassed(sel, a, b, i + 1, j); }
  }

  /** A hit that ends with the gap: the walk goes on at gap j + 1. */
  lemma {:induction false} HitEndsGap(sel: Selector, a: seq<Region>, b: seq<Region>, i: nat, j: nat)
    requires WellFormed(a) && i < |a| && j < |b| && PassedGaps(sel, a, b, i, j)
    requires Hits(sel, a, b, i, j) && GapEnd(b, j) < a[i].End()
    ensures Ahead(sel, a, b, i, j) == [RangeAt(a, b, i, j)] + Ahead(sel, a, b, i, j + 1)
    ensures PassedGaps(sel, a, b, i, j + 1)
  {
    forall i' | i < i' < |a| ensures !Hits(sel, a, b, i', j) {
      assert a[i].End() <= a[i'].base;
    }
  }

  /** The regions of a table that may be absent. */
  ghost function Taken(b: MemblockType?): seq<Region>
    requires b != null ==> b.Shape()
    reads b, if b == null then {} else {b.regions}
  {
    if b == null then [] else b.Contents()
  }

  /** Both tables can be walked with C int indices. */
  ghost predicate Walkable(a: MemblockType, b: MemblockType?)
    reads a, a.regions, b, if b == null then {} else {b.regions}
  {
    && a.Shape() && WellFormed(a.Contents()) && a.cnt < INT_LIMIT
    && (b != null ==> b.Shape() && WellFormed(b.Contents()) && b.cnt < INT_LIMIT)
  }

  /** __next_mem_range. */
  method NextMemRange(cursor: nat, sel: Selector, a: MemblockType, b: MemblockType?)
    returns (next: nat, r: Range)
    requires Walkable(a, b)
    requires 0 <= CursorA(cursor) <= a.cnt && 0 <= CursorB(cursor) <= |Taken(b)|
    requires PassedGaps(sel, a.Contents(), Taken(b), CursorA(cursor), CursorB(cursor))
    ensures var todo := Ahead(sel, a.Contents(), Taken(b), CursorA(cursor), CursorB(cursor));
            if next == ULLONG_MAX then todo == []
            else
              && 0 <= CursorA(next) <= a.cnt && 0 <= CursorB(next) <= |Taken(b)|
              && PassedGaps(sel, a.Contents(), Taken(b), CursorA(next), CursorB(next))
              && todo == [r] + Ahead(sel, a.Contents(), Taken(b), CursorA(next), CursorB(next))
  {
    hide Ahead, PassedGaps, Selector.Skips, Pack, CursorA, CursorB, Sorted;
    ghost var s, t := a.Contents(), Taken(b);
    var idxA, idxB := CursorA(cursor), CursorB(cursor);
    ghost var todo := Ahead(sel, s, t, idxA, idxB);
    r := Range(0, 0, 0);
    while idxA < a.cnt
      invariant 0 <= idxA <= a.cnt && 0 <= idxB <= |t|
      invariant todo == Ahead(sel, s, t, idxA, idxB) && PassedGaps(sel, s, t, idxA, idxB)
    {
      var m := a.regions[idxA];
      if sel.Skips(m) {
        NextRegion(sel, s, t, idxA, idxB);
        idxA := idxA + 1;
        continue;
      }
      if b == null {
        HitEndsRegion(sel, s, t, idxA, idxB);
        r := Range(m.base, m.base + m.size, m.nid);
        PackInverse(idxA + 1, idxB);
        return Pack(idxA + 1, idxB), r;
      }
      while idxB < b.cnt + 1
        invariant 0 <= idxB <= |t|
        invariant todo == Ahead(sel, s, t, idxA, idxB) && PassedGaps(sel, s, t, idxA, idxB)
      {
        var rStart := if idxB > 0 then b.regions[idxB - 1].base + b.regions[idxB - 1].size else 0;
        var rEnd := if idxB < b.cnt then b.regions[idxB].base else PHYS_ADDR_MAX;
        if rStart >= m.base + m.size { break; }
        if m.base < rEnd {
          r := Range(Max(m.base, rStart), Min(m.base + m.size, rEnd), m.nid);
          if m.base + m.size <= rEnd {
            HitEndsRegion(sel, s, t, idxA, idxB);
            idxA := idxA + 1;
          } else {
            HitEndsGap(sel, s, t, idxA, idxB);
            idxB := idxB + 1;
          }
          PackInverse(idxA, idxB);
          return Pack(idxA, idxB), r;
        }
        NextGap(sel, s, t, idxA, idxB);
        idxB := idxB + 1;
      }
      NoHitsFrom(sel, s, t, idxA, idxB);
      NextRegion(sel, s, t, idxA, idxB);
      idxA := idxA + 1;
    }
    AheadEnd(sel, s, t, idxB);
    return ULLONG_MAX, r;
  }

  lemma {:induction false} NoHitsFrom(sel: Selector, a: seq<Region>, b: seq<Region>, i: nat, j: nat)
    requires WellFormed(b) && i < |a| && j <= |b| && a[i].End() <= GapStart(b, j)
    ensures forall j' | j <= j' <= |b| :: !Hits(sel, a, b, i, j')
  {
    forall j' | j <= j' <= |b| ensures !Hits(sel, a, b, i, j') {
      if j < j' { GapStartGrows(b, j, j'); GapOrder(b, j); }
    }
  }

  lemma {:induction false} NoHitsUpTo(sel: Selector, a: seq<Region>, b: seq<Region>, i: nat, j: nat)
    requires WellFormed(b) && i < |a| && j <= |b| && GapEnd(b, j) <= a[i].base
    ensures forall j' | 0 <= j' <= j :: !Hits(sel, a, b, i, j')
  {
    forall j' | 0 <= j' <= j ensures !Hits(sel, a, b, i, j') {
      if j' < j { GapStartGrows(b, j', j); GapOrder(b, j); }
    }
  }

  lemma {:induction false} AheadEnd(sel: Selector, a: seq<Region>, b: seq<Region>, j: nat)
    requires j <= |b|
    ensures Ahead(sel, a, b, |a|, j) == []
  {
  }

  lemma {:induction false} WalkStart(sel: Selector, a: seq<Region>, b: seq<Region>)
    ensures CursorA(0) == 0 && CursorB(0) == 0
    ensures Ahead(sel, a, b, 0, 0) == AllRanges(sel, a, b)
    ensures PassedGaps(sel, a, b, 0, 0)
  {
  }

  /** The loop of __for_each_mem_range yields every range, in order. */
  method WalkForward(sel: Selector, a: MemblockType, b: MemblockType?) returns (out: seq<Range>)
    requires Walkable(a, b)
    ensures out == AllRanges(sel, a.Contents(), Taken(b))
  {
    hide Ahead, AllRanges, PassedGaps;
    ghost var s, t := a.Contents(), Taken(b);
    out := [];
    WalkStart(sel, s, t);
    var i, r := NextMemRange(0, sel, a, b);
    ghost var todo := Ahead(sel, s, t, 0, 0);
    while i != ULLONG_MAX
      invariant out + todo == AllRanges(sel, s, t)
      invariant i == ULLONG_MAX ==> todo == []
      invariant i != ULLONG_MAX ==>
                  && 0 <= CursorA(i) <= a.cnt && 0 <= CursorB(i) <= |t|
                  && PassedGaps(sel, s, t, CursorA(i), CursorB(i))
                  && todo == [r] + Ahead(sel, s, t, CursorA(i), CursorB(i))
      decreases |todo|
    {
      out := out + [r];
      todo := Ahead(sel, s, t, CursorA(i), CursorB(i));
      i, r := NextMemRange(i, sel, a, b);
    }
  }

  // ----- The reverse walk -----

  /** The ranges of region i in the gaps up to j. */
  function RowUpTo(sel: Selector, a: seq<Region>, b: seq<Region>, i: nat, j: int): seq<Range>
    requires i < |a| && -1 <= j <= |b|
    decreases j + 1
  {
    if j == -1 then [] else RowUpTo(sel, a, b, i, j - 1) + Cell(sel, a, b, i, j)
  }

  function RowsUpTo(sel: Selector, a: seq<Region>, b: seq<Region>, i: int): seq<Range>
    requires -1 <= i < |a|
    decreases i + 1
  {
    if i == -1 then [] else RowsUpTo(sel, a, b, i - 1) + RowUpTo(sel, a, b, i, |b|)
  }

  /** What a reverse walk has still to yield at cursor (i, j), last first. */
  function Behind(sel: Selector, a: seq<Region>, b: seq<Region>, i: int, j: int): seq<Range>
    requires -1 <= i < |a| && -1 <= j <= |b|
  {
    if i == -1 then [] else RowsUpTo(sel, a, b, i - 1) + RowUpTo(sel, a, b, i, j)
  }

  ghost predicate PassedGapsRev(sel: Selector, a: seq<Region>, b: seq<Region>, i: int, j: int)
    requires i < |a| && -1 <= j
  {
    forall i', j' | 0 <= i' < i && j < j' <= |b| :: !Hits(sel, a, b, i', j')
  }

  lemma {:induction false} RowHalves(sel: Selector, a: seq<Region>, b: seq<Region>, i: nat, j: nat)
    requires i < |a| && j <= |b| + 1
    ensures Row(sel, a, b, i, 0) == RowUpTo(sel, a, b, i, j - 1) + Row(sel, a, b, i, j)
    decreases j
  {
    if j > 0 { RowHalves(sel, a, b, i, j - 1); }
  }

  lemma {:induction false} RowsStep(sel: Selector, a: seq<Region>, b: seq<Region>, i: nat)
    requires i < |a|
    ensures Rows(sel, a, b, i) == Row(sel, a, b, i, 0) + Rows(sel, a, b, i + 1)
    ensures RowsUpTo(sel, a, b, i) == RowsUpTo(sel, a, b, i - 1) + RowUpTo(sel, a, b, i, |b|)
    ensures Row(sel, a, b, i, |b| + 1) == []
  {
  }

  lemma {:induction false} RowsUpToNone(sel: Selector, a: seq<Region>, b: seq<Region>)
    ensures RowsUpTo(sel, a, b, -1) == []
  {
  }

  lemma {:induction false} RowsHalves(sel: Selector, a: seq<Region>, b: seq<Region>, i: nat)
    requires i <= |a|
    ensures AllRanges(sel, a, b) == RowsUpTo(sel, a, b, i - 1) + Rows(sel, a, b, i)
    decreases i
  {
    hide Row, Rows, RowUpTo, RowsUpTo;
    if i == 0 {
      RowsUpToNone(sel, a, b);
    } else {
      RowsHalves(sel, a, b, i - 1);
      RowHalves(sel, a, b, i - 1, |b| + 1);
      RowsStep(sel, a, b, i - 1);
    }
  }

  lemma {:induction false} RowUpToPassed(sel: Selector, a: seq<Region>, b: seq<Region>, i: nat, j: int)
    requires i < |a| && -1 <= j <= |b|
    requires forall j' | j < j' <= |b| :: !Hits(sel, a, b, i, j')
    ensures RowUpTo(sel, a, b, i, |b|) == RowUpTo(sel, a, b, i, j)
    decreases |b| - j
  {
    if j < |b| {
      RowUpToPassed(sel, a, b, i, j + 1);
      assert !Hits(sel, a, b, i, j + 1);
    }
  }

  lemma {:induction false} RowUpToEmpty(sel: Selector, a: seq<Region>, b: seq<Region>, i: nat, j: int)
    requires i < |a| && -1 <= j <= |b|
    requires forall j' | 0 <= j' <= j :: !Hits(sel, a, b, i, j')
    ensures RowUpTo(sel, a, b, i, j) == []
    decreases j + 1
  {
    if j >= 0 { RowUpToEmpty(sel, a, b, i, j - 1); }
  }

  lemma {:induction false} RowUpToPeel(sel: Selector, a: seq<Region>, b: seq<Region>, i: nat, j: nat)
    requires i < |a| && j <= |b|
    ensures RowUpTo(sel, a, b, i, j) == RowUpTo(sel, a, b, i, j - 1) + Cell(sel, a, b, i, j)
  {
  }

  lemma {:induction false} RowsUpToPeel(sel: Selector, a: seq<Region>, b: seq<Region>, i: int)
    requires -1 <= i < |a|
    ensures RowsUpTo(sel, a, b, i)
         == if i == -1 then [] else RowsUpTo(sel, a, b, i - 1) + RowUpTo(sel, a, b, i, |b|)
  {
  }

  lemma {:induction false} PrevRegion(sel: Selector, a: seq<Region>, b: seq<Region>, i: nat, j: nat)
    requires i < |a| && j <= |b| && PassedGapsRev(sel, a, b, i, j)
    requires forall j' | 0 <= j' <= j :: !Hits(sel, a, b, i, j')
    ensures Behind(sel, a, b, i, j) == Behind(sel, a, b, i - 1, j)
    ensures PassedGapsRev(sel, a, b, i - 1, j)
  {
    hide RowUpTo, RowsUpTo;
    RowUpToEmpty(sel, a, b, i, j);
    RowsUpToPeel(sel, a, b, i - 1);
    if i > 0 { RowUpToPassed(sel, a, b, i - 1, j); }
  }

  lemma {:induction false} PrevGap(sel: Selector, a: seq<Region>, b: seq<Region>, i: nat, j: nat)
    requires WellFormed(a) && i < |a| && 0 < j <= |b| && PassedGapsRev(sel, a, b, i, j)
    requires a[i].End() <= GapStart(b, j)
    ensures Behind(sel, a, b, i, j) == Behind(sel, a, b, i, j - 1)
    ensures PassedGapsRev(sel, a, b, i, j - 1)
  {
    forall i' | 0 <= i' < i ensures !Hits(sel, a, b, i', j) {
      assert a[i'].End() <= a[i].base;
    }
  }

  lemma {:induction false} HitStartsRegion(sel: Selector, a: seq<Region>, b: seq<Region>, i: nat, j: nat)
    requires WellFormed(b) && i < |a| && j <= |b| && PassedGapsRev(sel, a, b, i, j)
    requires Hits(sel, a, b, i, j) && GapStart(b, j) <= a[i].base
    ensures Behind(sel, a, b, i, j) == Behind(sel, a, b, i - 1, j) + [RangeAt(a, b, i, j)]
    ensures PassedGapsRev(sel, a, b, i - 1, j)
  {
    hide RowUpTo, RowsUpTo;
    forall j' | 0 <= j' < j ensures !Hits(sel, a, b, i, j') { GapStartGrows(b, j', j); }
    RowUpToEmpty(sel, a, b, i, j - 1);
    RowUpToPeel(sel, a, b, i, j);
    RowsUpToPeel(sel, a, b, i - 1);
    if i > 0 { RowUpToPassed(sel, a, b, i - 1, j); }
  }

  lemma {:induction false} HitStartsGap(sel: Selector, a: seq<Region>, b: seq<Region>, i: nat, j: nat)
    requires WellFormed(a) && i < |a| && 0 < j <= |b| && PassedGapsRev(sel, a, b, i, j)
    requires Hits(sel, a, b, i, j) && a[i].base < GapStart(b, j)
    ensures Behind(sel, a, b, i, j) == Behind(sel, a, b, i, j - 1) + [RangeAt(a, b, i, j)]
    ensures PassedGapsRev(sel, a, b, i, j - 1)
  {
    forall i' | 0 <= i' < i ensures !Hits(sel, a, b, i', j) {
      assert a[i'].End() <= a[i].base;
    }
  }

  lemma {:induction false} BehindEnd(sel: Selector, a: seq<Region>, b: seq<Region>, j: nat)
    requires j <= |b|
    ensures Behind(sel, a, b, -1, j) == []
  {
  }

  lemma {:induction false} WalkStartRev(sel: Selector, a: seq<Region>, b: seq<Region>)
    ensures Behind(sel, a, b, |a| - 1, |b|) == AllRanges(sel, a, b)
    ensures PassedGapsRev(sel, a, b, |a| - 1, |b|)
  {
    RowsHalves(sel, a, b, |a|);
  }

  /** The index pair at which __next_mem_range_rev starts. */
  function StartA(cursor: nat, a: seq<Region>): int {
    if cursor == ULLONG_MAX then |a| - 1 else CursorA(cursor)
  }

  function StartB(cursor: nat, b: seq<Region>): int {
    if cursor == ULLONG_MAX then |b| else CursorB(cursor)
  }

  lemma {:induction false} NoneTaken()
    ensures WellFormed([])
  {
  }

  /** __next_mem_range_rev. */
  method NextMemRangeRev(cursor: nat, sel: Selector, a: MemblockType, b: MemblockType?)
    returns (next: nat, r: Range)
    requires Walkable(a, b)
    requires -1 <= StartA(cursor, a.Contents()) < a.cnt && 0 <= StartB(cursor, Taken(b)) <= |Taken(b)|
    requires PassedGapsRev(sel, a.Contents(), Taken(b), StartA(cursor, a.Contents()), StartB(cursor, Taken(b)))
    ensures var todo := Behind(sel, a.Contents(), Taken(b), StartA(cursor, a.Contents()), StartB(cursor, Taken(b)));
            if next == ULLONG_MAX then todo == []
            else
              && -1 <= CursorA(next) < a.cnt && 0 <= CursorB(next) <= |Taken(b)|
              && PassedGapsRev(sel, a.Contents(), Taken(b), CursorA(next), CursorB(next))
              && todo == Behind(sel, a.Contents(), Taken(b), CursorA(next), CursorB(next)) + [r]
  {
    hide Behind, PassedGapsRev, Selector.Skips, Pack, CursorA, CursorB, Sorted;
    ghost var s, t := a.Contents(), Taken(b);
    var idxA, idxB := CursorA(cursor), CursorB(cursor);
    if cursor == ULLONG_MAX {
      idxA := a.cnt - 1;
      idxB := if b != null then b.cnt else 0;
    }
    ghost var todo := Behind(sel, s, t, idxA, idxB);
    r := Range(0, 0, 0);
    while idxA >= 0
      invariant -1 <= idxA < a.cnt && 0 <= idxB <= |t|
      invariant todo == Behind(sel, s, t, idxA, idxB) && PassedGapsRev(sel, s, t, idxA, idxB)
    {
      var m := a.regions[idxA];
      if sel.Skips(m) {
        PrevRegion(sel, s, t, idxA, idxB);
        idxA := idxA - 1;
        continue;
      }
      if b == null {
        NoneTaken();
        HitStartsRegion(sel, s, t, idxA, idxB);
        r := Range(m.base, m.base + m.size, m.nid);
        PackInverse(idxA - 1, idxB);
        return Pack(idxA - 1, idxB), r;
      }
      while idxB >= 0
        invariant 0 <= idxB <= |t|
        invariant todo == Behind(sel, s, t, idxA, idxB) && PassedGapsRev(sel, s, t, idxA, idxB)
        decreases idxB
      {
        var rStart := if idxB > 0 then b.regions[idxB - 1].base + b.regions[idxB - 1].size else 0;
        var rEnd := if idxB < b.cnt then b.regions[idxB].base else PHYS_ADDR_MAX;
        if rEnd <= m.base { break; }
        if m.base + m.size > rStart {
          r := Range(Max(m.base, rStart), Min(m.base + m.size, rEnd), m.nid);
          if m.base >= rStart {
            HitStartsRegion(sel, s, t, idxA, idxB);
            idxA := idxA - 1;
          } else {
            HitStartsGap(sel, s, t, idxA, idxB);
            idxB := idxB - 1;
          }
          PackInverse(idxA, idxB);
          return Pack(idxA, idxB), r;
        }
        PrevGap(sel, s, t, idxA, idxB);
        idxB := idxB - 1;
      }
      NoHitsUpTo(sel, s, t, idxA, idxB);
      PrevRegion(sel, s, t, idxA, idxB);
      idxA := idxA - 1;
    }
    BehindEnd(sel, s, t, idxB);
    return ULLONG_MAX, r;
  }

  lemma {:induction false} GapOrder(b: seq<Region>, j: nat)
    requires WellFormed(b) && j <= |b|
    ensures GapStart(b, j) <= GapEnd(b, j)
  {
    if 0 < j { assert b[j - 1].Proper(); }
    if 0 < j < |b| { assert b[j - 1].End() <= b[j].base; }
  }

  function Reversed(s: seq<Range>): seq<Range> {
    if s == [] then [] else [s[|s| - 1]] + Reversed(s[..|s| - 1])
  }

  lemma {:induction false} ReversedEmpty()
    ensures Reversed([]) == []
  {
  }

  lemma {:induction false} ReversedAppend(s: seq<Range>, r: Range)
    ensures Reversed(s + [r]) == [r] + Reversed(s)
  {
    assert (s + [r])[..|s|] == s;
  }

  /** The loop of __for_each_mem_range_rev yields the same ranges in the opposite order. */
  method WalkReverse(sel: Selector, a: MemblockType, b: MemblockType?) returns (out: seq<Range>)
    requires Walkable(a, b)
    ensures out == Reversed(AllRanges(sel, a.Contents(), Taken(b)))
  {
    hide Behind, AllRanges, PassedGapsRev, Reversed;
    ghost var s, t := a.Contents(), Taken(b);
    out := [];
    WalkStartRev(sel, s, t);
    ReversedEmpty();
    ghost var todo := AllRanges(sel, s, t);
    var i, r := NextMemRangeRev(ULLONG_MAX, sel, a, b);
    while i != ULLONG_MAX
      invariant out + Reversed(todo) == Reversed(AllRanges(sel, s, t))
      invariant i == ULLONG_MAX ==> todo == []
      invariant i != ULLONG_MAX ==>
                  && -1 <= CursorA(i) < a.cnt && 0 <= CursorB(i) <= |t|
                  && PassedGapsRev(sel, s, t, CursorA(i), CursorB(i))
                  && todo == Behind(sel, s, t, CursorA(i), CursorB(i)) + [r]
      decreases |todo|
    {
      ReversedAppend(Behind(sel, s, t, CursorA(i), CursorB(i)), r);
      out := out + [r];
      todo := Behind(sel, s, t, CursorA(i), CursorB(i));
      i, r := NextMemRangeRev(i, sel, a, b);
    }
  }
}
