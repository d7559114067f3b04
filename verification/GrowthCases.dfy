/**
 States in which the growth of a table goes wrong: a new array that overlaps the range
 it is grown for, and two new arrays that overlap each other.
 */
module GrowthCases {
  import opened Basics
  import opened Regions
  import opened FreeRanges
  import opened Search
  import opened Growth
  import opened Worlds

  /** n one-byte regions, far above the memory of the cases below. */
  function Specks(base: nat, n: nat): (r: seq<Region>)
    ensures |r| == n && forall k | 0 <= k < n :: r[k] == Region(base + 2 * k, 1, NUMA_NO_NODE, MEMBLOCK_NONE)
  {
    seq(n, k requires 0 <= k < n => Region(base + 2 * k, 1, NUMA_NO_NODE, MEMBLOCK_NONE))
  }

  /** One large region below n specks. */
  function Speckled(size: nat, n: nat): seq<Region> {
    [Region(0x1000, size, NUMA_NO_NODE, MEMBLOCK_NONE)] + Specks(0x1_0000_0000, n)
  }

  lemma {:induction false} SpeckledCanonical(size: nat, n: nat)
    requires 0 < size < 0x1000_0000 && n < 0x1_0000
    ensures Canonical(Speckled(size, n)) && Canonical(Specks(0x1_0000_0000, n)) && |Speckled(size, n)| == n + 1
  {
  }

  lemma {:induction false} SpeckledLookup(size: nat, n: nat, x: int)
    requires x < 0x1_0000_0000
    ensures Lookup(Speckled(size, n), x).Some? <==> 0x1000 <= x < 0x1000 + size
    ensures Lookup(Specks(0x1_0000_0000, n), x).None?
  {
    LookupBelow(Specks(0x1_0000_0000, n), x);
    assert Speckled(size, n)[1..] == Specks(0x1_0000_0000, n);
  }

  /** A block of pages fits into the large region or nowhere. */
  lemma {:induction false} OnlyInFirst(size: nat, n: nat, s: seq<Region>, q: Bounds, c: nat)
    requires 1 < q.size && 0 < q.align
    ensures Fits(AnyMemory(), Speckled(size, n), s, q, c) <==>
              q.Admits(c) && 0x1000 <= c && c + q.size <= 0x1000 + size && Avoids(s, c, c + q.size)
  {
    var m := Speckled(size, n);
    assert !AnyMemory().Skips(m[0]);
  }

  /** The highest page at which a block fits, when the pages above the block are free. */
  lemma {:induction false} TopOfFirst(size: nat, n: nat, s: seq<Region>, q: Bounds, r: nat)
    requires 1 < q.size && q.align == PAGE_SIZE && 0 < r && r % PAGE_SIZE == 0 && q.lo <= r && r + q.size <= q.hi
    requires 0x1000 <= r && r + q.size <= 0x1000 + size < r + q.size + PAGE_SIZE && Avoids(s, r, r + q.size)
    ensures Picks(false, Speckled(size, n), s, q, r)
  {
    OnlyInFirst(size, n, s, q, r);
    forall c: nat | c > r ensures !Fits(AnyMemory(), Speckled(size, n), s, q, c) {
      OnlyInFirst(size, n, s, q, c);
    }
  }

  lemma {:induction false} NoneInFirst(size: nat, n: nat, s: seq<Region>, q: Bounds)
    requires 1 < q.size && 0 < q.align && 0x1000 + size < q.lo + q.size
    ensures Picks(false, Speckled(size, n), s, q, 0)
  {
    forall c: nat ensures !Fits(AnyMemory(), Speckled(size, n), s, q, c) {
      OnlyInFirst(size, n, s, q, c);
    }
  }

  /**
   Memory [0x1000, 0x4000), a full reserved table, and [0, 0x4000) about to be reserved.
   Nothing fits above the pending range; the second search is given the bound 0, takes it
   for "anywhere", and puts the new array at 0x2000, inside the pending range.
   */
  lemma {:induction false} PendingAtZeroOverlaps()
    ensures var here := Scene(false, PHYS_ADDR_MAX, true, Speckled(0x3000, 0), Specks(0x1_0000_0000, 128), 128);
            && Canonical(here.mem) && Canonical(here.res) && |here.res| == here.max
            && here.Lands(Span(0, 0x4000), ArrayBytes(2 * here.max), 0x2000)
            && !Span(0x2000, 0x2000 + ArrayBytes(2 * here.max)).Apart(Span(0, 0x4000))
  {
    var s := Specks(0x1_0000_0000, 128);
    assert ArrayBytes(256) == 0x2000;
    forall x: int | 0x2000 <= x < 0x4000 ensures Lookup(s, x).None? { SpeckledLookup(1, 128, x); }
    NoneInFirst(0x3000, 0, s, NodeBounds(0x2000, PAGE_SIZE, 0x4000, PHYS_ADDR_MAX, PHYS_ADDR_MAX));
    TopOfFirst(0x3000, 0, s, NodeBounds(0x2000, PAGE_SIZE, 0, 0, PHYS_ADDR_MAX), 0x2000);
    SpeckledCanonical(0x3000, 0);
    SpeckledCanonical(0x3000, 128);
  }

  /**
   Memory [0x1000, 0x11000) and 255 specks: a full memory table of 256 regions, its array
   at 0x1000.  The reserved table is full with 128 regions: that array and 127 specks.  The
   new memory array goes to 0xE000; its release of the old one doubles the reserved table,
   whose new array goes to 0xF000, over the entries of the memory table from number 170 on.
   */
  lemma {:induction false} ArraysMeet()
    ensures var here := Scene(false, PHYS_ADDR_MAX, true, Speckled(0x1_0000, 255), Speckled(0x2000, 127), 128);
            var m := ArraySpan(Some(0x1000), 256);
            && Canonical(here.mem) && |here.mem| == 256 && Canonical(here.res) && |here.res| == here.max
            && World(here, m, 256, Span(0, 0)).Valid() && !World(here, m, 256, Span(0, 0)).Clear()
            && here.Lands(Span(0, 0), ArrayBytes(512), 0xE000) && here.Lands(m, ArrayBytes(256), 0xF000)
            && forall k | 170 <= k < 256 :: !EntrySpan(0xE000, k).Apart(ArraySpan(Some(0xF000), 256))
  {
    hide Scene.Lands, Canonical, Specks, Speckled;
    var s, m := Speckled(0x2000, 127), ArraySpan(Some(0x1000), 256);
    var here := Scene(false, PHYS_ADDR_MAX, true, Speckled(0x1_0000, 255), s, 128);
    assert ArrayBytes(256) == 0x2000 && ArrayBytes(512) == 0x3000;
    forall x: int | 0x1000 <= x < 0x1_1000
      ensures Lookup(here.mem, x).Some? && (Lookup(s, x).Some? <==> x < 0x3000)
    {
      SpeckledLookup(0x1_0000, 255, x);
      SpeckledLookup(0x2000, 127, x);
    }
    LandsAbove(0x1_0000, 255, s, 128, Span(0, 0), 0x3000, 0xE000);
    LandsAbove(0x1_0000, 255, s, 128, m, 0x2000, 0xF000);
    SpeckledCanonical(0x1_0000, 255);
    SpeckledCanonical(0x2000, 127);
    here.ClearIs(m, 256, 0xE000);
    assert 0 < 0xF000 && here.Lands(m, ArrayBytes(2 * here.max), 0xF000);
    assert !here.Spares(m, Span(0xE000, 0x1_1000));
  }

  /** Entry k of an array at p. */
  function EntrySpan(p: nat, k: nat): Span {
    Span(p + SIZEOF_REGION * k, p + SIZEOF_REGION * (k + 1))
  }

  lemma {:induction false} LandsAbove(size: nat, n: nat, s: seq<Region>, max: nat, area: Span, bytes: nat, p: nat)
    requires 1 < bytes && p % PAGE_SIZE == 0 && 0x1000 <= p && area.hi <= p < 0x1000_0000 && Avoids(s, p, p + bytes)
    requires p + bytes <= 0x1000 + size < p + bytes + PAGE_SIZE && p + bytes <= PHYS_ADDR_MAX
    ensures Scene(false, PHYS_ADDR_MAX, true, Speckled(size, n), s, max).Lands(area, bytes, p)
  {
    TopOfFirst(size, n, s, NodeBounds(bytes, PAGE_SIZE, area.hi, PHYS_ADDR_MAX, PHYS_ADDR_MAX), p);
  }
}
