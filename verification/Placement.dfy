/**
 Where an allocation may lie and which place it gets, said without the search: the bounds of a
 request, the memory it may use, and the order in which nodes and mirrored memory are preferred.
 */
module Placement {
  import opened Basics
  import opened Regions
  import opened RegionOps
  import opened FreeRanges
  import opened Bits
  import opened Search
  import opened Growth
  import opened Worlds

  /** A request; an end of 0 or 1 stands for the current limit, an alignment of 0 for a cache line. */
  datatype Need = Need(size: nat, align: nat, start: nat, end: nat, limit: nat) {

    /** The block at c is aligned, above the first page, and between start and end. */
    predicate Admits(c: nat) {
      && c % (if align == 0 then 64 else align) == 0 && start <= c && 0x1000 <= c
      && c + size <= if end <= 1 then limit else end
    }
  }

  /**
   The memory that a request for a node, with these flags, may use: memory of that node if it
   names one, mirrored memory only if asked for (0x2), memory without a mapping (0x4) or managed by
   a driver (0x8) not unless asked for, and of handover scratch memory (0x40) only that if asked for.
   */
  predicate Eligible(r: Region, nid: int, flags: Flags) {
    && (0 <= nid < 16 ==> r.nid == nid)
    && (flags & 0x2 != 0 ==> r.flags & 0x2 != 0)
    && (r.flags & 0x4 != 0 ==> flags & 0x4 != 0)
    && (r.flags & 0x8 != 0 ==> flags & 0x8 != 0)
    && (flags & 0x40 != 0 ==> r.flags & 0x40 != 0)
  }

  lemma {:induction false} EligibleExactly(r: Region, nid: int, flags: Flags)
    ensures !Selector(true, nid, flags).Skips(r) <==> Eligible(r, nid, flags)
    ensures !Selector(false, nid, flags).Skips(r)
  {
  }

  /** Ordinary requests never get memory without a mapping or managed by a driver. */
  lemma {:induction false} OrdinaryMemory(r: Region, nid: int, mirror: bool)
    ensures var sel := Selector(true, nid, if mirror then MEMBLOCK_MIRROR else MEMBLOCK_NONE);
            !sel.Skips(r) <==>
            (0 <= nid < 16 ==> r.nid == nid) && (mirror ==> r.flags & 0x2 != 0) && r.flags & 0xC == 0
  {
    var f := r.flags;
    assert f & 0xC == 0 <==> f & 0x4 == 0 && f & 0x8 == 0;
    assert 0x2 as Flags & 0x4 == 0 && 0x2 as Flags & 0x8 == 0 && 0x2 as Flags & 0x40 == 0;
  }

  /** The block at c is free, in memory that the request may use. */
  ghost predicate Free(m: seq<Region>, s: seq<Region>, nid: int, flags: Flags, n: Need, c: nat) {
    n.Admits(c) && Usable(m, nid, flags, c, c + n.size) && Avoids(s, c, c + n.size)
  }

  ghost predicate Usable(m: seq<Region>, nid: int, flags: Flags, lo: nat, hi: nat) {
    exists i :: 0 <= i < |m| && Eligible(m[i], nid, flags) && m[i].base <= lo && hi <= m[i].base + m[i].size
  }

  ghost predicate SomeFree(m: seq<Region>, s: seq<Region>, nid: int, flags: Flags, n: Need) {
    exists c: nat :: Free(m, s, nid, flags, n, c)
  }

  ghost predicate Highest(m: seq<Region>, s: seq<Region>, nid: int, flags: Flags, n: Need, r: nat) {
    Free(m, s, nid, flags, n, r) && forall c: nat | Free(m, s, nid, flags, n, c) :: c <= r
  }

  /**
   The request gets r, recorded for node on, or 0.  With mirrored memory in the system that goes
   first; the node asked for goes before the others, which are used unless only that node will do.
   */
  ghost predicate Served(mirror: bool, m: seq<Region>, s: seq<Region>, nid: int, exactNid: bool, n: Need, r: nat,
                         on: int)
  {
    var first: Flags, others := if mirror then 0x2 else 0, 0 <= nid < 16 && !exactNid;
    if SomeFree(m, s, nid, first, n) then on == nid && Highest(m, s, nid, first, n, r)
    else if others && SomeFree(m, s, -1, first, n) then on == -1 && Highest(m, s, -1, first, n, r)
    else if SomeFree(m, s, nid, 0, n) then on == nid && Highest(m, s, nid, 0, n, r)
    else if others && SomeFree(m, s, -1, 0, n) then on == -1 && Highest(m, s, -1, 0, n, r)
    else r == 0
  }

  /** The bounds that the search is given. */
  function Asked(n: Need): (q: Bounds)
    ensures 0 < q.align
  {
    NodeBounds(n.size, CacheAlign(n.align), n.start, n.end, n.limit)
  }

  /** The bounds that the search is given are those of the request. */
  lemma {:induction false} BoundsExactly(n: Need, c: nat)
    requires 0 < n.size
    ensures Asked(n).Admits(c) <==> n.Admits(c)
  {
  }

  lemma {:induction false} UsableExactly(m: seq<Region>, nid: int, flags: Flags, lo: nat, hi: nat)
    ensures InOneRegion(Selector(true, nid, flags), m, lo, hi) <==> Usable(m, nid, flags, lo, hi)
  {
    hide Selector.Skips, Eligible;
    var sel := Selector(true, nid, flags);
    forall i | 0 <= i < |m| ensures !sel.Skips(m[i]) <==> Eligible(m[i], nid, flags) {
      EligibleExactly(m[i], nid, flags);
    }
    if InOneRegion(sel, m, lo, hi) {
      var i :| 0 <= i < |m| && !sel.Skips(m[i]) && m[i].base <= lo && hi <= m[i].End();
      assert Eligible(m[i], nid, flags);
    }
    if Usable(m, nid, flags, lo, hi) {
      var i :| 0 <= i < |m| && Eligible(m[i], nid, flags) && m[i].base <= lo && hi <= m[i].base + m[i].size;
      assert !sel.Skips(m[i]);
    }
  }

  lemma {:induction false} FitsExactly(m: seq<Region>, s: seq<Region>, nid: int, flags: Flags, n: Need, c: nat)
    requires 0 < n.size
    ensures Fits(Selector(true, nid, flags), m, s, Asked(n), c)
            <==> Free(m, s, nid, flags, n, c)
  {
    hide InOneRegion, Usable, Need.Admits, Bounds.Admits;
    BoundsExactly(n, c);
    UsableExactly(m, nid, flags, c, c + n.size);
  }

  /** What the search finds: the highest free block, or 0 when there is none. */
  lemma {:induction false} BestExactly(m: seq<Region>, s: seq<Region>, nid: int, flags: Flags, n: Need, r: nat)
    requires 0 < n.size
    ensures IsBest(Selector(true, nid, flags), m, s, Asked(n), r)
            <==> if r == 0 then !SomeFree(m, s, nid, flags, n) else Highest(m, s, nid, flags, n, r)
  {
    hide Fits, Free, Asked;
    forall c: nat ensures Fits(Selector(true, nid, flags), m, s, Asked(n), c) <==> Free(m, s, nid, flags, n, c) {
      FitsExactly(m, s, nid, flags, n, c);
    }
    if Free(m, s, nid, flags, n, 0) { NotAtZero(m, s, nid, flags, n); }
  }

  lemma {:induction false} NotAtZero(m: seq<Region>, s: seq<Region>, nid: int, flags: Flags, n: Need)
    ensures !Free(m, s, nid, flags, n, 0)
  {
  }

  /** memblock_find_in_range: mirrored memory first, of any node. */
  lemma {:induction false} PicksExactly(mirror: bool, m: seq<Region>, s: seq<Region>, n: Need, r: nat)
    requires 0 < n.size
    ensures Picks(mirror, m, s, Asked(n), r) <==> Served(mirror, m, s, NUMA_NO_NODE, false, n, r, NUMA_NO_NODE)
  {
    hide IsBest, SomeFree, Highest, Asked;
    forall flags: Flags, c: nat | flags in {0x2, 0} && c in {0, r}
      ensures IsBest(Selector(true, NUMA_NO_NODE, flags), m, s, Asked(n), c) <==>
              if c == 0 then !SomeFree(m, s, NUMA_NO_NODE, flags, n) else Highest(m, s, NUMA_NO_NODE, flags, n, c)
    {
      BestExactly(m, s, NUMA_NO_NODE, flags, n, c);
    }
    HighestSome(m, s, NUMA_NO_NODE, 0x2, n, r);
    HighestSome(m, s, NUMA_NO_NODE, 0, n, r);
  }

  lemma {:induction false} HighestSome(m: seq<Region>, s: seq<Region>, nid: int, flags: Flags, n: Need, r: nat)
    ensures Highest(m, s, nid, flags, n, r) ==> SomeFree(m, s, nid, flags, n) && r != 0
  {
    if Highest(m, s, nid, flags, n, 0) { NotAtZero(m, s, nid, flags, n); }
  }

  /**
   Where a grown array goes: the highest place above the pending range, or else, for a range that
   is not empty, the highest one below it.
   */
  lemma {:induction false} LandsExactly(w: Scene, area: Span, bytes: nat, p: nat)
    requires 0 < bytes
    ensures var above := Need(bytes, 0x1000, area.hi, w.limit, w.limit);
            var below := Need(bytes, 0x1000, 0, if area.lo < w.limit then area.lo else w.limit, w.limit);
            w.Lands(area, bytes, p) <==>
            || (p != 0 && Served(w.mirror, w.mem, w.res, -1, false, above, p, -1))
            || (&& Served(w.mirror, w.mem, w.res, -1, false, above, 0, -1)
                && if area.lo < area.hi then Served(w.mirror, w.mem, w.res, -1, false, below, p, -1) else p == 0)
  {
    hide Served, Picks;
    var above := Need(bytes, 0x1000, area.hi, w.limit, w.limit);
    var below := Need(bytes, 0x1000, 0, if area.lo < w.limit then area.lo else w.limit, w.limit);
    PicksExactly(w.mirror, w.mem, w.res, above, p);
    PicksExactly(w.mirror, w.mem, w.res, above, 0);
    PicksExactly(w.mirror, w.mem, w.res, below, p);
  }
}
