/**
 Region arrays that live in the memory they describe.  When a table grows, its new
 array is reserved and the old one released; `Regrown` says what that does to the
 reserved table, and the lemmas say what survives it.
 */
module Growth {
  import opened Basics
  import opened Regions
  import opened RegionOps

  const SIZEOF_REGION: nat := 24

  datatype Span = Span(lo: nat, hi: nat) {
    predicate Has(x: int) { lo <= x < hi }

    predicate Apart(o: Span) { hi <= o.lo || o.hi <= lo || hi <= lo || o.hi <= o.lo }
  }

  function PageAlign(n: nat): (r: nat)
    ensures n <= r < n + PAGE_SIZE && r % PAGE_SIZE == 0
  {
    (n + PAGE_SIZE - 1) / PAGE_SIZE * PAGE_SIZE
  }

  /** Bytes taken from memblock for an array of max regions. */
  function ArrayBytes(max: nat): nat {
    PageAlign(max * SIZEOF_REGION)
  }

  /** The addresses of an array; a static array lies outside the managed memory. */
  function ArraySpan(storage: Option<nat>, max: nat): Span {
    match storage
    case None => Span(0, 0)
    case Some(p) => Span(p, p + ArrayBytes(max))
  }

  /**
   The reserved table s with array span a has become s' with array span a': the new
   array is reserved and was free or part of the old one, the rest of the old array is
   released, and every other address is as before.
   */
  predicate RegrownAt(s: seq<Region>, a: Span, s': seq<Region>, a': Span, x: int) {
    if a'.Has(x) then Lookup(s', x).Some? && (a.Has(x) || Lookup(s, x).None?)
    else if a.Has(x) then Lookup(s', x).None?
    else Lookup(s', x) == Lookup(s, x)
  }

  ghost predicate Regrown(s: seq<Region>, a: Span, s': seq<Region>, a': Span) {
    forall x: int :: RegrownAt(s, a, s', a', x)
  }

  ghost predicate CoversSpan(s: seq<Region>, a: Span) {
    Covers(s, a.lo, a.hi)
  }

  lemma {:induction false} RegrownSame(s: seq<Region>, a: Span)
    requires CoversSpan(s, a)
    ensures Regrown(s, a, s, a)
  {
  }

  /** Growing twice is growing once. */
  lemma {:induction false} RegrownTwice(s: seq<Region>, a: Span, s1: seq<Region>, a1: Span, s2: seq<Region>, a2: Span)
    requires Regrown(s, a, s1, a1) && Regrown(s1, a1, s2, a2)
    ensures Regrown(s, a, s2, a2)
  {
    forall x: int ensures RegrownAt(s, a, s2, a2, x) {
      assert RegrownAt(s, a, s1, a1, x) && RegrownAt(s1, a1, s2, a2, x);
    }
  }

  /** A reserved span that does not meet the old array stays reserved and does not meet the new one. */
  lemma {:induction false} RegrownKeeps(s: seq<Region>, a: Span, s': seq<Region>, a': Span, o: Span)
    requires Regrown(s, a, s', a') && CoversSpan(s, o) && a.Apart(o)
    ensures CoversSpan(s', o) && a'.Apart(o)
  {
    forall x: int | o.lo <= x < o.hi ensures Lookup(s', x).Some? && !a'.Has(x) {
      assert RegrownAt(s, a, s', a', x) && Lookup(s, x).Some?;
    }
    if !a'.Apart(o) {
      var x := Max(a'.lo, o.lo);
      assert a'.Has(x);
    }
  }

  /** Growing outside a range leaves the number of holes in it. */
  lemma {:induction false} RegrownHoles(s: seq<Region>, a: Span, s': seq<Region>, a': Span, p: Span)
    requires Regrown(s, a, s', a') && a.Apart(p) && a'.Apart(p)
    ensures Holes(s, p.lo, p.hi, false) == Holes(s', p.lo, p.hi, false)
  {
    forall x: int | p.lo <= x < p.hi ensures Lookup(s, x).Some? <==> Lookup(s', x).Some? {
      assert RegrownAt(s, a, s', a', x);
    }
    HolesSame(s, s', p.lo, p.hi, false);
  }

  /** Releasing the old array and reserving a new one from free addresses is one growth. */
  lemma {:induction false} MoveIsGrowth(s: seq<Region>, a: Span, a': Span, released: seq<Region>, t: Attr)
    requires Canonical(s) && a'.lo < a'.hi <= PHYS_ADDR_MAX && Avoids(s, a'.lo, a'.hi)
    requires released == if a.lo < a.hi then Erased(s, a.lo, a.hi) else s
    ensures Avoids(released, a'.lo, a'.hi)
    ensures Canonical(Added(released, a'.lo, a'.hi - a'.lo, t))
    ensures Regrown(s, a, Added(released, a'.lo, a'.hi - a'.lo, t), a')
  {
    var s' := Added(released, a'.lo, a'.hi - a'.lo, t);
    if a.lo < a.hi { ErasedIsRestriction(s, a.lo, a.hi); }
    assert WellFormed(released);
    AddedIsUnion(released, a'.lo, a'.hi - a'.lo, t);
    forall x: int ensures RegrownAt(s, a, s', a', x) {
      assert Lookup(s', x) == Overlay(Lookup(released, x), a'.Has(x), t);
      assert a.lo < a.hi ==> Lookup(released, x) == if a.Has(x) then None else Lookup(s, x);
      assert a'.Has(x) ==> Lookup(s, x).None?;
    }
    assert Avoids(released, a'.lo, a'.hi) by {
      forall x: int | a'.lo <= x < a'.hi ensures Lookup(released, x).None? {
        assert a.lo < a.hi ==> Lookup(released, x) == if a.Has(x) then None else Lookup(s, x);
      }
    }
  }

  lemma {:induction false} MergeShrinks(s: seq<Region>)
    ensures |MergeAll(s)| <= |s|
    decreases |s|
  {
    if |s| >= 2 {
      if Mergeable(s[0], s[1]) {
        MergeShrinks([Join(s[0], s[1])] + s[2..]);
      } else {
        MergeShrinks(s[1..]);
      }
    }
  }

  /** Adding keeps what was covered. */
  lemma {:induction false} AddedKeeps(s: seq<Region>, base: nat, size: nat, t: Attr, o: Span)
    requires WellFormed(s) && base <= PHYS_ADDR_MAX && CoversSpan(s, o)
    ensures CoversSpan(Added(s, base, size, t), o)
  {
    AddedIsUnion(s, base, size, t);
  }

  /** The table after memblock_remove_range. */
  function Removed(s: seq<Region>, base: nat, size: nat): seq<Region>
    requires base <= PHYS_ADDR_MAX
  {
    if CapSize(base, size) == 0 then s else Erased(s, base, base + CapSize(base, size))
  }

  /** A range that would pass the last address ends there; nothing else is removed. */
  lemma {:induction false} RemovedExactly(s: seq<Region>, base: nat, size: nat, x: int)
    requires Canonical(s) && base <= 0xFFFF_FFFF_FFFF_FFFF
    ensures Canonical(Removed(s, base, size))
    ensures Lookup(Removed(s, base, size), x) ==
            if base <= x < base + size && x < 0xFFFF_FFFF_FFFF_FFFF then None else Lookup(s, x)
  {
    hide Erased, Lookup, Canonical;
    if CapSize(base, size) > 0 { ErasedIsRestriction(s, base, base + CapSize(base, size)); }
  }

  /** Removing keeps a covered span that the range does not meet. */
  lemma {:induction false} RemovedKeeps(s: seq<Region>, base: nat, size: nat, o: Span)
    requires Canonical(s) && base <= PHYS_ADDR_MAX && CoversSpan(s, o)
    requires o.Apart(Span(base, base + CapSize(base, size)))
    ensures CoversSpan(Removed(s, base, size), o)
  {
    if CapSize(base, size) > 0 { ErasedIsRestriction(s, base, base + CapSize(base, size)); }
  }

  /**
   The two arrays of the reserved table s, at a and m, have become a' and m' in s': the
   new places were free or part of the old ones, and addresses outside all four are as before.
   */
  predicate RemadeAt(s: seq<Region>, a: Span, m: Span, s': seq<Region>, a': Span, m': Span, x: int) {
    if a'.Has(x) || m'.Has(x) then Lookup(s', x).Some? && (a.Has(x) || m.Has(x) || Lookup(s, x).None?)
    else a.Has(x) || m.Has(x) || Lookup(s', x) == Lookup(s, x)
  }

  ghost predicate Remade(s: seq<Region>, a: Span, m: Span, s': seq<Region>, a': Span, m': Span) {
    forall x: int :: RemadeAt(s, a, m, s', a', m', x)
  }

  /** The release of a span o from s, if it was carried out. */
  ghost predicate MaybeRemoved(s: seq<Region>, o: Span, s': seq<Region>) {
    s' == s || (o.lo < o.hi <= PHYS_ADDR_MAX && Canonical(s) && s' == Removed(s, o.lo, o.hi - o.lo))
  }

  lemma {:induction false} MaybeRemovedAt(s: seq<Region>, o: Span, s': seq<Region>, x: int)
    requires MaybeRemoved(s, o, s')
    ensures Lookup(s', x) == Lookup(s, x) || (o.Has(x) && Lookup(s', x).None?)
  {
    if s' != s { ErasedIsRestriction(s, o.lo, o.hi); }
  }

  /** Two growths with a release between them, then the reservation of n. */
  lemma {:induction false} RemadeSteps(s: seq<Region>, a: Span, o: Span, mid1: seq<Region>, a1: Span, s1: seq<Region>,
                                       mid2: seq<Region>, a2: Span, n: Span, t: Attr)
    requires Regrown(s, a, mid1, a1) && MaybeRemoved(mid1, o, s1) && Regrown(s1, a1, mid2, a2) && Canonical(mid2)
    requires n.lo < n.hi <= PHYS_ADDR_MAX && Avoids(s, n.lo, n.hi)
    ensures Remade(s, a, o, Added(mid2, n.lo, n.hi - n.lo, t), a2, n)
    ensures CoversSpan(Added(mid2, n.lo, n.hi - n.lo, t), n)
  {
    var s2 := Added(mid2, n.lo, n.hi - n.lo, t);
    AddedIsUnion(mid2, n.lo, n.hi - n.lo, t);
    forall x: int ensures RemadeAt(s, a, o, s2, a2, n, x) {
      assert Lookup(s2, x) == Overlay(Lookup(mid2, x), n.Has(x), t);
      assert RegrownAt(s, a, mid1, a1, x) && RegrownAt(s1, a1, mid2, a2, x);
      MaybeRemovedAt(mid1, o, s1, x);
      assert n.Has(x) ==> Lookup(s, x).None?;
    }
  }

  /** Growing apart from a free span and releasing another one leaves it free. */
  lemma {:induction false} StillFree(s: seq<Region>, a: Span, o: Span, mid: seq<Region>, a': Span, s': seq<Region>,
                                     n: Span)
    requires Regrown(s, a, mid, a') && MaybeRemoved(mid, o, s') && Avoids(s, n.lo, n.hi) && a'.Apart(n)
    ensures Avoids(s', n.lo, n.hi)
  {
    forall x: int | n.lo <= x < n.hi ensures Lookup(s', x).None? {
      assert Lookup(s, x).None?;
      assert RegrownAt(s, a, mid, a', x);
      MaybeRemovedAt(mid, o, s', x);
    }
  }
}
