/**
 Values of a memblock region table and what they mean.

 A table is a sequence of regions.  Its meaning is a partial map from physical
 addresses to attributes (node id and flags), read off by `Lookup`.  A canonical
 table is sorted, disjoint, free of empty regions and fully merged; `CanonicalUnique`
 shows that such a table is determined by its meaning.
 */
module Regions {
  import opened Basics

  const PHYS_ADDR_MAX: nat := 0xFFFF_FFFF_FFFF_FFFF

  const PAGE_SIZE: nat := 0x1000

  type Flags = bv32

  datatype Attr = Attr(nid: int, flags: Flags)

  datatype Region = Region(base: nat, size: nat, nid: int, flags: Flags) {
    function End(): nat { base + size }

    function Tag(): Attr { Attr(nid, flags) }

    predicate Has(x: int) { base <= x < base + size }

    /** A stored region is not empty, and its end is a representable address. */
    predicate Proper() { 0 < size && base + size <= PHYS_ADDR_MAX }
  }

  predicate Mergeable(a: Region, b: Region) {
    a.End() == b.base && a.Tag() == b.Tag()
  }

  predicate AllProper(s: seq<Region>) {
    forall i | 0 <= i < |s| :: s[i].Proper()
  }

  predicate Sorted(s: seq<Region>) {
    forall i, j | 0 <= i < j < |s| :: s[i].End() <= s[j].base
  }

  predicate WellFormed(s: seq<Region>) {
    AllProper(s) && Sorted(s)
  }

  predicate Minimal(s: seq<Region>) {
    forall k | 0 <= k < |s| - 1 :: !Mergeable(s[k], s[k + 1])
  }

  predicate Canonical(s: seq<Region>) {
    WellFormed(s) && Minimal(s)
  }

  /** The meaning of a table at one address. */
  function Lookup(s: seq<Region>, x: int): Option<Attr> {
    if s == [] then None
    else if s[0].Has(x) then Some(s[0].Tag())
    else Lookup(s[1..], x)
  }

  ghost predicate SameMeaning(s: seq<Region>, t: seq<Region>) {
    forall x: int :: Lookup(s, x) == Lookup(t, x)
  }

  /** The table covers every address of [lo, hi). */
  ghost predicate Covers(s: seq<Region>, lo: int, hi: int) {
    forall x: int | lo <= x < hi :: Lookup(s, x).Some?
  }

  /** The table covers no address of [lo, hi). */
  ghost predicate Avoids(s: seq<Region>, lo: int, hi: int) {
    forall x: int | lo <= x < hi :: Lookup(s, x).None?
  }

  function TotalSize(s: seq<Region>): nat {
    if s == [] then 0 else s[0].size + TotalSize(s[1..])
  }

  lemma {:induction false} LookupConcat(s: seq<Region>, t: seq<Region>, x: int)
    ensures Lookup(s + t, x) == if Lookup(s, x).Some? then Lookup(s, x) else Lookup(t, x)
  {
    if s == [] {
      assert s + t == t;
    } else {
      assert (s + t)[1..] == s[1..] + t;
      LookupConcat(s[1..], t, x);
    }
  }

  /** An address is covered exactly when some region holds it. */
  lemma {:induction false} LookupSome(s: seq<Region>, x: int)
    ensures Lookup(s, x).Some? <==> exists i :: 0 <= i < |s| && s[i].Has(x)
  {
    if s != [] {
      LookupSome(s[1..], x);
      if Lookup(s, x).Some? && !s[0].Has(x) {
        var i :| 0 <= i < |s[1..]| && s[1..][i].Has(x);
        assert s[i + 1].Has(x);
      }
      if i :| 0 <= i < |s| && s[i].Has(x) && i > 0 {
        assert s[1..][i - 1].Has(x);
      }
    }
  }

  /** In a sorted table the region holding an address decides its attributes. */
  lemma {:induction false} LookupAt(s: seq<Region>, i: nat, x: int)
    requires Sorted(s) && i < |s| && s[i].Has(x)
    ensures Lookup(s, x) == Some(s[i].Tag())
  {
    if i > 0 {
      assert s[0].End() <= s[i].base;
      LookupAt(s[1..], i - 1, x);
    }
  }

  lemma {:induction false} LookupBelow(s: seq<Region>, x: int)
    requires forall i | 0 <= i < |s| :: x < s[i].base
    ensures Lookup(s, x).None?
  {
    LookupSome(s, x);
  }

  lemma {:induction false} TotalSizeConcat(s: seq<Region>, t: seq<Region>)
    ensures TotalSize(s + t) == TotalSize(s) + TotalSize(t)
  {
    if s == [] {
      assert s + t == t;
    } else {
      assert (s + t)[1..] == s[1..] + t;
      TotalSizeConcat(s[1..], t);
    }
  }

  lemma {:induction false} CanonicalTail(s: seq<Region>)
    requires Canonical(s) && s != []
    ensures Canonical(s[1..])
  {
    forall k | 0 <= k < |s[1..]| - 1
      ensures !Mergeable(s[1..][k], s[1..][k + 1])
    {
      assert !Mergeable(s[k + 1], s[k + 2]);
    }
  }

  /** Once the first region of a canonical table ends, its attributes do not continue. */
  lemma {:induction false} FirstRegionStops(s: seq<Region>)
    requires Canonical(s) && s != []
    ensures Lookup(s, s[0].End()) != Some(s[0].Tag())
  {
    var x := s[0].End();
    if |s| == 1 {
      assert s[1..] == [];
    } else if s[1].base == x {
      assert !Mergeable(s[0], s[1]);
      LookupAt(s, 1, x);
    } else {
      forall i | 0 <= i < |s[1..]| ensures x < s[1..][i].base {
        assert s[1].End() <= s[i + 1].base || i == 0;
      }
      LookupBelow(s[1..], x);
    }
  }

  lemma {:induction false} SameFirst(s: seq<Region>, t: seq<Region>)
    requires Canonical(s) && Canonical(t) && SameMeaning(s, t) && s != [] && t != []
    ensures s[0] == t[0]
  {
    FirstBase(s, t);
    FirstBase(t, s);
    assert Lookup(s, s[0].base) == Lookup(t, s[0].base);
    FirstEnd(s, t);
    FirstEnd(t, s);
  }

  lemma {:induction false} FirstBase(s: seq<Region>, t: seq<Region>)
    requires Canonical(s) && Canonical(t) && SameMeaning(s, t) && s != [] && t != []
    ensures t[0].base <= s[0].base
  {
    var x := s[0].base;
    assert s[0].Has(x);
    assert Lookup(s, x) == Lookup(t, x);
    LookupSome(t, x);
    var i :| 0 <= i < |t| && t[i].Has(x);
    assert i == 0 || t[0].End() <= t[i].base;
  }

  lemma {:induction false} FirstEnd(s: seq<Region>, t: seq<Region>)
    requires Canonical(s) && Canonical(t) && SameMeaning(s, t) && s != [] && t != []
    requires s[0].base == t[0].base
    ensures t[0].End() <= s[0].End()
  {
    var x := s[0].End();
    assert t[0].Has(s[0].base) && s[0].Has(s[0].base);
    assert Lookup(s, s[0].base) == Lookup(t, s[0].base);
    FirstRegionStops(s);
    assert Lookup(s, x) == Lookup(t, x);
    assert !t[0].Has(x);
  }

  lemma {:induction false} NonEmptyCovers(s: seq<Region>, t: seq<Region>)
    requires Canonical(s) && SameMeaning(s, t) && s != []
    ensures t != []
  {
    assert s[0].Has(s[0].base);
    assert Lookup(s, s[0].base) == Lookup(t, s[0].base);
  }

  /** A canonical table is the only canonical table with its meaning. */
  lemma {:induction false} CanonicalUnique(s: seq<Region>, t: seq<Region>)
    requires Canonical(s) && Canonical(t) && SameMeaning(s, t)
    ensures s == t
  {
    if s != [] { NonEmptyCovers(s, t); }
    if t != [] { NonEmptyCovers(t, s); }
    if s != [] && t != [] {
      SameFirst(s, t);
      CanonicalTail(s);
      CanonicalTail(t);
      forall x: int ensures Lookup(s[1..], x) == Lookup(t[1..], x) {
        TailLookup(s, x);
        TailLookup(t, x);
        assert Lookup(s, x) == Lookup(t, x);
      }
      CanonicalUnique(s[1..], t[1..]);
      assert s == [s[0]] + s[1..] && t == [t[0]] + t[1..];
    }
  }

  lemma {:induction false} TailLookup(s: seq<Region>, x: int)
    requires WellFormed(s) && s != []
    ensures Lookup(s[1..], x) == if s[0].Has(x) then None else Lookup(s, x)
  {
    if s[0].Has(x) {
      LookupBelow(s[1..], x);
    }
  }

  /** The total size of a table counts the addresses it covers, so it is at most PHYS_ADDR_MAX. */
  lemma {:induction false} TotalSizeCounts(s: seq<Region>, covered: set<int>)
    requires WellFormed(s)
    requires forall x: int :: x in covered <==> Lookup(s, x).Some?
    ensures TotalSize(s) == |covered|
  {
    if s == [] {
      assert forall x: int :: Lookup(s, x).None?;
      assert forall x: int :: x !in covered;
    } else {
      var r := s[0];
      var first := Interval(r.base, r.End());
      var rest := covered - first;
      forall x: int ensures x in rest <==> Lookup(s[1..], x).Some? {
        TailLookup(s, x);
      }
      TotalSizeCounts(s[1..], rest);
      assert first <= covered;
      assert covered == first + rest;
    }
  }

  function Interval(lo: int, hi: int): (r: set<int>)
    requires lo <= hi
    ensures |r| == hi - lo
    ensures forall x :: x in r <==> lo <= x < hi
    decreases hi - lo
  {
    if lo == hi then {} else Interval(lo, hi - 1) + {hi - 1}
  }

  lemma {:induction false} TotalSizeBound(s: seq<Region>, lo: nat)
    requires WellFormed(s) && lo <= PHYS_ADDR_MAX
    requires forall i | 0 <= i < |s| :: lo <= s[i].base
    ensures TotalSize(s) <= PHYS_ADDR_MAX - lo
  {
    if s != [] {
      TotalSizeBound(s[1..], s[0].End());
    }
  }
}
