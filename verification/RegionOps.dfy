/**
 The table operations on values: filling the uncovered part of a range, merging
 neighbours, splitting at the ends of a range and erasing a range.  Each has a
 theorem that states it on the meaning of the table.
 */
module RegionOps {
  import opened Basics
  import opened Regions

  /** memblock_cap_size: the end of a range may not pass PHYS_ADDR_MAX. */
  function CapSize(base: nat, size: nat): nat
    requires base <= PHYS_ADDR_MAX
  {
    if size <= PHYS_ADDR_MAX - base then size else PHYS_ADDR_MAX - base
  }

  function Piece(lo: nat, hi: nat, t: Attr): Region
    requires lo <= hi
  {
    Region(lo, hi - lo, t.nid, t.flags)
  }

  function Rest(lo: nat, hi: nat, t: Attr): seq<Region> {
    if lo < hi then [Piece(lo, hi, t)] else []
  }

  function Min(a: nat, b: nat): nat { if a <= b then a else b }

  function Max(a: nat, b: nat): nat { if a <= b then b else a }

  // ----- Filling: the insertion pass of memblock_add_range -----

  /** Insert a piece of [lo, hi) into every hole that s leaves in it. */
  function Fill(s: seq<Region>, lo: nat, hi: nat, t: Attr): seq<Region> {
    if s == [] || hi <= s[0].base then Rest(lo, hi, t) + s
    else if s[0].End() <= lo then [s[0]] + Fill(s[1..], lo, hi, t)
    else Rest(lo, Min(s[0].base, hi), t) + [s[0]] + Fill(s[1..], Min(s[0].End(), hi), hi, t)
  }

  /** Every region of the filled table starts at lo or where a region of s starts or ends. */
  lemma {:induction false} FillLowerBound(s: seq<Region>, lo: nat, hi: nat, t: Attr, m: nat)
    requires WellFormed(s)
    requires lo < hi ==> m <= lo
    requires forall i | 0 <= i < |s| :: m <= s[i].base
    ensures forall i | 0 <= i < |Fill(s, lo, hi, t)| :: m <= Fill(s, lo, hi, t)[i].base
    decreases s
  {
    if s == [] || hi <= s[0].base {
    } else if s[0].End() <= lo {
      FillLowerBound(s[1..], lo, hi, t, m);
    } else {
      FillLowerBound(s[1..], Min(s[0].End(), hi), hi, t, m);
    }
  }

  lemma {:induction false} PrependSorted(r: Region, s: seq<Region>)
    requires WellFormed(s) && r.Proper()
    requires forall i | 0 <= i < |s| :: r.End() <= s[i].base
    ensures WellFormed([r] + s)
  {
  }

  /** The filled table, one region at a time. */
  lemma {:induction false} FillFirst(s: seq<Region>, lo: nat, hi: nat, t: Attr)
    ensures s == [] || hi <= s[0].base ==> Fill(s, lo, hi, t) == if lo < hi then [Piece(lo, hi, t)] + s else s
    ensures s != [] && s[0].base < hi ==>
              var rest := [s[0]] + Fill(s[1..], if s[0].End() <= lo then lo else Min(s[0].End(), hi), hi, t);
              Fill(s, lo, hi, t) == if lo < s[0].base then [Piece(lo, s[0].base, t)] + rest else rest
  {
    if s == [] || hi <= s[0].base {
      assert [] + s == s;
    } else if lo < s[0].base {
      var p, tail := Piece(lo, s[0].base, t), Fill(s[1..], Min(s[0].End(), hi), hi, t);
      assert [p] + [s[0]] + tail == [p] + ([s[0]] + tail);
    } else if lo < s[0].End() {
      assert [] + [s[0]] == [s[0]];
    }
  }

  lemma {:induction false} FillWellFormed(s: seq<Region>, lo: nat, hi: nat, t: Attr)
    requires WellFormed(s) && hi <= PHYS_ADDR_MAX
    ensures WellFormed(Fill(s, lo, hi, t))
    decreases s
  {
    hide Fill;
    FillFirst(s, lo, hi, t);
    if s == [] || hi <= s[0].base {
      if lo < hi { PrependSorted(Piece(lo, hi, t), s); }
    } else {
      var lo' := if s[0].End() <= lo then lo else Min(s[0].End(), hi);
      var tail := Fill(s[1..], lo', hi, t);
      FillWellFormed(s[1..], lo', hi, t);
      FillLowerBound(s[1..], lo', hi, t, s[0].End());
      PrependSorted(s[0], tail);
      if lo < s[0].base { PrependSorted(Piece(lo, s[0].base, t), [s[0]] + tail); }
    }
  }

  function Overlay(was: Option<Attr>, inside: bool, t: Attr): Option<Attr> {
    if was.Some? then was else if inside then Some(t) else None
  }

  lemma {:induction false} LookupPrepend(r: Region, s: seq<Region>, x: int)
    ensures Lookup([r] + s, x) == if r.Has(x) then Some(r.Tag()) else Lookup(s, x)
  {
    assert ([r] + s)[1..] == s;
  }

  /** Filling gives t to the uncovered addresses of [lo, hi) and changes nothing else. */
  lemma {:induction false} FillLookup(s: seq<Region>, lo: nat, hi: nat, t: Attr, x: int)
    requires WellFormed(s)
    ensures Lookup(Fill(s, lo, hi, t), x) == Overlay(Lookup(s, x), lo <= x < hi, t)
    decreases s
  {
    hide Fill, Lookup;
    FillFirst(s, lo, hi, t);
    if s == [] || hi <= s[0].base {
      if lo < hi {
        LookupPrepend(Piece(lo, hi, t), s, x);
        if lo <= x < hi { BelowFirst(s, x); }
      }
    } else {
      var lo' := if s[0].End() <= lo then lo else Min(s[0].End(), hi);
      var tail := Fill(s[1..], lo', hi, t);
      FillLookup(s[1..], lo', hi, t, x);
      LookupPrepend(s[0], s[1..], x);
      assert [s[0]] + s[1..] == s;
      LookupPrepend(s[0], tail, x);
      if lo < s[0].base {
        LookupPrepend(Piece(lo, s[0].base, t), [s[0]] + tail, x);
      }
      if x < s[0].base { BelowFirst(s, x); }
    }
  }

  lemma {:induction false} BelowFirst(s: seq<Region>, x: int)
    requires Sorted(s) && (s == [] || x < s[0].base)
    ensures Lookup(s, x).None?
  {
    forall i | 0 <= i < |s| ensures x < s[i].base {
      assert i == 0 || s[0].End() <= s[i].base;
    }
    LookupBelow(s, x);
  }

  /** How many regions of s meet [lo, hi). */
  function Met(s: seq<Region>, lo: nat, hi: nat): (n: nat)
    ensures n <= |s|
  {
    if s == [] then 0 else (if s[0].base < hi && lo < s[0].End() then 1 else 0) + Met(s[1..], lo, hi)
  }

  lemma {:induction false} MetLess(s: seq<Region>, lo: nat, lo': nat, hi: nat)
    requires lo <= lo'
    ensures Met(s, lo', hi) <= Met(s, lo, hi)
  {
    if s != [] { MetLess(s[1..], lo, lo', hi); }
  }

  /** Filling a range adds at most one region more than the regions it meets. */
  lemma {:induction false} FillGrowth(s: seq<Region>, lo: nat, hi: nat, t: Attr)
    ensures |s| <= |Fill(s, lo, hi, t)| <= 2 * |s| + 1
    ensures lo <= hi ==> |Fill(s, lo, hi, t)| <= |s| + Met(s, lo, hi) + 1
    decreases s
  {
    if s == [] || hi <= s[0].base {
    } else if s[0].End() <= lo {
      FillGrowth(s[1..], lo, hi, t);
    } else {
      FillGrowth(s[1..], Min(s[0].End(), hi), hi, t);
      if lo <= hi { MetLess(s[1..], lo, Min(s[0].End(), hi), hi); }
    }
  }

  // ----- Merging: memblock_merge_regions -----

  function Join(a: Region, b: Region): Region {
    a.(size := a.size + b.size)
  }

  function MergeAll(s: seq<Region>): seq<Region>
    decreases |s|
  {
    if |s| < 2 then s
    else if Mergeable(s[0], s[1]) then MergeAll([Join(s[0], s[1])] + s[2..])
    else [s[0]] + MergeAll(s[1..])
  }

  /** Merging preserves order, meaning and size and leaves no mergeable neighbours. */
  lemma {:induction false} MergeAllCanonical(s: seq<Region>)
    requires WellFormed(s)
    ensures Canonical(MergeAll(s))
    ensures MergeAll(s) == [] <==> s == []
    ensures s != [] ==> MergeAll(s)[0].base == s[0].base && MergeAll(s)[0].Tag() == s[0].Tag()
    ensures TotalSize(MergeAll(s)) == TotalSize(s)
    decreases |s|
  {
    if |s| >= 2 {
      if Mergeable(s[0], s[1]) {
        JoinFirst(s);
        MergeAllCanonical([Join(s[0], s[1])] + s[2..]);
      } else {
        var tail := MergeAll(s[1..]);
        MergeAllPeel(s);
        MergeAllCanonical(s[1..]);
        hide MergeAll, Canonical;
        assert s[0].Proper() && s[0].End() <= s[1].base && tail[0].base == s[1].base;
        PrependCanonical(s[0], tail);
        TotalSizeFirst(s);
        TotalSizeFirst([s[0]] + tail);
        assert ([s[0]] + tail)[1..] == tail;
      }
    }
  }

  lemma {:induction false} TotalSizeFirst(s: seq<Region>)
    requires s != []
    ensures TotalSize(s) == s[0].size + TotalSize(s[1..])
  {
  }

  lemma {:induction false} JoinFirst(s: seq<Region>)
    requires WellFormed(s) && |s| >= 2 && Mergeable(s[0], s[1])
    ensures WellFormed([Join(s[0], s[1])] + s[2..])
    ensures TotalSize([Join(s[0], s[1])] + s[2..]) == TotalSize(s)
  {
    var j := [Join(s[0], s[1])] + s[2..];
    PrependSorted(Join(s[0], s[1]), s[2..]);
    TotalSizeFirst(s);
    TotalSizeFirst(s[1..]);
    TotalSizeFirst(j);
    assert j[1..] == s[2..] == s[1..][1..];
  }

  lemma {:induction false} MergeAllLookup(s: seq<Region>, x: int)
    ensures Lookup(MergeAll(s), x) == Lookup(s, x)
    decreases |s|
  {
    if |s| >= 2 {
      if Mergeable(s[0], s[1]) {
        MergeAllLookup([Join(s[0], s[1])] + s[2..], x);
        LookupPrepend(Join(s[0], s[1]), s[2..], x);
        assert s[1..][1..] == s[2..];
      } else {
        MergeAllLookup(s[1..], x);
        LookupPrepend(s[0], MergeAll(s[1..]), x);
      }
    }
  }

  lemma {:induction false} MergeAllMinimal(s: seq<Region>)
    requires Minimal(s)
    ensures MergeAll(s) == s
    decreases |s|
  {
    if |s| >= 2 {
      assert !Mergeable(s[0], s[1]);
      forall k | 0 <= k < |s[1..]| - 1 ensures !Mergeable(s[1..][k], s[1..][k + 1]) {
        assert !Mergeable(s[k + 1], s[k + 2]);
      }
      MergeAllMinimal(s[1..]);
      assert s == [s[0]] + s[1..];
    }
  }

  lemma {:induction false} MergeAllPeel(s: seq<Region>)
    requires |s| >= 2 && !Mergeable(s[0], s[1])
    ensures MergeAll(s) == [s[0]] + MergeAll(s[1..])
  {
  }

  /** Merging may start at i when no neighbours before i can be merged. */
  lemma {:induction false} MergeAllSkip(s: seq<Region>, i: nat)
    requires i < |s|
    requires forall k | 0 <= k < i :: !Mergeable(s[k], s[k + 1])
    ensures MergeAll(s) == s[..i] + MergeAll(s[i..])
    decreases i
  {
    hide MergeAll, Mergeable;
    if i == 0 {
      assert s[0..] == s && s[..0] == [];
    } else {
      MergeAllSkip(s, i - 1);
      var u := s[i - 1..];
      assert u[1..] == s[i..] && u[0] == s[i - 1] && u[1] == s[i];
      MergeAllPeel(u);
      assert s[..i] == s[..i - 1] + [u[0]];
    }
  }

  // ----- Adding a range: memblock_add_range -----

  /** The table after [base, base + size) has been added with attributes t. */
  function Added(s: seq<Region>, base: nat, size: nat, t: Attr): seq<Region>
    requires base <= PHYS_ADDR_MAX
  {
    MergeAll(Fill(s, base, base + CapSize(base, size), t))
  }

  lemma {:induction false} AddedLookup(s: seq<Region>, base: nat, size: nat, t: Attr, x: int)
    requires WellFormed(s) && base <= PHYS_ADDR_MAX
    ensures Lookup(Added(s, base, size, t), x)
         == Overlay(Lookup(s, x), base <= x < base + CapSize(base, size), t)
  {
    var hi := base + CapSize(base, size);
    FillLookup(s, base, hi, t, x);
    MergeAllLookup(Fill(s, base, hi, t), x);
  }

  lemma {:induction false} MergedIsCanonical(f: seq<Region>)
    requires WellFormed(f)
    ensures Canonical(MergeAll(f))
  {
    MergeAllCanonical(f);
  }

  lemma {:induction false} AddedCanonical(s: seq<Region>, base: nat, size: nat, t: Attr)
    requires WellFormed(s) && base <= PHYS_ADDR_MAX
    ensures Canonical(Added(s, base, size, t))
  {
    FillWellFormed(s, base, base + CapSize(base, size), t);
    MergedIsCanonical(Fill(s, base, base + CapSize(base, size), t));
  }

  /** Adding a range is map union in which the existing table wins, in canonical form. */
  lemma {:induction false} AddedIsUnion(s: seq<Region>, base: nat, size: nat, t: Attr)
    requires WellFormed(s) && base <= PHYS_ADDR_MAX
    ensures Canonical(Added(s, base, size, t))
    ensures forall x: int :: Lookup(Added(s, base, size, t), x)
                          == Overlay(Lookup(s, x), base <= x < base + CapSize(base, size), t)
  {
    AddedCanonical(s, base, size, t);
    forall x: int
      ensures Lookup(Added(s, base, size, t), x)
           == Overlay(Lookup(s, x), base <= x < base + CapSize(base, size), t)
    {
      AddedLookup(s, base, size, t, x);
    }
  }

  /** A range that would pass the last address ends there; what is already in the table stays. */
  lemma {:induction false} AddedExactly(s: seq<Region>, base: nat, size: nat, t: Attr, x: int)
    requires WellFormed(s) && base <= 0xFFFF_FFFF_FFFF_FFFF
    ensures Lookup(Added(s, base, size, t), x) ==
            if Lookup(s, x).None? && base <= x < base + size && x < 0xFFFF_FFFF_FFFF_FFFF then Some(t) else Lookup(s, x)
  {
    hide Added, Lookup;
    AddedLookup(s, base, size, t, x);
  }

  // ----- Splitting: memblock_isolate_range -----

  /** The pieces of r when it is cut at lo and at hi. */
  function Pieces(r: Region, lo: nat, hi: nat): (p: seq<Region>)
    requires lo < hi
    ensures 1 <= |p| <= 3
  {
    if r.base < lo < r.End() then
      [Piece(r.base, lo, r.Tag())] + Upper(Piece(lo, r.End(), r.Tag()), hi)
    else Upper(r, hi)
  }

  function Upper(r: Region, hi: nat): (p: seq<Region>)
    ensures 1 <= |p| <= 2
  {
    if r.base < hi < r.End() then [Piece(r.base, hi, r.Tag()), Piece(hi, r.End(), r.Tag())]
    else [r]
  }

  function Split(s: seq<Region>, lo: nat, hi: nat): seq<Region>
    requires lo < hi
  {
    if s == [] then [] else Pieces(s[0], lo, hi) + Split(s[1..], lo, hi)
  }

  predicate Inside(r: Region, lo: nat, hi: nat) {
    lo <= r.base && r.End() <= hi
  }

  predicate Outside(r: Region, lo: nat, hi: nat) {
    r.End() <= lo || hi <= r.base
  }

  lemma {:induction false} PiecesLookup(r: Region, lo: nat, hi: nat, x: int)
    requires lo < hi
    ensures Lookup(Pieces(r, lo, hi), x) == if r.Has(x) then Some(r.Tag()) else None
  {
    UpperLookup(r, hi, x);
    if r.base < lo < r.End() {
      var u := Piece(lo, r.End(), r.Tag());
      UpperLookup(u, hi, x);
      LookupPrepend(Piece(r.base, lo, r.Tag()), Upper(u, hi), x);
    }
  }

  lemma {:induction false} UpperLookup(r: Region, hi: nat, x: int)
    ensures Lookup(Upper(r, hi), x) == if r.Has(x) then Some(r.Tag()) else None
  {
    LookupPrepend(r, [], x);
    if r.base < hi < r.End() {
      LookupPrepend(Piece(hi, r.End(), r.Tag()), [], x);
      LookupPrepend(Piece(r.base, hi, r.Tag()), [Piece(hi, r.End(), r.Tag())], x);
      assert Upper(r, hi) == [Piece(r.base, hi, r.Tag())] + [Piece(hi, r.End(), r.Tag())];
    }
  }

  lemma {:induction false} SplitLookup(s: seq<Region>, lo: nat, hi: nat, x: int)
    requires lo < hi
    ensures Lookup(Split(s, lo, hi), x) == Lookup(s, x)
  {
    if s != [] {
      SplitLookup(s[1..], lo, hi, x);
      PiecesLookup(s[0], lo, hi, x);
      LookupConcat(Pieces(s[0], lo, hi), Split(s[1..], lo, hi), x);
    }
  }

  predicate AllInOrOut(s: seq<Region>, lo: nat, hi: nat) {
    forall i | 0 <= i < |s| :: Inside(s[i], lo, hi) || Outside(s[i], lo, hi)
  }

  predicate AllFrom(s: seq<Region>, m: nat) {
    forall i | 0 <= i < |s| :: m <= s[i].base
  }

  predicate AllUpTo(s: seq<Region>, m: nat) {
    forall i | 0 <= i < |s| :: s[i].End() <= m
  }

  lemma {:induction false} ConcatWellFormed(s: seq<Region>, t: seq<Region>, m: nat)
    requires WellFormed(s) && WellFormed(t) && AllUpTo(s, m) && AllFrom(t, m)
    ensures WellFormed(s + t)
  {
  }

  lemma {:induction false} SplitWellFormed(s: seq<Region>, lo: nat, hi: nat, m: nat)
    requires lo < hi && WellFormed(s) && AllFrom(s, m)
    ensures WellFormed(Split(s, lo, hi)) && AllFrom(Split(s, lo, hi), m)
    ensures AllInOrOut(Split(s, lo, hi), lo, hi)
    decreases s
  {
    if s != [] {
      SplitWellFormed(s[1..], lo, hi, s[0].End());
      PiecesWellFormed(s[0], lo, hi);
      ConcatWellFormed(Pieces(s[0], lo, hi), Split(s[1..], lo, hi), s[0].End());
    }
  }

  lemma {:induction false} SplitTotalSize(s: seq<Region>, lo: nat, hi: nat)
    requires lo < hi && AllProper(s)
    ensures TotalSize(Split(s, lo, hi)) == TotalSize(s)
  {
    if s != [] {
      SplitTotalSize(s[1..], lo, hi);
      PiecesSize(s[0], lo, hi);
      TotalSizeConcat(Pieces(s[0], lo, hi), Split(s[1..], lo, hi));
    }
  }

  lemma {:induction false} PiecesWellFormed(r: Region, lo: nat, hi: nat)
    requires lo < hi && r.Proper()
    ensures WellFormed(Pieces(r, lo, hi)) && AllInOrOut(Pieces(r, lo, hi), lo, hi)
    ensures AllFrom(Pieces(r, lo, hi), r.base) && AllUpTo(Pieces(r, lo, hi), r.End())
  {
    if r.base < lo < r.End() {
      var u := Piece(lo, r.End(), r.Tag());
      UpperWellFormed(u, lo, hi);
      ConcatWellFormed([Piece(r.base, lo, r.Tag())], Upper(u, hi), lo);
    } else {
      UpperWellFormed(r, lo, hi);
    }
  }

  lemma {:induction false} UpperWellFormed(r: Region, lo: nat, hi: nat)
    requires r.Proper() && (lo <= r.base || r.End() <= lo < hi)
    ensures WellFormed(Upper(r, hi)) && AllInOrOut(Upper(r, hi), lo, hi)
    ensures AllFrom(Upper(r, hi), r.base) && AllUpTo(Upper(r, hi), r.End())
  {
  }

  lemma {:induction false} PiecesSize(r: Region, lo: nat, hi: nat)
    requires lo < hi
    ensures TotalSize(Pieces(r, lo, hi)) == r.size
  {
    UpperSize(r, hi);
    if r.base < lo < r.End() {
      var u := Piece(lo, r.End(), r.Tag());
      UpperSize(u, hi);
      assert Pieces(r, lo, hi)[1..] == Upper(u, hi);
    }
  }

  lemma {:induction false} UpperSize(r: Region, hi: nat)
    ensures TotalSize(Upper(r, hi)) == r.size
  {
    if r.base < hi < r.End() {
      TotalSizeConcat([Piece(r.base, hi, r.Tag())], [Piece(hi, r.End(), r.Tag())]);
    }
  }

  /** Splitting at the two ends of a range adds at most two regions. */
  lemma {:induction false} SplitGrowth(s: seq<Region>, lo: nat, hi: nat)
    requires lo < hi && WellFormed(s)
    ensures |s| <= |Split(s, lo, hi)| <= |s| + Cut(s, lo) + Cut(s, hi)
  {
    if s != [] {
      SplitGrowth(s[1..], lo, hi);
      if |s| > 1 { assert s[0].End() <= s[1].base; }
      CutOnce(s, lo);
      CutOnce(s, hi);
    }
  }

  /** 1 when some region of s crosses p, 0 otherwise. */
  function Cut(s: seq<Region>, p: nat): nat {
    if exists i | 0 <= i < |s| :: s[i].base < p < s[i].End() then 1 else 0
  }

  lemma {:induction false} CutOnce(s: seq<Region>, p: nat)
    requires WellFormed(s) && s != []
    ensures Cut(s, p) == Cut(s[1..], p) + if s[0].base < p < s[0].End() then 1 else 0
  {
    assert forall i | 0 <= i < |s[1..]| :: s[1..][i] == s[i + 1];
    if i :| 0 <= i < |s| && s[i].base < p < s[i].End() && i > 0 {
      assert s[1..][i - 1] == s[i];
    }
  }

  // ----- Erasing: memblock_remove_range -----

  /** What is left of r outside [lo, hi). */
  function Remains(r: Region, lo: nat, hi: nat): seq<Region>
    requires lo < hi
  {
    if Outside(r, lo, hi) then [r] else Rest(r.base, lo, r.Tag()) + Rest(hi, r.End(), r.Tag())
  }

  /** The table after [lo, hi) has been removed. */
  function Erased(s: seq<Region>, lo: nat, hi: nat): seq<Region>
    requires lo < hi
  {
    if s == [] then [] else Remains(s[0], lo, hi) + Erased(s[1..], lo, hi)
  }

  lemma {:induction false} RemainsLookup(r: Region, lo: nat, hi: nat, x: int)
    requires lo < hi
    ensures Lookup(Remains(r, lo, hi), x) == if r.Has(x) && !(lo <= x < hi) then Some(r.Tag()) else None
  {
    LookupPrepend(r, [], x);
    if !Outside(r, lo, hi) {
      LookupConcat(Rest(r.base, lo, r.Tag()), Rest(hi, r.End(), r.Tag()), x);
      if r.base < lo { LookupPrepend(Piece(r.base, lo, r.Tag()), [], x); }
      if hi < r.End() { LookupPrepend(Piece(hi, r.End(), r.Tag()), [], x); }
    }
  }

  lemma {:induction false} ErasedLookup(s: seq<Region>, lo: nat, hi: nat, x: int)
    requires lo < hi && WellFormed(s)
    ensures Lookup(Erased(s, lo, hi), x) == if lo <= x < hi then None else Lookup(s, x)
  {
    if s != [] {
      ErasedLookup(s[1..], lo, hi, x);
      RemainsLookup(s[0], lo, hi, x);
      LookupConcat(Remains(s[0], lo, hi), Erased(s[1..], lo, hi), x);
    }
  }

  /** What erasing leaves at the front is the front of s, or it lies at or above the erased range. */
  predicate FrontKept(e: seq<Region>, s: seq<Region>, hi: nat) {
    e != [] && e[0].base < hi ==> s != [] && e[0].base == s[0].base && e[0].Tag() == s[0].Tag()
  }

  lemma {:induction false} CanonicalParts(s: seq<Region>)
    requires Canonical(s) && s != []
    ensures AllFrom(s[1..], s[0].End()) && AllProper(s) && Minimal(s)
  {
  }

  predicate AllOut(s: seq<Region>, lo: nat, hi: nat) {
    forall i | 0 <= i < |s| :: Outside(s[i], lo, hi)
  }

  lemma {:induction false} ErasedFirst(s: seq<Region>, lo: nat, hi: nat)
    requires lo < hi && s != []
    ensures Erased(s, lo, hi) == Remains(s[0], lo, hi) + Erased(s[1..], lo, hi)
    ensures Outside(s[0], lo, hi) ==> Erased(s, lo, hi) == [s[0]] + Erased(s[1..], lo, hi)
  {
  }

  lemma {:induction false} ErasedNone(lo: nat, hi: nat, m: nat)
    requires lo < hi
    ensures Erased([], lo, hi) == [] && Canonical([]) && AllFrom([], m) && AllOut([], lo, hi) && FrontKept([], [], hi)
  {
  }

  lemma {:induction false} ErasedCanonical(s: seq<Region>, lo: nat, hi: nat, m: nat)
    requires lo < hi && Canonical(s) && AllFrom(s, m)
    ensures Canonical(Erased(s, lo, hi)) && AllFrom(Erased(s, lo, hi), m)
    ensures AllOut(Erased(s, lo, hi), lo, hi)
    ensures FrontKept(Erased(s, lo, hi), s, hi)
    decreases s
  {
    hide Canonical, Erased, Remains;
    if s == [] {
      ErasedNone(lo, hi, m);
    } else {
      CanonicalTail(s);
      assert AllFrom(s[1..], s[0].End()) && AllProper(s) && Minimal(s) by { CanonicalParts(s); }
      ErasedCanonical(s[1..], lo, hi, s[0].End());
      ErasedFirst(s, lo, hi);
      var tail := Erased(s[1..], lo, hi);
      if |s| > 1 {
        assert !Mergeable(s[0], s[1]);
        ErasedFirst(s[1..], lo, hi);
      } else {
        ErasedNone(lo, hi, m);
      }
      if Outside(s[0], lo, hi) {
        PrependCanonical(s[0], tail);
      } else {
        ErasedStep(s[0], lo, hi, tail);
      }
    }
  }

  lemma {:induction false} ErasedStep(r: Region, lo: nat, hi: nat, tail: seq<Region>)
    requires lo < hi && r.Proper() && !Outside(r, lo, hi)
    requires Canonical(tail) && AllFrom(tail, r.End()) && AllOut(tail, lo, hi)
    requires hi < r.End() && tail != [] ==> !Mergeable(r, tail[0])
    ensures Canonical(Remains(r, lo, hi) + tail)
    ensures AllFrom(Remains(r, lo, hi) + tail, r.base) && AllOut(Remains(r, lo, hi) + tail, lo, hi)
    ensures FrontKept(Remains(r, lo, hi) + tail, [r] + tail, hi)
  {
    var upper := Rest(hi, r.End(), r.Tag()) + tail;
    UpperRemains(r, lo, hi, tail);
    if r.base < lo {
      LowerRemains(r, lo, hi, upper);
      assert Remains(r, lo, hi) + tail == [Piece(r.base, lo, r.Tag())] + upper;
    } else {
      assert Remains(r, lo, hi) + tail == upper;
    }
  }

  lemma {:induction false} UpperRemains(r: Region, lo: nat, hi: nat, tail: seq<Region>)
    requires lo < hi && r.Proper() && !Outside(r, lo, hi)
    requires Canonical(tail) && AllFrom(tail, r.End()) && AllOut(tail, lo, hi)
    requires hi < r.End() && tail != [] ==> !Mergeable(r, tail[0])
    ensures Canonical(Rest(hi, r.End(), r.Tag()) + tail)
    ensures AllFrom(Rest(hi, r.End(), r.Tag()) + tail, hi)
  {
    forall i | 0 <= i < |tail| ensures hi <= tail[i].base {
      assert r.End() <= tail[i].base && Outside(tail[i], lo, hi);
    }
    if hi < r.End() {
      PrependCanonical(Piece(hi, r.End(), r.Tag()), tail);
    } else {
      assert Rest(hi, r.End(), r.Tag()) + tail == tail;
    }
  }

  lemma {:induction false} LowerRemains(r: Region, lo: nat, hi: nat, upper: seq<Region>)
    requires lo < hi && r.Proper() && r.base < lo < r.End()
    requires Canonical(upper) && AllFrom(upper, hi)
    ensures Canonical([Piece(r.base, lo, r.Tag())] + upper)
    ensures AllFrom([Piece(r.base, lo, r.Tag())] + upper, r.base)
  {
    PrependCanonical(Piece(r.base, lo, r.Tag()), upper);
  }

  lemma {:induction false} PrependCanonical(r: Region, s: seq<Region>)
    requires Canonical(s) && r.Proper()
    requires s != [] ==> r.End() <= s[0].base && !Mergeable(r, s[0])
    ensures Canonical([r] + s)
  {
    var m := [r] + s;
    forall i | 0 <= i < |s| ensures r.End() <= s[i].base {
      assert i == 0 || s[0].End() <= s[i].base;
    }
    PrependSorted(r, s);
    forall k | 0 <= k < |m| - 1 ensures !Mergeable(m[k], m[k + 1]) {
      if k > 0 { assert !Mergeable(s[k - 1], s[k]); }
    }
  }

  function Drop(s: seq<Region>, lo: nat, hi: nat): seq<Region> {
    if s == [] then []
    else if Inside(s[0], lo, hi) then Drop(s[1..], lo, hi)
    else [s[0]] + Drop(s[1..], lo, hi)
  }

  lemma {:induction false} DropConcat(s: seq<Region>, t: seq<Region>, lo: nat, hi: nat)
    ensures Drop(s + t, lo, hi) == Drop(s, lo, hi) + Drop(t, lo, hi)
  {
    if s == [] {
      assert s + t == t;
    } else {
      assert (s + t)[1..] == s[1..] + t;
      DropConcat(s[1..], t, lo, hi);
    }
  }

  lemma {:induction false} DropNone(s: seq<Region>, lo: nat, hi: nat)
    requires forall i | 0 <= i < |s| :: !Inside(s[i], lo, hi)
    ensures Drop(s, lo, hi) == s
  {
    if s != [] { DropNone(s[1..], lo, hi); }
  }

  lemma {:induction false} DropAll(s: seq<Region>, lo: nat, hi: nat)
    requires forall i | 0 <= i < |s| :: Inside(s[i], lo, hi)
    ensures Drop(s, lo, hi) == []
  {
    if s != [] { DropAll(s[1..], lo, hi); }
  }

  lemma {:induction false} DropOne(r: Region, lo: nat, hi: nat)
    ensures Drop([r], lo, hi) == if Inside(r, lo, hi) then [] else [r]
  {
  }

  lemma {:induction false} DropUpper(r: Region, lo: nat, hi: nat)
    requires lo <= r.base < r.End()
    ensures Drop(Upper(r, hi), lo, hi) == if hi <= r.base then [r] else Rest(hi, r.End(), r.Tag())
  {
    if r.base < hi < r.End() {
      var p, q := Piece(r.base, hi, r.Tag()), Piece(hi, r.End(), r.Tag());
      DropConcat([p], [q], lo, hi);
      DropOne(p, lo, hi);
      DropOne(q, lo, hi);
    } else {
      DropOne(r, lo, hi);
    }
  }

  lemma {:induction false} RemainsAreDropped(r: Region, lo: nat, hi: nat)
    requires lo < hi && r.Proper()
    ensures Drop(Pieces(r, lo, hi), lo, hi) == Remains(r, lo, hi)
  {
    if r.End() <= lo {
      DropOne(r, lo, hi);
    } else if lo <= r.base {
      DropUpper(r, lo, hi);
    } else {
      var p, u := Piece(r.base, lo, r.Tag()), Piece(lo, r.End(), r.Tag());
      DropConcat([p], Upper(u, hi), lo, hi);
      DropOne(p, lo, hi);
      DropUpper(u, lo, hi);
    }
  }

  lemma {:induction false} DropSplit(s: seq<Region>, lo: nat, hi: nat)
    requires lo < hi && AllProper(s)
    ensures Drop(Split(s, lo, hi), lo, hi) == Erased(s, lo, hi)
  {
    if s != [] {
      DropSplit(s[1..], lo, hi);
      DropConcat(Pieces(s[0], lo, hi), Split(s[1..], lo, hi), lo, hi);
      RemainsAreDropped(s[0], lo, hi);
    }
  }

  /** Cutting the index interval of the inside regions out of the split table erases the range. */
  lemma {:induction false} CutIsErased(s: seq<Region>, lo: nat, hi: nat, a: nat, b: nat)
    requires lo < hi && AllProper(s)
    requires a <= b <= |Split(s, lo, hi)|
    requires forall i | 0 <= i < |Split(s, lo, hi)| :: Inside(Split(s, lo, hi)[i], lo, hi) <==> a <= i < b
    ensures Split(s, lo, hi)[..a] + Split(s, lo, hi)[b..] == Erased(s, lo, hi)
  {
    DropSplit(s, lo, hi);
    DropInterval(Split(s, lo, hi), lo, hi, a, b);
  }

  lemma {:induction false} DropInterval(u: seq<Region>, lo: nat, hi: nat, a: nat, b: nat)
    requires a <= b <= |u|
    requires forall i | 0 <= i < |u| :: Inside(u[i], lo, hi) <==> a <= i < b
    ensures Drop(u, lo, hi) == u[..a] + u[b..]
  {
    DropMiddle(u[..a], u[a..b], u[b..], lo, hi);
    assert u == u[..a] + (u[a..b] + u[b..]);
  }

  lemma {:induction false} DropMiddle(p: seq<Region>, m: seq<Region>, q: seq<Region>, lo: nat, hi: nat)
    requires forall i | 0 <= i < |p| :: !Inside(p[i], lo, hi)
    requires forall i | 0 <= i < |m| :: Inside(m[i], lo, hi)
    requires forall i | 0 <= i < |q| :: !Inside(q[i], lo, hi)
    ensures Drop(p + (m + q), lo, hi) == p + q
  {
    DropConcat(p, m + q, lo, hi);
    DropConcat(m, q, lo, hi);
    DropNone(p, lo, hi);
    DropAll(m, lo, hi);
    DropNone(q, lo, hi);
    assert [] + q == q;
  }

  /** Removing a range is map restriction to its complement, in canonical form. */
  lemma {:induction false} ErasedIsRestriction(s: seq<Region>, lo: nat, hi: nat)
    requires lo < hi && Canonical(s)
    ensures Canonical(Erased(s, lo, hi))
    ensures forall x: int :: Lookup(Erased(s, lo, hi), x) == if lo <= x < hi then None else Lookup(s, x)
  {
    ErasedCanonical(s, lo, hi, 0);
    forall x: int
      ensures Lookup(Erased(s, lo, hi), x) == if lo <= x < hi then None else Lookup(s, x)
    {
      ErasedLookup(s, lo, hi, x);
    }
  }

  /** Removing a range that was just added over free addresses restores the table exactly. */
  lemma {:induction false} AddThenErase(s: seq<Region>, base: nat, size: nat, t: Attr)
    requires Canonical(s) && base <= PHYS_ADDR_MAX && 0 < CapSize(base, size)
    requires Avoids(s, base, base + CapSize(base, size))
    ensures Erased(Added(s, base, size, t), base, base + CapSize(base, size)) == s
  {
    hide Added, Erased, Lookup, CapSize;
    var hi := base + CapSize(base, size);
    var a := Added(s, base, size, t);
    AddedIsUnion(s, base, size, t);
    ErasedIsRestriction(a, base, hi);
    forall x: int ensures Lookup(Erased(a, base, hi), x) == Lookup(s, x) {
      assert Lookup(a, x) == Overlay(Lookup(s, x), base <= x < hi, t);
    }
    CanonicalUnique(Erased(a, base, hi), s);
  }

  // ----- Counting: the first pass of memblock_add_range -----

  /** The maximal uncovered stretches of [x, hi); `open` says that one is already under way. */
  ghost function Holes(s: seq<Region>, x: nat, hi: nat, open: bool): nat
    decreases hi - x
  {
    if hi <= x then 0
    else if Lookup(s, x).Some? then Holes(s, x + 1, hi, false)
    else (if open then 0 else 1) + Holes(s, x + 1, hi, true)
  }

  /** The number of holes depends only on which addresses of the range are covered. */
  lemma {:induction false} HolesSame(s: seq<Region>, t: seq<Region>, x: nat, hi: nat, open: bool)
    requires forall y: int | x <= y < hi :: Lookup(s, y).Some? <==> Lookup(t, y).Some?
    ensures Holes(s, x, hi, open) == Holes(t, x, hi, open)
    decreases hi - x
  {
    if x < hi {
      assert Lookup(s, x).Some? <==> Lookup(t, x).Some?;
      HolesSame(s, t, x + 1, hi, Lookup(s, x).None?);
    }
  }

  lemma {:induction false} HolesOver(s: seq<Region>, x: nat, y: nat, hi: nat, open: bool)
    requires x < y <= hi && Covers(s, x, y)
    ensures Holes(s, x, hi, open) == Holes(s, y, hi, false)
    decreases y - x
  {
    assert Lookup(s, x).Some?;
    if x + 1 < y { HolesOver(s, x + 1, y, hi, false); }
  }

  lemma {:induction false} HolesIn(s: seq<Region>, x: nat, y: nat, hi: nat, open: bool)
    requires x < y <= hi && Avoids(s, x, y)
    ensures Holes(s, x, hi, open) == (if open then 0 else 1) + Holes(s, y, hi, true)
    decreases y - x
  {
    assert Lookup(s, x).None?;
    if x + 1 < y { HolesIn(s, x + 1, y, hi, true); }
  }

  lemma {:induction false} HolesTail(s: seq<Region>, x: nat, hi: nat)
    requires WellFormed(s) && s != [] && s[0].End() <= x
    ensures Holes(s, x, hi, false) == Holes(s[1..], x, hi, false)
  {
    forall y: int | x <= y < hi ensures Lookup(s, y).Some? <==> Lookup(s[1..], y).Some? {
      TailLookup(s, y);
    }
    HolesSame(s, s[1..], x, hi, false);
  }

  /** Filling adds one region for every hole. */
  lemma {:induction false} FillCountsHoles(s: seq<Region>, lo: nat, hi: nat, t: Attr)
    requires WellFormed(s)
    ensures |Fill(s, lo, hi, t)| == |s| + Holes(s, lo, hi, false)
    decreases s
  {
    hide Holes;
    if hi <= lo { NoHoles(s, lo, hi); }
    if s == [] || hi <= s[0].base {
      if lo < hi { OneHole(s, lo, hi); }
    } else if s[0].End() <= lo {
      FillCountsHoles(s[1..], lo, hi, t);
      HolesTail(s, lo, hi);
    } else {
      var lo' := Min(s[0].End(), hi);
      FillCountsHoles(s[1..], lo', hi, t);
      if lo < hi {
        HolesFirst(s, lo, hi);
      }
      if lo' == hi {
        NoHoles(s, lo', hi);
        NoHoles(s[1..], lo', hi);
      } else {
        HolesTail(s, lo', hi);
      }
    }
  }

  lemma {:induction false} NoHoles(s: seq<Region>, lo: nat, hi: nat)
    requires hi <= lo
    ensures forall open :: Holes(s, lo, hi, open) == 0
  {
  }

  lemma {:induction false} OneHole(s: seq<Region>, lo: nat, hi: nat)
    requires WellFormed(s) && lo < hi && (s == [] || hi <= s[0].base)
    ensures Holes(s, lo, hi, false) == 1
  {
    forall y: int | lo <= y < hi ensures Lookup(s, y).None? { BelowFirst(s, y); }
    HolesIn(s, lo, hi, hi, false);
  }

  lemma {:induction false} HolesFirst(s: seq<Region>, lo: nat, hi: nat)
    requires WellFormed(s) && s != [] && lo < hi && s[0].base < hi && lo < s[0].End()
    ensures Holes(s, lo, hi, false)
         == (if lo < s[0].base then 1 else 0) + Holes(s, Min(s[0].End(), hi), hi, false)
  {
    var first, next := Max(lo, s[0].base), Min(s[0].End(), hi);
    assert Covers(s, first, next);
    if lo < s[0].base {
      forall y: int | lo <= y < s[0].base ensures Lookup(s, y).None? { BelowFirst(s, y); }
      HolesIn(s, lo, s[0].base, hi, false);
      HolesOver(s, first, next, hi, true);
    } else {
      HolesOver(s, first, next, hi, false);
    }
  }

  lemma {:induction false} FillNothing(s: seq<Region>, lo: nat, hi: nat, t: Attr)
    requires |Fill(s, lo, hi, t)| == |s|
    ensures Fill(s, lo, hi, t) == s
    decreases s
  {
    if s == [] || hi <= s[0].base {
    } else if s[0].End() <= lo {
      FillNothing(s[1..], lo, hi, t);
    } else {
      FillGrowth(s[1..], Min(s[0].End(), hi), hi, t);
      FillNothing(s[1..], Min(s[0].End(), hi), hi, t);
    }
  }

  /** Filling a range that s avoids adds one region. */
  lemma {:induction false} FillFree(s: seq<Region>, lo: nat, hi: nat, t: Attr)
    requires WellFormed(s) && lo < hi && Avoids(s, lo, hi)
    ensures |Fill(s, lo, hi, t)| == |s| + 1
  {
    FillCountsHoles(s, lo, hi, t);
    HolesIn(s, lo, hi, hi, false);
  }

  lemma {:induction false} ErasedNothing(s: seq<Region>, lo: nat, hi: nat)
    requires lo < hi && AllFrom(s, hi)
    ensures Erased(s, lo, hi) == s
  {
    if s != [] {
      ErasedNothing(s[1..], lo, hi);
      assert s == [s[0]] + s[1..];
    }
  }

  /** Removing a range adds at most one region. */
  lemma {:induction false} ErasedGrowth(s: seq<Region>, lo: nat, hi: nat)
    requires lo < hi && WellFormed(s)
    ensures |Erased(s, lo, hi)| <= |s| + 1
  {
    if s != [] {
      ErasedGrowth(s[1..], lo, hi);
      if s[0].base < lo && hi < s[0].End() {
        ErasedNothing(s[1..], lo, hi);
      }
    }
  }
}
