/**
 A region table as the code stores it: an array of regions edited in place, with
 a count, a capacity and a running total.  Every method is specified by the value
 operation of RegionOps that it performs on `Contents()`.
 */
module RegionTable {
  import opened Basics
  import opened Regions
  import opened RegionOps

  const MAX_NUMNODES := 16
  const NO_FLAGS: Flags := 0

  class MemblockType {
    var cnt: nat
    var max: nat
    var totalSize: nat
    var regions: array<Region>
    /** Physical address of the array when it was taken from memblock itself. */
    var storage: Option<nat>

    /** The counters describe the array. */
    ghost predicate Shape()
      reads this
    {
      cnt <= max == regions.Length && 0 < max
    }

    ghost function Contents(): seq<Region>
      requires Shape()
      reads this, regions
    {
      regions[..cnt]
    }

    /** totalSize is the sum of the sizes, and an empty table is marked by an empty first entry. */
    ghost predicate Tallied()
      reads this, regions
    {
      Shape() && totalSize == TotalSize(Contents()) && (cnt == 0 ==> regions[0].size == 0)
    }

    ghost predicate Valid()
      reads this, regions
    {
      Shape() && Tallied() && Canonical(Contents())
    }

    constructor (capacity: nat)
      requires 0 < capacity
      ensures Valid() && fresh(regions) && Contents() == [] && max == capacity && storage == None
    {
      cnt, max, totalSize, storage := 0, capacity, 0, None;
      regions := new Region[capacity](_ => Region(0, 0, 0, 0));
    }

    /** memblock_insert_region; the result is false where the code stops at its BUG_ON. */
    method InsertRegion(idx: nat, base: nat, size: nat, nid: int, flags: Flags) returns (ok: bool)
      requires Shape() && idx <= cnt && totalSize == TotalSize(Contents())
      modifies this`cnt, this`totalSize, regions
      ensures Shape() && ok == (old(cnt) < max)
      ensures ok ==> Contents() == old(Contents())[..idx] + [Region(base, size, nid, flags)] + old(Contents())[idx..]
      ensures !ok ==> Contents() == old(Contents())
      ensures totalSize == TotalSize(Contents())
    {
      if cnt >= max { return false; }
      ghost var was := Contents();
      ghost var r := Region(base, size, nid, flags);
      forall k | idx < k <= cnt { regions[k] := regions[k - 1]; }
      regions[idx] := Region(base, size, nid, flags);
      cnt := cnt + 1;
      totalSize := totalSize + size;
      InsertedIs(was, Contents(), idx, r);
      InsertedSize(was, idx, r);
      return true;
    }

    /** memblock_remove_region. */
    method RemoveRegion(r: nat)
      requires Shape() && r < cnt && totalSize == TotalSize(Contents())
      modifies this`cnt, this`totalSize, regions
      ensures Tallied()
      ensures Contents() == old(Contents())[..r] + old(Contents())[r + 1..]
    {
      ghost var was := Contents();
      RemovedSize(was, r);
      totalSize := totalSize - regions[r].size;
      forall k | r <= k < cnt - 1 { regions[k] := regions[k + 1]; }
      cnt := cnt - 1;
      RemovedIs(was, Contents(), r);
      if cnt == 0 {
        assert totalSize == 0;
        regions[0] := Region(0, 0, MAX_NUMNODES, NO_FLAGS);
      }
    }

    /** Replace the neighbours at i and i + 1 by one region. */
    method JoinNext(i: nat)
      requires Shape() && i + 1 < cnt
      modifies this`cnt, regions
      ensures Shape() && Contents() == Joined(old(Contents()), i)
    {
      ghost var was := Contents();
      regions[i] := regions[i].(size := regions[i].size + regions[i + 1].size);
      forall k | i + 1 <= k < cnt - 1 { regions[k] := regions[k + 1]; }
      cnt := cnt - 1;
      JoinedIs(was, Contents(), i);
    }

    /** memblock_merge_regions: scan the neighbours from startRgn - 1 up to endRgn. */
    method MergeRegions(startRgn: nat, endRgn: nat)
      requires Tallied() && WellFormed(Contents()) && startRgn < cnt
      requires MergeableOnlyIn(Contents(), startRgn - 1, endRgn)
      modifies this`cnt, regions
      ensures Valid() && 0 < cnt
      ensures Contents() == MergeAll(old(Contents()))
    {
      hide MergeState, MergeAll, MergeableOnlyIn;
      ghost var first := Contents();
      var i := if startRgn > 0 then startRgn - 1 else 0;
      var end := if endRgn <= cnt - 1 then endRgn else cnt - 1;
      MergeStart(first, startRgn, endRgn, i, end);
      while i < end
        invariant Shape() && 0 <= i < cnt && 0 <= end <= cnt - 1
        invariant MergeState(first, Contents(), i, end)
        decreases end - i
      {
        ghost var was := Contents();
        var this', next := regions[i], regions[i + 1];
        if this'.base + this'.size != next.base || this'.nid != next.nid || this'.flags != next.flags {
          MergeKeep(first, was, i, end);
          i := i + 1;
        } else {
          JoinNext(i);
          MergeJoin(first, was, i, end);
          end := end - 1;
        }
      }
      MergeDone(first, Contents(), i, end);
    }

    /** Insert [lo, hi) at idx and widen the window of indices to merge. */
    method InsertPiece(idx: nat, lo: nat, hi: nat, nid: int, flags: Flags, startRgn: int)
      returns (ok: bool, start': int, end': int)
      requires Shape() && idx <= cnt && totalSize == TotalSize(Contents()) && lo < hi
      modifies this`cnt, this`totalSize, regions
      ensures Shape() && totalSize == TotalSize(Contents()) && ok == (old(cnt) < max)
      ensures start' == (if startRgn == -1 then idx else startRgn) && end' == idx + 1
      ensures ok ==> Contents() == Inserted(old(Contents()), idx, Piece(lo, hi, Attr(nid, flags)))
    {
      start' := if startRgn == -1 then idx else startRgn;
      end' := idx + 1;
      ok := InsertRegion(idx, lo, hi - lo, nid, flags);
    }

    /** The body of the scanning loop for a region that overlaps the range. */
    method AddStep(insert: bool, c: Cursor, end: nat, nid: int, flags: Flags, ghost first: seq<Region>, ghost job: Job)
      returns (n: Cursor, halted: bool)
      requires Shape() && totalSize == TotalSize(Contents()) && job.end == end && job.t == Attr(nid, flags)
      requires c.idx < cnt && regions[c.idx].base < end && c.base < regions[c.idx].End()
      requires Scanning(first, Contents(), job, c, insert)
      modifies this`cnt, this`totalSize, regions
      ensures Shape() && totalSize == TotalSize(Contents())
      ensures !insert ==> !halted && cnt == old(cnt) && totalSize == old(totalSize) && regions[..] == old(regions[..])
      ensures halted ==> |job.Result(first)| > max
      ensures !halted ==> n.idx <= cnt && cnt - n.idx < old(cnt) - c.idx
      ensures !halted ==> Scanning(first, Contents(), job, n, insert)
    {
      hide Scanning, Job.Result;
      ghost var was := Contents();
      n, halted := c, false;
      var rbase, rend := regions[c.idx].base, regions[c.idx].base + regions[c.idx].size;
      if rbase > c.base {
        FillGap(first, was, job, c, insert);
        n := n.(nrNew := c.nrNew + 1);
        if insert {
          var ok, start', end' := InsertPiece(c.idx, c.base, rbase, nid, flags, c.startRgn);
          if !ok { return n, true; }
          n := n.(startRgn := start', endRgn := end', idx := n.idx + 1);
        }
      } else {
        FillOver(first, was, job, c, insert);
      }
      n := n.(base := if rend <= end then rend else end, idx := n.idx + 1);
    }

    /**
     One run of the scanning loop of memblock_add_range.  With `insert` false it only
     counts the holes of [obase, end); with `insert` true it also fills them.  `halted`
     says that an insertion met the BUG_ON of memblock_insert_region.
     */
    method AddPass(insert: bool, obase: nat, end: nat, nid: int, flags: Flags)
      returns (nrNew: nat, startRgn: int, endRgn: int, halted: bool)
      requires Tallied() && Canonical(Contents()) && obase < end
      modifies this`cnt, this`totalSize, regions
      ensures Shape() && totalSize == TotalSize(Contents())
      ensures !insert ==> !halted && cnt == old(cnt) && totalSize == old(totalSize) && regions[..] == old(regions[..])
      ensures var filled := Fill(old(Contents()), obase, end, Attr(nid, flags));
              && (insert ==> halted == (|filled| > max))
              && (!halted ==> nrNew == |filled| - old(cnt))
              && (insert && !halted ==> Contents() == filled)
              && (insert && !halted && nrNew > 0 ==>
                    0 <= startRgn < cnt && 0 <= endRgn && MergeableOnlyIn(filled, startRgn - 1, endRgn))
    {
      hide Scanning, Fill, MergeableOnlyIn;
      ghost var first, job := Contents(), Job(obase, end, Attr(nid, flags));
      var c := Cursor(0, obase, 0, -1, -1);
      halted := false;
      FillStart(first, job, insert);
      while c.idx < cnt
        invariant Shape() && c.idx <= cnt && totalSize == TotalSize(Contents())
        invariant !insert ==> cnt == old(cnt) && totalSize == old(totalSize) && regions[..] == old(regions[..])
        invariant Scanning(first, Contents(), job, c, insert)
        decreases cnt - c.idx
      {
        var rbase, rend := regions[c.idx].base, regions[c.idx].base + regions[c.idx].size;
        if rbase >= end { break; }
        if rend <= c.base {
          FillSkip(first, Contents(), job, c, insert);
          c := c.(idx := c.idx + 1);
          continue;
        }
        c, halted := AddStep(insert, c, end, nid, flags, first, job);
        if halted { return c.nrNew, c.startRgn, c.endRgn, halted; }
      }
      FillLast(first, Contents(), job, c, insert);
      nrNew, startRgn, endRgn := c.nrNew, c.startRgn, c.endRgn;
      if c.base < end {
        nrNew := nrNew + 1;
        if insert {
          var ok;
          ok, startRgn, endRgn := InsertPiece(c.idx, c.base, end, nid, flags, startRgn);
          halted := !ok;
        }
      }
    }

    /** Cut the region at idx in two at p: the lower part stays at idx. */
    method SplitRegion(idx: nat, p: nat)
      requires Shape() && totalSize == TotalSize(Contents()) && cnt < max
      requires idx < cnt && regions[idx].base < p < regions[idx].End()
      modifies this`cnt, this`totalSize, regions
      ensures Shape() && totalSize == TotalSize(Contents())
      ensures Contents() == CutAt(old(Contents()), idx, p)
    {
      hide TotalSize;
      ghost var was := Contents();
      var rgn := regions[idx];
      regions[idx] := rgn.(base := p, size := rgn.size - (p - rgn.base));
      ghost var upper := Contents();
      assert upper == was[idx := Piece(p, was[idx].End(), was[idx].Tag())];
      ShrunkSize(was, idx, p);
      totalSize := totalSize - (p - rgn.base);
      var ok := InsertRegion(idx, rgn.base, p - rgn.base, regions[idx].nid, regions[idx].flags);
      assert upper[..idx] == was[..idx] && upper[idx..] == [Piece(p, was[idx].End(), was[idx].Tag())] + was[idx + 1..];
    }

    /**
     The loop of memblock_isolate_range: regions that cross an end of [base, end) are
     split, and a split region is looked at again.
     */
    method IsolateRegions(base: nat, end: nat) returns (startRgn: nat, endRgn: nat)
      requires Valid() && base < end && cnt + 2 <= max
      modifies this`cnt, this`totalSize, regions
      ensures Shape() && totalSize == TotalSize(Contents())
      ensures cnt == 0 ==> regions[0].size == 0
      ensures Contents() == Split(old(Contents()), base, end)
      ensures startRgn <= endRgn <= cnt
      ensures forall i | 0 <= i < cnt :: Inside(Contents()[i], base, end) <==> startRgn <= i < endRgn
    {
      hide Isolating, Split, TotalSize, Work;
      ghost var first := Contents();
      startRgn, endRgn := 0, 0;
      var idx: nat := 0;
      SplitStart(first, base, end);
      SplitGrowth(first, base, end);
      while idx < cnt
        invariant Shape() && idx <= cnt && totalSize == TotalSize(Contents())
        invariant cnt == 0 ==> regions[0].size == 0
        invariant Isolating(first, Contents(), idx, base, end, startRgn, endRgn)
        decreases Work(Contents(), idx, base, end)
      {
        ghost var was := Contents();
        var rbase, rend := regions[idx].base, regions[idx].base + regions[idx].size;
        if rbase >= end { break; }
        if rend <= base {
          SplitSkip(first, was, idx, base, end, startRgn, endRgn);
          idx := idx + 1;
        } else if rbase < base {
          SplitBelow(first, was, idx, base, end, startRgn, endRgn);
          SplitRegion(idx, base);
          idx := idx + 1;
        } else if rend > end {
          SplitAbove(first, was, idx, base, end, startRgn, endRgn);
          SplitRegion(idx, end);
        } else {
          SplitInside(first, was, idx, base, end, startRgn, endRgn);
          if endRgn == 0 { startRgn := idx; }
          endRgn := idx + 1;
          idx := idx + 1;
        }
      }
      SplitDone(first, Contents(), idx, base, end, startRgn, endRgn);
    }

    /** The removal loop of memblock_remove_range. */
    method RemoveRegions(startRgn: nat, endRgn: nat)
      requires Shape() && totalSize == TotalSize(Contents()) && startRgn <= endRgn <= cnt
      requires cnt == 0 ==> regions[0].size == 0
      modifies this`cnt, this`totalSize, regions
      ensures Tallied()
      ensures Contents() == old(Contents())[..startRgn] + old(Contents())[endRgn..]
    {
      ghost var first := Contents();
      var i := endRgn - 1;
      assert first == first[..endRgn] + first[endRgn..];
      while i >= startRgn
        invariant startRgn - 1 <= i < endRgn
        invariant Tallied()
        invariant Contents() == first[..i + 1] + first[endRgn..]
      {
        ghost var was := Contents();
        RemoveRegion(i);
        assert was[..i] == first[..i] && was[i + 1..] == first[endRgn..];
        i := i - 1;
      }
    }

    /** The empty-array case of memblock_add_range. */
    method AddFirst(base: nat, end: nat, nid: int, flags: Flags)
      requires Valid() && cnt == 0 && base < end <= PHYS_ADDR_MAX
      modifies this`cnt, this`totalSize, regions
      ensures Valid() && Contents() == MergeAll(Fill(old(Contents()), base, end, Attr(nid, flags)))
    {
      regions[0] := Region(base, end - base, nid, flags);
      totalSize := end - base;
      cnt := 1;
      assert Contents() == [Region(base, end - base, nid, flags)];
      TotalSizeOne(regions[0]);
    }

    /** The counting pass of memblock_add_range. */
    method CountHoles(base: nat, end: nat, nid: int, flags: Flags) returns (nrNew: nat)
      requires Valid() && base < end
      modifies this`cnt, this`totalSize, regions
      ensures Valid() && cnt == old(cnt) && Contents() == old(Contents())
      ensures cnt + nrNew == |Fill(Contents(), base, end, Attr(nid, flags))|
    {
      hide Fill;
      ghost var first := Contents();
      var n, startRgn, endRgn, halted := AddPass(false, base, end, nid, flags);
      assert Contents() == first;
      nrNew := n;
    }

    /** The inserting pass of memblock_add_range, followed by the merge. */
    method AddFilled(base: nat, end: nat, nid: int, flags: Flags) returns (halted: bool)
      requires Valid() && base < end <= PHYS_ADDR_MAX
      modifies this`cnt, this`totalSize, regions
      ensures halted <==> |Fill(old(Contents()), base, end, Attr(nid, flags))| > max
      ensures !halted ==> Valid() && Contents() == MergeAll(Fill(old(Contents()), base, end, Attr(nid, flags)))
    {
      hide Fill, MergeAll, MergeableOnlyIn, Minimal;
      ghost var first := Contents();
      ghost var filled := Fill(first, base, end, Attr(nid, flags));
      FillWellFormed(first, base, end, Attr(nid, flags));
      var nrNew, startRgn, endRgn, stopped := AddPass(true, base, end, nid, flags);
      halted := stopped;
      if halted { return; }
      if nrNew == 0 {
        FillNothing(first, base, end, Attr(nid, flags));
        MergeAllMinimal(first);
        FillNonEmpty(first, base, end, Attr(nid, flags));
        return;
      }
      MergeRegions(startRgn, endRgn);
    }

    /** memblock_remove_range once the array has room for the two splits. */
    method EraseRange(base: nat, end: nat)
      requires Valid() && base < end && cnt + 2 <= max
      modifies this`cnt, this`totalSize, regions
      ensures Valid() && Contents() == Erased(old(Contents()), base, end)
    {
      ghost var first := Contents();
      var startRgn, endRgn := IsolateRegions(base, end);
      CutIsErased(first, base, end, startRgn, endRgn);
      ErasedIsRestriction(first, base, end);
      RemoveRegions(startRgn, endRgn);
    }

    /** The copying part of memblock_double_array: move the regions to an array twice as long. */
    method Grow(addr: nat)
      requires Valid()
      modifies this`max, this`regions, this`storage
      ensures Valid() && fresh(regions) && Contents() == old(Contents())
      ensures max == 2 * old(max) && storage == Some(addr)
    {
      var newArray := new Region[2 * max](_ => Region(0, 0, 0, 0));
      forall k | 0 <= k < max { newArray[k] := regions[k]; }
      ghost var was := Contents();
      regions := newArray;
      max := 2 * max;
      storage := Some(addr);
      assert Contents() == was;
    }
  }


  /** The variables of the scanning loop of memblock_add_range. */
  datatype Cursor = Cursor(idx: nat, base: nat, nrNew: nat, startRgn: int, endRgn: int)

  /** All mergeable neighbours of s start at an index in [lo, hi). */
  ghost predicate MergeableOnlyIn(s: seq<Region>, lo: int, hi: int) {
    forall k | 0 <= k < |s| - 1 && !(lo <= k < hi) :: !Mergeable(s[k], s[k + 1])
  }

  ghost function Joined(s: seq<Region>, i: nat): seq<Region>
    requires i + 1 < |s|
  {
    s[..i] + [Join(s[i], s[i + 1])] + s[i + 2..]
  }

  lemma {:induction false} InsertedIs(s: seq<Region>, n: seq<Region>, idx: nat, r: Region)
    requires idx <= |s| && |n| == |s| + 1 && n[idx] == r
    requires forall k | 0 <= k < idx :: n[k] == s[k]
    requires forall k | idx < k < |n| :: n[k] == s[k - 1]
    ensures n == s[..idx] + [r] + s[idx..]
  {
  }

  lemma {:induction false} RemovedIs(s: seq<Region>, n: seq<Region>, r: nat)
    requires r < |s| && |n| == |s| - 1
    requires forall k | 0 <= k < r :: n[k] == s[k]
    requires forall k | r <= k < |n| :: n[k] == s[k + 1]
    ensures n == s[..r] + s[r + 1..]
  {
  }

  lemma {:induction false} JoinedIs(s: seq<Region>, n: seq<Region>, i: nat)
    requires i + 1 < |s| && |n| == |s| - 1 && n[i] == Join(s[i], s[i + 1])
    requires forall k | 0 <= k < i :: n[k] == s[k]
    requires forall k | i < k < |n| :: n[k] == s[k + 1]
    ensures n == Joined(s, i)
  {
  }

  lemma {:induction false} FillNonEmpty(s: seq<Region>, base: nat, end: nat, t: Attr)
    requires base < end
    ensures |Fill(s, base, end, t)| > 0
  {
    FillGrowth(s, base, end, t);
  }

  lemma {:induction false} TotalSizeOne(r: Region)
    ensures TotalSize([r]) == r.size
  {
  }

  lemma {:induction false} InsertedSize(s: seq<Region>, i: nat, r: Region)
    requires i <= |s|
    ensures TotalSize(s[..i] + [r] + s[i..]) == TotalSize(s) + r.size
  {
    hide TotalSize;
    assert s == s[..i] + s[i..];
    TotalSizeConcat(s[..i], s[i..]);
    TotalSizeConcat(s[..i] + [r], s[i..]);
    TotalSizeConcat(s[..i], [r]);
    TotalSizeOne(r);
  }

  lemma {:induction false} RemovedSize(s: seq<Region>, i: nat)
    requires i < |s|
    ensures TotalSize(s) == TotalSize(s[..i] + s[i + 1..]) + s[i].size
  {
    hide TotalSize;
    var lo, hi := s[..i], s[i + 1..];
    assert s == lo + ([s[i]] + hi);
    TotalSizeConcat(lo, [s[i]] + hi);
    TotalSizeConcat(lo, hi);
    TotalSizeConcat([s[i]], hi);
    TotalSizeOne(s[i]);
  }

  /** The merging loop at index i: the first i regions of s are final, the rest is still to merge. */
  ghost predicate MergeState(first: seq<Region>, s: seq<Region>, i: nat, end: nat) {
    && i < |s|
    && MergeableOnlyIn(s[i..], 0, end - i)
    && MergeAll(first) == s[..i] + MergeAll(s[i..])
  }

  lemma {:induction false} MergeStart(s: seq<Region>, startRgn: nat, endRgn: nat, i: nat, end: nat)
    requires startRgn < |s| && MergeableOnlyIn(s, startRgn - 1, endRgn)
    requires i == if startRgn > 0 then startRgn - 1 else 0
    requires end == if endRgn <= |s| - 1 then endRgn else |s| - 1
    ensures MergeState(s, s, i, end)
  {
    MergeAllSkip(s, i);
  }

  lemma {:induction false} MergeKeep(first: seq<Region>, s: seq<Region>, i: nat, end: nat)
    requires MergeState(first, s, i, end) && i < end && i + 1 < |s| && !Mergeable(s[i], s[i + 1])
    ensures MergeState(first, s, i + 1, end)
  {
    assert s[i..][1..] == s[i + 1..];
    assert s[..i] + [s[i]] == s[..i + 1];
    var t := s[i + 1..];
    forall k | 0 <= k < |t| - 1 && !(0 <= k < end - (i + 1)) ensures !Mergeable(t[k], t[k + 1]) {
      assert !Mergeable(s[i..][k + 1], s[i..][k + 2]);
    }
  }

  lemma {:induction false} MergeJoin(first: seq<Region>, s: seq<Region>, i: nat, end: nat)
    requires MergeState(first, s, i, end) && i < end && i + 1 < |s| && Mergeable(s[i], s[i + 1])
    ensures MergeState(first, Joined(s, i), i, end - 1)
  {
    var t := Joined(s, i);
    assert s[i..][2..] == s[i + 2..];
    assert t[i..] == [Join(s[i], s[i + 1])] + s[i + 2..];
    assert t[..i] == s[..i];
    var u := t[i..];
    forall k | 0 <= k < |u| - 1 && !(0 <= k < end - 1 - i) ensures !Mergeable(u[k], u[k + 1]) {
      assert !Mergeable(s[i..][k + 1], s[i..][k + 2]);
    }
  }

  lemma {:induction false} MergeDone(first: seq<Region>, s: seq<Region>, i: nat, end: nat)
    requires MergeState(first, s, i, end) && end <= i && WellFormed(first)
    ensures s == MergeAll(first) && Canonical(s) && TotalSize(s) == TotalSize(first)
  {
    MergeAllMinimal(s[i..]);
    assert s == s[..i] + s[i..];
    MergeAllCanonical(first);
  }

  // ----- The scanning loop of memblock_add_range -----

  /** A range to add and its attributes. */
  datatype Job = Job(obase: nat, end: nat, t: Attr) {
    ghost function Result(s: seq<Region>): seq<Region> { Fill(s, obase, end, t) }

    ghost function From(s: seq<Region>, base: nat): seq<Region> { Fill(s, base, end, t) }
  }

  /**
   The loop at c: everything below c.base is dealt with and c.nrNew holes have been met.
   When inserting, the first c.idx regions of s are final; when counting, s is still the
   first table.
   */
  ghost predicate Scanning(first: seq<Region>, s: seq<Region>, job: Job, c: Cursor, insert: bool) {
    && Counting(first, s, job, c)
    && (if insert then Filling(first, s, job, c) && Window(s, c) else s == first)
  }

  ghost predicate Counting(first: seq<Region>, s: seq<Region>, job: Job, c: Cursor) {
    && c.idx <= |s|
    && WellFormed(s[c.idx..])
    && c.nrNew + |job.From(s[c.idx..], c.base)| - |s[c.idx..]| == |job.Result(first)| - |first|
  }

  ghost predicate Filling(first: seq<Region>, s: seq<Region>, job: Job, c: Cursor) {
    && c.idx <= |s|
    && s[..c.idx] + job.From(s[c.idx..], c.base) == job.Result(first)
  }

  /** The mergeable neighbours of s are next to an inserted piece. */
  ghost predicate Window(s: seq<Region>, c: Cursor) {
    && c.endRgn <= c.idx
    && (c.nrNew == 0 <==> c.startRgn == -1)
    && (if c.nrNew == 0 then c.endRgn == -1 else 0 <= c.startRgn < c.endRgn)
    && MergeableOnlyIn(s, c.startRgn - 1, c.endRgn)
  }

  ghost function Inserted(s: seq<Region>, idx: nat, r: Region): seq<Region>
    requires idx <= |s|
  {
    s[..idx] + [r] + s[idx..]
  }

  lemma {:induction false} FillStart(first: seq<Region>, job: Job, insert: bool)
    requires Canonical(first)
    ensures Scanning(first, first, job, Cursor(0, job.obase, 0, -1, -1), insert)
  {
    assert first[0..] == first && first[..0] == [];
  }

  /** A region that does not meet the rest of the range, or covers its start, stays as it is. */
  lemma {:induction false} KeepUnfold(s: seq<Region>, job: Job, base: nat)
    requires s != [] && s[0].base < job.end && s[0].base <= base
    ensures job.From(s, base) == [s[0]] + job.From(s[1..],
                                                   if s[0].End() <= base then base else Min(s[0].End(), job.end))
  {
    assert Rest(base, Min(s[0].base, job.end), job.t) == [];
  }

  lemma {:induction false} KeepSlices(s: seq<Region>, idx: nat, rest: seq<Region>)
    requires idx < |s|
    ensures s[..idx] + ([s[idx]] + rest) == s[..idx + 1] + rest
  {
    assert s[..idx] + [s[idx]] == s[..idx + 1];
  }

  lemma {:induction false} FillKeep(first: seq<Region>, s: seq<Region>, job: Job, c: Cursor, insert: bool)
    requires Scanning(first, s, job, c, insert)
    requires c.idx < |s| && s[c.idx].base < job.end && s[c.idx].base <= c.base
    ensures var base := if s[c.idx].End() <= c.base then c.base else Min(s[c.idx].End(), job.end);
            Scanning(first, s, job, c.(idx := c.idx + 1, base := base), insert)
  {
    hide Fill, MergeableOnlyIn, WellFormed, Job.From, Job.Result;
    GapTail(s, c.idx);
    KeepUnfold(s[c.idx..], job, c.base);
    var base := if s[c.idx].End() <= c.base then c.base else Min(s[c.idx].End(), job.end);
    KeepSlices(s, c.idx, job.From(s[c.idx + 1..], base));
  }

  lemma {:induction false} FillSkip(first: seq<Region>, s: seq<Region>, job: Job, c: Cursor, insert: bool)
    requires Scanning(first, s, job, c, insert)
    requires c.idx < |s| && s[c.idx].base < job.end && s[c.idx].End() <= c.base
    ensures Scanning(first, s, job, c.(idx := c.idx + 1), insert)
  {
    hide Scanning;
    FillKeep(first, s, job, c, insert);
  }

  lemma {:induction false} FillOver(first: seq<Region>, s: seq<Region>, job: Job, c: Cursor, insert: bool)
    requires Scanning(first, s, job, c, insert)
    requires c.idx < |s| && s[c.idx].base < job.end && s[c.idx].base <= c.base < s[c.idx].End()
    ensures Scanning(first, s, job, c.(idx := c.idx + 1, base := Min(s[c.idx].End(), job.end)), insert)
  {
    hide Scanning;
    FillKeep(first, s, job, c, insert);
  }

  lemma {:induction false} GapUnfold(s: seq<Region>, job: Job, base: nat)
    requires s != [] && base < s[0].base < job.end
    ensures job.From(s, base)
         == [Piece(base, s[0].base, job.t), s[0]] + job.From(s[1..], Min(s[0].End(), job.end))
    ensures |job.From(s, base)| > |s|
  {
    FillGrowth(s[1..], Min(s[0].End(), job.end), job.end, job.t);
  }

  ghost function AfterGap(c: Cursor, base: nat, insert: bool): Cursor {
    if insert then Cursor(c.idx + 2, base, c.nrNew + 1, if c.startRgn == -1 then c.idx else c.startRgn, c.idx + 1)
    else Cursor(c.idx + 1, base, c.nrNew + 1, c.startRgn, c.endRgn)
  }

  lemma {:induction false} FillGap(first: seq<Region>, s: seq<Region>, job: Job, c: Cursor, insert: bool)
    requires Scanning(first, s, job, c, insert)
    requires c.idx < |s| && c.base < s[c.idx].base < job.end
    ensures insert ==> |job.Result(first)| > |s|
    ensures var s' := if insert then Inserted(s, c.idx, Piece(c.base, s[c.idx].base, job.t)) else s;
            Scanning(first, s', job, AfterGap(c, Min(s[c.idx].End(), job.end), insert), insert)
  {
    hide Fill, MergeableOnlyIn, WellFormed;
    GapTail(s, c.idx);
    GapUnfold(s[c.idx..], job, c.base);
    if insert {
      var p := Piece(c.base, s[c.idx].base, job.t);
      GapSlices(s, c.idx, p);
      WindowInsert(s, c, p);
    }
  }

  lemma {:induction false} GapTail(s: seq<Region>, idx: nat)
    requires idx < |s| && WellFormed(s[idx..])
    ensures s[idx..][1..] == s[idx + 1..] && WellFormed(s[idx + 1..])
  {
    assert s[idx..][1..] == s[idx + 1..];
  }

  lemma {:induction false} GapSlices(s: seq<Region>, idx: nat, p: Region)
    requires idx < |s|
    ensures Inserted(s, idx, p)[idx + 2..] == s[idx + 1..]
    ensures Inserted(s, idx, p)[..idx + 2] == s[..idx] + [p, s[idx]]
  {
  }

  lemma {:induction false} WindowInsert(s: seq<Region>, c: Cursor, p: Region)
    requires c.idx <= |s| && Window(s, c)
    ensures MergeableOnlyIn(Inserted(s, c.idx, p), (if c.startRgn == -1 then c.idx else c.startRgn) - 1, c.idx + 1)
  {
    var n := Inserted(s, c.idx, p);
    var lo := (if c.startRgn == -1 then c.idx else c.startRgn) - 1;
    forall k | 0 <= k < |n| - 1 && !(lo <= k < c.idx + 1) ensures !Mergeable(n[k], n[k + 1]) {
      if k < lo {
        assert !Mergeable(s[k], s[k + 1]);
      } else {
        assert !Mergeable(s[k - 1], s[k]);
      }
    }
  }

  lemma {:induction false} LastUnfold(s: seq<Region>, job: Job, base: nat)
    requires s == [] || job.end <= s[0].base
    ensures job.From(s, base) == Rest(base, job.end, job.t) + s
  {
  }

  lemma {:induction false} LastSlices(s: seq<Region>, idx: nat, base: nat, job: Job)
    requires idx <= |s|
    ensures var rest := Rest(base, job.end, job.t) + s[idx..];
            if base < job.end then s[..idx] + rest == Inserted(s, idx, Piece(base, job.end, job.t))
                && |rest| == |s[idx..]| + 1
            else s[..idx] + rest == s && rest == s[idx..]
  {
    if base < job.end {
      var p := Piece(base, job.end, job.t);
      assert s[..idx] + ([p] + s[idx..]) == Inserted(s, idx, p);
    } else {
      assert s[..idx] + s[idx..] == s;
    }
  }

  lemma {:induction false} FillLast(first: seq<Region>, s: seq<Region>, job: Job, c: Cursor, insert: bool)
    requires Scanning(first, s, job, c, insert)
    requires c.idx == |s| || job.end <= s[c.idx].base
    ensures |job.Result(first)| - |first| == c.nrNew + if c.base < job.end then 1 else 0
    ensures insert && job.end <= c.base && c.nrNew > 0 ==>
              0 <= c.startRgn < |s| && 0 <= c.endRgn && MergeableOnlyIn(s, c.startRgn - 1, c.endRgn)
    ensures insert && c.startRgn != -1 ==> 0 <= c.startRgn <= |s|
    ensures !insert ==> s == first
    ensures insert && c.base < job.end ==>
              && job.Result(first) == Inserted(s, c.idx, Piece(c.base, job.end, job.t))
              && MergeableOnlyIn(job.Result(first), (if c.startRgn == -1 then c.idx else c.startRgn) - 1, c.idx + 1)
    ensures insert && job.end <= c.base ==> job.Result(first) == s
  {
    hide Fill, MergeableOnlyIn, WellFormed, Job.From, Job.Result;
    LastUnfold(s[c.idx..], job, c.base);
    LastSlices(s, c.idx, c.base, job);
    if insert && c.base < job.end { WindowInsert(s, c, Piece(c.base, job.end, job.t)); }
  }

  // ----- The loop of memblock_isolate_range -----

  ghost function CutAt(s: seq<Region>, idx: nat, p: nat): seq<Region>
    requires idx < |s| && s[idx].base < p < s[idx].End()
  {
    s[..idx] + [Piece(s[idx].base, p, s[idx].Tag()), Piece(p, s[idx].End(), s[idx].Tag())] + s[idx + 1..]
  }

  lemma {:induction false} ShrunkSize(s: seq<Region>, idx: nat, p: nat)
    requires idx < |s| && s[idx].base < p < s[idx].End()
    ensures TotalSize(s) == TotalSize(s[idx := Piece(p, s[idx].End(), s[idx].Tag())]) + (p - s[idx].base)
  {
    hide TotalSize;
    var t := s[idx := Piece(p, s[idx].End(), s[idx].Tag())];
    RemovedSize(s, idx);
    RemovedSize(t, idx);
    assert s[..idx] + s[idx + 1..] == t[..idx] + t[idx + 1..];
  }

  /**
   The loop at idx: the first idx regions of s are final, and the regions inside the
   range found so far are those from startRgn up to endRgn.
   */
  ghost predicate Isolating(first: seq<Region>, s: seq<Region>, idx: nat, base: nat, end: nat,
                            startRgn: nat, endRgn: nat)
    requires base < end
  {
    && idx <= |s|
    && WellFormed(s)
    && s[..idx] + Split(s[idx..], base, end) == Split(first, base, end)
    && Found(s[..idx], base, end, startRgn, endRgn)
  }

  ghost predicate Found(s: seq<Region>, base: nat, end: nat, startRgn: nat, endRgn: nat) {
    && startRgn <= endRgn <= |s|
    && (endRgn > 0 ==> startRgn < endRgn == |s|)
    && (forall i | 0 <= i < |s| :: Inside(s[i], base, end) <==> startRgn <= i < endRgn)
    && (forall i | 0 <= i < |s| :: s[i].base < end)
    && (forall i | 0 <= i < |s| && base <= s[i].base :: Inside(s[i], base, end))
  }

  /** What the loop has left to do: it drops with every round, also when a region is looked at again. */
  ghost function Work(s: seq<Region>, idx: nat, base: nat, end: nat): int
    requires base < end && idx <= |s|
  {
    2 * |Split(s[idx..], base, end)| - |s[idx..]|
  }

  lemma {:induction false} WorkNat(s: seq<Region>, idx: nat, base: nat, end: nat)
    requires base < end && idx <= |s| && WellFormed(s)
    ensures 0 <= Work(s, idx, base, end)
  {
    SplitGrowth(s[idx..], base, end);
  }

  lemma {:induction false} SplitStart(first: seq<Region>, base: nat, end: nat)
    requires base < end && WellFormed(first)
    ensures Isolating(first, first, 0, base, end, 0, 0)
  {
    assert first[0..] == first && first[..0] == [];
  }

  lemma {:induction false} SplitPeel(s: seq<Region>, idx: nat, base: nat, end: nat)
    requires base < end && idx < |s|
    ensures Split(s[idx..], base, end) == Pieces(s[idx], base, end) + Split(s[idx + 1..], base, end)
  {
    assert s[idx..][1..] == s[idx + 1..];
  }

  /** The region at idx needs no cut: it becomes final. */
  lemma {:induction false} SplitKeep(first: seq<Region>, s: seq<Region>, idx: nat, base: nat, end: nat, startRgn: nat,
                                     endRgn: nat)
    requires base < end && Isolating(first, s, idx, base, end, startRgn, endRgn)
    requires idx < |s| && Pieces(s[idx], base, end) == [s[idx]]
    ensures s[..idx + 1] + Split(s[idx + 1..], base, end) == Split(first, base, end)
    ensures 0 <= Work(s, idx + 1, base, end) < Work(s, idx, base, end)
  {
    hide Split, Found, WellFormed, Pieces;
    SplitPeel(s, idx, base, end);
    assert s[..idx + 1] == s[..idx] + [s[idx]];
    WorkNat(s, idx + 1, base, end);
  }

  lemma {:induction false} NoneFoundYet(s: seq<Region>, idx: nat, base: nat, end: nat, startRgn: nat, endRgn: nat)
    requires WellFormed(s) && idx < |s| && s[idx].base < base < end
    requires Found(s[..idx], base, end, startRgn, endRgn)
    ensures endRgn == 0
  {
    assert idx > 0 ==> s[idx - 1].End() <= s[idx].base;
    assert idx > 0 ==> !Inside(s[..idx][idx - 1], base, end);
  }

  lemma {:induction false} SplitSkip(first: seq<Region>, s: seq<Region>, idx: nat, base: nat, end: nat, startRgn: nat,
                                     endRgn: nat)
    requires base < end && Isolating(first, s, idx, base, end, startRgn, endRgn)
    requires idx < |s| && s[idx].End() <= base
    ensures Isolating(first, s, idx + 1, base, end, startRgn, endRgn)
    ensures 0 <= Work(s, idx + 1, base, end) < Work(s, idx, base, end)
  {
    SplitKeep(first, s, idx, base, end, startRgn, endRgn);
    NoneFoundYet(s, idx, base, end, startRgn, endRgn);
  }

  lemma {:induction false} FoundOneMore(s: seq<Region>, r: Region, base: nat, end: nat, startRgn: nat, endRgn: nat)
    requires Found(s, base, end, startRgn, endRgn) && Inside(r, base, end) && r.Proper()
    ensures Found(s + [r], base, end, if endRgn == 0 then |s| else startRgn, |s| + 1)
  {
  }

  lemma {:induction false} SplitInside(first: seq<Region>, s: seq<Region>, idx: nat, base: nat, end: nat, startRgn: nat,
                                       endRgn: nat)
    requires base < end && Isolating(first, s, idx, base, end, startRgn, endRgn)
    requires idx < |s| && Inside(s[idx], base, end)
    ensures Isolating(first, s, idx + 1, base, end, if endRgn == 0 then idx else startRgn, idx + 1)
    ensures 0 <= Work(s, idx + 1, base, end) < Work(s, idx, base, end)
  {
    hide Split, Found, Work;
    SplitKeep(first, s, idx, base, end, startRgn, endRgn);
    assert s[idx].Proper();
    FoundOneMore(s[..idx], s[idx], base, end, startRgn, endRgn);
    assert s[..idx] + [s[idx]] == s[..idx + 1];
  }

  lemma {:induction false} CutWellFormed(s: seq<Region>, idx: nat, p: nat)
    requires WellFormed(s) && idx < |s| && s[idx].base < p < s[idx].End()
    ensures WellFormed(CutAt(s, idx, p))
  {
    var lower, upper := Piece(s[idx].base, p, s[idx].Tag()), Piece(p, s[idx].End(), s[idx].Tag());
    ConcatWellFormed([lower, upper], s[idx + 1..], s[idx].End());
    ConcatWellFormed(s[..idx], [lower, upper] + s[idx + 1..], s[idx].base);
    assert CutAt(s, idx, p) == s[..idx] + ([lower, upper] + s[idx + 1..]);
  }

  lemma {:induction false} SplitBelow(first: seq<Region>, s: seq<Region>, idx: nat, base: nat, end: nat, startRgn: nat,
                                      endRgn: nat)
    requires base < end && Isolating(first, s, idx, base, end, startRgn, endRgn)
    requires idx < |s| && s[idx].base < base < s[idx].End()
    ensures |s| < |Split(first, base, end)|
    ensures Isolating(first, CutAt(s, idx, base), idx + 1, base, end, startRgn, endRgn)
    ensures 0 <= Work(CutAt(s, idx, base), idx + 1, base, end) < Work(s, idx, base, end)
  {
    hide Split, Pieces, WellFormed;
    var n := CutAt(s, idx, base);
    CutBelowSplit(s, idx, base, end);
    CutWellFormed(s, idx, base);
    WorkNat(n, idx + 1, base, end);
    NoneFoundYet(s, idx, base, end, startRgn, endRgn);
  }

  lemma {:induction false} CutBelowSplit(s: seq<Region>, idx: nat, base: nat, end: nat)
    requires base < end && WellFormed(s) && idx < |s| && s[idx].base < base < s[idx].End()
    ensures var n := CutAt(s, idx, base);
            var lower := Piece(s[idx].base, base, s[idx].Tag());
            && n[..idx + 1] == s[..idx] + [lower]
            && |n[idx + 1..]| == |s[idx..]|
            && Split(s[idx..], base, end) == [lower] + Split(n[idx + 1..], base, end)
            && |Split(s[idx..], base, end)| > |s[idx..]|
  {
    hide Split;
    var r, n := s[idx], CutAt(s, idx, base);
    var lower, upper := Piece(r.base, base, r.Tag()), Piece(base, r.End(), r.Tag());
    SplitPeel(s, idx, base, end);
    SplitPeel(n, idx + 1, base, end);
    assert n[idx + 1] == upper && n[idx + 2..] == s[idx + 1..];
    assert Pieces(r, base, end) == [lower] + Pieces(upper, base, end);
    SplitGrowth(s[idx + 1..], base, end);
  }

  lemma {:induction false} SplitAbove(first: seq<Region>, s: seq<Region>, idx: nat, base: nat, end: nat, startRgn: nat,
                                      endRgn: nat)
    requires base < end && Isolating(first, s, idx, base, end, startRgn, endRgn)
    requires idx < |s| && base <= s[idx].base < end < s[idx].End()
    ensures |s| < |Split(first, base, end)|
    ensures Isolating(first, CutAt(s, idx, end), idx, base, end, startRgn, endRgn)
    ensures 0 <= Work(CutAt(s, idx, end), idx, base, end) < Work(s, idx, base, end)
  {
    hide Split;
    var r, n := s[idx], CutAt(s, idx, end);
    var lower, upper := Piece(r.base, end, r.Tag()), Piece(end, r.End(), r.Tag());
    SplitPeel(s, idx, base, end);
    SplitPeel(n, idx, base, end);
    SplitPeel(n, idx + 1, base, end);
    assert n[idx] == lower && n[idx + 1] == upper && n[idx + 2..] == s[idx + 1..];
    assert Pieces(r, base, end) == [lower] + [upper];
    assert Pieces(lower, base, end) == [lower] && Pieces(upper, base, end) == [upper];
    assert n[..idx] == s[..idx];
    assert Split(n[idx..], base, end) == Split(s[idx..], base, end);
    CutWellFormed(s, idx, end);
    WorkNat(n, idx, base, end);
    SplitGrowth(s[idx + 1..], base, end);
  }

  lemma {:induction false} SplitNothing(s: seq<Region>, base: nat, end: nat)
    requires base < end && AllFrom(s, end)
    ensures Split(s, base, end) == s
  {
    if s != [] {
      SplitNothing(s[1..], base, end);
      assert s == [s[0]] + s[1..];
    }
  }

  lemma {:induction false} SplitDone(first: seq<Region>, s: seq<Region>, idx: nat, base: nat, end: nat, startRgn: nat,
                                     endRgn: nat)
    requires base < end && Isolating(first, s, idx, base, end, startRgn, endRgn)
    requires idx == |s| || end <= s[idx].base
    ensures s == Split(first, base, end)
    ensures startRgn <= endRgn <= |s|
    ensures forall i | 0 <= i < |s| :: Inside(s[i], base, end) <==> startRgn <= i < endRgn
  {
    hide Split;
    forall i | idx <= i < |s| ensures end <= s[i].base {
      assert i == idx || s[idx].End() <= s[i].base;
    }
    SplitNothing(s[idx..], base, end);
    assert s == s[..idx] + s[idx..];
    forall i | 0 <= i < |s| ensures Inside(s[i], base, end) <==> startRgn <= i < endRgn {
      if i < idx { assert s[..idx][i] == s[i]; }
    }
  }
}
