/**
 The allocator: a memory table and a reserved table, searching for free blocks,
 reserving and releasing them, and growing the tables with memory from the
 allocator itself.
 */
module Memblock {
  import opened Basics
  import opened Regions
  import opened RegionOps
  import opened RegionTable
  import opened FreeRanges
  import opened Bits
  import opened Search
  import opened Growth
  import opened Worlds
  import opened Placement

  class Memblock {
    const memory: MemblockType
    const reserved: MemblockType
    const someMirror: bool
    var currentLimit: nat
    var canResize: bool

    constructor ()
      ensures Valid() && fresh(memory) && fresh(reserved) && fresh(memory.regions) && fresh(reserved.regions)
      ensures Mem() == [] && Res() == [] && MemArray() == ResArray() == Span(0, 0)
    {
      memory := new MemblockType(INIT_MEMBLOCK_REGIONS);
      reserved := new MemblockType(INIT_MEMBLOCK_REGIONS);
      someMirror := false;
      currentLimit := PHYS_ADDR_MAX;
      canResize := true;
    }

    /** Two canonical tables whose arrays do not overlap. */
    ghost predicate Tables()
      reads this, memory, reserved, memory.regions, reserved.regions
    {
      && memory != reserved && memory.regions != reserved.regions
      && memory.Shape() && reserved.Shape() && memory.Valid() && reserved.Valid()
      && INIT_MEMBLOCK_REGIONS <= memory.max <= MAX_REGIONS
      && INIT_MEMBLOCK_REGIONS <= reserved.max <= MAX_REGIONS
      && MemArray().hi <= PHYS_ADDR_MAX && ResArray().hi <= PHYS_ADDR_MAX
      && (memory.storage.Some? ==> PAGE_SIZE <= memory.storage.value)
      && MemArray().Apart(ResArray())
      && currentLimit <= PHYS_ADDR_MAX
    }

    /** What callers of Tables need most. */
    lemma {:induction false} Shapes()
      requires Tables()
      ensures memory != reserved && memory.regions != reserved.regions && memory.Shape() && reserved.Shape()
      ensures Canonical(Mem()) && Canonical(Res()) && |Mem()| == memory.cnt && |Res()| == reserved.cnt
      ensures INIT_MEMBLOCK_REGIONS <= reserved.max && MemArray().Apart(ResArray()) && currentLimit <= PHYS_ADDR_MAX
    {
    }

    ghost function Mem(): seq<Region>
      requires memory.Shape()
      reads this, memory, memory.regions
    {
      memory.Contents()
    }

    ghost function Res(): seq<Region>
      requires reserved.Shape()
      reads this, reserved, reserved.regions
    {
      reserved.Contents()
    }

    function MemArray(): Span
      reads this, memory
    {
      ArraySpan(memory.storage, memory.max)
    }

    function ResArray(): Span
      reads this, reserved
    {
      ArraySpan(reserved.storage, reserved.max)
    }

    ghost function Here(): Scene
      requires memory.Shape() && reserved.Shape()
      reads this, memory, reserved, memory.regions, reserved.regions
    {
      Scene(someMirror, currentLimit, canResize, Mem(), Res(), reserved.max)
    }

    ghost function Now(): World
      requires memory.Shape() && reserved.Shape()
      reads this, memory, reserved, memory.regions, reserved.regions
    {
      World(Here(), MemArray(), memory.max, ResArray())
    }

    /** The array of the reserved table is reserved memory. */
    ghost predicate Ready()
      reads this, memory, reserved, memory.regions, reserved.regions
    {
      Tables() && Now().Ready()
    }

    /** Both arrays are reserved memory. */
    ghost predicate Valid()
      reads this, memory, reserved, memory.regions, reserved.regions
    {
      Tables() && Now().Valid()
    }

    /** memblock_find_in_range_node. */
    method FindInRangeNode(size: nat, align: nat, start: nat, end: nat, nid: int, flags: Flags) returns (r: nat)
      requires Tables() && 0 < size && IsPow2(align) && start <= PHYS_ADDR_MAX && end <= PHYS_ADDR_MAX
      ensures IsBest(Selector(true, nid, flags), Mem(), Res(), NodeBounds(size, align, start, end, currentLimit), r)
      ensures r != 0 ==> PAGE_SIZE <= r
      ensures var n := Need(size, align, start, end, currentLimit);
              if r == 0 then !SomeFree(Mem(), Res(), nid, flags, n) else Highest(Mem(), Res(), nid, flags, n, r)
    {
      hide IsBest, SomeFree, Highest;
      var end' := end;
      if end == MEMBLOCK_ALLOC_ACCESSIBLE || end == MEMBLOCK_ALLOC_NOLEAKTRACE {
        end' := currentLimit;
      }
      var start' := Max(start, PAGE_SIZE);
      end' := Max(start', end');
      r := FindRangeTopDown(Bounds(start', end', size, align), Selector(true, nid, flags), memory, reserved);
      BestExactly(Mem(), Res(), nid, flags, Need(size, align, start, end, currentLimit), r);
    }

    /** memblock_find_in_range: with mirrored memory, try that first. */
    method FindInRange(start: nat, end: nat, size: nat, align: nat) returns (r: nat)
      requires Tables() && 0 < size && IsPow2(align) && start <= PHYS_ADDR_MAX && end <= PHYS_ADDR_MAX
      ensures Picks(someMirror, Mem(), Res(), NodeBounds(size, align, start, end, currentLimit), r)
      ensures r != 0 ==> PAGE_SIZE <= r
      ensures Served(someMirror, Mem(), Res(), NUMA_NO_NODE, false, Need(size, align, start, end, currentLimit), r,
                     NUMA_NO_NODE)
    {
      hide SomeFree, Highest, Served, Fits;
      var flags := if someMirror then MEMBLOCK_MIRROR else MEMBLOCK_NONE;
      r := FindInRangeNode(size, align, start, end, NUMA_NO_NODE, flags);
      if r == 0 && flags & MEMBLOCK_MIRROR != 0 {
        flags := MEMBLOCK_NONE;
        r := FindInRangeNode(size, align, start, end, NUMA_NO_NODE, flags);
      }
      PicksExactly(someMirror, Mem(), Res(), Need(size, align, start, end, currentLimit), r);
    }

    /** Adding [base, base + size) needs no growth. */
    ghost predicate Roomy(t: MemblockType, base: nat, size: nat)
      requires t.Shape() && base <= PHYS_ADDR_MAX
      reads t, t.regions
    {
      |Fill(t.Contents(), base, Capped(base, size).hi, KERN)| <= t.max
    }

    /** No block of this size fits above the pending range. */
    ghost predicate NoneAbove(top: nat, bytes: nat)
      requires Tables()
      reads this, memory, reserved, memory.regions, reserved.regions
    {
      IsBest(AnyMemory(), Mem(), Res(), NodeBounds(bytes, PAGE_SIZE, top, currentLimit, currentLimit), 0)
    }

    /**
     The search of memblock_double_array for a place for the new array.  It stays clear
     of the pending range, except in exactly one case: nothing fits above the range and the
     range starts at 0 or 1, so that the upper bound of the second search is one of the
     special values and stands for the current limit.
     */
    method FindArray(areaStart: nat, areaSize: nat, bytes: nat) returns (addr: nat)
      requires Tables() && 0 < bytes && areaStart + areaSize <= PHYS_ADDR_MAX
      ensures Here().Lands(Span(areaStart, areaStart + areaSize), bytes, addr)
      ensures addr != 0 ==> PAGE_SIZE <= addr && addr + bytes <= PHYS_ADDR_MAX
      ensures addr != 0 ==> Avoids(Res(), addr, addr + bytes) && CoversSpan(Mem(), Span(addr, addr + bytes))
      ensures addr != 0 && areaSize > 0 ==>
                (Span(addr, addr + bytes).Apart(Span(areaStart, areaStart + areaSize)) <==>
                 2 <= areaStart || !NoneAbove(areaStart + areaSize, bytes))
    {
      hide IsBest, Fits, Picks, CoversSpan, Avoids, Canonical, MemblockType.Tallied;
      PageIsPow2();
      ghost var above := NodeBounds(bytes, PAGE_SIZE, areaStart + areaSize, currentLimit, currentLimit);
      addr := FindInRange(areaStart + areaSize, currentLimit, bytes, PAGE_SIZE);
      PickedFits(someMirror, Mem(), Res(), above, above, addr);
      if addr == 0 && areaSize != 0 {
        ghost var below := NodeBounds(bytes, PAGE_SIZE, 0, Min(areaStart, currentLimit), currentLimit);
        addr := FindInRange(0, Min(areaStart, currentLimit), bytes, PAGE_SIZE);
        PickedFits(someMirror, Mem(), Res(), below, above, addr);
      }
    }

    /** A new array at n would be copied over an array that is in use. */
    predicate InUse(n: Span)
      reads this, memory, reserved
    {
      !n.Apart(MemArray()) || !n.Apart(ResArray())
    }

    /** memblock_double_array on the reserved table. */
    method DoubleReserved(areaStart: nat, areaSize: nat) returns (st: Status)
      requires Tables() && areaStart + areaSize <= PHYS_ADDR_MAX
      modifies reserved, reserved.regions
      ensures reserved.regions != old(reserved.regions) ==> fresh(reserved.regions)
      ensures st != Bug && old(Now()).Doubles(Span(areaStart, areaStart + areaSize), st, reserved.storage)
      ensures st in {NoMemory, TooLarge} ==> unchanged(reserved) && unchanged(reserved.regions)
      ensures st == Done ==>
                && Tables() && reserved.max == 2 * old(reserved.max) && reserved.cnt <= old(reserved.cnt) + 2
                && old(Now()).Moved(Now(), Span(areaStart, areaStart + areaSize))
      ensures old(reserved.max) <= reserved.max
      ensures st == TooLarge ==> MAX_REGIONS < 2 * reserved.max
      ensures st == NoMemory ==> Tables() && Here().Jammed(Span(areaStart, areaStart + areaSize))
      decreases 0, 6
    {
      hide Regrown, Fill, Added, Removed, Released, Canonical, Avoids, ArrayBytes, CoversSpan, MemblockType.Tallied,
           Scene.Lands, Scene.Meets, World.Moved, World.Swaps, World.Swapped, World.Leaving, World.Ready, World.Valid,
           Capped;
      if !canResize { return NoMemory; }
      if 2 * reserved.max > MAX_REGIONS { return TooLarge; }
      ghost var w, pend := Now(), Span(areaStart, areaStart + areaSize);
      var newBytes := ArrayBytes(2 * reserved.max);
      ArrayBytesPositive(2 * reserved.max);
      var addr := FindArray(areaStart, areaSize, newBytes);
      if addr == 0 { return NoMemory; }
      if InUse(Span(addr, addr + newBytes)) {
        w.scene.MeetsAt(pend, newBytes, w.m, w.a, addr);
        return Clobbered;
      }
      var oldStorage, oldMax := reserved.storage, reserved.max;
      MoveArray(Res(), oldStorage, oldMax, addr);
      reserved.Grow(addr);
      st := SwapArrays(oldStorage, oldMax, addr, newBytes);
      w.MovedOnce(Now(), pend);
    }

    /**
     memblock_double_array on the memory table.  It runs over its own new array exactly when
     the nested growth of the reserved table lands in it.
     */
    method DoubleMemory() returns (st: Status)
      requires Tables()
      modifies memory`max, memory`regions, memory`storage, reserved, reserved.regions
      ensures memory.regions != old(memory.regions) ==> fresh(memory.regions)
      ensures reserved.regions != old(reserved.regions) ==> fresh(reserved.regions)
      ensures st == NoMemory ==> unchanged(memory) && unchanged(reserved) && unchanged(reserved.regions)
      ensures !st.Halted() ==> Tables() && old(Now()).Relocates(st, Now())
      ensures st.Halted() ==> old(Now()).Halts(st)
      ensures st == TooLarge && old(reserved.cnt) + 2 <= old(reserved.max) ==>
                unchanged(memory) && unchanged(reserved) && unchanged(reserved.regions)
      ensures old(reserved.cnt) + 2 <= old(reserved.max) ==> st != Bug
      ensures st == TooLarge ==> MAX_REGIONS < 2 * memory.max || MAX_REGIONS < 2 * reserved.max
      ensures st == NoMemory && canResize ==> Here().Lands(Span(0, 0), ArrayBytes(2 * memory.max), 0)
      decreases 1, 5
    {
      hide Regrown, Fill, Added, Removed, Released, Canonical, Avoids, ArrayBytes, CoversSpan, MemblockType.Tallied,
           Remade, Scene.Lands, Scene.Meets, Scene.Spares, Scene.ClearFor, World.Moved, World.Swaps, World.Swapped,
           World.Leaving, World.Ready, World.Valid, World.Halts, World.Relocates;
      ghost var w := Now();
      w.Stays(TooLarge);
      if !canResize {
        w.Stays(NoMemory);
        return NoMemory;
      }
      if 2 * memory.max > MAX_REGIONS { return TooLarge; }
      var newBytes := ArrayBytes(2 * memory.max);
      ArrayBytesPositive(2 * memory.max);
      var addr := FindArray(0, 0, newBytes);
      w.scene.ClearAt(w.m, w.memMax, addr);
      if addr == 0 {
        w.Stays(NoMemory);
        return NoMemory;
      }
      var n := Span(addr, addr + newBytes);
      w.FreePlace(n);
      if InUse(n) { return Clobbered; }
      var oldStorage, oldMax := memory.storage, memory.max;
      MoveArray(Res(), oldStorage, oldMax, addr);
      memory.Grow(addr);
      ghost var v := Now();
      w.Starts(v);
      st := SwapArrays(oldStorage, oldMax, addr, newBytes);
      w.Ends(v, st);
      if !st.Halted() { w.Lands(v, st, Now()); }
    }

    /** The end of memblock_double_array: release the old array and reserve the new one. */
    method SwapArrays(oldStorage: Option<nat>, oldMax: nat, addr: nat, newBytes: nat) returns (st: Status)
      requires Tables() && 0 < oldMax && ArraySpan(oldStorage, oldMax).hi <= PHYS_ADDR_MAX
      requires addr + newBytes <= PHYS_ADDR_MAX
      modifies reserved, reserved.regions
      ensures reserved.regions != old(reserved.regions) ==> fresh(reserved.regions)
      ensures st != NoMemory && (!st.Halted() ==> Tables())
      ensures var released := Released(old(Res()), oldStorage, oldMax);
              && old(reserved.cnt) + 2 <= old(reserved.max)
              && |Fill(released, addr, Capped(addr, newBytes).hi, KERN)| <= old(reserved.max) ==>
                && st == Done && Res() == Added(released, addr, newBytes, KERN)
                && unchanged(reserved`max, reserved`storage, reserved`regions)
      ensures MemArray() == Span(addr, addr + newBytes) ==>
                && old(Now()).Swaps(ArraySpan(oldStorage, oldMax), st)
                && (st == Done ==> old(Now()).Swapped(ArraySpan(oldStorage, oldMax), Now()))
      ensures st == TooLarge ==> MAX_REGIONS < 2 * reserved.max
      decreases 0, if && reserved.cnt + 2 <= reserved.max
                      && |Fill(Released(Res(), oldStorage, oldMax), addr, Capped(addr, newBytes).hi,
                               KERN)| <= reserved.max
                   then 5 else 12
    {
      hide Fill, Added, Removed, Canonical, ArrayBytes, Scene.Spares, World.Leaving, World.Moved, World.Spared,
           MemblockType.Tallied, MaybeRemoved, Avoids, World.Ready, World.Valid, Tables, MemblockType.Shape, Capped,
           ArraySpan, CoversSpan, Remade, Scene.Jammed;
      Shapes();
      ghost var w, o, n := Now(), ArraySpan(oldStorage, oldMax), Span(addr, addr + newBytes);
      ghost var leaving := w.Leaving(o) && w.m == n;
      if leaving { w.LeavingKnows(o); }
      ghost var mid;
      st, mid := ReleaseArray(oldStorage, oldMax);
      if st != Clobbered { Shapes(); }
      if st != Done { return; }
      st := ReserveArray(addr, newBytes, w, o, mid);
      if !st.Halted() { Shapes(); }
    }

    /** Reserve the new array.  From world w, the array o has been released from the table mid. */
    method ReserveArray(addr: nat, newBytes: nat, ghost w: World, ghost o: Span, ghost mid: seq<Region>)
      returns (st: Status)
      requires Tables() && addr + newBytes <= PHYS_ADDR_MAX
      modifies reserved, reserved.regions
      ensures reserved.regions != old(reserved.regions) ==> fresh(reserved.regions)
      ensures st != NoMemory && (!st.Halted() ==> Tables())
      ensures old(Roomy(reserved, addr, newBytes)) ==>
                && st == Done && Res() == Added(old(Res()), addr, newBytes, KERN)
                && unchanged(reserved`max, reserved`storage, reserved`regions)
      ensures w.Leaving(o) && MemArray() == w.m == Span(addr, addr + newBytes) && Capped(addr, newBytes) == w.m
              && w.Moved(old(Now()).Seen(mid), o) && MaybeRemoved(mid, o, old(Res())) && old(Now()).Ready() ==>
                st != Clobbered && (st == Done ==> w.Swapped(o, Now()))
      ensures st == TooLarge ==> MAX_REGIONS < 2 * reserved.max
      decreases 0, if Roomy(reserved, addr, newBytes) then 4 else 11
    {
      hide Fill, Added, Canonical, ArrayBytes, World.Leaving, World.Moved, World.Spared, World.Swapped,
           MemblockType.Tallied, MaybeRemoved, Avoids, World.Ready, World.Valid, Tables, MemblockType.Shape,
           CoversSpan, Scene.Jammed;
      Shapes();
      ghost var v, n := Now(), Span(addr, addr + newBytes);
      ghost var follows :=
        && w.Leaving(o) && v.m == w.m == n && Capped(addr, newBytes) == w.m
        && w.Moved(v.Seen(mid), o) && MaybeRemoved(mid, o, Res()) && v.Ready();
      if follows { w.LeavingKnows(o); v.SparedHere(); }
      ghost var mid2;
      st, mid2 := AddReserved(addr, newBytes, NUMA_NO_NODE, MEMBLOCK_RSRV_KERN);
      if !st.Halted() { Shapes(); }
      if follows && st == Done { w.SwappedBy(o, mid, v, mid2, Now()); }
      if st == NoMemory { st := Bug; }
    }

    /**
     Release the old array, unless it is the static one.  mid is the table before the release;
     a release that fails for lack of memory is not noticed.
     */
    method ReleaseArray(oldStorage: Option<nat>, oldMax: nat) returns (st: Status, ghost mid: seq<Region>)
      requires Tables() && 0 < oldMax && ArraySpan(oldStorage, oldMax).hi <= PHYS_ADDR_MAX
      modifies reserved, reserved.regions
      ensures reserved.regions != old(reserved.regions) ==> fresh(reserved.regions)
      ensures st in {Done, TooLarge, Clobbered} && (st != Clobbered ==> Tables())
      ensures old(reserved.cnt) + 2 <= old(reserved.max) ==>
                && st == Done && Res() == Released(old(Res()), oldStorage, oldMax)
                && unchanged(reserved`max, reserved`storage, reserved`regions)
      ensures var o, w := ArraySpan(oldStorage, oldMax), old(Now());
              w.Leaving(o) ==>
                && (st != TooLarge ==> (st == Clobbered <==> !w.scene.Spares(o, w.m)))
                && (st == Done ==>
                      && w.Moved(Now().Seen(mid), o) && MaybeRemoved(mid, o, Res()) && Now().Ready()
                      && Capped(w.m.lo, w.m.hi - w.m.lo) == w.m
                      && (Roomy(reserved, w.m.lo, w.m.hi - w.m.lo) || old(reserved.cnt) == old(reserved.max)))
      ensures st == TooLarge ==> MAX_REGIONS < 2 * reserved.max
      decreases 0, if reserved.cnt + 2 <= reserved.max then 4 else 11
    {
      hide Regrown, Fill, Removed, Canonical, ArrayBytes, CoversSpan, Avoids, Scene.Spares, World.GrowsBy,
           World.Leaving, MaybeRemoved, World.Moved, World.Ready, World.Spared, Tables, MemblockType.Shape,
           Scene.Jammed;
      Shapes();
      ghost var w, o := Now(), ArraySpan(oldStorage, oldMax);
      st, mid := Done, Res();
      if w.Leaving(o) { w.LeavingKnows(o); }
      if oldStorage.Some? {
        ArrayBytesPositive(oldMax);
        st, mid := ReleaseSpan(oldStorage.value, ArrayBytes(oldMax));
        if st != Done { return; }
        Shapes();
      } else {
        w.MovedSelf(o);
        RemovedOrNot(mid, o, Res(), false);
        w.scene.SparesStatic(o, w.m);
      }
      if w.Leaving(o) {
        w.MovedKnows(Now().Seen(mid), o);
        ReserveNeeds(w.scene.res, w.a, o, mid, ResArray(), Res(), w.m);
      }
    }

    /** memblock_free on an old array. */
    method ReleaseSpan(addr: nat, bytes: nat) returns (st: Status, ghost mid: seq<Region>)
      requires Tables() && 0 < bytes && addr + bytes <= PHYS_ADDR_MAX
      modifies reserved, reserved.regions
      ensures reserved.regions != old(reserved.regions) ==> fresh(reserved.regions)
      ensures st in {Done, TooLarge, Clobbered} && (st != Clobbered ==> Tables())
      ensures old(reserved.cnt) + 2 <= old(reserved.max) ==>
                && st == Done && Res() == Removed(old(Res()), addr, bytes)
                && unchanged(reserved`max, reserved`storage, reserved`regions)
      ensures var o, w := Span(addr, addr + bytes), old(Now());
              w.Leaving(o) ==>
                && (st != TooLarge ==> (st == Clobbered <==> !w.scene.Spares(o, w.m)))
                && (st == Done ==>
                      && w.Moved(Now().Seen(mid), o) && MaybeRemoved(mid, o, Res()) && Now().Ready()
                      && (reserved.cnt < reserved.max || old(reserved.cnt) == old(reserved.max)))
      ensures st == TooLarge ==> MAX_REGIONS < 2 * reserved.max
      decreases 0, if reserved.cnt + 2 <= reserved.max then 3 else 10
    {
      hide Removed, Canonical, CoversSpan, Scene.Spares, World.GrowsBy, World.Leaving, MaybeRemoved, World.Moved,
           World.Ready, World.Spared, Tables, MemblockType.Shape, Regrown, Avoids, Scene.Jammed;
      Shapes();
      ghost var w, o := Now(), Span(addr, addr + bytes);
      if w.Leaving(o) { w.LeavingKnows(o); }
      st, mid := RemoveRange(addr, bytes);
      if st != Clobbered { Shapes(); }
      if w.Leaving(o) && st != TooLarge { w.SparesExactly(o, st, reserved.max, reserved.storage); }
      if st == TooLarge || st == Clobbered { return; }
      w.MovedKnows(Now().Seen(mid), o);
      RemovedOrNot(mid, o, Res(), st == Done);
      st := Done;
    }

    /** The growth loop on the reserved table. */
    method MakeReservedRoom(need: nat, base: nat, size: nat) returns (st: Status)
      requires Tables() && base + size <= PHYS_ADDR_MAX
      modifies reserved, reserved.regions
      ensures reserved.regions != old(reserved.regions) ==> fresh(reserved.regions)
      ensures st != Bug && old(reserved.max) <= reserved.max
      ensures st != Clobbered ==> Tables() && old(Now()).Moved(Now(), Span(base, base + size))
      ensures st == Done ==> reserved.cnt + need <= reserved.max
      ensures old(reserved.cnt) + need <= old(reserved.max) ==>
                && st == Done && unchanged(reserved)
                && unchanged(reserved.regions)
      ensures st != Clobbered && reserved.max == old(reserved.max) ==>
                && unchanged(reserved)
                && unchanged(reserved.regions)
      ensures need + 2 <= old(reserved.max) ==>
                && (st != Clobbered ==> reserved.cnt <= old(reserved.cnt) + 2)
                && old(Now()).GrowsBy(Span(base, base + size), need, st, reserved.max, reserved.storage)
      ensures old(Now()).Spared(Span(base, base + size)) ==> st != Clobbered
      ensures st == TooLarge ==> MAX_REGIONS < 2 * reserved.max
      ensures st == NoMemory ==> Here().Jammed(Span(base, base + size))
      decreases 0, if reserved.cnt + need <= reserved.max then 0 else 7
    {
      hide Regrown, Canonical, CoversSpan, Scene.Lands, Scene.Meets, ArrayBytes, MemblockType.Tallied, World.Moved,
           World.Spared, World.Doubles, Scene.Jammed;
      ghost var w, pend := Now(), Span(base, base + size);
      st := Done;
      w.MovedSelf(pend);
      while reserved.cnt + need > reserved.max
        invariant Tables() && st == Done && old(reserved.max) <= reserved.max && w.Moved(Now(), pend)
        invariant reserved.regions != old(reserved.regions) ==> fresh(reserved.regions)
        invariant reserved.max == old(reserved.max) ==> unchanged(reserved) && unchanged(reserved.regions)
        invariant old(reserved.cnt) + need <= old(reserved.max) ==> reserved.max == old(reserved.max)
        invariant need + 2 <= old(reserved.max) && reserved.max != old(reserved.max) ==>
                    && reserved.cnt <= old(reserved.cnt) + 2 && reserved.cnt + need <= reserved.max
                    && w.GrowsBy(pend, need, Done, reserved.max, reserved.storage)
        decreases MAX_REGIONS - reserved.max
      {
        ghost var v := Now();
        st := DoubleReserved(base, size);
        if st != Done {
          if w.Spared(pend) { w.SparedStays(v, pend); v.NotClobbered(pend, st, reserved.storage); }
          return;
        }
        w.MovedThen(v, Now(), pend);
      }
    }

    /** memblock_remove_range on the reserved table.  mid is the table before the removal. */
    method RemoveRange(base: nat, size: nat) returns (st: Status, ghost mid: seq<Region>)
      requires Tables() && base <= PHYS_ADDR_MAX
      modifies reserved, reserved.regions
      ensures reserved.regions != old(reserved.regions) ==> fresh(reserved.regions)
      ensures st != Bug && old(reserved.max) <= reserved.max
      ensures st != Clobbered ==>
                && Tables() && Canonical(mid) && Res() == (if st == Done then Removed(mid, base, size) else mid)
                && old(Now()).Moved(Now().Seen(mid), Capped(base, size))
                && reserved.cnt <= old(reserved.cnt) + if reserved.max == old(reserved.max) then 1 else 3
      ensures old(reserved.cnt) + 2 <= old(reserved.max) ==>
                st == Done && mid == old(Res()) && unchanged(reserved`max, reserved`storage, reserved`regions)
      ensures 0 < CapSize(base, size) ==> old(Now()).GrowsBy(Capped(base, size), 2, st, reserved.max, reserved.storage)
      ensures st != Clobbered && old(Now()).Ready() && 2 <= base && old(ResArray()).Apart(Capped(base, size)) ==>
              Now().Ready()
      ensures old(Now()).Spared(Capped(base, size)) ==> st != Clobbered
      ensures st == TooLarge ==> MAX_REGIONS < 2 * reserved.max
      ensures st == NoMemory ==> Here().Jammed(Capped(base, size))
      decreases 0, if reserved.cnt + 2 <= reserved.max then 2 else 9
    {
      hide Removed, Canonical, Erased, World.GrowsBy, World.Moved, World.Spared, World.Ready, Tables,
           MemblockType.Shape, Scene.Jammed;
      Shapes();
      ghost var w, pend := Now(), Capped(base, size);
      st, mid := Done, Res();
      w.MovedSelf(pend);
      var size' := CapSize(base, size);
      if size' == 0 {
        RemovedNothing(mid, base, size);
        return;
      }
      st := MakeReservedRoom(2, base, size');
      if st == Clobbered { return; }
      Shapes();
      mid := Res();
      w.MovedKnows(Now(), pend);
      if st != Done { return; }
      Now().KeepsRemoved(base, size);
      Carve(base, size');
      Shapes();
      RemovedSomething(mid, base, size);
    }

    /** memblock_remove_range where the table has room. */
    method Carve(base: nat, size: nat)
      requires Tables() && 0 < size && reserved.cnt + 2 <= reserved.max
      modifies reserved`cnt, reserved`totalSize, reserved.regions
      ensures Tables() && Res() == Erased(old(Res()), base, base + size) && reserved.cnt <= old(reserved.cnt) + 1
    {
      hide Erased, Canonical, MemblockType.Tallied;
      ErasedSize(Res(), base, base + size);
      reserved.EraseRange(base, base + size);
    }

    /** memblock_add_range on the reserved table.  mid is the table before the addition. */
    method AddReserved(base: nat, size: nat, nid: int, flags: Flags) returns (st: Status, ghost mid: seq<Region>)
      requires Tables() && base <= PHYS_ADDR_MAX
      modifies reserved, reserved.regions
      ensures reserved.regions != old(reserved.regions) ==> fresh(reserved.regions)
      ensures !st.Halted() ==>
                && Tables() && Canonical(mid) && Res() == (if st == Done then Added(mid, base, size, Attr(nid, flags))
                                                           else mid)
                && old(Now()).Moved(Now().Seen(mid), Capped(base, size))
                && (old(Now()).Ready() ==> Now().Ready()) && (old(Now()).Valid() ==> Now().Valid())
      ensures old(Roomy(reserved, base, size)) ==>
                st == Done && mid == old(Res()) && unchanged(reserved`max, reserved`storage, reserved`regions)
      ensures old(reserved.max) <= reserved.max
      ensures old(Now()).Spared(Capped(base, size)) ==> st != Clobbered
      ensures old(Now()).Ready() && 2 <= base && old(ResArray()).Apart(Capped(base, size)) ==> st != Bug
      ensures !st.Halted() ==> old(Now()).Reports(Now(), Capped(base, size), st)
      decreases 0, if Roomy(reserved, base, size) then 3 else 10
    {
      hide Canonical, Fill, Holes, Added, MemblockType.Shape, World.Moved, World.Spared, World.Ready, World.Valid,
           Scene.Jammed, Tables, World.Reports, ArraySpan, MergeAll, Lookup, Sorted;
      Shapes();
      ghost var w, pend, x := Now(), Capped(base, size), Attr(nid, flags);
      FillSizes(Res(), base, pend.hi, x);
      mid := Res();
      var nothing;
      st, nothing := CountReserved(base, size, nid, flags);
      if st == Clobbered { return; }
      Shapes();
      mid := Res();
      w.MovedKnows(Now(), pend);
      if st != Done { return; }
      if nothing {
        AddedNothing(mid, base, size, x);
        return;
      }
      FillSizes(mid, base, pend.hi, x);
      Now().KeepsReserved(base, size, x);
      var halted := InsertRange(reserved, base, size, nid, flags);
      if halted { return Bug, mid; }
      Shapes();
      w.ReportsNothing(Now(), pend, Done);
    }

    /** The counting pass of memblock_add_range on the reserved table and the growth it asks for. */
    method CountReserved(base: nat, size: nat, nid: int, flags: Flags) returns (st: Status, nothing: bool)
      requires Tables() && base <= PHYS_ADDR_MAX
      modifies reserved, reserved.regions
      ensures reserved.regions != old(reserved.regions) ==> fresh(reserved.regions)
      ensures st != Bug && old(reserved.max) <= reserved.max
      ensures st != Clobbered ==> Tables() && old(Now()).Moved(Now(), Capped(base, size))
      ensures nothing ==> st == Done && |Fill(Res(), base, Capped(base, size).hi, Attr(nid, flags))| == |Res()|
      ensures !nothing ==> 0 < CapSize(base, size)
      ensures nothing || old(Roomy(reserved, base, size)) ==>
                st == Done && unchanged(reserved`max, reserved`storage, reserved`regions, reserved`cnt)
                && Res() == old(Res())
      ensures old(Now()).Spared(Capped(base, size)) ==> st != Clobbered
      ensures old(Now()).Ready() && 2 <= base && old(ResArray()).Apart(Capped(base, size)) && st == Done ==>
              Roomy(reserved, base, size)
      ensures !st.Halted() ==> old(Now()).Reports(Now(), Capped(base, size), st)
      decreases 0, if Roomy(reserved, base, size) then 2 else 9
    {
      hide Regrown, Canonical, Fill, Holes, MemblockType.Shape, World.Moved, World.Spared, World.GrowsBy, World.Ready,
           Capped, Scene.Jammed, Tables, World.Reports;
      Shapes();
      ghost var w, pend, x := Now(), Capped(base, size), Attr(nid, flags);
      w.MovedSelf(pend);
      w.ReportsNothing(w, pend, Done);
      CappedIs(base, size);
      FillSizes(Res(), base, pend.hi, x);
      if CapSize(base, size) == 0 {
        AddedNothing(Res(), base, size, x);
        return Done, true;
      }
      if reserved.cnt * 2 + 1 > reserved.max {
        st, nothing := CountAndGrow(base, size, nid, flags);
      } else {
        return Done, false;
      }
    }

    /** Count, and make room for as many. */
    method CountAndGrow(base: nat, size: nat, nid: int, flags: Flags) returns (st: Status, nothing: bool)
      requires Tables() && base <= PHYS_ADDR_MAX && 0 < CapSize(base, size)
      modifies reserved, reserved.regions
      ensures reserved.regions != old(reserved.regions) ==> fresh(reserved.regions)
      ensures st != Bug && old(reserved.max) <= reserved.max
      ensures st != Clobbered ==> Tables() && old(Now()).Moved(Now(), Capped(base, size))
      ensures nothing ==> st == Done && |Fill(Res(), base, Capped(base, size).hi, Attr(nid, flags))| == |Res()|
      ensures nothing || old(Roomy(reserved, base, size)) ==>
                st == Done && unchanged(reserved`max, reserved`storage, reserved`regions, reserved`cnt)
                && Res() == old(Res())
      ensures old(Now()).Spared(Capped(base, size)) ==> st != Clobbered
      ensures old(Now()).Ready() && 2 <= base && old(ResArray()).Apart(Capped(base, size)) && st == Done ==>
              Roomy(reserved, base, size)
      ensures !st.Halted() ==> old(Now()).Reports(Now(), Capped(base, size), st)
      decreases 0, if Roomy(reserved, base, size) then 1 else 8
    {
      hide Regrown, Canonical, Fill, Holes, MemblockType.Shape, World.Moved, World.Spared, World.GrowsBy, World.Ready,
           Capped, Scene.Jammed, Tables, World.Reports, ArraySpan, MergeAll, Lookup, Sorted, World.Valid;
      Shapes();
      ghost var w, pend, x := Now(), Capped(base, size), Attr(nid, flags);
      CappedIs(base, size);
      FillSizes(Res(), base, pend.hi, x);
      w.MovedSelf(pend);
      w.ReportsNothing(w, pend, Done);
      nothing := false;
      var nrNew := CountNew(base, size, nid, flags);
      Shapes();
      if nrNew == 0 { return Done, true; }
      st := MakeReservedRoom(nrNew, base, CapSize(base, size));
      if st == Clobbered { return; }
      Shapes();
      if st == Done { w.RoomStays(Now(), pend, nrNew); }
      w.ReportsGrowth(Now(), pend, st, nrNew, reserved.storage);
    }

    /** The counting pass; it changes nothing. */
    method CountNew(base: nat, size: nat, nid: int, flags: Flags) returns (nrNew: nat)
      requires Tables() && base <= PHYS_ADDR_MAX && 0 < CapSize(base, size)
      modifies reserved`cnt, reserved`totalSize, reserved.regions
      ensures Tables() && Res() == old(Res()) && Now() == old(Now()) && unchanged(reserved`cnt)
      ensures |Res()| + nrNew == |Fill(Res(), base, base + CapSize(base, size), Attr(nid, flags))|
    {
      hide Canonical, Fill, MemblockType.Tallied;
      nrNew := reserved.CountHoles(base, base + CapSize(base, size), nid, flags);
    }

    /** The inserting part of memblock_add_range, with its special case for an empty array. */
    method InsertRange(t: MemblockType, base: nat, size: nat, nid: int, flags: Flags) returns (halted: bool)
      requires Tables() && (t == memory || t == reserved) && base <= PHYS_ADDR_MAX && 0 < CapSize(base, size)
      modifies t`cnt, t`totalSize, t.regions
      ensures halted <==> |Fill(old(t.Contents()), base, Capped(base, size).hi, Attr(nid, flags))| > t.max
      ensures !halted ==> Tables() && t.Contents() == Added(old(t.Contents()), base, size, Attr(nid, flags))
    {
      hide Canonical, Fill, Holes, Added, TotalSize, MergeAll, MemblockType.Tallied;
      ghost var first, x := t.Contents(), Attr(nid, flags);
      var end := base + CapSize(base, size);
      FillSizes(first, base, end, x);
      AddedIs(first, base, size, x);
      if t.regions[0].size == 0 {
        EmptyTable(first);
        t.AddFirst(base, end, nid, flags);
        halted := false;
      } else {
        halted := t.AddFilled(base, end, nid, flags);
      }
    }

    /** The growth loop on the memory table.  ws are the worlds before each doubling, and the last one. */
    method MakeMemoryRoom(need: nat) returns (st: Status, ghost ws: seq<World>)
      requires Tables()
      modifies memory`max, memory`regions, memory`storage, reserved, reserved.regions
      ensures memory.regions != old(memory.regions) ==> fresh(memory.regions)
      ensures reserved.regions != old(reserved.regions) ==> fresh(reserved.regions)
      ensures Doublings(ws, st, old(memory.cnt) + need) && ws[0] == old(Now())
      ensures !st.Halted() ==> Tables() && Mem() == old(Mem()) && (st != TooLarge ==> Now() == ws[|ws| - 1])
      ensures |ws| == 1 && st == Done ==> unchanged(memory) && unchanged(reserved) && unchanged(reserved.regions)
      ensures st == TooLarge ==> MAX_REGIONS < 2 * memory.max || MAX_REGIONS < 2 * reserved.max
      ensures st == NoMemory && canResize ==> Here().Lands(Span(0, 0), ArrayBytes(2 * memory.max), 0)
      decreases 1, if memory.cnt + need <= memory.max then 0 else 6
    {
      hide Canonical, MemblockType.Tallied, World.Relocates, World.Halts, Chain, Doublings;
      ghost var w, wanted := Now(), memory.cnt + need;
      st, ws := Done, [w];
      ChainStart(w, wanted);
      while memory.cnt + need > memory.max
        invariant Tables() && Mem() == old(Mem()) && Chain(ws, Now(), wanted) && ws != [] && ws[0] == w
        invariant memory.regions != old(memory.regions) ==> fresh(memory.regions)
        invariant reserved.regions != old(reserved.regions) ==> fresh(reserved.regions)
        invariant |ws| == 1 ==> unchanged(memory) && unchanged(reserved) && unchanged(reserved.regions)
        decreases MAX_REGIONS - memory.max
      {
        ghost var v := Now();
        st := DoubleMemory();
        if !st.Halted() { RelocatesKnows(v, st, Now()); }
        if st != Done {
          ChainEnds(ws, v, wanted, st);
          return;
        }
        ChainMore(ws, v, Now(), wanted);
        ws := ws + [Now()];
      }
      st := Done;
      ChainEnds(ws, Now(), wanted, Done);
    }

    /**
     memblock_add_range on the memory table.  ws are the worlds before each doubling of its
     array, and the one before the inserting pass.
     */
    method AddMemory(base: nat, size: nat, nid: int, flags: Flags) returns (st: Status, ghost ws: seq<World>)
      requires Tables() && base <= PHYS_ADDR_MAX
      modifies memory, memory.regions, reserved, reserved.regions
      ensures memory.regions != old(memory.regions) ==> fresh(memory.regions)
      ensures reserved.regions != old(reserved.regions) ==> fresh(reserved.regions)
      ensures Doublings(ws, st, |Fill(old(Mem()), base, Capped(base, size).hi, KERN)|) && ws[0] == old(Now())
      ensures !st.Halted() ==>
                Tables() && Mem() == if st == Done then Added(old(Mem()), base, size, Attr(nid, flags)) else old(Mem())
      ensures st in {Done, NoMemory} ==>
                && Now() == World(ws[|ws| - 1].scene.(mem := Mem()), ws[|ws| - 1].m, ws[|ws| - 1].memMax,
                                  ws[|ws| - 1].a)
                && (ws[|ws| - 1].Valid() ==> Now().Valid())
      ensures old(Roomy(memory, base, size)) ==> st == Done && |ws| == 1
      ensures st == TooLarge ==> MAX_REGIONS < 2 * memory.max || MAX_REGIONS < 2 * reserved.max
      ensures st == NoMemory && canResize ==> Here().Lands(Span(0, 0), ArrayBytes(2 * memory.max), 0)
      decreases 1, 9
    {
      hide Canonical, Fill, Holes, Added, MemblockType.Tallied, World.Valid, Doublings;
      ghost var first, pend, x := Mem(), Capped(base, size), Attr(nid, flags);
      FillSizes(first, base, pend.hi, x);
      var nothing;
      st, nothing, ws := CountMemory(base, size, nid, flags);
      DoublingsKnow(ws, st, |Fill(first, base, pend.hi, KERN)|);
      if st != Done { return; }
      if nothing {
        AddedNothing(first, base, size, x);
        return;
      }
      Now().KeepsMemory(base, size, x);
      var halted := InsertRange(memory, base, size, nid, flags);
      if halted { assert false; }
    }

    /** The counting pass of memblock_add_range on the memory table and the growth it asks for. */
    method CountMemory(base: nat, size: nat, nid: int, flags: Flags)
      returns (st: Status, nothing: bool, ghost ws: seq<World>)
      requires Tables() && base <= PHYS_ADDR_MAX
      modifies memory, memory.regions, reserved, reserved.regions
      ensures memory.regions != old(memory.regions) ==> fresh(memory.regions)
      ensures reserved.regions != old(reserved.regions) ==> fresh(reserved.regions)
      ensures Doublings(ws, st, |Fill(old(Mem()), base, Capped(base, size).hi, KERN)|) && ws[0] == old(Now())
      ensures !st.Halted() ==> Tables() && Mem() == old(Mem()) && (st != TooLarge ==> Now() == ws[|ws| - 1])
      ensures nothing ==> |Fill(old(Mem()), base, Capped(base, size).hi, Attr(nid, flags))| == |old(Mem())|
      ensures !nothing ==> 0 < CapSize(base, size)
      ensures st == TooLarge ==> MAX_REGIONS < 2 * memory.max || MAX_REGIONS < 2 * reserved.max
      ensures st == NoMemory && canResize ==> Here().Lands(Span(0, 0), ArrayBytes(2 * memory.max), 0)
      decreases 1, 8
    {
      hide Canonical, Fill, Holes, MemblockType.Tallied, World.Relocates, World.Halts, Chain, Doublings;
      ghost var first, pend, x := Mem(), Capped(base, size), Attr(nid, flags);
      FillSizes(first, base, pend.hi, x);
      ghost var filled := |Fill(first, base, pend.hi, KERN)|;
      st, nothing, ws := Done, false, [Now()];
      ChainStart(Now(), filled);
      if CapSize(base, size) == 0 {
        AddedNothing(first, base, size, x);
        ChainEnds(ws, Now(), filled, Done);
        return Done, true, ws;
      }
      if memory.cnt * 2 + 1 > memory.max {
        var nrNew := memory.CountHoles(base, base + CapSize(base, size), nid, flags);
        if nrNew == 0 {
          ChainEnds(ws, Now(), filled, Done);
          return Done, true, ws;
        }
        st, ws := MakeMemoryRoom(nrNew);
      } else {
        ChainEnds(ws, Now(), filled, Done);
      }
    }

    /** Search for a block and reserve it.  mid is the table before the reservation. */
    method Attempt(size: nat, align: nat, start: nat, end: nat, sel: Selector, nid: int)
      returns (found: nat, st: Status, ghost mid: seq<Region>)
      requires Valid() && sel.memory && 0 < size && IsPow2(align) && start <= PHYS_ADDR_MAX && end <= PHYS_ADDR_MAX
      modifies reserved, reserved.regions
      ensures reserved.regions != old(reserved.regions) ==> fresh(reserved.regions)
      ensures Valid() && !st.Halted() && Canonical(mid)
      ensures IsBest(sel, Mem(), old(Res()), NodeBounds(size, align, start, end, currentLimit), found)
      ensures found == 0 ==> st == NoMemory && mid == Res() == old(Res()) && reserved.max == old(reserved.max)
      ensures found != 0 && old(reserved.cnt) < old(reserved.max) ==> st == Done && reserved.max == old(reserved.max)
      ensures Regrown(old(Res()), old(ResArray()), mid, ResArray())
      ensures old(reserved.max) <= reserved.max
      ensures reserved.max == old(reserved.max) ==> mid == old(Res()) && ResArray() == old(ResArray())
      ensures st != Done ==> Res() == mid
      ensures st == Done ==>
                && PAGE_SIZE <= found && found + size <= PHYS_ADDR_MAX
                && Avoids(mid, found, found + size) && ResArray().Apart(Span(found, found + size))
                && Res() == Added(mid, found, size, Attr(nid, MEMBLOCK_RSRV_KERN))
      ensures st == TooLarge ==> MAX_REGIONS < 2 * reserved.max
      ensures st == NoMemory && found != 0 ==> Here().SomeJam(size)
      ensures st != Done ==> reserved.max == old(reserved.max)
    {
      hide Regrown, IsBest, Added, Avoids, CoversSpan, Fill, MemblockType.Shape, Canonical, World.Moved, World.Reports,
           Tables, World.Valid, World.Ready, Scene.Jammed, Scene.SomeJam, ArraySpan, Fits;
      ValidShapes();
      Shapes();
      ghost var w, s, a := Now(), Res(), ResArray();
      st, mid := NoMemory, Res();
      w.ValidKnows();
      RegrownSame(s, a);
      found := FindInRangeNode(size, align, start, end, sel.nid, sel.flags);
      if found == 0 { return; }
      ghost var block := Span(found, found + size);
      BestFits(sel, Mem(), s, NodeBounds(size, align, start, end, currentLimit), found);
      AvoidsApart(s, a, block);
      FreeBlock(s, block);
      st, mid := AddReserved(found, size, nid, MEMBLOCK_RSRV_KERN);
      Shapes();
      w.ReportsKnow(Now(), block, st);
      if st == NoMemory { Here().JamAt(block, size); }
      w.MovedKnows(Now().Seen(mid), block);
      RegrownAvoids(s, a, mid, ResArray(), block);
    }

    /** An allocation under way: the first t.tried searches have failed. */
    ghost predicate Searching(t: Trail)
      reads this, memory, reserved, memory.regions, reserved.regions
    {
      && Valid() && t.tried <= |t.all| && 0 < t.q.align
      && Res() == t.s && ResArray() == t.a && reserved.max == t.max && (t.room ==> reserved.cnt < reserved.max)
      && (NoneIn(t.all, t.tried, Mem(), t.s, t.q) || (!t.room && Here().SomeJam(t.q.size)))
    }

    /** found is a new block, recorded for node on; mid was the table before it was reserved. */
    ghost predicate Allocated(t: Trail, mid: seq<Region>, found: nat, on: int)
      reads this, memory, reserved, memory.regions, reserved.regions
    {
      && Valid() && 0 < t.q.align && t.q.Admits(found) && Canonical(mid) && t.max <= reserved.max
      && PAGE_SIZE <= found && found + t.q.size <= PHYS_ADDR_MAX
      && CoversSpan(Mem(), Span(found, found + t.q.size))
      && Avoids(mid, found, found + t.q.size) && ResArray().Apart(Span(found, found + t.q.size))
      && Res() == Added(mid, found, t.q.size, Attr(on, MEMBLOCK_RSRV_KERN))
      && Regrown(t.s, t.a, mid, ResArray())
      && (reserved.max == t.max ==> mid == t.s && ResArray() == t.a)
      && (t.room ==> reserved.max == t.max && Chosen(t.all, Mem(), t.s, t.q, found, on))
      && InSelected(t.all, on, Mem(), found, found + t.q.size)
    }

    /** One more search of memblock_alloc_range_nid. */
    method NextAttempt(size: nat, align: nat, start: nat, end: nat, nid: int, flags: Flags, ghost t: Trail)
      returns (found: nat, st: Status, ghost mid: seq<Region>)
      requires Searching(t) && t.tried < |t.all| && t.all[t.tried] == Selector(true, nid, flags)
      requires 0 < size && IsPow2(align) && start <= PHYS_ADDR_MAX && end <= PHYS_ADDR_MAX
      requires t.q == NodeBounds(size, align, start, end, currentLimit)
      modifies reserved, reserved.regions
      ensures reserved.regions != old(reserved.regions) ==> fresh(reserved.regions)
      ensures Valid() && !st.Halted()
      ensures st == Done ==> Allocated(t, mid, found, nid)
      ensures st == NoMemory ==> Searching(t.(tried := t.tried + 1))
      ensures st == TooLarge ==> !t.room && Searching(t)
      ensures st == TooLarge ==> MAX_REGIONS < 2 * reserved.max
    {
      hide Regrown, IsBest, Added, Avoids, CoversSpan, MemblockType.Tallied, Chosen, Bounds.Admits, NoneIn, Canonical,
           InSelected, Scene.SomeJam;
      ghost var s1, m := Res(), Mem();
      found, st, mid := Attempt(size, align, start, end, Selector(true, nid, flags), nid);
      if st == Done {
        Placed(Selector(true, nid, flags), m, s1, t.q, found);
        SelectedAt(t.all, t.tried, m, s1, t.q, found);
        if t.room { ChosenAt(t.all, t.tried, m, t.s, t.q, found); }
      } else if found == 0 && NoneIn(t.all, t.tried, m, t.s, t.q) {
        NoneInNext(t.all, t.tried, m, t.s, t.q);
      }
    }

    /** The searches of memblock_alloc_range_nid for one choice of flags. */
    method Round(size: nat, align: nat, start: nat, end: nat, nid: int, exactNid: bool, flags: Flags, ghost t: Trail)
      returns (found: nat, st: Status, ghost mid: seq<Region>, ghost on: int)
      requires Searching(t) && t.tried + RoundLength(nid, exactNid) <= |t.all|
      requires t.all[t.tried] == Selector(true, nid, flags)
      requires RoundLength(nid, exactNid) == 2 ==> t.all[t.tried + 1] == Selector(true, NUMA_NO_NODE, flags)
      requires 0 < size && IsPow2(align) && start <= PHYS_ADDR_MAX && end <= PHYS_ADDR_MAX
      requires t.q == NodeBounds(size, align, start, end, currentLimit)
      modifies reserved, reserved.regions
      ensures reserved.regions != old(reserved.regions) ==> fresh(reserved.regions)
      ensures Valid() && !st.Halted()
      ensures st == Done ==> found != 0 && Finished(t.(tried := 0), on, found, false, mid)
      ensures st == NoMemory ==> Searching(t.(tried := t.tried + RoundLength(nid, exactNid)))
      ensures st == TooLarge ==> Finished(t.(tried := 0), on, 0, true, Res())
      ensures on == nid || on == NUMA_NO_NODE
      ensures st == TooLarge ==> MAX_REGIONS < 2 * reserved.max
    {
      hide Searching, Allocated, Finished, Valid, Tables, MemblockType.Shape;
      on := nid;
      found, st, mid := NextAttempt(size, align, start, end, nid, flags, t);
      ValidShapes();
      if st == Done { FoundBlock(t, on, found, mid); return; }
      if st == TooLarge { FoundTooLarge(t, nid); return; }
      if NumaValidNode(nid) && !exactNid {
        ghost var t1 := t.(tried := t.tried + 1);
        on := NUMA_NO_NODE;
        found, st, mid := NextAttempt(size, align, start, end, NUMA_NO_NODE, flags, t1);
        ValidShapes();
        if st == Done { FoundBlock(t1, on, found, mid); return; }
        if st == TooLarge { FoundTooLarge(t1, on); return; }
      }
    }

    /** The end of an allocation: a block was found, or there is none, or the reserved table was too large to grow. */
    ghost predicate Finished(t: Trail, on: int, found: nat, tooLarge: bool, mid: seq<Region>)
      reads this, memory, reserved, memory.regions, reserved.regions
    {
      && memory.Shape() && reserved.Shape() && 0 < t.q.align
      && (found != 0 ==> Allocated(t, mid, found, on))
      && (found == 0 ==>
            && Res() == mid == t.s && ResArray() == t.a && reserved.max == t.max
            && (|| (tooLarge && !t.room)
                || (!tooLarge && Chosen(t.all, Mem(), t.s, t.q, 0, on))
                || (!tooLarge && !t.room && Here().SomeJam(t.q.size))))
    }

    /** The loop of memblock_alloc_range_nid. */
    method TryAll(size: nat, align: nat, start: nat, end: nat, nid: int, exactNid: bool, ghost t0: Trail)
      returns (found: nat, tooLarge: bool, ghost mid: seq<Region>, ghost on: int)
      requires Searching(t0) && t0.all == Attempts(nid, exactNid, someMirror) && t0.tried == 0
      requires 0 < size && IsPow2(align) && start <= PHYS_ADDR_MAX && end <= PHYS_ADDR_MAX
      requires t0.q == NodeBounds(size, align, start, end, currentLimit)
      modifies reserved, reserved.regions
      ensures reserved.regions != old(reserved.regions) ==> fresh(reserved.regions)
      ensures Valid() && (tooLarge ==> found == 0) && Finished(t0, on, found, tooLarge, mid)
      ensures tooLarge ==> MAX_REGIONS < 2 * reserved.max
    {
      hide Searching, Attempts, Valid, Tables, Finished, MemblockType.Shape, IsPow2, NodeBounds, LeftToTry, RoundLength,
           NumaValidNode, World.Valid, World.Ready;
      var flags := if someMirror then MEMBLOCK_MIRROR else MEMBLOCK_NONE;
      ghost var t := t0;
      tooLarge := false;
      LeftAll(nid, exactNid, someMirror);
      while true
        invariant reserved.regions != old(reserved.regions) ==> fresh(reserved.regions)
        invariant Searching(t) && t == t0.(tried := t.tried)
        invariant flags == MEMBLOCK_MIRROR || flags == MEMBLOCK_NONE
        invariant LeftToTry(t.all, t.tried, nid, exactNid, flags == MEMBLOCK_MIRROR)
        decreases flags == MEMBLOCK_MIRROR
      {
        var st;
        LeftNext(t.all, t.tried, nid, exactNid, flags == MEMBLOCK_MIRROR);
        found, st, mid, on := Round(size, align, start, end, nid, exactNid, flags, t);
        ValidShapes();
        if st == Done { return; }
        if st == TooLarge { return 0, true, Res(), on; }
        t := t.(tried := t.tried + RoundLength(nid, exactNid));
        if flags != MEMBLOCK_MIRROR {
          FoundNone(t, nid);
          return 0, false, Res(), nid;
        }
        flags := MEMBLOCK_NONE;
      }
    }

    /**
     memblock_alloc_range_nid.  mid is the table before the block is reserved.  Whatever happens, a
     block is free memory inside the bounds; with a free slot in the reserved table it is the place
     that `Served` says, and there is no block only when there is no such place.
     */
    method AllocRangeNid(size: nat, align: nat, start: nat, end: nat, nid: int, exactNid: bool)
      returns (found: nat, tooLarge: bool, ghost mid: seq<Region>, ghost on: int)
      requires Valid() && 0 < size && (align == 0 || IsPow2(align)) && start <= PHYS_ADDR_MAX && end <= PHYS_ADDR_MAX
      modifies reserved, reserved.regions
      ensures reserved.regions != old(reserved.regions) ==> fresh(reserved.regions)
      ensures Valid() && (tooLarge ==> found == 0)
      ensures Finished(Trail(old(Res()), old(ResArray()), old(reserved.max),
                             NodeBounds(size, CacheAlign(align), start, end, currentLimit),
                             Attempts(nid, exactNid, someMirror), 0, old(reserved.cnt) < old(reserved.max)),
                       on, found, tooLarge, mid)
      ensures found != 0 ==> on == nid || (on == NUMA_NO_NODE && !exactNid)
      ensures found != 0 ==> Res() == Added(mid, found, size, Attr(on, MEMBLOCK_RSRV_KERN))
      ensures found != 0 ==> Free(Mem(), mid, on, 0, Need(size, align, start, end, currentLimit), found)
      ensures found != 0 ==> Usable(Mem(), if exactNid then nid else NUMA_NO_NODE, 0, found, found + size)
      ensures old(reserved.cnt) < old(reserved.max) ==>
                Served(someMirror, Mem(), old(Res()), nid, exactNid, Need(size, align, start, end, currentLimit), found,
                       on)
      ensures found == 0 ==> mid == Res() == old(Res()) && ResArray() == old(ResArray()) && unchanged(reserved`max)
      ensures found == 0 && !tooLarge ==>
                || Served(someMirror, Mem(), old(Res()), nid, exactNid, Need(size, align, start, end, currentLimit), 0,
                          on)
                || (old(reserved.cnt) == old(reserved.max) && Here().SomeJam(size))
      ensures tooLarge ==> MAX_REGIONS < 2 * reserved.max
    {
      hide Searching, Attempts, Valid, Tables, Finished, MemblockType.Shape, IsPow2, NodeBounds, World.Valid,
           World.Ready, CacheAlign, Added, Free, Usable, Served;
      ValidShapes();
      var align' := if align == 0 then SMP_CACHE_BYTES else align;
      PageIsPow2();
      CacheAligned(align);
      ghost var t := Trail(Res(), ResArray(), reserved.max, NodeBounds(size, align', start, end, currentLimit),
                           Attempts(nid, exactNid, someMirror), 0, reserved.cnt < reserved.max);
      AlignPositive(size, align', start, end, currentLimit);
      StartSearch(t);
      found, tooLarge, mid, on := TryAll(size, align', start, end, nid, exactNid, t);
      FinishedMeans(t, Need(size, align, start, end, currentLimit), nid, exactNid, found, tooLarge, mid, on);
    }

    /** The outcome of an allocation in terms of its request. */
    lemma {:induction false} FinishedMeans(t: Trail, n: Need, nid: int, exactNid: bool, found: nat, tooLarge: bool,
                                           mid: seq<Region>, on: int)
      requires Finished(t, on, found, tooLarge, mid) && 0 < n.size && t.q == Asked(n)
      requires t.all == Attempts(nid, exactNid, someMirror)
      ensures found != 0 ==> on == nid || (on == NUMA_NO_NODE && !exactNid)
      ensures found != 0 ==> Res() == Added(mid, found, n.size, Attr(on, MEMBLOCK_RSRV_KERN))
      ensures found != 0 ==> Free(Mem(), mid, on, 0, n, found)
      ensures found != 0 ==> Usable(Mem(), if exactNid then nid else NUMA_NO_NODE, 0, found, found + n.size)
      ensures t.room ==> Served(someMirror, Mem(), t.s, nid, exactNid, n, found, on)
      ensures found == 0 && !tooLarge && !Here().SomeJam(n.size) ==>
                Served(someMirror, Mem(), t.s, nid, exactNid, n, 0, on)
      ensures found == 0 ==> Res() == mid == t.s && ResArray() == t.a && reserved.max == t.max && (t.room ==> !tooLarge)
    {
      hide Regrown, CoversSpan, Avoids, Added, Chosen, Canonical, World.Valid, InSelected, Served, Usable,
           Bounds.Admits, Need.Admits, Attempts;
      if found != 0 {
        SelectedUsable(someMirror, Mem(), nid, exactNid, on, found, found + n.size);
        BoundsExactly(n, found);
      }
      ChosenExactly(someMirror, Mem(), t.s, nid, exactNid, n, found, on);
    }

    lemma {:induction false} CacheAligned(align: nat)
      ensures CacheAlign(align) == if align == 0 then SMP_CACHE_BYTES else align
    {
    }

    lemma {:induction false} AlignPositive(size: nat, align: nat, start: nat, end: nat, limit: nat)
      requires IsPow2(align)
      ensures 0 < NodeBounds(size, align, start, end, limit).align
    {
    }

    lemma {:induction false} StartSearch(t: Trail)
      requires Valid() && t.s == Res() && t.a == ResArray() && t.max == reserved.max && t.tried == 0
      requires 0 < t.q.align && t.room == (reserved.cnt < reserved.max)
      ensures Searching(t)
    {
    }

    lemma {:induction false} FoundBlock(t: Trail, on: int, found: nat, mid: seq<Region>)
      requires Allocated(t, mid, found, on)
      ensures Finished(t.(tried := 0), on, found, false, mid) && found != 0
    {
      hide Regrown, CoversSpan, Avoids, Added, Chosen, Canonical, World.Valid, InSelected;
    }

    lemma {:induction false} FoundTooLarge(t: Trail, on: int)
      requires Searching(t) && !t.room
      ensures Finished(t.(tried := 0), on, 0, true, Res())
    {
      hide Chosen, World.Valid;
    }

    lemma {:induction false} FoundNone(t: Trail, on: int)
      requires Searching(t) && t.tried == |t.all|
      ensures Finished(t.(tried := 0), on, 0, false, Res())
    {
      hide Chosen, World.Valid, Scene.SomeJam, NoneIn;
      if NoneIn(t.all, t.tried, Mem(), t.s, t.q) { ChosenNone(t.all, Mem(), t.s, t.q, on); }
    }

    lemma {:induction false} ValidShapes()
      requires Valid()
      ensures Tables() && memory.Shape() && reserved.Shape()
    {
    }

  }

  /** The state at the start of an allocation, its searches, and how many of them have been tried. */
  datatype Trail = Trail(s: seq<Region>, a: Span, max: nat, q: Bounds, all: seq<Selector>, tried: nat, room: bool)

  /** None of the first n searches finds a block. */
  ghost predicate NoneIn(sels: seq<Selector>, n: nat, m: seq<Region>, s: seq<Region>, q: Bounds)
    requires 0 < q.align && n <= |sels|
  {
    forall k | 0 <= k < n :: IsBest(sels[k], m, s, q, 0)
  }

  lemma {:induction false} NoneInNext(all: seq<Selector>, k: nat, m: seq<Region>, s: seq<Region>, q: Bounds)
    requires 0 < q.align && k < |all| && NoneIn(all, k, m, s, q) && IsBest(all[k], m, s, q, 0)
    ensures NoneIn(all, k + 1, m, s, q)
  {
  }

  lemma {:induction false} ChosenAt(all: seq<Selector>, k: nat, m: seq<Region>, s: seq<Region>, q: Bounds, r: nat)
    requires 0 < q.align && k < |all| && NoneIn(all, k, m, s, q) && IsBest(all[k], m, s, q, r) && r != 0
    ensures Chosen(all, m, s, q, r, all[k].nid)
  {
    if k == 0 {
      assert Fits(all[0], m, s, q, r);
    } else {
      var tail := all[1..];
      forall j | 0 <= j < k - 1 ensures IsBest(tail[j], m, s, q, 0) { assert tail[j] == all[j + 1]; }
      ChosenAt(tail, k - 1, m, s, q, r);
    }
  }

  lemma {:induction false} ChosenNone(all: seq<Selector>, m: seq<Region>, s: seq<Region>, q: Bounds, on: int)
    requires 0 < q.align && NoneIn(all, |all|, m, s, q)
    ensures Chosen(all, m, s, q, 0, on)
  {
    if all != [] {
      var tail := all[1..];
      forall j | 0 <= j < |tail| ensures IsBest(tail[j], m, s, q, 0) { assert tail[j] == all[j + 1]; }
      ChosenNone(tail, m, s, q, on);
    }
  }

  lemma {:induction false} Placed(sel: Selector, m: seq<Region>, s: seq<Region>, q: Bounds, r: nat)
    requires Canonical(m) && 0 < q.align && IsBest(sel, m, s, q, r) && r != 0
    ensures q.Admits(r) && CoversSpan(m, Span(r, r + q.size))
  {
    OneRegionCovers(m, r, r + q.size);
  }

  /** The searches of memblock_alloc_range_nid, in order. */
  function Attempts(nid: int, exactNid: bool, mirror: bool): seq<Selector> {
    var flags := if mirror then MEMBLOCK_MIRROR else MEMBLOCK_NONE;
    [Selector(true, nid, flags)]
    + (if NumaValidNode(nid) && !exactNid then [Selector(true, NUMA_NO_NODE, flags)] else [])
    + (if mirror then Attempts(nid, exactNid, false) else [])
  }

  /** The number of searches for one choice of flags. */
  function RoundLength(nid: int, exactNid: bool): nat {
    if NumaValidNode(nid) && !exactNid then 2 else 1
  }

  /** The searches after the first k are those for one choice of flags and what follows. */
  predicate LeftToTry(all: seq<Selector>, k: nat, nid: int, exactNid: bool, mirror: bool) {
    k <= |all| && all[k..] == Attempts(nid, exactNid, mirror)
  }

  lemma {:induction false} LeftNext(all: seq<Selector>, k: nat, nid: int, exactNid: bool, mirror: bool)
    requires LeftToTry(all, k, nid, exactNid, mirror)
    ensures var flags := if mirror then MEMBLOCK_MIRROR else MEMBLOCK_NONE;
            var n := RoundLength(nid, exactNid);
            && k + n <= |all| && all[k] == Selector(true, nid, flags)
            && (n == 2 ==> all[k + 1] == Selector(true, NUMA_NO_NODE, flags))
            && if mirror then LeftToTry(all, k + n, nid, exactNid, false) else |all| == k + n
  {
    var n := RoundLength(nid, exactNid);
    assert all[k..][0] == all[k];
    if n == 2 { assert all[k..][1] == all[k + 1]; }
    assert all[k + n..] == all[k..][n..];
  }

  lemma {:induction false} LeftAll(nid: int, exactNid: bool, mirror: bool)
    ensures LeftToTry(Attempts(nid, exactNid, mirror), 0, nid, exactNid, mirror)
  {
  }

  /** r is the best block of the first search that finds one, which is for node on, or 0 when none does. */
  ghost predicate Chosen(sels: seq<Selector>, m: seq<Region>, s: seq<Region>, q: Bounds, r: nat, on: int)
    requires 0 < q.align
  {
    if sels == [] then r == 0
    else if IsBest(sels[0], m, s, q, 0) then Chosen(sels[1..], m, s, q, r, on)
    else IsBest(sels[0], m, s, q, r) && on == sels[0].nid
  }

  lemma {:induction false} ChosenNext(sels: seq<Selector>, m: seq<Region>, s: seq<Region>, q: Bounds, r: nat, on: int)
    requires 0 < q.align
    ensures Chosen(sels, m, s, q, r, on) <==>
            if sels == [] then r == 0
            else if IsBest(sels[0], m, s, q, 0) then Chosen(sels[1..], m, s, q, r, on)
            else IsBest(sels[0], m, s, q, r) && on == sels[0].nid
  {
  }

  /** [lo, hi) lies in a region that one of the searches for node on selects. */
  ghost predicate InSelected(all: seq<Selector>, on: int, m: seq<Region>, lo: nat, hi: nat) {
    exists k :: 0 <= k < |all| && all[k].nid == on && InOneRegion(all[k], m, lo, hi)
  }

  lemma {:induction false} SelectedAt(all: seq<Selector>, k: nat, m: seq<Region>, s: seq<Region>, q: Bounds, r: nat)
    requires 0 < q.align && k < |all| && IsBest(all[k], m, s, q, r) && r != 0
    ensures InSelected(all, all[k].nid, m, r, r + q.size)
  {
    hide InOneRegion;
  }

  /** The searches in order give what the request is served with. */
  lemma {:induction false} ChosenExactly(mirror: bool, m: seq<Region>, s: seq<Region>, nid: int, exactNid: bool,
                                         n: Need, r: nat, on: int)
    requires 0 < n.size
    ensures Chosen(Attempts(nid, exactNid, mirror), m, s, Asked(n), r, on) <==>
            Served(mirror, m, s, nid, exactNid, n, r, on)
  {
    hide IsBest, SomeFree, Highest, Asked, Chosen;
    var others := NumaValidNode(nid) && !exactNid;
    var plain := Attempts(nid, exactNid, false);
    ChosenRound(plain, [], m, s, nid, others, MEMBLOCK_NONE, n, r, on);
    ChosenNext([], m, s, Asked(n), r, on);
    if mirror { ChosenRound(Attempts(nid, exactNid, true), plain, m, s, nid, others, MEMBLOCK_MIRROR, n, r, on); }
  }

  /** The searches for one choice of flags, and those that follow. */
  lemma {:induction false} ChosenRound(all: seq<Selector>, rest: seq<Selector>, m: seq<Region>, s: seq<Region>,
                                       nid: int, others: bool, flags: Flags, n: Need, r: nat, on: int)
    requires 0 < n.size
    requires all == [Selector(true, nid, flags)] + (if others then [Selector(true, NUMA_NO_NODE, flags)] else []) + rest
    ensures Chosen(all, m, s, Asked(n), r, on) <==>
            if SomeFree(m, s, nid, flags, n) then on == nid && Highest(m, s, nid, flags, n, r)
            else if others && SomeFree(m, s, NUMA_NO_NODE, flags, n)
            then on == NUMA_NO_NODE && Highest(m, s, NUMA_NO_NODE, flags, n, r)
            else Chosen(rest, m, s, Asked(n), r, on)
  {
    hide IsBest, SomeFree, Highest, Asked, Chosen;
    SearchExactly(m, s, nid, flags, n, r);
    ChosenNext(all, m, s, Asked(n), r, on);
    if others {
      SearchExactly(m, s, NUMA_NO_NODE, flags, n, r);
      ChosenNext(all[1..], m, s, Asked(n), r, on);
      assert all[1..][1..] == rest;
    } else {
      assert all[1..] == rest;
    }
  }

  lemma {:induction false} SearchExactly(m: seq<Region>, s: seq<Region>, nid: int, flags: Flags, n: Need, r: nat)
    requires 0 < n.size
    ensures IsBest(Selector(true, nid, flags), m, s, Asked(n), 0) <==> !SomeFree(m, s, nid, flags, n)
    ensures SomeFree(m, s, nid, flags, n) ==>
              (IsBest(Selector(true, nid, flags), m, s, Asked(n), r) <==> Highest(m, s, nid, flags, n, r))
  {
    hide IsBest, SomeFree, Highest, Asked;
    BestExactly(m, s, nid, flags, n, 0);
    BestExactly(m, s, nid, flags, n, r);
    HighestSome(m, s, nid, flags, n, r);
  }

  /** Whatever search finds a block, it lies in memory that the request may use. */
  lemma {:induction false} SelectedUsable(mirror: bool, m: seq<Region>, nid: int, exactNid: bool, on: int, lo: nat,
                                          hi: nat)
    requires InSelected(Attempts(nid, exactNid, mirror), on, m, lo, hi)
    ensures on == nid || (on == NUMA_NO_NODE && !exactNid)
    ensures Usable(m, on, 0, lo, hi) && Usable(m, if exactNid then nid else NUMA_NO_NODE, 0, lo, hi)
  {
    hide InOneRegion, Usable, Eligible;
    var all := Attempts(nid, exactNid, mirror);
    var k :| 0 <= k < |all| && all[k].nid == on && InOneRegion(all[k], m, lo, hi);
    UsableExactly(m, on, all[k].flags, lo, hi);
    UsableWeaker(m, on, all[k].flags, lo, hi);
  }

  lemma {:induction false} UsableWeaker(m: seq<Region>, nid: int, flags: Flags, lo: nat, hi: nat)
    requires Usable(m, nid, flags, lo, hi) && (flags == 0 || flags == 0x2)
    ensures Usable(m, nid, 0, lo, hi) && Usable(m, NUMA_NO_NODE, 0, lo, hi)
  {
    var i :| 0 <= i < |m| && Eligible(m[i], nid, flags) && m[i].base <= lo && hi <= m[i].base + m[i].size;
    assert Eligible(m[i], nid, 0) && Eligible(m[i], NUMA_NO_NODE, 0);
  }
}
