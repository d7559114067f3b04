/**
 Whole runs of the allocator: any sequence of allocations and of frees of live
 blocks keeps the live blocks aligned, inside memory, reserved, and apart from each
 other, from every standing reservation and from the allocator's own arrays.
 */
module MemblockRuns {
  import opened Regions
  import opened RegionOps
  import opened FreeRanges
  import opened Bits
  import opened Growth
  import opened Worlds
  import opened Memblock
  import Placement

  datatype Block = Block(base: nat, size: nat, align: nat) {
    function Span(): Span { Growth.Span.Span(base, base + size) }

    /** A block that an allocation may have returned. */
    predicate Proper() {
      0 < size && PAGE_SIZE <= base && base + size <= PHYS_ADDR_MAX && base % CacheAlign(align) == 0
    }
  }

  datatype Request =
    | Alloc(size: nat, align: nat, start: nat, end: nat, nid: int, exactNid: bool)
    | Free(k: nat)
  {
    /** What memblock_alloc_range_nid demands of its caller. */
    predicate Allowed() {
      Alloc? ==> 0 < size && (align == 0 || IsPow2(align)) && start <= PHYS_ADDR_MAX && end <= PHYS_ADDR_MAX
    }
  }

  predicate AllApart(live: seq<Block>, standing: seq<Span>) {
    && (forall i, j | 0 <= i < j < |live| :: live[i].Span().Apart(live[j].Span()))
    && (forall i, j | 0 <= i < |live| && 0 <= j < |standing| :: live[i].Span().Apart(standing[j]))
  }

  /** o is covered by the reserved table s and does not meet the array of that table. */
  ghost predicate Kept(s: seq<Region>, a: Span, o: Span) {
    CoversSpan(s, o) && o.Apart(a)
  }

  /**
   The safety of a state with memory table mem, reserved table s and reserved array a:
   the live blocks are proper, lie in memory, and are reserved; the standing reservations
   are still reserved; and none of these meets another.
   */
  ghost predicate Safe(mem: seq<Region>, s: seq<Region>, a: Span, live: seq<Block>, standing: seq<Span>) {
    && (forall i | 0 <= i < |live| :: live[i].Proper() && CoversSpan(mem, live[i].Span()) && Kept(s, a, live[i].Span()))
    && (forall j | 0 <= j < |standing| :: Kept(s, a, standing[j]))
    && AllApart(live, standing)
  }

  // ----- What one allocation and one free preserve -----

  lemma {:induction false} KeptThroughAlloc(s: seq<Region>, a: Span, mid: seq<Region>, a': Span, b: Block, t: Attr,
                                            o: Span)
    requires Regrown(s, a, mid, a') && Kept(s, a, o)
    requires Canonical(mid) && b.Proper() && Avoids(mid, b.base, b.base + b.size)
    ensures Kept(Added(mid, b.base, b.size, t), a', o) && o.Apart(b.Span())
  {
    RegrownKeeps(s, a, mid, a', o);
    AddedKeeps(mid, b.base, b.size, t, o);
    AvoidsApart(mid, o, b.Span());
  }

  /** Reserving a free block outside the arrays and adding it to the live blocks keeps a state safe. */
  lemma {:induction false} AllocKeepsSafe(mem: seq<Region>, s: seq<Region>, a: Span, mid: seq<Region>, a': Span,
                                          b: Block, t: Attr,
                       live: seq<Block>, standing: seq<Span>)
    requires Safe(mem, s, a, live, standing) && Regrown(s, a, mid, a') && Canonical(mid)
    requires b.Proper() && CoversSpan(mem, b.Span()) && Avoids(mid, b.base, b.base + b.size) && b.Span().Apart(a')
    ensures Safe(mem, Added(mid, b.base, b.size, t), a', live + [b], standing)
  {
    hide Regrown, Added, Avoids, Canonical, CoversSpan, Kept;
    var s' := Added(mid, b.base, b.size, t);
    NewIsKept(mid, a', b, t);
    forall i | 0 <= i < |live| ensures Kept(s', a', live[i].Span()) && live[i].Span().Apart(b.Span()) {
      KeptThroughAlloc(s, a, mid, a', b, t, live[i].Span());
    }
    forall j | 0 <= j < |standing| ensures Kept(s', a', standing[j]) && b.Span().Apart(standing[j]) {
      KeptThroughAlloc(s, a, mid, a', b, t, standing[j]);
    }
  }

  lemma {:induction false} NewIsKept(mid: seq<Region>, a: Span, b: Block, t: Attr)
    requires Canonical(mid) && b.Proper() && b.Span().Apart(a)
    ensures Kept(Added(mid, b.base, b.size, t), a, b.Span())
  {
    AddedIsUnion(mid, b.base, b.size, t);
  }

  function Without(live: seq<Block>, k: nat): seq<Block>
    requires k < |live|
  {
    live[..k] + live[k + 1..]
  }

  lemma {:induction false} KeptThroughFree(s: seq<Region>, a: Span, mid: seq<Region>, a': Span, b: Block, o: Span)
    requires Regrown(s, a, mid, a') && Kept(s, a, o)
    requires Canonical(mid) && b.Proper() && o.Apart(b.Span())
    ensures Kept(Removed(mid, b.base, b.size), a', o)
  {
    RegrownKeeps(s, a, mid, a', o);
    RemovedKeeps(mid, b.base, b.size, o);
  }

  /** Releasing a live block keeps a state safe. */
  lemma {:induction false} FreeKeepsSafe(mem: seq<Region>, s: seq<Region>, a: Span, mid: seq<Region>, a': Span, k: nat,
                      live: seq<Block>, standing: seq<Span>)
    requires Safe(mem, s, a, live, standing) && Regrown(s, a, mid, a') && Canonical(mid) && k < |live|
    ensures Safe(mem, Removed(mid, live[k].base, live[k].size), a', Without(live, k), standing)
  {
    hide Regrown, Removed, Canonical, CoversSpan, Kept;
    var s', b, rest := Removed(mid, live[k].base, live[k].size), live[k], Without(live, k);
    forall i | 0 <= i < |rest| ensures Kept(s', a', rest[i].Span()) {
      var j := if i < k then i else i + 1;
      assert rest[i] == live[j] && live[j].Span().Apart(b.Span());
      KeptThroughFree(s, a, mid, a', b, rest[i].Span());
    }
    forall j | 0 <= j < |standing| ensures Kept(s', a', standing[j]) {
      assert b.Span().Apart(standing[j]);
      KeptThroughFree(s, a, mid, a', b, standing[j]);
    }
  }

  /** Growth alone keeps a state safe. */
  lemma {:induction false} GrowthKeepsSafe(mem: seq<Region>, s: seq<Region>, a: Span, mid: seq<Region>, a': Span,
                        live: seq<Block>, standing: seq<Span>)
    requires Safe(mem, s, a, live, standing) && Regrown(s, a, mid, a')
    ensures Safe(mem, mid, a', live, standing)
  {
    hide Regrown, CoversSpan, Block.Proper;
    forall i | 0 <= i < |live| ensures Kept(mid, a', live[i].Span()) {
      RegrownKeeps(s, a, mid, a', live[i].Span());
    }
    forall j | 0 <= j < |standing| ensures Kept(mid, a', standing[j]) {
      RegrownKeeps(s, a, mid, a', standing[j]);
    }
  }

  ghost predicate SafeState(m: Memblock, live: seq<Block>, standing: seq<Span>)
    reads m, m.memory, m.reserved, m.memory.regions, m.reserved.regions
  {
    m.Valid() && m.MemArray() in standing && Safe(m.Mem(), m.Res(), m.ResArray(), live, standing)
  }

  lemma {:induction false} SafeIsValid(m: Memblock, live: seq<Block>, standing: seq<Span>)
    requires m.Ready() && m.MemArray() in standing && CoversSpan(m.Mem(), m.MemArray())
    requires Safe(m.Mem(), m.Res(), m.ResArray(), live, standing)
    ensures m.Valid()
  {
    var j :| 0 <= j < |standing| && standing[j] == m.MemArray();
    assert Kept(m.Res(), m.ResArray(), standing[j]);
  }

  lemma {:induction false} SafeTables(m: Memblock, live: seq<Block>, standing: seq<Span>)
    requires SafeState(m, live, standing)
    ensures m.Valid() && m.Tables() && m.MemArray() in standing && Safe(m.Mem(), m.Res(), m.ResArray(), live, standing)
    ensures |m.Res()| == m.reserved.cnt
  {
  }

  lemma {:induction false} ValidTables(m: Memblock)
    requires m.Valid()
    ensures m.Tables()
  {
  }

  // ----- Steps and runs, seen from outside -----

  /** What an operation may depend on and change, with the blocks that are live. */
  datatype Snapshot = Snapshot(mem: seq<Region>, res: seq<Region>, arr: Span, max: nat, limit: nat, mirror: bool,
                               live: seq<Block>)

  ghost function Snap(m: Memblock, live: seq<Block>): Snapshot
    requires m.Tables()
    reads m, m.memory, m.reserved, m.memory.regions, m.reserved.regions
  {
    Snapshot(m.Mem(), m.Res(), m.ResArray(), m.reserved.max, m.currentLimit, m.someMirror, live)
  }

  /** Between two states the memory table stays, and the reserved table may have grown to mid. */
  ghost predicate Grown(p: Snapshot, mid: seq<Region>, q: Snapshot) {
    && q == Snapshot(p.mem, q.res, q.arr, q.max, p.limit, p.mirror, q.live)
    && Regrown(p.res, p.arr, mid, q.arr) && p.max <= q.max && (q.max == p.max ==> mid == p.res && q.arr == p.arr)
  }

  /** What an allocation asks for. */
  function NeedOf(r: Request, limit: nat): Placement.Need
    requires r.Alloc?
  {
    Placement.Need(r.size, r.align, r.start, r.end, limit)
  }

  /**
   One allocation that returns found, recorded for node on, or 0 for none.  What it returns is free
   memory inside the bounds of the request; with a free slot it is the preferred place, and 0 is
   returned exactly when there is none.
   */
  ghost predicate AllocStep(p: Snapshot, r: Request, found: nat, mid: seq<Region>, on: int, q: Snapshot)
    requires r.Alloc?
  {
    && Grown(p, mid, q) && q.live == (if found == 0 then p.live else p.live + [Block(found, r.size, r.align)])
    && (if found == 0 then q == p && mid == p.res
        else
          && found + r.size <= PHYS_ADDR_MAX && (on == r.nid || (on == NUMA_NO_NODE && !r.exactNid))
          && Placement.Free(p.mem, mid, on, 0, NeedOf(r, p.limit), found)
          && q.res == Added(mid, found, r.size, Attr(on, MEMBLOCK_RSRV_KERN)))
    && (|p.res| < p.max ==>
          q.max == p.max && Placement.Served(p.mirror, p.mem, p.res, r.nid, r.exactNid, NeedOf(r, p.limit), found, on))
  }

  /** One free of the k-th live block.  With two free slots it succeeds. */
  ghost predicate FreeStep(p: Snapshot, k: nat, done: bool, mid: seq<Region>, q: Snapshot) {
    && k < |p.live| && p.live[k].base <= PHYS_ADDR_MAX && Grown(p, mid, q)
    && q.live == (if done then Without(p.live, k) else p.live)
    && q.res == (if done then Removed(mid, p.live[k].base, p.live[k].size) else mid)
    && (|p.res| + 2 <= p.max ==> done && q.max == p.max)
  }

  /** The allocation that starts from p. */
  ghost function TrailOf(p: Snapshot, r: Request): Trail
    requires r.Alloc?
  {
    Trail(p.res, p.arr, p.max, NodeBounds(r.size, CacheAlign(r.align), r.start, r.end, p.limit),
          Attempts(r.nid, r.exactNid, p.mirror), 0, |p.res| < p.max)
  }

  lemma {:induction false} AllocFound(m: Memblock, p: Snapshot, r: Request, found: nat, tooLarge: bool,
                                      mid: seq<Region>, on: int, standing: seq<Span>)
    requires r.Alloc? && r.Allowed() && m.Valid() && found != 0
    requires m.Finished(TrailOf(p, r), on, found, tooLarge, mid)
    requires m.MemArray() in standing && Safe(p.mem, p.res, p.arr, p.live, standing)
    requires p.mem == m.Mem() && p.limit == m.currentLimit && p.mirror == m.someMirror
    ensures var live' := p.live + [Block(found, r.size, r.align)];
            SafeState(m, live', standing) && AllocStep(p, r, found, mid, on, Snap(m, live'))
  {
    hide Regrown, CoversSpan, Added, Avoids, Canonical, Chosen, Safe, Attempts, InSelected, Placement.Served,
         Placement.Free;
    var b := Block(found, r.size, r.align);
    m.FinishedMeans(TrailOf(p, r), NeedOf(r, p.limit), r.nid, r.exactNid, found, tooLarge, mid, on);
    AllocKeepsSafe(p.mem, p.res, p.arr, mid, m.ResArray(), b, Attr(on, MEMBLOCK_RSRV_KERN), p.live, standing);
  }

  lemma {:induction false} AllocFailed(m: Memblock, p: Snapshot, r: Request, tooLarge: bool, mid: seq<Region>,
                                       on: int, standing: seq<Span>)
    requires r.Alloc? && r.Allowed() && m.Valid() && m.Finished(TrailOf(p, r), on, 0, tooLarge, mid)
    requires m.MemArray() in standing && Safe(p.mem, p.res, p.arr, p.live, standing)
    requires p.mem == m.Mem() && p.limit == m.currentLimit && p.mirror == m.someMirror
    ensures SafeState(m, p.live, standing) && AllocStep(p, r, 0, mid, on, Snap(m, p.live))
    ensures (|p.res| < p.max ==> !tooLarge)
  {
    hide Regrown, CoversSpan, Added, Avoids, Canonical, Chosen, Safe, Attempts, Placement.Served;
    m.FinishedMeans(TrailOf(p, r), NeedOf(r, p.limit), r.nid, r.exactNid, 0, tooLarge, mid, on);
    RegrownSame(p.res, p.arr);
    GrowthKeepsSafe(p.mem, p.res, p.arr, mid, m.ResArray(), p.live, standing);
  }

  /** What a live block promises to the one who frees it. */
  lemma {:induction false} FreeBegins(m: Memblock, live: seq<Block>, k: nat, standing: seq<Span>)
    requires SafeState(m, live, standing) && k < |live|
    ensures m.Tables() && m.Now().Ready() && m.Now().Valid() && m.Now().Spared(Capped(live[k].base, live[k].size))
    ensures 2 <= live[k].base <= PHYS_ADDR_MAX && m.ResArray().Apart(Capped(live[k].base, live[k].size))
    ensures m.MemArray() in standing && Safe(m.Mem(), m.Res(), m.ResArray(), live, standing)
    ensures |m.Res()| == m.reserved.cnt
  {
    assert live[k].Proper() && Kept(m.Res(), m.ResArray(), live[k].Span());
  }

  lemma {:induction false} FreeFinishes(m: Memblock, w: World, p: Snapshot, k: nat, done: bool, mid: seq<Region>,
                                        standing: seq<Span>)
    requires m.Tables() && m.Now().Ready() && w.Valid() && w.Ready() && k < |p.live| && p.live[k].base <= PHYS_ADDR_MAX
    requires p == Snapshot(w.scene.mem, w.scene.res, w.a, w.scene.max, m.currentLimit, m.someMirror, p.live)
    requires w.m in standing && Safe(p.mem, p.res, p.arr, p.live, standing)
    requires w.Moved(m.Now().Seen(mid), Capped(p.live[k].base, p.live[k].size)) && Canonical(mid)
    requires m.Res() == if done then Removed(mid, p.live[k].base, p.live[k].size) else mid
    requires |p.res| + 2 <= p.max ==> done && m.reserved.max == p.max
    ensures var live' := if done then Without(p.live, k) else p.live;
            SafeState(m, live', standing) && FreeStep(p, k, done, mid, Snap(m, live'))
  {
    hide Regrown, CoversSpan, Removed, Canonical, Safe;
    if done {
      FreeKeepsSafe(p.mem, p.res, p.arr, mid, m.ResArray(), k, p.live, standing);
      SafeIsValid(m, Without(p.live, k), standing);
    } else {
      GrowthKeepsSafe(p.mem, p.res, p.arr, mid, m.ResArray(), p.live, standing);
      SafeIsValid(m, p.live, standing);
    }
  }

  /** What a request came to; a free of a block that is not live is not carried out. */
  datatype Outcome = Found(base: nat) | Freed | Refused | Unknown

  ghost predicate Step(p: Snapshot, r: Request, o: Outcome, q: Snapshot) {
    match r
    case Alloc(_, _, _, _, _, _) => o.Found? && exists mid, on :: AllocStep(p, r, o.base, mid, on, q)
    case Free(k) =>
      if k >= |p.live| then o == Unknown && q == p
      else (o == Freed || o == Refused) && FreeEnds(p, k, o == Freed, q)
  }

  ghost predicate FreeEnds(p: Snapshot, k: nat, done: bool, q: Snapshot) {
    exists mid :: FreeStep(p, k, done, mid, q)
  }

  /** A state in which an operation may have to grow the reserved table. */
  predicate Cramped(p: Snapshot) {
    p.max < |p.res| + 2
  }

  /** The live blocks that requests with these outcomes leave. */
  function LiveAfter(first: seq<Block>, requests: seq<Request>, outcomes: seq<Outcome>): seq<Block>
    requires |outcomes| <= |requests|
    decreases |outcomes|
  {
    if outcomes == [] then first
    else
      var n := |outcomes| - 1;
      var live := LiveAfter(first, requests, outcomes[..n]);
      match requests[n]
      case Alloc(size, align, _, _, _, _) =>
        if outcomes[n].Found? && outcomes[n].base != 0 then live + [Block(outcomes[n].base, size, align)] else live
      case Free(k) => if outcomes[n] == Freed && k < |live| then Without(live, k) else live
  }

  /** The states of a run, one more than its outcomes. */
  ghost predicate Trace(states: seq<Snapshot>, requests: seq<Request>, outcomes: seq<Outcome>) {
    && |states| == |outcomes| + 1 && |outcomes| <= |requests|
    && forall i | 0 <= i < |outcomes| :: Step(states[i], requests[i], outcomes[i], states[i + 1])
  }

  lemma {:induction false} TraceMore(states: seq<Snapshot>, requests: seq<Request>, outcomes: seq<Outcome>, o: Outcome,
                                     q: Snapshot)
    requires Trace(states, requests, outcomes) && |outcomes| < |requests|
    requires Step(states[|outcomes|], requests[|outcomes|], o, q)
    ensures Trace(states + [q], requests, outcomes + [o])
  {
    hide Step;
  }

  /** The blocks that are live at the end of a run are those that its outcomes say. */
  lemma {:induction false} TraceLive(states: seq<Snapshot>, requests: seq<Request>, outcomes: seq<Outcome>)
    requires Trace(states, requests, outcomes)
    ensures states[|outcomes|].live == LiveAfter(states[0].live, requests, outcomes)
    decreases |outcomes|
  {
    if outcomes != [] {
      var n := |outcomes| - 1;
      TraceLive(states[..n + 1], requests, outcomes[..n]);
      assert Step(states[n], requests[n], outcomes[n], states[n + 1]);
    }
  }

  // ----- The operations and their runs -----

  /** Allocate a block and add it to the live blocks. */
  method Allocate(m: Memblock, live: seq<Block>, r: Request, ghost standing: seq<Span>)
    returns (live': seq<Block>, found: nat, tooLarge: bool, ghost mid: seq<Region>, ghost on: int)
    requires SafeState(m, live, standing) && r.Alloc? && r.Allowed()
    modifies m.reserved, m.reserved.regions
    ensures m.reserved.regions != old(m.reserved.regions) ==> fresh(m.reserved.regions)
    ensures SafeState(m, live', standing)
    ensures AllocStep(old(Snap(m, live)), r, found, mid, on, Snap(m, live'))
    ensures tooLarge ==> found == 0
    ensures old(m.reserved.cnt) < old(m.reserved.max) ==> !tooLarge
    ensures tooLarge ==> MAX_REGIONS < 2 * m.reserved.max
    ensures found == 0 && !tooLarge ==>
              || Placement.Served(m.someMirror, m.Mem(), old(m.Res()), r.nid, r.exactNid, NeedOf(r, m.currentLimit), 0,
                                  on)
              || (old(m.reserved.cnt) == old(m.reserved.max) && m.Here().SomeJam(r.size))
  {
    hide Safe, Attempts, Chosen, NodeBounds, AllocStep, SafeState, Memblock.Valid, Memblock.Tables, Memblock.Finished,
         Placement.Served, Placement.Free, Placement.Usable, Added, Scene.SomeJam;
    SafeTables(m, live, standing);
    ghost var p := Snap(m, live);
    found, tooLarge, mid, on := m.AllocRangeNid(r.size, r.align, r.start, r.end, r.nid, r.exactNid);
    ValidTables(m);
    live' := live;
    if found != 0 {
      live' := live + [Block(found, r.size, r.align)];
      AllocFound(m, p, r, found, tooLarge, mid, on, standing);
    } else {
      AllocFailed(m, p, r, tooLarge, mid, on, standing);
    }
  }

  /** memblock_phys_free on the k-th live block; it stays live when the free fails. */
  method Release(m: Memblock, live: seq<Block>, k: nat, ghost standing: seq<Span>)
    returns (live': seq<Block>, st: Status, ghost mid: seq<Region>)
    requires SafeState(m, live, standing) && k < |live|
    modifies m.reserved, m.reserved.regions
    ensures m.reserved.regions != old(m.reserved.regions) ==> fresh(m.reserved.regions)
    ensures SafeState(m, live', standing)
    ensures FreeStep(old(Snap(m, live)), k, st == Done, mid, Snap(m, live'))
    ensures st == TooLarge ==> MAX_REGIONS < 2 * m.reserved.max
    ensures st == NoMemory ==> live[k].base <= PHYS_ADDR_MAX && m.Here().Jammed(Capped(live[k].base, live[k].size))
  {
    hide Safe, SafeState, FreeStep, Removed, Canonical, Without, Memblock.Valid, Memblock.Tables, World.Moved,
         World.Spared, World.Ready;
    FreeBegins(m, live, k, standing);
    m.Shapes();
    ghost var w, p := m.Now(), Snap(m, live);
    st, mid := m.RemoveRange(live[k].base, live[k].size);
    m.Shapes();
    live' := if st == Done then Without(live, k) else live;
    FreeFinishes(m, w, p, k, st == Done, mid, standing);
  }

  /**
   Every run is safe: after any sequence of allowed allocations and of frees of live blocks,
   up to an array that outgrows the model, the state is safe, and the live blocks are exactly
   those that were returned and not freed since.
   */
  method Run(m: Memblock, first: seq<Block>, requests: seq<Request>, ghost standing: seq<Span>)
    returns (live: seq<Block>, outcomes: seq<Outcome>, tooLarge: bool, ghost states: seq<Snapshot>)
    requires SafeState(m, first, standing)
    requires forall i | 0 <= i < |requests| :: requests[i].Allowed()
    modifies m.reserved, m.reserved.regions
    ensures SafeState(m, live, standing)
    ensures Trace(states, requests, outcomes) && states[0] == old(Snap(m, first)) && states[|outcomes|] == Snap(m, live)
    ensures |outcomes| <= |requests| && live == LiveAfter(first, requests, outcomes)
    ensures !tooLarge ==> |outcomes| == |requests|
    ensures tooLarge ==> outcomes != [] && Cramped(states[|outcomes| - 1])
    ensures tooLarge ==> MAX_REGIONS < 2 * m.reserved.max
  {
    live, outcomes, tooLarge, states := first, [], false, [Snap(m, first)];
    for i := 0 to |requests|
      invariant m.reserved.regions != old(m.reserved.regions) ==> fresh(m.reserved.regions)
      invariant SafeState(m, live, standing) && |outcomes| == i && !tooLarge
      invariant Trace(states, requests, outcomes) && states[0] == old(Snap(m, first)) && states[i] == Snap(m, live)
    {
      var o;
      live, o, tooLarge := Serve(m, live, requests[i], standing);
      TraceMore(states, requests, outcomes, o, Snap(m, live));
      outcomes, states := outcomes + [o], states + [Snap(m, live)];
      if tooLarge { break; }
    }
    TraceLive(states, requests, outcomes);
  }

  /** One request. */
  method Serve(m: Memblock, live: seq<Block>, r: Request, ghost standing: seq<Span>)
    returns (live': seq<Block>, o: Outcome, tooLarge: bool)
    requires SafeState(m, live, standing) && r.Allowed()
    modifies m.reserved, m.reserved.regions
    ensures m.reserved.regions != old(m.reserved.regions) ==> fresh(m.reserved.regions)
    ensures SafeState(m, live', standing) && Step(old(Snap(m, live)), r, o, Snap(m, live'))
    ensures tooLarge ==> Cramped(old(Snap(m, live)))
    ensures tooLarge ==> MAX_REGIONS < 2 * m.reserved.max
  {
    ghost var mid;
    tooLarge := false;
    match r
    case Alloc(_, _, _, _, _, _) =>
      var found;
      ghost var on;
      live', found, tooLarge, mid, on := Allocate(m, live, r, standing);
      o := Found(found);
    case Free(k) =>
      if k >= |live| { return live, Unknown, false; }
      var st;
      live', st, mid := Release(m, live, k, standing);
      o, tooLarge := if st == Done then Freed else Refused, st == TooLarge;
  }

  /**
   With three free slots a block that is found can be freed, and that restores the reserved table
   exactly; without growth it does so whenever the free succeeds.
   */
  method AllocateThenRelease(m: Memblock, r: Request) returns (found: nat, st: Status, ghost on: int)
    requires m.Valid() && r.Alloc? && r.Allowed()
    modifies m.reserved, m.reserved.regions
    ensures old(m.reserved.cnt) < old(m.reserved.max) ==>
              Placement.Served(m.someMirror, old(m.Mem()), old(m.Res()), r.nid, r.exactNid,
                               NeedOf(r, m.currentLimit), found, on)
    ensures found != 0 && m.reserved.max == old(m.reserved.max) && st == Done ==> m.Tables() && m.Res() == old(m.Res())
    ensures old(m.reserved.cnt) + 3 <= old(m.reserved.max) ==>
              && (found != 0 ==> st == Done) && m.reserved.max == old(m.reserved.max)
              && m.Tables() && m.Res() == old(m.Res())
  {
    hide Regrown, CoversSpan, Chosen, Canonical, Added, Avoids, Removed, Attempts, InSelected, Placement.Served,
         Placement.Usable;
    var tooLarge, size := false, r.size;
    ghost var mid, mid2;
    found, tooLarge, mid, on := m.AllocRangeNid(r.size, r.align, r.start, r.end, r.nid, r.exactNid);
    if found == 0 { return 0, if tooLarge then TooLarge else NoMemory, on; }
    AddedOne(mid, found, size, Attr(on, MEMBLOCK_RSRV_KERN));
    st, mid2 := m.RemoveRange(found, size);
    UndoAlloc(mid, found, size, Attr(on, MEMBLOCK_RSRV_KERN));
  }

  /** A free block adds at most one region. */
  lemma {:induction false} AddedOne(s: seq<Region>, base: nat, size: nat, t: Attr)
    requires Canonical(s) && 0 < size && base + size <= PHYS_ADDR_MAX && Avoids(s, base, base + size)
    ensures |Added(s, base, size, t)| <= |s| + 1
  {
    FillFree(s, base, base + size, t);
    MergeShrinks(Fill(s, base, base + size, t));
  }

  lemma {:induction false} UndoAlloc(s: seq<Region>, base: nat, size: nat, t: Attr)
    requires Canonical(s) && 0 < size && base + size <= PHYS_ADDR_MAX && Avoids(s, base, base + size)
    ensures Removed(Added(s, base, size, t), base, size) == s
  {
    AddThenErase(s, base, size, t);
  }
}
