# QuestOS in Dafny

This project models five cores of QuestOS and proves what they promise. Each core is taken in the
form the C code has: tables, blobs and tree nodes are classes and arrays that methods change in
place, loops are loops, and every such method is proved against functions on sequences, trees or
shapes, about which the properties are then proved.

**memblock** (`Regions`, `RegionOps`, `RegionTable`, `FreeRanges`, `Bits`, `Search`, `Growth`,
`Worlds`, `Placement`, `Memblock`, `GrowthCases`, `MemblockRuns`). A table of regions means a
partial map from addresses to node and flags, and a canonical table is the only array with its
meaning. Adding is map union and removing is map restriction, on arrays that are shifted while they
are scanned. The iterators yield memory minus reserved, forwards and backwards. The search returns
the highest fitting address, and an allocation gets the place that its bounds, its node and mirrored
memory say. The arrays grow into memory that the allocator itself provides, and the exact condition
under which a growth runs over the other array is proved, for any number of doublings. Over every
sequence of allocations and frees, the live blocks are those that the requests and their outcomes
determine, and they stay aligned, inside memory and pairwise disjoint.

**libfdt** (`FdtTokens`, `FdtTree`, `FdtBuffer`, `FdtWriter`, `FdtCheck`, `FdtEdit`, `FdtSubnodes`,
`FdtEditor`, `FdtPack`, `FdtPath`, `FdtMerge`, `FdtOverlay`, `FdtPhandles`, `FdtFixups`,
`FdtRenumber`, `FixupCases`, `FdtSamples`). Bytes hold tokens, tokens stand for items, and items are
the flattening of a tree, as in sections 5.2 to 5.6 of the Devicetree Specification v0.4. The
sequential writer and the reader are inverse to each other. Every in-place edit, by splice or by
NOPs, is an edit of the tree at one node, and an edit that is refused changes nothing. Merging an
overlay node is the recursive merge of trees, with offsets that stay right across all splices.
Before that an overlay is renumbered in place: every phandle and every listed reference moves by the
largest phandle of the base, so that references still name the same nodes, and the exact case of a
collision is proved. Paths written for a node lead back to it exactly when they are unambiguous.

**Augmented red-black trees** (`RbShape`, `RbLinks`, `RbErase`, `RbTurn`, `RbCells`, `RbBalance`,
`RbFix`, `RbInsert`). The pointer code of linking, erasing, rotating and rebalancing is proved
against shapes with one-hole contexts: order, colours, parent links and the stored maxima with their
early stop. Both loops of the rebalancing end in a red-black tree, so that adding and erasing as a
whole keep the colour rules, and with them the logarithmic depth.

**User copy** (`UserCopy`). The page-wise copy refines a byte copy with zero fill, looks at no page
behind the first fault, and at none outside the lower 2^48 addresses.

**Process packages** (`PackRecords`, `ProcPackage`, `ProcLoader`). Metadata, layout and file of
`proc_pack.py`, a reader that follows the structs of `include/process.h`, and the checks and the
loader of `process.c`: reading a written package gives back every image, a package is written
exactly when all its fields fit, and the kernel makes processes of exactly the images that keep its
limits.

`Basics` holds the types that all parts share.

Findings that the contracts spell out:

- `memblock_double_array` keeps a new array away from the range being added only if that range starts
  above address 1 or some free block lies above it, because `memblock_find_in_range_node` reads an end
  of 0 or 1 as a special value. `FindArray` gives the exact condition and `PendingAtZeroOverlaps` a
  state in which it fails.
- Growing a memory array that came from the allocator releases the old array before the new one is
  reserved. When the reserved table is nearly full, the nested growth can put the reserved array over the
  new memory array, whose entries are then lost. `DoubleMemory` reports this as `Clobbered`, with the exact
  condition, and says nothing of the tables then; `ArraysMeet` is a state in which it happens.
- `fdt_next_tag` does not move at a property whose length field is 2^32 - 12, and steps into the middle of
  a longer one (`NextTagAdvances`, `NextTagStuck`, `OversizedSteps`).
- `fdt_add_string_` subtracts before it compares; when the table and the new string together exceed
  the buffer, the difference wraps. `AddString` and `AddProperty` report this case as `Overrun`, and
  `OverrunReached` is a correct sequence of calls that ends in it.
- `fdt_check_full` accepts a written tree exactly when its root name is empty, though nothing stops the
  writer from giving the root another name (`WriteAndCheck`).
- `fdt_check_node_offset_` accepts every aligned word with the value 1, also inside a property value
  (`CheckNodeOffset`, `InsideValue`).
- `fdt_add_subnode` takes the offset -1, which is also the code of NOTFOUND, for a node without such a
  child and writes in front of the structure block; no other negative offset passes. `fdt_first_subnode`
  gives the root for every negative offset (`AddSubnode`, `NextSubnode`, outcome `Stray`).
- An overlay node with the phandle 0 is renumbered to the largest phandle of the base and collides with
  its owner (`ClashExactly`, `RenumberedApart`, `ZeroCollides`).
- `overlay_update_local_node_references` reads a listed cell before anything has tested its place. The
  read is inside the value exactly when the test that follows passes without wrapping; for the last four
  32-bit offsets the test wraps, and the write goes outside as well (`FixOne`, `SetCell`, outcome `Stray`).
- A package written with an alignment below the page size can be refused by the kernel, which wants payloads
  and metadata at pages behind the descriptors (`HeaderPasses`, `DescPasses`); flat images are written and
  never loaded (`LoadOneImage`).
- The lists of local fixups are read from the blob that is being changed. They are carried out as listed
  unless the fixup node has a child whose name selects the fixup node itself (`FixTreePlan`); then an
  entry can move before it is read, and the walk can fail although every entry fits (`ListsMove`).

## Model

| member | source | states |
|---|---|---|
| `Regions.CanonicalUnique` | src/mm/memblock.c:746-774 | two sorted, disjoint, fully merged tables with the same meaning (a partial map from addresses to node and flags) are the same array |
| `Regions.TotalSizeCounts` | src/mm/memblock.c:94-110 | the sum of the region sizes of a table is the number of addresses it covers |
| `Regions.TotalSizeBound` | src/mm/memblock.c:62-65 | the covered bytes above an address never exceed the distance to the end of the address space |
| `RegionOps.AddedIsUnion` | src/mm/memblock.c:792-896 | the table that an addition leaves is canonical, old addresses keep their node and flags, new addresses of the capped range get the given ones, and no other address changes |
| `RegionOps.AddedExactly` | src/mm/memblock.c:62-65 | every address of the range that is new gets the given node and flags, up to the last address, and all others stay |
| `RegionOps.AddedLookup` | src/mm/memblock.c:813-895 | the meaning of every address after an addition, case by case |
| `RegionOps.FillGrowth` | src/mm/memblock.c:827-876 | filling the holes of a range adds at most one piece more than the number of regions the range meets |
| `RegionOps.FillCountsHoles` | src/mm/memblock.c:827-876 | the number of inserted pieces is the number of maximal holes of the old map in the range, so it depends on the meaning of the table alone |
| `RegionOps.HolesSame` | src/mm/memblock.c:827-876 | tables that agree on a range have the same holes there |
| `RegionOps.FillWellFormed` | src/mm/memblock.c:827-876 | inserting the pieces keeps the array sorted, disjoint and free of empty regions |
| `RegionOps.MergeAllCanonical` | src/mm/memblock.c:746-774 | merging keeps the meaning and the covered size and leaves a canonical table |
| `RegionOps.SplitLookup` | src/mm/memblock.c:615-673 | cutting regions at the ends of a range keeps the meaning of every address |
| `RegionOps.SplitTotalSize` | src/mm/memblock.c:615-673 | cutting keeps the covered size |
| `RegionOps.SplitGrowth` | src/mm/memblock.c:615-673 | cutting at the two ends of a range adds at most two regions |
| `RegionOps.SplitWellFormed` | src/mm/memblock.c:615-673 | after cutting, every region lies inside or outside the range and the array is still sorted and disjoint |
| `RegionOps.CutIsErased` | src/mm/memblock.c:692-705 | deleting exactly the isolated index interval is erasing the range |
| `RegionOps.ErasedIsRestriction` | src/mm/memblock.c:692-705 | removal is restriction of the map to the complement of the range, and the table stays canonical |
| `RegionOps.ErasedGrowth` | src/mm/memblock.c:692-705 | removal adds at most one region |
| `RegionOps.AddThenErase` | src/mm/memblock.c:692-896 | erasing a range that was added to a table without it gives the same array back, through all merges and splits |
| `RegionTable.MemblockType.InsertRegion` | src/mm/memblock.c:94-110 | shifts the tail and writes one region; stops exactly when the array is full; total_size stays the covered size |
| `RegionTable.MemblockType.RemoveRegion` | src/mm/memblock.c:675-690 | closes the gap over one region and marks an emptied table by an empty first entry |
| `RegionTable.MemblockType.MergeRegions` | src/mm/memblock.c:746-774 | merging only the index window equals merging the whole array, given that all mergeable neighbours lie in the window |
| `RegionTable.MemblockType.AddPass` | src/mm/memblock.c:827-876 | one loop serves counting and inserting: counting changes nothing and returns exactly how many regions inserting adds; inserting fills the holes, fails exactly when the result exceeds the capacity, and returns a window that holds every mergeable pair |
| `RegionTable.MemblockType.CountHoles` | src/mm/memblock.c:827-876 | the count of the first pass is the growth of the second |
| `RegionTable.MemblockType.AddFirst` | src/mm/memblock.c:805-815 | the special case of an empty table agrees with the general one |
| `RegionTable.MemblockType.AddFilled` | src/mm/memblock.c:827-894 | insertion and merge give the canonical union, or stop exactly when the array is too short |
| `RegionTable.MemblockType.IsolateRegions` | src/mm/memblock.c:615-673 | ends although it looks at an index again after a cut, and returns exactly the index interval of the regions inside the range |
| `RegionTable.MemblockType.RemoveRegions` | src/mm/memblock.c:692-705 | removing from the highest index down deletes exactly the interval |
| `RegionTable.MemblockType.EraseRange` | src/mm/memblock.c:692-705 | isolate and remove together erase the range and keep the table canonical |
| `RegionTable.MemblockType.Grow` | src/mm/memblock.c:509-596 | moving to an array of twice the length keeps the contents |
| `FreeRanges.PackInverse` | include/linux_modify/memblock.h:147-174 | a cursor packs two indices, -1 included, without loss, the first in the low half, and no cursor that a walk passes through is the end sentinel |
| `FreeRanges.NextMemRange` | src/mm/memblock.c:180-252 | yields the first range at or after the cursor that lies in one selected memory region and one reserved gap, or the sentinel when there is none, and leaves a cursor from which exactly the rest follows |
| `FreeRanges.WalkForward` | include/linux_modify/memblock.h:147-160 | the loop macro yields exactly the list of all such ranges |
| `FreeRanges.NextMemRangeRev` | src/mm/memblock.c:271-347 | the same for the walk from the top |
| `FreeRanges.WalkReverse` | include/linux_modify/memblock.h:161-174 | the reverse loop yields the same list in opposite order |
| `Search.WalkCovers` | src/mm/memblock.c:180-252 | an address is in a yielded range exactly when it is in selected memory and not reserved |
| `Search.YieldedPart` | src/mm/memblock.c:180-252 | a yielded range is a part of one selected region and carries its node |
| `Search.WalkOrdered` | src/mm/memblock.c:180-252 | the yielded ranges are in ascending order and disjoint |
| `Search.FitsInRange` | src/mm/memblock.c:399-421 | a block fits in free memory exactly when it fits in one yielded range |
| `Search.FindRangeTopDown` | src/mm/memblock.c:399-421 | returns the greatest aligned address at which the block fits in one free range inside the bounds, and 0 exactly when there is none |
| `Bits.RoundDownIsFloor` | src/mm/memblock.c:405-421 | the mask form of rounding down is the greatest multiple of a power of two that is not above |
| `Bits.MaskIsFloor` | src/mm/memblock.c:405-421 | bitwise and with a low mask is the remainder |
| `Growth.MoveIsGrowth` | src/mm/memblock.c:509-596 | releasing the old array and reserving the new one changes the reserved map only on the two arrays |
| `Growth.RemovedExactly` | src/mm/memblock.c:692-715 | every address of the range is removed, up to the last address, and all others stay |
| `Growth.RegrownTwice` | src/mm/memblock.c:509-596 | growths compose |
| `Growth.RegrownKeeps` | src/mm/memblock.c:509-596 | a reservation apart from the arrays survives growth |
| `Growth.RegrownHoles` | src/mm/memblock.c:817-895 | growth away from a range leaves its holes, so the counting pass agrees with the inserting pass |
| `Memblock.Memblock.FindInRangeNode` | src/mm/memblock.c:438-458 | returns the highest aligned free block of usable memory at or above start and the second page and below end, which for an end of 0 or 1 is the current limit, and 0 exactly when there is none |
| `Memblock.Memblock.FindInRange` | src/mm/memblock.c:473-492 | the highest free block of mirrored memory, or else of all memory, with the same bounds |
| `Placement.EligibleExactly` | src/mm/memblock.c:118-152 | which regions a search may use: of the node asked for, mirrored or scratch memory if asked for, and no memory without a mapping or managed by a driver unless asked for; other tables are never filtered |
| `Placement.OrdinaryMemory` | src/mm/memblock.c:118-152 | an allocation uses exactly the memory that is mapped, not managed by a driver, of its node, and mirrored if that is wanted |
| `Placement.BoundsExactly` | src/mm/memblock.c:443-450 | the bounds that the search is given admit exactly the aligned blocks from start and the second page up to end or the current limit |
| `Placement.BestExactly` | src/mm/memblock.c:438-458 | the search result in terms of free blocks: the highest one, or 0 when there is none |
| `Placement.LandsExactly` | src/mm/memblock.c:543-554 | a grown array goes to the highest free place above the pending range, or else, for a range that is not empty, to the highest one below it |
| `Memblock.ChosenExactly` | src/mm/memblock.c:955-1002 | the searches in their order serve a request with mirrored memory of its node, then of any node, then with memory of its node, then of any node |
| `Memblock.Memblock.FindArray` | src/mm/memblock.c:543-554 | the address for a new array is free memory, and it is apart from the range being added if and only if that range starts above address 1 or something fits above it |
| `GrowthCases.PendingAtZeroOverlaps` | src/mm/memblock.c:444-449 | a state with a full reserved table in which a range pending at address 0 is overlapped by the new array |
| `GrowthCases.ArraysMeet` | src/mm/memblock.c:509-596 | a state with both tables full and both arrays reserved in which the new reserved array is put over the new memory array, so that its entries from number 170 on are lost |
| `Worlds.Scene.LandsOnce` | src/mm/memblock.c:547-553 | the place of a new array is determined by the two tables, the limit and the pending range |
| `Worlds.World.SparesExactly` | src/mm/memblock.c:574-591 | releasing the old memory array keeps clear of the new one exactly when the place of the nested reserved array, found before the call, is apart from it |
| `Worlds.ReserveNeeds` | src/mm/memblock.c:574-591 | after the release the new array, which no nested growth has met, takes one slot |
| `Memblock.Memblock.DoubleReserved` | src/mm/memblock.c:509-596 | doubling the reserved array: the place is the one the search finds, and when the old array is reserved, the reserved map changes only on the two arrays; NoMemory and TooLarge change nothing; Clobbered comes only when that place meets an array in use |
| `Memblock.Memblock.DoubleMemory` | src/mm/memblock.c:509-596 | doubling the memory array: the memory map stays, both arrays are reserved afterwards and all other reservations are as before; the outcome Clobbered, in which the entries are lost, comes only when the nested search lands in the new array, and success only when it does not; NoMemory changes nothing, and a failed BUG_ON comes only with a full reserved table |
| `Memblock.Memblock.SwapArrays` | src/mm/memblock.c:577-595 | release and reservation of the moved array, with the exact condition under which a nested growth runs into it, and a failed BUG_ON only when the reserved table was full |
| `Memblock.Memblock.ReleaseArray` | src/mm/memblock.c:580-583 | the release alone, a static array being none, with the nested growth it may need |
| `Memblock.Memblock.MakeReservedRoom` | src/mm/memblock.c:885-889 | the growth loop on the reserved table ends with room, and everything reserved outside the arrays stays reserved |
| `Memblock.Memblock.MakeMemoryRoom` | src/mm/memblock.c:885-889 | the growth loop on the memory table, doubling by doubling: it ends with room exactly when it succeeds, keeps the memory map, and each doubling is one of DoubleMemory |
| `Worlds.DoublingsValid` | src/mm/memblock.c:885-889 | over any number of doublings: when both arrays are reserved at the start they are so all along, every doubling that went through was clear of the nested growth, and the one that was overwritten was not |
| `Worlds.FourSlots` | src/mm/memblock.c:885-889 | with four free reserved slots an addition to the memory table never loses its entries and never stops, however often the array doubles |
| `Memblock.Memblock.CountReserved` | src/mm/memblock.c:817-890 | on the reserved table: nothing to insert is found exactly, and after the growth there is room for the inserting pass when the range is apart from the array |
| `Memblock.Memblock.CountMemory` | src/mm/memblock.c:817-890 | on the memory table: nothing to insert is found exactly, and the growth is the chain of doublings to the counted size |
| `Memblock.Memblock.InsertRange` | src/mm/memblock.c:805-894 | insertion gives the canonical union, or stops exactly when it does not fit |
| `Memblock.Memblock.AddReserved` | src/mm/memblock.c:792-896 | memblock_add_range on the reserved table: canonical union with the table that growth left, no capacity overrun, arrays that were reserved stay reserved, and with both arrays reserved nothing is overwritten |
| `Memblock.Memblock.AddMemory` | src/mm/memblock.c:792-896 | memblock_add_range on the memory table: canonical union or, without memory, the old map, after exactly the doublings that the counted size needs; the cases in which the entries are lost are those of the last doubling |
| `Memblock.Memblock.RemoveRange` | src/mm/memblock.c:692-723 | memblock_remove_range on the reserved table: restriction of the map, with the growth that precedes it described exactly |
| `Memblock.Memblock.Attempt` | src/mm/memblock.c:955-990 | one search and reservation: the block was free, is outside the array, and only it becomes reserved |
| `Memblock.Memblock.AllocRangeNid` | src/mm/memblock.c:955-1002 | a block is free, usable memory inside the bounds and is recorded for the node it was found for, both arrays stay reserved and nothing is overwritten; with a free slot it is the highest block of the first preference that has one (mirrored before other memory, the node before any node), and 0 is returned exactly when none has one; with a full table 0 also comes when the table cannot grow, and whenever 0 comes nothing has changed |
| `MemblockRuns.AllocKeepsSafe` | src/mm/memblock.c:955-1002 | reserving a free block keeps all live blocks and standing reservations reserved and pairwise disjoint |
| `MemblockRuns.FreeKeepsSafe` | src/mm/memblock.c:715-723 | releasing one live block keeps the others |
| `MemblockRuns.GrowthKeepsSafe` | src/mm/memblock.c:509-596 | growth alone keeps all of them |
| `MemblockRuns.Allocate` | src/mm/memblock.c:955-1002 | one allocation keeps the safety invariant; a found block is free memory inside the bounds of the request, the preferred one when a slot is free, and is added to the live list; otherwise the list is unchanged |
| `MemblockRuns.Release` | src/mm/memblock.c:715-723 | one free of a live block keeps the invariant, succeeds whenever two slots are free, and takes exactly that block off the live list; a failed free leaves it live |
| `MemblockRuns.Run` | src/mm/memblock.c:715-1002 | every sequence of allocations and frees: each state follows from the one before by the step of its request, the live list is the one that the requests and their outcomes determine, and at the end, so after every prefix, all live blocks are aligned, inside memory, reserved, pairwise disjoint and disjoint from standing reservations and from the arrays |
| `MemblockRuns.TraceLive` | src/mm/memblock.c:715-1002 | in a run the live list is the fold of the outcomes over the requests |
| `MemblockRuns.UndoAlloc` | src/mm/memblock.c:692-896 | on tables, removing a block that was added to free space is the identity |
| `MemblockRuns.AllocateThenRelease` | src/mm/memblock.c:715-1002 | the allocation returns the block that the fallback order chooses; with three free slots, freeing it succeeds and restores the reserved array exactly |
| `FdtTokens.OffsetPtrIsInBlock` | lib/libfdt/fdt.c:132-152 | the 32-bit bounds test of fdt_offset_ptr accepts exactly the offsets inside the structure block |
| `FdtTokens.StreamSplit` | lib/libfdt/fdt.c:154-207 | every token boundary splits a structure block into two |
| `FdtTokens.StreamSplice` | lib/libfdt/fdt_rw.c:84-96 | replacing whole tokens by whole tokens gives a block of the new token sequence |
| `FdtTokens.NextTagReads` | lib/libfdt/fdt.c:154-207 | at a boundary fdt_next_tag returns the tag of that token and the offset of the next |
| `FdtTokens.NextTagAdvances` | lib/libfdt/fdt.c:154-207 | on any bytes a successful fdt_next_tag moves forward, except exactly at a property of length 2^32 - 12 |
| `FdtTokens.NextTagStuck` | lib/libfdt/fdt.c:184-185 | a block on which fdt_next_tag returns the offset it was given |
| `FdtTree.ParseFlatten` | lib/libfdt/fdt_ro.c:859-937 | parsing the items of a flattened tree gives the tree |
| `FdtTree.FlattenParse` | lib/libfdt/fdt_ro.c:859-937 | what parses is the flattening of the result |
| `FdtTree.ParseExact` | lib/libfdt/fdt_ro.c:859-937 | a sequence of items stands for a tree exactly when it is its flattening |
| `FdtTree.ReadStream` | lib/libfdt/fdt_ro.c:34-98 | walking a block with fdt_next_tag and looking up the names reads exactly its items |
| `FdtTree.DecodeStream` | lib/libfdt/fdt_ro.c:859-937 | a block of the tokens of a flattened tree decodes to that tree |
| `FdtBuffer.FindString` | lib/libfdt/fdt.c:295-305 | returns the first occurrence of the terminated string, or -1 exactly when there is none |
| `FdtBuffer.WriteToken` | lib/libfdt/fdt_sw.c:221-337 | writes the fields of one token, tag first, with the literal bytes of each tag, and nothing else; the padding may hold anything |
| `FdtSamples.BigEndian` | lib/libfdt/fdt.c:165-165 | words and reservation entries are stored with the most significant byte first, on literal bytes |
| `FdtSamples.EmptyTree` | lib/libfdt/fdt.c:154-207 | the 16 literal bytes of a lone root are stepped over tag by tag and decode to that tree |
| `FdtSamples.SmallTree` | lib/libfdt/fdt.c:154-207 | literal bytes with a padded property, a NOP and a child decode to that tree |
| `FdtSamples.BadBlocks` | lib/libfdt/fdt.c:154-207 | literal blocks that cannot be read, with the error of each, and names without an end |
| `FdtSamples.SmallestBlob` | lib/libfdt/fdt.c:80-132 | a literal blob of 72 bytes passes the header check, ends its reservations and decodes to a lone root |
| `FdtSamples.KnownNames` | lib/libfdt/fdt_overlay.c:160-166 | the names that the code looks for, letter by letter |
| `FdtSamples.PhandleWords` | lib/libfdt/fdt_ro.c:506-521 | the number of a node is the big-endian word of a four-byte phandle property, else of linux,phandle, else 0 |
| `FdtSamples.SmallPath` | lib/libfdt/fdt_ro.c:253-293 | a literal path with empty parts and the parts it goes by |
| `FdtSamples.SmallNames` | lib/libfdt/fdt_ro.c:540-590 | the paths written for literal names, and a name with and without unit address |
| `FdtWriter.Writer.Create` | lib/libfdt/fdt_sw.c:112-144 | error cases exactly, and an empty blob in the reservation state |
| `FdtWriter.Writer.ProbesExactly` | lib/libfdt/fdt_sw.c:13-84 | which calls are allowed when: reservations before the structure, nothing on a finished blob, nothing on other magic numbers |
| `FdtWriter.Writer.AddReservemapEntry` | lib/libfdt/fdt_sw.c:190-208 | appends one entry; wrong state and lack of room are reported and change nothing |
| `FdtWriter.Writer.FinishReservemap` | lib/libfdt/fdt_sw.c:210-219 | terminates the table and enters the structure state |
| `FdtWriter.Writer.BeginNode` | lib/libfdt/fdt_sw.c:221-236 | appends the opening of a node exactly when the state allows it and it fits |
| `FdtWriter.Writer.CloseNode` | lib/libfdt/fdt_sw.c:238-250 | appends the close of a node exactly when the state allows it and it fits |
| `FdtWriter.Writer.AddString` | lib/libfdt/fdt_sw.c:252-267 | the string table grows downwards by one string; the outcome Overrun is exactly the case in which the 32-bit subtraction of the room test wraps |
| `FdtCheck.OverrunReached` | lib/libfdt/fdt_sw.c:252-337 | a correct sequence of calls on any buffer that ends in that outcome |
| `FdtWriter.Writer.FindAddString` | lib/libfdt/fdt_sw.c:278-293 | an old occurrence is shared, also as the end of a longer string |
| `FdtWriter.Writer.AddProperty` | lib/libfdt/fdt_sw.c:295-337 | appends the property exactly when name and value fit; when only the name fits, the name is taken back and the blob is as before |
| `FdtWriter.FixedNamed` | lib/libfdt/fdt_sw.c:361-374 | adding the table size to every name offset makes each name resolve to the string it stood for |
| `FdtWriter.Writer.Relocate` | lib/libfdt/fdt_sw.c:361-374 | the walk over the block, which rewrites it while reading it, relocates every property and leaves all else |
| `FdtWriter.Writer.Finish` | lib/libfdt/fdt_sw.c:339-386 | joins structure and strings; succeeds exactly when the end tag fits; the finished blob holds the same items and reservations |
| `FdtCheck.NumMemRsv` | lib/libfdt/fdt_ro.c:189-199 | counts the entries before the terminator, or fails exactly when the table runs out of the blob |
| `FdtCheck.TreeNested` | lib/libfdt/fdt_ro.c:893-925 | the nesting test accepts the items of a tree exactly when the root has an empty name |
| `FdtCheck.HeaderExactly` | lib/libfdt/fdt.c:45-132 | which headers pass, which fail for their magic and which for their version, for all versions and without the wrapping sums |
| `FdtCheck.EntryExactly` | lib/libfdt/fdt_ro.c:158-188 | a reservation entry is two 64-bit words and is there exactly when it ends at or before the end of the blob |
| `FdtCheck.NestedExactly` | lib/libfdt/fdt_ro.c:893-925 | what the walk accepts, by counting: nothing is closed that is not open, all is closed at the end, the outermost name is empty, and nothing follows |
| `FdtCheck.HeaderInBuffer` | lib/libfdt/fdt.c:82-130 | from version 17 on, a header that passes fdt_check_header places both blocks inside the blob |
| `FdtCheck.CheckFull` | lib/libfdt/fdt_ro.c:859-937 | accepts exactly the blobs with a good header, a terminated reservation table, and a structure block that reads as one nested tree with resolvable names; where the code would step wrongly over a property of length 2^32 - 12 or more, the blob is none of these |
| `FdtCheck.OversizedSteps` | lib/libfdt/fdt.c:180-187 | a block of 24 bytes on which fdt_next_tag steps into the middle of such a property |
| `FdtCheck.WriteTree` | lib/libfdt/fdt_sw.c:97-386 | writing any tree through the whole interface ends in a finished blob of exactly that tree, and succeeds whenever the buffer holds the header, the reservations and the tree |
| `FdtCheck.RoundTrip` | lib/libfdt/fdt_sw.c:339-386 | a blob written from a tree has the header fields of version 17, its blocks one behind the other, decodes to the tree and its reservations, passes the header check, and reads as a nested tree if and only if the root name is empty |
| `FdtCheck.WriteAndCheck` | lib/libfdt/fdt_ro.c:859-937 | for every tree, flags and reservations: fdt_check_full accepts the written blob if and only if the root name is empty |
| `FdtEdit.FlattenReplace` | lib/libfdt/fdt_rw.c:84-96 | replacing a subtree replaces its items and none around them |
| `FdtEdit.FlattenRemove` | lib/libfdt/fdt_rw.c:380-392 | removing a subtree removes its items and none around them |
| `FdtEdit.SetThenGet` | lib/libfdt/fdt_rw.c:277-290 | setting a property sets that one and leaves every other of the node |
| `FdtEdit.OpensSome` | lib/libfdt/fdt.c:209-216 | every opening token of a blob is the start of a node of its tree |
| `FdtEdit.SetAttrTree` | lib/libfdt/fdt_rw.c:259-290 | among any NOPs, the item edit of fdt_setprop changes one property of one node of the tree |
| `FdtEdit.EraseAttrTree` | lib/libfdt/fdt_wip.c:59-72 | erasing a property by a splice or by NOPs gives the same tree: that node without its first property of that name |
| `FdtEdit.EraseNodeTree` | lib/libfdt/fdt_wip.c:84-94 | erasing a node by a splice or by NOPs gives the same tree: the tree without that subtree |
| `FdtEditor.DecodeItems` | lib/libfdt/fdt_ro.c:859-937 | a blob decodes to a tree exactly when its items without NOPs are those of the tree |
| `FdtEditor.Editor.Splice` | lib/libfdt/fdt_rw.c:56-69 | moves the data behind the splice point; a point beyond the data and lack of space are reported exactly then and change nothing |
| `FdtEditor.Editor.SpliceStruct` | lib/libfdt/fdt_rw.c:84-96 | the structure block changes length and the strings move with it, or nothing changes |
| `FdtEditor.Editor.FindAddString` | lib/libfdt/fdt_rw.c:128-154 | finds or appends the name; old names keep their offsets |
| `FdtEditor.Editor.CheckNodeOffset` | lib/libfdt/fdt.c:209-216 | on every offset: accepts exactly the aligned words that hold the tag of a node, and on token boundaries these are the nodes |
| `FdtEditor.Editor.InsideValue` | lib/libfdt/fdt.c:209-216 | a property value that holds such a word has an accepted offset that names no node |
| `FdtEditor.Editor.Patch` | lib/libfdt/fdt_wip.c:13-32 | overwriting part of a property value changes those bytes of that value and no other token |
| `FdtEditor.Editor.GetProperty` | lib/libfdt/fdt_ro.c:392-425 | finds the first property of that name of that node, passing over NOPs, with each error case |
| `FdtEditor.Editor.NextNode` | lib/libfdt/fdt.c:227-265 | from every offset, a negative one standing for the place before the first node: comes to the next opening token, tracking depth, or past the close of the start node; BADOFFSET exactly when a non-negative offset names no node |
| `FdtEditor.Editor.NodeEnd` | lib/libfdt/fdt_wip.c:74-82 | returns the offset behind the matching close, in spite of nested nodes; a negative argument is returned as it is |
| `FdtEditor.Editor.NopRegion` | lib/libfdt/fdt_wip.c:51-57 | fills the region, rounded up to words, with NOP tokens |
| `FdtEditor.Editor.SetProp` | lib/libfdt/fdt_rw.c:185-290 | succeeds exactly when the grown blob fits; then the items are the edited items; on every error structure, strings and header are as before, also when the name had already been appended |
| `FdtEditor.Editor.DelProp` | lib/libfdt/fdt_rw.c:319-332 | cuts out the property, with each error case |
| `FdtEditor.Editor.NopProperty` | lib/libfdt/fdt_wip.c:59-72 | overwrites the property with NOPs, with each error case |
| `FdtEditor.Editor.DelNode` | lib/libfdt/fdt_rw.c:380-392 | cuts out the node with its subtree, with each error case, the negative argument among them |
| `FdtEditor.Editor.NopNode` | lib/libfdt/fdt_wip.c:84-94 | overwrites the node with its subtree with NOPs, with each error case, the negative argument among them |
| `FdtSubnodes.NameEqExactly` | lib/libfdt/fdt_ro.c:13-33 | a name selects a node called so, and, if it has no unit address, a node called so with any unit address, and no other |
| `FdtEditor.Editor.SubnodeAt` | lib/libfdt/fdt_ro.c:225-250 | on the tree, the first child with that name or with that name and a unit address, and NOTFOUND exactly when there is none |
| `FdtEditor.Editor.SubnodeOffset` | lib/libfdt/fdt_ro.c:225-250 | finds the first child whose name matches, a missing unit address matching any; a negative argument is returned as it is |
| `FdtEditor.Editor.NextSubnode` | lib/libfdt/fdt.c:267-293 | first child and next sibling; a negative offset starts before the first node, so that its first subnode is the root |
| `FdtEditor.Editor.AddSubnode` | lib/libfdt/fdt_rw.c:334-378 | exists, no space and success exactly; the new node goes behind the properties of its parent, and its offset is returned; the offset -1, and no other that names no node, passes for a node without that child, and the splice goes astray |
| `FdtEditor.Editor.SetPropAt` | lib/libfdt/fdt_rw.c:259-290 | at the level of bytes and trees: the decoded tree changes in one property of one node, or not at all |
| `FdtEditor.Editor.ErasePropAt` | lib/libfdt/fdt_rw.c:319-332 | the decoded tree loses the property of that node, whichever way it is erased, and nothing else |
| `FdtEditor.Editor.EraseNodeAt` | lib/libfdt/fdt_rw.c:380-392 | the decoded tree loses that subtree, whichever way it is erased, and nothing else |
| `FdtEditor.Editor.AddSubnodeAt` | lib/libfdt/fdt_rw.c:334-378 | the decoded tree gets an empty first child there, and the offset of the parent stays right |
| `FdtPack.PackBlocks` | lib/libfdt/fdt_rw.c:394-414 | three downward moves in one buffer deliver all three blocks unharmed |
| `FdtPack.Pack` | lib/libfdt/fdt_rw.c:480-492 | counts the reservations, keeps them, the structure and the strings, and the blob ends where its data ends |
| `FdtSubnodes.SubOpens` | lib/libfdt/fdt_ro.c:225-250 | on trees, the search for a child gives the first child that fits, and its address |
| `FdtSubnodes.NextOpens` | lib/libfdt/fdt.c:278-293 | on trees, the next sibling of child i is child i + 1 |
| `FdtSubnodes.AddSubTree` | lib/libfdt/fdt_rw.c:334-378 | inserting the node puts an empty node before the other children and moves no node that starts earlier |
| `FdtMerge.MergeGet` | lib/libfdt/fdt_overlay.c:557-606 | in the merge, overlay properties win and all others keep their values |
| `FdtMerge.MergeExtends` | lib/libfdt/fdt_overlay.c:557-606 | the merge loses no node and no property name of the base, at any depth, and keeps the order of the children |
| `FdtMerge.MergedAt` | lib/libfdt/fdt_overlay.c:557-606 | every node of the base, at any depth, is afterwards the merge of itself with exactly the overlay nodes that reach it |
| `FdtMerge.MergedValue` | lib/libfdt/fdt_overlay.c:557-606 | at any depth each value is the last one that such an overlay node gives, or the old one, and a node that none reaches is unchanged |
| `FdtOverlay.ApplyProps` | lib/libfdt/fdt_overlay.c:563-580 | the property loop yields the fold of the overlay properties over the node |
| `FdtOverlay.ApplyNode` | lib/libfdt/fdt_overlay.c:557-606 | a successful overlay_apply_node leaves a base blob that decodes to the recursive merge; the only failure is lack of space, which does not come when the bytes that the overlay node takes at most are free; the offset of the target stays right throughout |
| `RbShape.EraseInorder` | include/linux_modify/rbtree_augmented.h:227-327 | erasing takes exactly one node out of the in-order sequence |
| `RbShape.EraseRb` | include/linux_modify/rbtree_augmented.h:227-327 | from a red-black tree, erasing leaves a red-black tree or one black node missing at one empty place |
| `RbShape.Mend` | include/linux_modify/rbtree_augmented.h:239-241 | any black tree of height one at that place makes it a red-black tree, so nothing else is wrong |
| `RbShape.PlugRb` | include/linux_modify/rbtree_augmented.h:227-327 | the colour rules hold of a tree exactly when they hold of a context and of what fills it |
| `RbLinks.AugIsMax` | include/linux_modify/rbtree_augmented.h:147-164 | locally consistent stored values are the maxima over the subtrees |
| `RbLinks.ComputeMax` | include/linux_modify/rbtree_augmented.h:147-164 | recomputes one stored value and says whether it may stop |
| `RbLinks.Propagate` | include/linux_modify/rbtree_augmented.h:101-110 | although it stops at the first unchanged ancestor, all stored values are right afterwards |
| `RbErase.ChangeChild` | include/linux_modify/rbtree_augmented.h:193-205 | redirects the link from the parent, or from the root |
| `RbErase.FindSuccessor` | include/linux_modify/rbtree_augmented.h:264-300 | comes to the leftmost node of the right subtree and the node it hangs from |
| `RbErase.EraseAugmented` | include/linux_modify/rbtree_augmented.h:227-327 | on linked nodes: child, parent and colour fields are those of the erased tree, the in-order sequence loses the node, the stored maxima are right, and the result is NULL with a red-black tree or the parent of the empty place where one black is missing |
| `RbErase.Locate` | include/linux_modify/rbtree_augmented.h:227-327 | every node of a tree has a context, so the above covers every node |
| `RbInsert.FindPlace` | include/linux_modify/rbtree_augmented.h:67-79 | the search ends at the one empty place that keeps the order, and knows whether it is the leftmost |
| `RbInsert.LinkSorted` | include/linux_modify/rbtree.h:56-63 | linking there keeps the in-order sequence sorted |
| `RbInsert.LinkRb` | include/linux_modify/rbtree.h:56-63 | the new red node breaks the colour rules exactly when there is no black parent above it |
| `RbInsert.Add` | include/linux_modify/rbtree_augmented.h:62-86 | links, order, stored maxima and the cached leftmost node are right before the rebalancing starts |
| `RbInsert.Next` | src/linux_porting/lib/rbtree.c:492-522 | on every node of a tree, returns the next one in the in-order sequence, or null after the last |
| `RbInsert.EraseCached` | include/linux_modify/rbtree_augmented.h:338-345 | the cached leftmost node is the first of the erased tree, and all that EraseAugmented states holds |
| `RbTurn.TurnInorder` | src/linux_porting/lib/rbtree.c:166-181 | a rotation keeps the in-order sequence |
| `RbCells.GoodIs` | src/linux_porting/lib/rbtree.c:73-82 | the fields of a set of nodes, read as a value, describe a tree exactly when links and stored maxima are right |
| `RbCells.RotateGood` | src/linux_porting/lib/rbtree.c:176-181 | the fields after the writes of a rotation describe the rotated tree with its maxima, whichever side, colour and context |
| `RbCells.TwiceGood` | src/linux_porting/lib/rbtree.c:154-181 | the fields after a double rotation, whose middle state is no tree, describe the tree rotated twice |
| `RbBalance.RotateSetParents` | src/linux_porting/lib/rbtree.c:73-82 | parent and colour go over to the new top, and the link from above, or the root, follows |
| `RbBalance.AugmentRotate` | include/linux_modify/rbtree_augmented.h:118-125 | the rotate callback: the maximum goes over, and that of the lowered node is computed again |
| `RbBalance.Rotate` | src/linux_porting/lib/rbtree.c:176-181 | on linked nodes: from a tree with right maxima to the rotated tree with right maxima, with the same nodes in the same order |
| `RbBalance.RotateTwice` | src/linux_porting/lib/rbtree.c:154-181 | the same for the double rotation |
| `RbFix.InsertColor` | src/linux_porting/lib/rbtree.c:84-220 | __rb_insert: from a tree whose only fault may be a red node under a red node or at the root, to a red-black tree with the same nodes in the same order and right maxima, in all cases and on both sides |
| `RbFix.EraseColor` | src/linux_porting/lib/rbtree.c:226-407 | ____rb_erase_color: from a tree in which one black node is missing at one empty place, to a red-black tree with the same nodes in the same order and right maxima, in all cases and on both sides |
| `RbInsert.Insert` | include/linux_modify/rbtree_augmented.h:62-86 | rb_add_augmented_cached as a whole: from a sorted red-black tree to a sorted red-black tree with exactly one more node, behind all nodes that are not greater, right maxima and the right cached node |
| `RbInsert.Erase` | include/linux_modify/rbtree_augmented.h:329-345 | rb_erase_augmented_cached as a whole: from a red-black tree to a red-black tree without exactly that node, with right maxima and the right cached node |
| `RbShape.RbExactly` | src/linux_porting/lib/rbtree.c:15-25 | the colour rules are those of the definition: the root is black, no red node has a red child, and all ways to a leaf have as many black nodes |
| `RbShape.RbDepth` | src/linux_porting/lib/rbtree.c:25-29 | the depth of a red-black tree is at most twice the logarithm of the number of its nodes plus one |
| `UserCopy.CopyPages` | src/mm/uaccess.c:72-92 | whole pages and the tail are copied up to the first page that faults |
| `UserCopy.ArchCopyFromUser` | src/mm/uaccess.c:49-93 | the result is the number of bytes from the first faulting page on, all before it are copied, the rest of the buffer is untouched, and the translated pages are exactly those up to the first fault |
| `UserCopy.MaskClears` | include/linux_modify/uaccess.h:36-48 | the mask clears bit 55 and nothing else |
| `UserCopy.MaskIsIdentity` | include/linux_modify/uaccess.h:36-48 | a range that passes the bounds test ends at or below 2^48, and there the mask changes nothing |
| `UserCopy.CopyFromUser` | include/linux_modify/uaccess.h:70-86 | a range that passes 2^48 is refused before any page is looked at, and no page at or above 2^48 ever is; otherwise the copy ends at the first byte that is not present; the bytes that were not copied are zero |
| `FdtPhandles.TroubleFirst` | lib/libfdt/fdt_overlay.c:116-178 | the error that is reported is the first: phandle before linux,phandle, and a node before its children in order |
| `FdtPhandles.TroubleFree` | lib/libfdt/fdt_overlay.c:116-178 | the walk over an overlay succeeds exactly when every phandle of every node is one cell and can be shifted |
| `FdtPhandles.NoPhandlesExactly` | lib/libfdt/fdt_overlay.c:127-135 | with one-cell phandles the error NOPHANDLES comes exactly when some sum wraps or reaches 2^32 - 1 |
| `FdtPhandles.ShiftedPhandle` | lib/libfdt/fdt_overlay.c:156-178 | node by node: a number moves by delta, and a node without one still has none |
| `FdtPhandles.ReferenceKept` | lib/libfdt/fdt_overlay.c:156-178 | a number and the same number plus delta name the same nodes before and after |
| `FdtPhandles.AboveBase` | lib/libfdt/fdt_overlay.c:837-843 | an overlay number of at least 1 ends up above every number of the base |
| `FdtPhandles.ClashExactly` | lib/libfdt/fdt_overlay.c:837-843 | overlay and base share a number afterwards exactly when the base has numbers and some overlay node carries the number 0 |
| `FdtFixups.FixTreePlan` | lib/libfdt/fdt_overlay.c:220-343 | unless the fixup node lists itself, the walk succeeds exactly when every entry fits its property and every fixup node has its node, and then carries out the listed edits in order |
| `FixupCases.ListsMove` | lib/libfdt/fdt_overlay.c:220-309 | an overlay that lists itself, in which every entry fits and the walk fails |
| `FdtFixups.PlanExactly` | lib/libfdt/fdt_overlay.c:220-343 | the cells that are changed are exactly those that the lists name, where each fixup node stands for the first child that answers to its name |
| `FdtFixups.FitMeans` | lib/libfdt/fdt_overlay.c:220-307 | when all fits, every list consists of whole cells and every listed cell lies in a value of its node |
| `FdtFixups.CellExactly` | lib/libfdt/fdt_wip.c:26-29 | a write of a cell is inside the value, or passes the 32-bit test and goes astray, or is refused |
| `FdtFixups.ApplyAllGet` | lib/libfdt/fdt_overlay.c:243-291 | each property value is changed by the entries that list it and by nothing else |
| `FdtFixups.AddAllWord` | lib/libfdt/fdt_overlay.c:256-285 | a cell that no other entry overlaps moves by delta for each time it is listed, modulo 2^32 |
| `FdtFixups.NoNumbersInPlan` | lib/libfdt/fdt_overlay.c:220-343 | when the renumbered overlay has moved and every entry fits, no entry lists a phandle: its list would have been shifted as well, to an offset outside the cell |
| `FdtFixups.LocalReferenceKept` | lib/libfdt/fdt_overlay.c:841-847 | after both steps, when the lists do not list themselves, a reference listed once has moved by delta and names the nodes it named |
| `FdtRenumber.FindMaxPhandle` | lib/libfdt/fdt_ro.c:114-140 | the largest fdt_get_phandle over all nodes, in the blob and in the tree it stands for |
| `FdtRenumber.GetPhandle` | lib/libfdt/fdt_ro.c:506-521 | phandle first, linux,phandle when that is missing or no cell, else 0 |
| `FdtRenumber.SetCell` | lib/libfdt/fdt_wip.c:13-32 | writes one cell into a value in place; the bounds test is exact, except that for the last four 32-bit offsets it passes and the write goes astray |
| `FdtRenumber.AddOffset` | lib/libfdt/fdt_overlay.c:116-139 | each error case, and otherwise the property is the old number plus delta |
| `FdtRenumber.AdjustNode` | lib/libfdt/fdt_overlay.c:156-178 | in place, with no offset moved: the first error in the order of the walk, or the whole subtree shifted |
| `FdtRenumber.AdjustLocalPhandles` | lib/libfdt/fdt_overlay.c:193-199 | the same from the root |
| `FdtRenumber.FixOne` | lib/libfdt/fdt_overlay.c:256-290 | one entry: the cell is read inside its value, and written, exactly when the entry fits; otherwise an error, or Stray where the program writes outside the value |
| `FdtRenumber.FixNodeAt` | lib/libfdt/fdt_overlay.c:220-309 | in all cases, also when the lists list themselves, the blob holds the tree that the reference walk gives, with its error |
| `FdtRenumber.UpdateLocalReferences` | lib/libfdt/fdt_overlay.c:325-343 | the same from the root, with nothing to do when there is no fixup node |
| `FdtRenumber.RenumberedReference` | lib/libfdt/fdt_overlay.c:837-847 | after both steps a reference that was listed once has moved with the numbers it names |
| `FdtRenumber.RenumberedApart` | lib/libfdt/fdt_overlay.c:837-847 | after both steps, when the lists do not list themselves, overlay and base share a number exactly when the base has numbers and some overlay node carries the number 0 |
| `FdtRenumber.ZeroCollides` | lib/libfdt/fdt_overlay.c:137-138 | a base and an overlay of one node each that collide |
| `FdtRenumber.Renumber` | lib/libfdt/fdt_overlay.c:829-847 | fdt_overlay_apply up to the local references: the blob holds the renumbered tree, or the first error is returned |
| `FdtPath.GetPath` | lib/libfdt/fdt_ro.c:540-590 | writes the names on the way to the node, joined by slashes, exactly when they fit the buffer |
| `FdtPath.PathOffset` | lib/libfdt/fdt_ro.c:273-293 | a path from the root leads part by part to the first child with that name or with that name and a unit address, and NOTFOUND comes exactly when no node is reached so |
| `FdtPath.ResolveLeads` | lib/libfdt/fdt_ro.c:253-293 | following the parts is going at each part to the first child that answers to it |
| `FdtPath.PartsSplit` | lib/libfdt/fdt_ro.c:253-293 | slashes separate the parts of a path, and empty parts are passed over |
| `FdtPath.PathRoundTrip` | lib/libfdt/fdt_ro.c:540-590 | resolving the path of a node gives the node if and only if every name on the way selects it |
| `FdtPath.GetThenFind` | lib/libfdt/fdt_ro.c:540-590 | in the blob, the path is written and leads back to the offset it was written for if and only if it fits the buffer and every name on the way selects its node |
| `ProcPackage.AlignedUp` | app/tools/proc_pack.py:132-134 | for a power of two the mask expression gives the least multiple that is not below |
| `ProcPackage.BuildMeta` | app/tools/proc_pack.py:466-530 | gives the metadata of an image exactly when all its fields fit their widths |
| `ProcPackage.MetaRoundTrip` | include/process.h:65-80 | reading the metadata by the struct layout gives back name, arguments, environment, auxiliary vector and stack size |
| `ProcPackage.LayoutPackage` | app/tools/proc_pack.py:533-551 | payloads and metadata lie one behind the other at aligned offsets behind the descriptors, each at the first one possible, and the total is aligned |
| `ProcPackage.TightUnique` | app/tools/proc_pack.py:533-551 | such a layout is unique |
| `ProcPackage.WritePackage` | app/tools/proc_pack.py:554-607 | writes the file exactly when header and descriptors fit their widths; its length is the total, and every block stands at its offset |
| `ProcPackage.Package` | app/tools/proc_pack.py:152-164 | a package results exactly when all metadata, the header and the descriptors fit; its layout is the tight one, and reading it by the struct layouts gives back every image |
| `ProcLoader.LittleEndian` | app/tools/proc_pack.py:76-126 | fields are stored with the least significant byte first, on literal bytes |
| `ProcLoader.PackedHead` | include/process.h:66-80 | the head of the metadata as the kernel reads it, word by word: the counts, the size of the string table, which is the rest of the metadata, and where the parts stand |
| `ProcLoader.CheckStringRef` | src/schedule/process.c:689-710 | accepts exactly the offsets whose string ends inside the table |
| `ProcLoader.CheckImageMeta` | src/schedule/process.c:712-810 | accepts exactly metadata with counts in their limits, arrays and string table inside, every string ending inside the table, and a stack size in pages |
| `ProcLoader.AcceptedSafe` | src/schedule/process.c:712-861 | of whatever bytes are accepted as metadata, all counts are in their limits, every string that is read ends inside the string table, and the auxiliary vector is aligned and inside |
| `ProcLoader.CheckedStart` | src/schedule/process.c:390-394 | a package that is accepted starts with the magic bytes and a version that is not 0 |
| `ProcLoader.LoadUserMeta` | src/schedule/process.c:812-861 | takes over name, arguments, environment, auxiliary vector and stack size of the metadata that pass, and of no other |
| `ProcLoader.MetaPasses` | src/schedule/process.c:712-810 | the kernel accepts what the packer writes for an image if and only if it has at most 128 arguments, variables and auxiliary entries and a stack size in pages |
| `ProcLoader.MetaLoads` | src/schedule/process.c:812-861 | what the kernel takes over is what was packed, with a name of more than 127 bytes cut off |
| `ProcLoader.PackedHeader` | src/schedule/process.c:381-422 | the header of a package as the kernel reads it, word by word |
| `ProcLoader.PackedDesc` | include/process.h:52-64 | each descriptor of a package as the kernel reads it, word by word |
| `ProcLoader.CheckedInside` | src/schedule/process.c:381-482 | in a package whose header passes all descriptors lie inside, and so do the payload and the metadata of a descriptor that passes |
| `ProcLoader.HeaderPasses` | src/schedule/process.c:381-422 | the header of a package passes if and only if it holds an image and reaches to the page behind its descriptors; with page alignment it does unless it is empty |
| `ProcLoader.DescPasses` | src/schedule/process.c:427-482 | a descriptor passes if and only if payload and metadata keep their limits, the type is known, and both stand at pages behind the descriptors; with page alignment they do |
| `ProcLoader.LoadOneImage` | src/schedule/process.c:863-910 | registers an image exactly when its descriptor, its payload and its metadata pass and it is an ELF image |
| `ProcLoader.LoadProcesses` | src/schedule/process.c:912-945 | registers the images that pass, in order, up to the limit of 128 |
| `ProcLoader.LoadPackage` | src/schedule/process.c:912-945 | a package of the packer with page alignment is refused only if it is empty, and the first 128 of its bootable images become processes exactly as they were packed |

## Left out

- DoubleMemory: does not describe the tables when the status is Clobbered or Bug, since the program then works on overwritten entries or has stopped, and not the reserved table when it is TooLarge; Bug is tied to a full reserved table, not to the search that fails.
- DoubleReserved: does not describe the tables when the status is Clobbered.
- AddMemory: likewise for Clobbered, Bug and TooLarge.
- AddReserved: likewise for Clobbered and Bug; Bug is excluded when the range is apart from the old array and starts above address 1, which is where the counting pass is exact.
- CountReserved: promises room for the inserting pass under the same condition.
- AllocRangeNid: with a full reserved table it does not say which of the free blocks is taken, since a failed growth goes on to the next search; sizes of 0 and alignments that are not powers of two are outside its precondition.
- Release: with fewer than two free slots it says of a failed free only that the table cannot grow.
- Run: stops at a request for which an array would pass 2^30 regions; the state before it is then cramped, that is, its array cannot be doubled any more.
- FindRangeTopDown: only the top-down search; the bottom-up search, which is off by default, is not modelled.
- Arrays longer than 2^30 regions: the C indices are ints, so the model stops there with the status TooLarge.
- memblock flags other than those the iterator tests, and the NUMA setters, would only add easy members.
- The header bytes of a blob are kept as fields, not as bytes; the probe functions of the editor are preconditions on the layout.
- FirstHeader: the version fields beyond those that later checks read are not modelled.
- CheckFull: versions below 17 and a total size of exactly INT_MAX are outside its precondition; for the latter the probe in `fdt_get_name` fails and the program dereferences its null result. It does not tell the error codes of malformed structure blocks apart, and a property of length 2^32 - 12 or more is its own outcome.
- fdt_open_into, fdt_resize, fdt_appendprop, fdt_set_name and the editing of memory reservations would repeat the splice arguments.
- FdtEditor.Editor.GetProperty: offsets inside a token are outside its precondition; `CheckNodeOffset` says which of them pass the first test, and what is read there is then no token.
- FdtEditor.Editor.NodeEnd: likewise for offsets inside a token.
- FdtEditor.Editor.SetProp: likewise for offsets inside a token; values longer than INT_MAX - 15 are outside its precondition, because their padded length is not an int.
- FdtEditor.Editor.DelProp: likewise for offsets inside a token.
- FdtEditor.Editor.NopProperty: likewise for offsets inside a token.
- FdtEditor.Editor.DelNode: likewise for offsets inside a token.
- FdtEditor.Editor.NopNode: likewise for offsets inside a token; erasing the root is covered on items only, since no tree is left.
- FdtEditor.Editor.SubnodeOffset: likewise for offsets inside a token.
- FdtEditor.Editor.NextSubnode: likewise for offsets inside a token.
- FdtEditor.Editor.AddSubnode: likewise for offsets inside a token; with the outcome Stray it does not describe the blob.
- FdtEditor.Editor.NextNode: likewise for offsets inside a token; the form without a depth is in `FdtRenumber.NextAnyNode`.
- FdtEditor.Editor.SpliceStruct: points of the data outside the structure block are outside its precondition, since the header would be wrong afterwards.
- FdtPath.PathOffset: aliases, which a path that does not start with a slash names, are not modelled.
- FdtPath.GetPath: a blob that starts with a NOP, a root with a name and node names with a slash are outside its precondition.
- FdtPack.Pack: a reservation table that runs into the structure block is outside its precondition.
- FdtRenumber.AdjustNode: on an error it says that the blob still holds a tree of the same shape, and not which numbers have been shifted.
- FdtFixups.FixTreePlan: its condition, that the lists do not list themselves, is sufficient and not exact; a listed list entry that has been read already, or that moves to the same effect, does no harm. What the walk does in all cases is `FixNodeAt`.
- Phandle lookup by `fdt_node_offset_by_phandle`, the fixups by symbol, the choice of targets and the symbol update of an overlay, and the string-list helpers of fdt_ro.c are not modelled.
- RbInsert.Insert: compares nodes by an integer key where the source calls a function, and the stored value is a maximum of integers.
- RbInsert.Add: ends with the linking; `RbInsert.Insert` adds the rebalancing.
- RbInsert.EraseCached: ends before the rebalancing, which `RbInsert.Erase` adds.
- RbInsert.Next: the test for a node that is in no tree is left out.
- rb_prev, rb_first, rb_last, rb_replace_node and the postorder walk would only add easy members.
- ArchCopyFromUser: address translation is a partial map of pages that does not change during the copy; `check_copy_size` is left out.
- Circular lists, fixmap, early_ioremap, and address translation over bus ranges are not modelled.
- ProcLoader.LoadOneImage: whether load_user_elf takes a payload is a parameter; the ELF loader is not modelled.
- ProcLoader.DescPasses: the macro ALIGN is not part of this source; its result is taken to have the 32 bits of its argument, as in Linux.
- FdtOverlay.ApplyNode: lack of space is excluded by an upper bound of what the overlay node takes, not by the exact number, which depends on names that the base already has.
- ProcPackage.Package: reading the configuration, detecting image types and printing the summary are not modelled; strings are given as bytes.
- Drivers, scheduling, printk, page-table walkers and the boot sequence are not modelled.
