/**
 Checking a complete blob: fdt_check_header, the memory reservation block and
 fdt_check_full, and the round trip from the sequential writer back to the tree.
 */
module FdtCheck {
  import opened Basics
  import opened FdtTokens
  import opened FdtTree
  import opened FdtBuffer
  import opened FdtWriter

  datatype Blob = Blob(magic: nat, version: nat, lastCompVersion: nat, totalSize: nat, offMemRsvmap: nat,
                       offStruct: nat, offStrings: nat, sizeStruct: nat, sizeStrings: nat, buf: Bytes)

  const FDT_V1_SIZE: nat := 28
  const FDT_V2_SIZE: nat := 32
  const FDT_V3_SIZE: nat := 36
  const FDT_V16_SIZE: nat := 36
  const FDT_V17_SIZE: nat := 40

  /**
   Oversized is not an error code: the walk stands at a property of length 2^32 - 12 or more.  There
   the code stays where it is (2^32 - 12) or goes on inside the property (above).
   */
  datatype Verdict = Good | BadMagicV | BadVersion | Truncated | BadStructureV | BadLayout | BadOffset | Oversized

  /** check_off_ and check_block_, in 32-bit arithmetic. */
  predicate CheckOff(hdrsize: nat, totalsize: nat, off: nat) { hdrsize <= off <= totalsize }

  predicate CheckBlock(hdrsize: nat, totalsize: nat, base: nat, size: nat) {
    CheckOff(hdrsize, totalsize, base) && base <= (base + size) % WORD
        && CheckOff(hdrsize, totalsize, (base + size) % WORD)
  }

  /** fdt_header_size_. */
  function HeaderSize(version: nat): nat {
    if version <= 1 then FDT_V1_SIZE else if version <= 2 then FDT_V2_SIZE else if version <= 3 then FDT_V3_SIZE
    else if version <= 16 then FDT_V16_SIZE else FDT_V17_SIZE
  }

  /** fdt_check_header. */
  function CheckHeader(f: Blob): Verdict {
    var hdrsize := HeaderSize(f.version);
    if f.magic != FDT_MAGIC then BadMagicV
    else if f.version < FDT_FIRST_SUPPORTED_VERSION || f.lastCompVersion > FDT_LAST_SUPPORTED_VERSION then BadVersion
    else if f.version < f.lastCompVersion then BadVersion
    else if f.totalSize < hdrsize || f.totalSize > INT_MAX then Truncated
    else if !CheckOff(hdrsize, f.totalSize, f.offMemRsvmap) then Truncated
    else if f.version < 17 && !CheckOff(hdrsize, f.totalSize, f.offStruct) then Truncated
    else if f.version >= 17 && !CheckBlock(hdrsize, f.totalSize, f.offStruct, f.sizeStruct) then Truncated
    else if !CheckBlock(hdrsize, f.totalSize, f.offStrings, f.sizeStrings) then Truncated
    else Good
  }

  /** The header fields at their offsets in the blob. */
  function ReadHeader(b: Bytes): Blob
    requires FDT_V17_SIZE <= |b|
  {
    Blob(U32(b, 0), U32(b, 20), U32(b, 24), U32(b, 4), U32(b, 16), U32(b, 8), U32(b, 12), U32(b, 36), U32(b, 32), b)
  }

  /** The blocks lie in the buffer. */
  predicate InBuffer(f: Blob) {
    && f.totalSize <= |f.buf| && f.totalSize <= INT_MAX
    && f.offStruct + f.sizeStruct <= f.totalSize && f.offStrings + f.sizeStrings <= f.totalSize
  }

  function StructOf(f: Blob): (b: Bytes)
    requires InBuffer(f)
    ensures |b| <= INT_MAX
  {
    f.buf[f.offStruct..f.offStruct + f.sizeStruct]
  }

  function StringsOf(f: Blob): Bytes
    requires InBuffer(f)
  {
    f.buf[f.offStrings..f.offStrings + f.sizeStrings]
  }

  /** From version 17 on, a header that passes places all blocks inside the blob. */
  lemma {:induction false} HeaderInBuffer(f: Blob)
    requires CheckHeader(f) == Good && f.version >= 17 && f.totalSize <= |f.buf| && f.sizeStruct < WORD
    requires f.sizeStrings < WORD
    ensures InBuffer(f)
  {
    NoWrap(f.offStruct, f.sizeStruct);
    NoWrap(f.offStrings, f.sizeStrings);
  }

  lemma {:induction false} NoWrap(base: nat, size: nat)
    requires base <= INT_MAX && size < WORD && base <= (base + size) % WORD
    ensures (base + size) % WORD == base + size
  {
    var w := (base + size) % WORD;
    assert w == base + size || w == base + size - WORD;
  }

  /** Which headers pass, without the wrapping sums: every block that is checked lies between header and end. */
  lemma {:induction false} HeaderExactly(f: Blob)
    requires f.sizeStruct < 0x1_0000_0000 && f.sizeStrings < 0x1_0000_0000
    ensures CheckHeader(f) == BadMagicV <==> f.magic != 0xD00D_FEED
    ensures CheckHeader(f) == BadVersion <==>
            f.magic == 0xD00D_FEED && (f.version < 2 || 17 < f.lastCompVersion || f.version < f.lastCompVersion)
    ensures CheckHeader(f) == Good <==>
            && f.magic == 0xD00D_FEED && 2 <= f.version && f.lastCompVersion <= 17 && f.lastCompVersion <= f.version
            && var h := if f.version == 2 then 32 else if f.version <= 16 then 36 else 40;
               && h <= f.totalSize < 0x8000_0000 && h <= f.offMemRsvmap <= f.totalSize
               && h <= f.offStruct && f.offStruct + (if f.version < 17 then 0 else f.sizeStruct) <= f.totalSize
               && h <= f.offStrings && f.offStrings + f.sizeStrings <= f.totalSize
    ensures CheckHeader(f) in {Good, BadMagicV, BadVersion, Truncated}
  {
    BlockExactly(HeaderSize(f.version), f.totalSize, f.offStruct, f.sizeStruct);
    BlockExactly(HeaderSize(f.version), f.totalSize, f.offStrings, f.sizeStrings);
  }

  lemma {:induction false} BlockExactly(h: nat, total: nat, base: nat, size: nat)
    requires size < WORD
    ensures total <= INT_MAX ==> (CheckBlock(h, total, base, size) <==> h <= base && base + size <= total)
  {
    if total <= INT_MAX && base <= total {
      var w := (base + size) % WORD;
      assert w == base + size || w == base + size - WORD;
    }
  }

  // ----- Memory reservations -----

  function U64(b: Bytes, o: nat): nat
    requires o + 8 <= |b|
  {
    U32(b, o) * WORD + U32(b, o + 4)
  }

  /** Entry i lies inside the blob. */
  predicate HasEntry(f: Blob, i: nat) {
    f.offMemRsvmap + ENTRY * (i + 1) <= f.totalSize <= |f.buf|
  }

  function EntryAt(f: Blob, i: nat): Reserve
    requires HasEntry(f, i)
  {
    Reserve(U64(f.buf, f.offMemRsvmap + ENTRY * i), U64(f.buf, f.offMemRsvmap + ENTRY * i + 8))
  }

  predicate LiveEntry(f: Blob, i: nat) { HasEntry(f, i) && EntryAt(f, i).size != 0 }

  /** Entry i is the two 64-bit words at its place, and is there if it ends at or before the end of the blob. */
  lemma {:induction false} EntryExactly(f: Blob, i: nat)
    requires f.totalSize <= |f.buf|
    ensures HasEntry(f, i) <==> f.offMemRsvmap + 16 * i + 16 <= f.totalSize
    ensures HasEntry(f, i) ==>
              var o := f.offMemRsvmap + 16 * i;
              && EntryAt(f, i).address == U32(f.buf, o) * 0x1_0000_0000 + U32(f.buf, o + 4)
              && EntryAt(f, i).size == U32(f.buf, o + 8) * 0x1_0000_0000 + U32(f.buf, o + 12)
  {
  }

  /** fdt_num_mem_rsv: the number of entries before the first of size 0, or -1. */
  method NumMemRsv(f: Blob) returns (n: int)
    requires ENTRY <= f.totalSize <= |f.buf|
    ensures -1 <= n
    ensures n >= 0 ==> HasEntry(f, n) && EntryAt(f, n).size == 0 && forall i: nat | i < n :: LiveEntry(f, i)
    ensures n == -1 ==> forall i: nat | HasEntry(f, i) :: LiveEntry(f, i)
  {
    n := 0;
    while f.offMemRsvmap + ENTRY * n <= f.totalSize - ENTRY
      invariant 0 <= n && forall i: nat | i < n :: LiveEntry(f, i)
      decreases f.totalSize - ENTRY * n
    {
      if EntryAt(f, n).size == 0 { return; }
      n := n + 1;
    }
    n := -1;
  }

  lemma {:induction false} EntryRead(b: Bytes, o: nat, r: Reserve)
    requires r.Ok() && o + ENTRY <= |b| && b[o..o + ENTRY] == Entry(r)
    ensures U64(b, o) == r.address && U64(b, o + 8) == r.size
  {
    var c := b[o..o + ENTRY];
    assert c[0..4] == BE32(r.address / WORD) && c[4..8] == BE32(r.address % WORD);
    assert c[8..12] == BE32(r.size / WORD) && c[12..16] == BE32(r.size % WORD);
    SliceAt(b, o, ENTRY, 0, 4);
    SliceAt(b, o, ENTRY, 4, 8);
    SliceAt(b, o, ENTRY, 8, 12);
    SliceAt(b, o, ENTRY, 12, 16);
    WordRoundTrip(b, o, r.address / WORD);
    WordRoundTrip(b, o + 4, r.address % WORD);
    WordRoundTrip(b, o + 8, r.size / WORD);
    WordRoundTrip(b, o + 12, r.size % WORD);
  }

  lemma {:induction false} TableEntry(b: Bytes, rs: seq<Reserve>, i: nat)
    requires ReserveTable(b, rs) && i < |rs|
    ensures ENTRY * (i + 1) <= |b| && rs[i].Ok() && b[ENTRY * i..ENTRY * (i + 1)] == Entry(rs[i])
  {
    if i > 0 {
      TableEntry(b[ENTRY..], rs[1..], i - 1);
      assert b[ENTRY..][ENTRY * (i - 1)..ENTRY * i] == b[ENTRY * i..ENTRY * (i + 1)];
    }
  }

  // ----- fdt_check_full -----

  /**
   The items of one well-nested tree: the root has an empty name and nothing follows it.
   Like the code, this leaves open what precedes the root and where properties stand.
   */
  predicate Nested(items: seq<Item>, depth: nat, closed: bool) {
    if items == [] then depth == 0
    else if closed then false
    else
      match items[0]
      case Open(name) => (depth == 0 ==> name == []) && Nested(items[1..], depth + 1, false)
      case Close => depth > 0 && Nested(items[1..], depth - 1, depth == 1)
      case _ => Nested(items[1..], depth, false)
  }

  /** How many nodes are open after s. */
  function Level(s: seq<Item>): int {
    if s == [] then 0
    else
      var last := s[|s| - 1];
      Level(s[..|s| - 1]) + if last.Open? then 1 else if last.Close? then -1 else 0
  }

  /** One of the items of s is a close. */
  ghost predicate HasClose(s: seq<Item>) {
    exists i :: 0 <= i < |s| && s[i].Close?
  }

  /**
   What fdt_check_full accepts, by counting: no node is closed that is not open, all are closed at the
   end, the outermost node has an empty name, and nothing comes after it has been closed.
   */
  ghost predicate OneTree(s: seq<Item>) {
    && Level(s) == 0
    && (forall k | 0 <= k <= |s| :: 0 <= Level(s[..k]))
    && (forall k | 0 <= k < |s| :: Level(s[..k]) == 0 ==> !HasClose(s[..k]) && (s[k].Open? ==> s[k].name == []))
  }

  lemma {:induction false} LevelStep(s: seq<Item>, k: nat)
    requires k < |s|
    ensures Level(s[..k + 1]) == Level(s[..k]) + if s[k].Open? then 1 else if s[k].Close? then -1 else 0
    ensures HasClose(s[..k + 1]) <==> HasClose(s[..k]) || s[k].Close?
  {
    assert s[..k + 1][..k] == s[..k];
    if HasClose(s[..k]) {
      var i :| 0 <= i < k && s[i].Close?;
      assert s[..k + 1][i].Close?;
    }
    if s[k].Close? { assert s[..k + 1][k].Close?; }
    if HasClose(s[..k + 1]) && !s[k].Close? {
      var i :| 0 <= i < k + 1 && s[..k + 1][i].Close?;
      assert s[..k][i].Close?;
    }
  }

  /** The part of OneTree that is about the items from k on. */
  ghost predicate OneTreeFrom(s: seq<Item>, k: nat)
    requires k <= |s|
  {
    && Level(s) == 0
    && (forall j | k <= j <= |s| :: 0 <= Level(s[..j]))
    && (forall j | k <= j < |s| :: Level(s[..j]) == 0 ==> !HasClose(s[..j]) && (s[j].Open? ==> s[j].name == []))
  }

  lemma {:induction false} NestedFrom(s: seq<Item>, k: nat)
    requires k <= |s| && 0 <= Level(s[..k])
    ensures Nested(s[k..], Level(s[..k]), Level(s[..k]) == 0 && HasClose(s[..k])) <==> OneTreeFrom(s, k)
    decreases |s| - k
  {
    hide Level, HasClose;
    if k == |s| {
      assert s[..k] == s && s[k..] == [];
    } else {
      LevelStep(s, k);
      assert s[k..][0] == s[k] && s[k..][1..] == s[k + 1..];
      if 0 <= Level(s[..k + 1]) { NestedFrom(s, k + 1); }
    }
  }

  lemma {:induction false} NestedExactly(s: seq<Item>)
    ensures Nested(s, 0, false) <==> OneTree(s)
  {
    assert s[..0] == [] && s[0..] == s;
    NestedFrom(s, 0);
  }

  /** The word at o is a property tag with a length of 2^32 - 12 or more. */
  predicate OversizedAt(b: Bytes, o: nat) {
    o + 8 <= |b| && U32(b, o) == FDT_PROP && U32(b, o + 4) >= WORD - 12
  }

  /** No token can be read there. */
  lemma {:induction false} OversizedNone(b: Bytes, o: nat)
    requires |b| <= INT_MAX && o % 4 == 0 && OversizedAt(b, o)
    ensures TokenOf(b, o).None?
  {
  }

  lemma {:induction false} OversizedTags(b: Bytes)
    requires |b| == 24 && U32(b, 0) == FDT_BEGIN_NODE && b[4] == 0 && U32(b, 8) == FDT_PROP && U32(b, 12) == WORD - 4
    requires U32(b, 16) == FDT_END_NODE && U32(b, 20) == FDT_END
    ensures NextTag(b, 0) == Next(FDT_BEGIN_NODE, 8) && NextTag(b, 8) == Next(FDT_PROP, 16)
    ensures NextTag(b, 16) == Next(FDT_END_NODE, 20) && NextTag(b, 20) == Next(FDT_END, 24)
  {
    hide U32, Nul;
    NulIs(b, 4, 4);
  }

  /**
   A block that is not one tree, since its property claims 2^32 - 4 bytes, but on which fdt_next_tag goes
   from tag to tag to the end: it takes the name offset, 2, for the end of the node.
   */
  lemma {:induction false} OversizedSteps()
    ensures var b := BE32(FDT_BEGIN_NODE) + BE32(0) + BE32(FDT_PROP) + BE32(WORD - 4) + BE32(FDT_END_NODE)
            + BE32(FDT_END);
            && NextTag(b, 0) == Next(FDT_BEGIN_NODE, 8) && NextTag(b, 8) == Next(FDT_PROP, 16)
            && NextTag(b, 16) == Next(FDT_END_NODE, 20) && NextTag(b, 20) == Next(FDT_END, 24)
            && TokenOf(b, 8).None?
  {
    hide NextTag, TokenOf, U32;
    var b := BE32(FDT_BEGIN_NODE) + BE32(0) + BE32(FDT_PROP) + BE32(WORD - 4) + BE32(FDT_END_NODE) + BE32(FDT_END);
    assert b == [0, 0, 0, 1, 0, 0, 0, 0, 0, 0, 0, 3, 255, 255, 255, 252, 0, 0, 0, 2, 0, 0, 0, 9];
    WordRoundTrip(b, 0, FDT_BEGIN_NODE);
    WordRoundTrip(b, 8, FDT_PROP);
    WordRoundTrip(b, 12, WORD - 4);
    WordRoundTrip(b, 16, FDT_END_NODE);
    WordRoundTrip(b, 20, FDT_END);
    OversizedTags(b);
    OversizedNone(b, 8);
  }

  /** A flattened tree inside an open node. */
  lemma {:induction false} NestedNode(n: Node, r: seq<Item>, depth: nat)
    requires depth == 0 ==> n.name == []
    ensures Nested(Flatten(n) + r, depth, false) == Nested(r, depth, depth == 0)
    decreases n, 1
  {
    var s := Flatten(n) + r;
    var body := Attrs(n.props) + (FlattenAll(n.children) + ([Close] + r));
    assert s[1..] == body;
    NestedAttrs(n.props, FlattenAll(n.children) + ([Close] + r), depth + 1);
    NestedAll(n.children, [Close] + r, depth + 1);
    assert ([Close] + r)[1..] == r;
  }

  lemma {:induction false} NestedAttrs(ps: seq<Property>, r: seq<Item>, depth: nat)
    ensures Nested(Attrs(ps) + r, depth, false) == Nested(r, depth, false)
  {
    if ps == [] {
      assert Attrs(ps) + r == r;
    } else {
      NestedAttrs(ps[1..], r, depth);
      assert (Attrs(ps) + r)[1..] == Attrs(ps[1..]) + r;
    }
  }

  lemma {:induction false} NestedAll(ns: seq<Node>, r: seq<Item>, depth: nat)
    requires 0 < depth
    ensures Nested(FlattenAll(ns) + r, depth, false) == Nested(r, depth, false)
    decreases ns, 0
  {
    if ns == [] {
      assert FlattenAll(ns) + r == r;
    } else {
      var rest := FlattenAll(ns[1..]) + r;
      assert FlattenAll(ns) + r == Flatten(ns[0]) + rest;
      NestedNode(ns[0], rest, depth);
      NestedAll(ns[1..], r, depth);
    }
  }

  /** fdt_check_full accepts the items of every tree whose root has an empty name, and of no other tree. */
  lemma {:induction false} TreeNested(n: Node)
    ensures Nested(Flatten(n), 0, false) <==> n.name == []
  {
    if n.name == [] {
      NestedNode(n, [], 0);
      assert Flatten(n) + [] == Flatten(n);
    }
  }

  /** From offset o on, the block reads as the rest of one well-nested tree. */
  predicate Reads(b: Bytes, strings: Bytes, o: nat, depth: nat, closed: bool)
    requires |b| <= INT_MAX && o % 4 == 0
  {
    var r := ReadItems(b, strings, o);
    r.Some? && Nested(r.value, depth, closed)
  }

  /** Away from oversized properties, fdt_next_tag succeeds exactly where there is a token. */
  lemma {:induction false} NextToken(b: Bytes, o: nat)
    requires |b| <= INT_MAX && o % 4 == 0 && !OversizedAt(b, o)
    ensures TokenOf(b, o).Some? <==> NextTag(b, o).offset >= 0
    ensures TokenOf(b, o).Some? ==> TokenOf(b, o).value.Tag() == NextTag(b, o).tag
    ensures NextTag(b, o).offset >= 0 ==> o < NextTag(b, o).offset && NextTag(b, o).offset % 4 == 0
  {
    hide U32, Nul;
    if InBlock(|b|, o, 8) && U32(b, o) == FDT_PROP {
      var len := U32(b, o + 4);
      assert (o + 12 + len) % WORD == if o + 12 + len < WORD then o + 12 + len else o + 12 + len - WORD;
    }
  }

  lemma {:induction false} ReadsNone(b: Bytes, strings: Bytes, o: nat, depth: nat, closed: bool)
    requires |b| <= INT_MAX && o % 4 == 0 && TokenOf(b, o).None?
    ensures !Reads(b, strings, o, depth, closed)
  {
  }

  lemma {:induction false} ReadsEnd(b: Bytes, strings: Bytes, o: nat, depth: nat, closed: bool)
    requires |b| <= INT_MAX && o % 4 == 0 && TokenOf(b, o) == Some(End)
    ensures Reads(b, strings, o, depth, closed) <==> depth == 0
  {
    ReadEnd(b, strings, o);
  }

  lemma {:induction false} ReadsStep(b: Bytes, strings: Bytes, o: nat, t: Token, depth: nat, closed: bool)
    requires |b| <= INT_MAX && o % 4 == 0 && TokenOf(b, o) == Some(t) && !t.End?
    requires o < NextTag(b, o).offset && NextTag(b, o).offset % 4 == 0
    ensures var i := ItemOf(t, strings);
            Reads(b, strings, o, depth, closed) <==>
            && i.Some? && !closed
            && match i.value
               case Open(name) => (depth == 0 ==> name == [])
                   && Reads(b, strings, NextTag(b, o).offset, depth + 1, false)
               case Close => depth > 0 && Reads(b, strings, NextTag(b, o).offset, depth - 1, depth == 1)
               case _ => Reads(b, strings, NextTag(b, o).offset, depth, false)
  {
    hide NextTag, TokenOf, ItemOf;
    var o', i := NextTag(b, o).offset, ItemOf(t, strings);
    if o' > |b| {
      BeyondEnd(b, o');
    } else if i.Some? && ReadItems(b, strings, o').Some? {
      var r := ReadItems(b, strings, o').value;
      ReadStep(b, strings, o, t, i.value, r);
      assert ([i.value] + r)[1..] == r;
    }
  }

  lemma {:induction false} BeyondEnd(b: Bytes, o: nat)
    requires o > |b| && |b| <= INT_MAX
    ensures TokenOf(b, o).None?
  {
  }

  /**
   fdt_check_full on version 17 blobs.  It accepts exactly the blobs whose header and reservations are
   in order and whose structure reads as one well-nested tree, except that it does not stop at
   oversized properties, which no block that reads as a tree contains.
   */
  method CheckFull(f: Blob, bufsize: nat) returns (v: Verdict)
    requires bufsize <= |f.buf| && f.sizeStruct < WORD && f.sizeStrings < WORD && f.version >= 17
    requires f.totalSize != INT_MAX
    ensures v != Oversized ==>
              (v == Good <==>
               && f.totalSize <= bufsize && CheckHeader(f) == Good && InBuffer(f)
               && (exists n: nat :: HasEntry(f, n) && EntryAt(f, n).size == 0)
               && Reads(StructOf(f), StringsOf(f), 0, 0, false))
    ensures v == Oversized ==>
              && CheckHeader(f) == Good && InBuffer(f) && !Reads(StructOf(f), StringsOf(f), 0, 0, false)
              && exists o: nat :: OversizedAt(StructOf(f), o)
  {
    hide Reads, NextTag, TokenOf, ItemOf, LiveEntry;
    if bufsize < FDT_V1_SIZE { return Truncated; }
    if CheckHeader(f) != Good { return CheckHeader(f); }
    if bufsize < f.totalSize { return Truncated; }
    HeaderInBuffer(f);
    var numMemRsv := NumMemRsv(f);
    if numMemRsv < 0 {
      AllLive(f);
      return Truncated;
    }
    var b, strings := StructOf(f), StringsOf(f);
    var offset: nat, depth: nat, expectEnd := 0, 0, false;
    while true
      invariant offset % 4 == 0
      invariant Reads(b, strings, 0, 0, false) <==> Reads(b, strings, offset, depth, expectEnd)
      decreases |b| + 4 - offset
    {
      var n := NextTag(b, offset);
      if OversizedAt(b, offset) {
        OversizedNone(b, offset);
        ReadsNone(b, strings, offset, depth, expectEnd);
        return Oversized;
      }
      NextToken(b, offset);
      if n.offset < 0 {
        ReadsNone(b, strings, offset, depth, expectEnd);
        return if n.offset == TRUNCATED then Truncated else BadStructureV;
      }
      var t := TokenOf(b, offset).value;
      if t.End? {
        ReadsEnd(b, strings, offset, depth, expectEnd);
        return if depth != 0 then BadStructureV else Good;
      }
      ReadsStep(b, strings, offset, t, depth, expectEnd);
      if expectEnd { return BadLayout; }
      var i := ItemOf(t, strings);
      if i.None? { return BadOffset; }
      match i.value {
        case Open(name) =>
          depth := depth + 1;
          if depth == 1 && name != [] { return BadLayout; }
        case Close =>
          if depth == 0 { return BadStructureV; }
          depth := depth - 1;
          expectEnd := depth == 0;
        case _ =>
      }
      AdvanceBound(b, offset);
      offset := n.offset;
    }
  }

  lemma {:induction false} AllLive(f: Blob)
    requires forall i: nat | HasEntry(f, i) :: LiveEntry(f, i)
    ensures !exists n: nat :: HasEntry(f, n) && EntryAt(f, n).size == 0
  {
    forall n: nat | HasEntry(f, n) ensures EntryAt(f, n).size != 0 { assert LiveEntry(f, n); }
  }

  lemma {:induction false} AdvanceBound(b: Bytes, o: nat)
    requires |b| <= INT_MAX && o % 4 == 0 && NextTag(b, o).offset >= 0
    ensures o <= |b| && NextTag(b, o).offset <= |b| + 3
  {
    NextTagAdvances(b, o);
  }

  // ----- The round trip -----

  /** Names are C strings and values have a length that fits an int. */
  predicate Writable(n: Node) {
    && 0 !in n.name
    && (forall i | 0 <= i < |n.props| :: 0 !in n.props[i].name && |n.props[i].value| <= INT_MAX)
    && (forall i | 0 <= i < |n.children| :: Writable(n.children[i]))
  }

  /** Bytes that a property takes at most: its token and its name. */
  function PropNeed(p: Property): nat {
    Prop(0, p.value).Len() + |p.name| + 1
  }

  function PropsNeed(ps: seq<Property>): nat {
    if ps == [] then 0 else PropsNeed(ps[..|ps| - 1]) + PropNeed(ps[|ps| - 1])
  }

  /** Bytes that a node takes at most. */
  function Need(n: Node): nat {
    Begin(n.name).Len() + PropsNeed(n.props) + NodesNeed(n.children) + EndNode.Len()
  }

  function NodesNeed(ns: seq<Node>): nat {
    if ns == [] then 0 else NodesNeed(ns[..|ns| - 1]) + Need(ns[|ns| - 1])
  }

  lemma {:induction false} NeedSnoc(ps: seq<Property>, i: nat)
    requires i < |ps|
    ensures PropsNeed(ps[..i + 1]) == PropsNeed(ps[..i]) + PropNeed(ps[i])
  {
    assert ps[..i + 1][..i] == ps[..i];
  }

  lemma {:induction false} NodesSnoc(ns: seq<Node>, i: nat)
    requires i < |ns|
    ensures NodesNeed(ns[..i + 1]) == NodesNeed(ns[..i]) + Need(ns[i])
  {
    assert ns[..i + 1][..i] == ns[..i];
  }

  lemma {:induction false} NeedGrows(ps: seq<Property>, i: nat)
    requires i <= |ps|
    ensures PropsNeed(ps[..i]) <= PropsNeed(ps)
    decreases |ps| - i
  {
    if i < |ps| {
      NeedSnoc(ps, i);
      NeedGrows(ps, i + 1);
    } else {
      assert ps[..i] == ps;
    }
  }

  lemma {:induction false} NodesGrow(ns: seq<Node>, i: nat)
    requires i <= |ns|
    ensures NodesNeed(ns[..i]) <= NodesNeed(ns)
    decreases |ns| - i
  {
    if i < |ns| {
      NodesSnoc(ns, i);
      NodesGrow(ns, i + 1);
    } else {
      assert ns[..i] == ns;
    }
  }

  lemma {:induction false} NodesNone(ns: seq<Node>)
    ensures NodesNeed(ns[..0]) == 0
  {
  }

  lemma {:induction false} PropsNone(ps: seq<Property>)
    ensures PropsNeed(ps[..0]) == 0
  {
  }

  /** Bytes in use. */
  function Used(w: Writer): nat
    reads w
  {
    w.offStruct + w.sizeStruct + w.sizeStrings
  }

  /** Emit a node with its properties and children. */
  method EmitNode(w: Writer, n: Node) returns (err: Err)
    requires w.InStruct() && Writable(n)
    modifies w`sizeStruct, w`sizeStrings, w`items, w`tokens, w.buf
    ensures err == Ok ==> w.InStruct() && w.items == old(w.items) + Flatten(n)
    ensures err == Ok ==> Used(w) <= old(Used(w)) + Need(n)
    ensures old(Used(w)) + Need(n) <= w.totalSize ==> err == Ok
    decreases n, 2
  {
    hide Writer.InStruct, Flatten, FlattenAll, Attrs, Token.Len, PropsNeed, NodesNeed;
    InStructProbe(w);
    err := w.BeginNode(n.name);
    if err != Ok { return; }
    err := EmitProps(w, n.props);
    if err != Ok { return; }
    err := EmitChildren(w, n.children);
    if err != Ok { return; }
    InStructProbe(w);
    err := w.CloseNode();
    FlattenParts(old(w.items), n);
  }

  method EmitProps(w: Writer, ps: seq<Property>) returns (err: Err)
    requires w.InStruct() && forall i | 0 <= i < |ps| :: 0 !in ps[i].name && |ps[i].value| <= INT_MAX
    modifies w`sizeStruct, w`sizeStrings, w`items, w`tokens, w.buf
    ensures err == Ok ==> w.InStruct() && w.items == old(w.items) + Attrs(ps)
    ensures err == Ok ==> Used(w) <= old(Used(w)) + PropsNeed(ps)
    ensures old(Used(w)) + PropsNeed(ps) <= w.totalSize ==> err == Ok
  {
    hide Writer.InStruct, Writer.Shared, PropNeed, PropsNeed, Writer.Cost;
    PropsNone(ps);
    assert old(w.items) + [] == old(w.items);
    err := Ok;
    for i := 0 to |ps|
      invariant w.InStruct() && err == Ok && Used(w) <= old(Used(w)) + PropsNeed(ps[..i])
      invariant w.items == old(w.items) + Attrs(ps[..i])
    {
      InStructProbe(w);
      NeedSnoc(ps, i);
      NeedGrows(ps, i + 1);
      CostBound(w, ps[i]);
      err := w.AddProperty(ps[i].name, ps[i].value);
      if err != Ok { return; }
      AttrsSnoc(ps, i);
    }
    assert ps[..|ps|] == ps;
  }

  method EmitChildren(w: Writer, ns: seq<Node>) returns (err: Err)
    requires w.InStruct() && forall i | 0 <= i < |ns| :: Writable(ns[i])
    modifies w`sizeStruct, w`sizeStrings, w`items, w`tokens, w.buf
    ensures err == Ok ==> w.InStruct() && w.items == old(w.items) + FlattenAll(ns)
    ensures err == Ok ==> Used(w) <= old(Used(w)) + NodesNeed(ns)
    ensures old(Used(w)) + NodesNeed(ns) <= w.totalSize ==> err == Ok
    decreases ns, 1
  {
    hide Writer.InStruct, Writable, Flatten, Need, NodesNeed;
    NodesNone(ns);
    assert FlattenAll(ns[..0]) == [] && old(w.items) + [] == old(w.items);
    err := Ok;
    for i := 0 to |ns|
      invariant w.InStruct() && err == Ok && Used(w) <= old(Used(w)) + NodesNeed(ns[..i])
      invariant w.items == old(w.items) + FlattenAll(ns[..i])
    {
      NodesSnoc(ns, i);
      NodesGrow(ns, i + 1);
      err := EmitNode(w, ns[i]);
      if err != Ok { return; }
      FlattenSnoc(ns, i);
    }
    assert ns[..|ns|] == ns;
  }

  lemma {:induction false} CostBound(w: Writer, p: Property)
    requires w.InStruct()
    ensures w.Cost(p.name, p.value) <= PropNeed(p) && |p.name| + 1 <= PropNeed(p) && w.sizeStrings <= Used(w)
  {
  }

  lemma {:induction false} FlattenParts(first: seq<Item>, n: Node)
    ensures first + [Open(n.name)] + Attrs(n.props) + FlattenAll(n.children) + [Close] == first + Flatten(n)
  {
    hide Attrs, FlattenAll;
    var a, b, c, d := [Open(n.name)], Attrs(n.props), FlattenAll(n.children), [Close];
    assert first + a + b + c + d == first + (a + b + c + d);
  }

  lemma {:induction false} InStructProbe(w: Writer)
    requires w.InStruct()
    ensures w.ProbeStruct() == Ok
  {
  }

  lemma {:induction false} FlattenSnoc(ns: seq<Node>, i: nat)
    requires i < |ns|
    ensures FlattenAll(ns[..i + 1]) == FlattenAll(ns[..i]) + Flatten(ns[i])
  {
    assert ns[..i + 1] == ns[..i] + [ns[i]];
    FlattenConcat(ns[..i], [ns[i]]);
    assert FlattenAll([ns[i]]) == Flatten(ns[i]) + FlattenAll([]);
  }

  /** Bytes that the whole blob takes at most while it is written. */
  function Room(rs: seq<Reserve>, n: Node): nat {
    HEADER + ENTRY * (|rs| + 1) + Need(n) + End.Len()
  }

  /** Write a whole blob: create, reservations, tree, finish.  It succeeds whenever there is room. */
  method WriteTree(w: Writer, flags: nat, rs: seq<Reserve>, n: Node) returns (err: Err)
    requires w.buf.Length <= INT_MAX && Writable(n) && forall i | 0 <= i < |rs| :: rs[i].Ok()
    modifies w, w.buf
    ensures err == Ok ==> w.Finished() && w.items == Flatten(n) && w.reserves == rs + [Reserve(0, 0)]
    ensures (flags == 0 || flags == FDT_CREATE_FLAG_NO_NAME_DEDUP) && Room(rs, n) <= w.buf.Length ==> err == Ok
  {
    hide Flatten, Need, Draft, Writer.Finished, ReserveTable, Stream;
    err := w.Create(flags);
    if err != Ok { return; }
    err := WriteReserves(w, rs);
    if err != Ok { return; }
    err := EmitNode(w, n);
    if err != Ok { return; }
    assert [] + Flatten(n) == Flatten(n);
    err := w.Finish();
  }

  /** The reservations of a new blob, with the terminator. */
  method WriteReserves(w: Writer, rs: seq<Reserve>) returns (err: Err)
    requires w.InMemRsv() && w.reserves == [] && forall i | 0 <= i < |rs| :: rs[i].Ok()
    modifies w, w.buf
    ensures err == Ok ==>
              && w.InStruct() && w.items == [] && w.reserves == rs + [Reserve(0, 0)]
              && w.totalSize == old(w.totalSize) && Used(w) == HEADER + ENTRY * (|rs| + 1)
    ensures HEADER + ENTRY * (|rs| + 1) <= old(w.totalSize) ==> err == Ok
  {
    hide Draft, ReserveTable, Stream;
    for i := 0 to |rs|
      invariant w.InMemRsv() && w.reserves == rs[..i] && w.totalSize == old(w.totalSize)
    {
      ReservesUsed(w);
      err := w.AddReservemapEntry(rs[i]);
      if err != Ok { return; }
    }
    assert rs[..|rs|] == rs;
    ReservesUsed(w);
    err := w.FinishReservemap();
    if err == Ok { ReservesUsed(w); }
  }

  /**
   A correct sequence of calls that ends in an overrun: the first property of the root has
   a name at least as long as the whole buffer.
   */
  method OverrunReached(size: nat, name: Bytes) returns (err: Err)
    requires HEADER + ENTRY + 8 <= size <= INT_MAX && size <= |name| && 0 !in name
    ensures err == Overrun
  {
    hide Draft, ReserveTable, Stream, OccursAt;
    var buf := new byte[size];
    var w := new Writer(buf);
    err := w.Create(0);
    err := WriteReserves(w, []);
    err := w.BeginNode([]);
    NothingOccurs(w.Strings(), name);
    err := w.AddProperty(name, []);
  }

  lemma {:induction false} NothingOccurs(strings: Bytes, name: Bytes)
    requires |strings| <= |name|
    ensures !Occurs(strings, name)
  {
  }

  lemma {:induction false} ReservesUsed(w: Writer)
    requires w.Writing() && w.items == [] && w.sizeStrings == 0
    ensures Used(w) == HEADER + ENTRY * |w.reserves| && w.sizeStruct == 0
  {
    hide ReserveTable;
    assert w.tokens == [];
  }

  function Result(w: Writer): Blob
    reads w, w.buf
  {
    Blob(w.magic, w.version, w.lastCompVersion, w.totalSize, w.offMemRsvmap,
         w.offStruct, w.offStrings, w.sizeStruct, w.sizeStrings, w.buf[..])
  }

  /**
   The round trip: a finished blob passes the header check, decodes to the tree it was
   written from, gives back every reservation, and satisfies fdt_check_full exactly when
   the root name is empty.
   */
  lemma {:induction false} RoundTrip(w: Writer, rs: seq<Reserve>, n: Node)
    requires w.Finished() && w.items == Flatten(n) && w.reserves == rs + [Reserve(0, 0)]
    ensures var f := Result(w);
            && CheckHeader(f) == Good && InBuffer(f)
            && f.magic == 0xD00D_FEED && f.version == 17 && f.lastCompVersion == 2 && f.offMemRsvmap == 48
            && f.offStruct == 48 + 16 * (|rs| + 1) && f.offStrings == f.offStruct + f.sizeStruct
            && f.totalSize == f.offStrings + f.sizeStrings
            && Decode(StructOf(f), StringsOf(f)) == Some(n)
            && (Reads(StructOf(f), StringsOf(f), 0, 0, false) <==> n.name == [])
            && HasEntry(f, |rs|) && EntryAt(f, |rs|).size == 0
            && forall i: nat | i < |rs| :: HasEntry(f, i) && EntryAt(f, i) == rs[i]
  {
    hide Stream, Named, ReserveTable, Decode, Reads;
    var f := Result(w);
    FinishedHeader(w);
    assert StructOf(f) == w.buf[w.offStruct..w.offStrings] && StringsOf(f) == w.buf[w.offStrings..w.totalSize];
    DecodeStream(StructOf(f), w.tokens, StringsOf(f), n);
    StreamReads(StructOf(f), w.tokens, StringsOf(f), n);
    forall i: nat | i <= |rs| ensures HasEntry(f, i) && EntryAt(f, i) == (rs + [Reserve(0, 0)])[i] {
      FinishedEntry(w, i);
    }
  }

  lemma {:induction false} StreamReads(b: Bytes, ts: seq<Token>, strings: Bytes, n: Node)
    requires Stream(b, ts + [End]) && |b| <= INT_MAX && Named(ts, strings, Flatten(n))
    ensures Reads(b, strings, 0, 0, false) <==> n.name == []
  {
    ReadStream(b, ts, strings, Flatten(n), 0);
    assert Flatten(n)[0..] == Flatten(n);
    TreeNested(n);
  }

  lemma {:induction false} FinishedHeader(w: Writer)
    requires w.Finished()
    ensures CheckHeader(Result(w)) == Good && InBuffer(Result(w))
  {
    hide Stream, Named, ReserveTable;
    assert (w.offStruct + w.sizeStruct) % WORD == w.offStruct + w.sizeStruct;
    assert (w.offStrings + w.sizeStrings) % WORD == w.offStrings + w.sizeStrings;
  }

  lemma {:induction false} FinishedEntry(w: Writer, i: nat)
    requires w.Finished() && i < |w.reserves|
    ensures HasEntry(Result(w), i) && EntryAt(Result(w), i) == w.reserves[i]
  {
    hide Stream, Named, ReserveTable, Entry, U64;
    var table, b, o := w.buf[HEADER..w.offStruct], w.buf[..], HEADER + ENTRY * i;
    TableEntry(table, w.reserves, i);
    assert table == b[HEADER..w.offStruct];
    SliceAt(b, HEADER, w.offStruct - HEADER, ENTRY * i, ENTRY * (i + 1));
    EntryRead(b, o, w.reserves[i]);
  }

  /** What is written is accepted by fdt_check_full exactly when the root name is empty. */
  method WriteAndCheck(w: Writer, flags: nat, rs: seq<Reserve>, n: Node) returns (err: Err, v: Verdict)
    requires w.buf.Length <= INT_MAX && Writable(n) && forall i | 0 <= i < |rs| :: rs[i].Ok()
    modifies w, w.buf
    ensures (flags == 0 || flags == FDT_CREATE_FLAG_NO_NAME_DEDUP) && Room(rs, n) <= w.buf.Length ==> err == Ok
    ensures err == Ok && w.totalSize != INT_MAX ==> (v == Good <==> n.name == [])
    ensures err == Ok ==>
              var f := Result(w); InBuffer(f) && Decode(StructOf(f), StringsOf(f)) == Some(n)
  {
    hide Writer.Finished, Flatten, Reads, Decode, Need, CheckHeader;
    v := Truncated;
    err := WriteTree(w, flags, rs, n);
    if err != Ok { return; }
    RoundTrip(w, rs, n);
    FinishedVersion(w);
    if w.totalSize != INT_MAX { v := CheckFull(Result(w), w.totalSize); }
  }

  lemma {:induction false} FinishedVersion(w: Writer)
    requires w.Finished()
    ensures Result(w).version >= 17 && w.sizeStruct < WORD && w.sizeStrings < WORD && w.totalSize <= w.buf.Length
  {
    hide Stream, Named, ReserveTable;
  }
}
