/**
 The devicetree format on literal bytes, and the names that the code looks for.
 */
module FdtSamples {
  import opened Basics
  import opened FdtTokens
  import opened FdtTree
  import opened FdtEdit
  import opened FdtWriter
  import opened FdtEditor
  import opened FdtSubnodes
  import FdtCheck
  import FdtPath
  import FdtPhandles
  import FdtFixups

  /** Words are stored with the most significant byte first. */
  lemma {:induction false} BigEndian()
    ensures BE32(0x0102_0304) == [1, 2, 3, 4] && U32([1, 2, 3, 4], 0) == 0x0102_0304
    ensures Entry(Reserve(0x0102_0304_0506_0708, 0x1_0000)) == [1, 2, 3, 4, 5, 6, 7, 8, 0, 0, 0, 0, 0, 1, 0, 0]
    ensures FdtCheck.U64([1, 2, 3, 4, 5, 6, 7, 8], 0) == 0x0102_0304_0506_0708
  {
    hide U32;
    var b: Bytes := [1, 2, 3, 4, 5, 6, 7, 8];
    Word([1, 2, 3, 4], 0, [1, 2, 3, 4]);
    Word(b, 0, [1, 2, 3, 4]);
    Word(b, 4, [5, 6, 7, 8]);
    assert BE32(0x0506_0708) == [5, 6, 7, 8];
    assert BE64(0x0102_0304_0506_0708) == b && BE64(0x1_0000) == [0, 0, 0, 0, 0, 1, 0, 0];
  }

  /** The structure block of a tree that is only a root. */
  lemma {:induction false} EmptyTree()
    ensures var b := [0, 0, 0, 1, 0, 0, 0, 0, 0, 0, 0, 2, 0, 0, 0, 9];
            && NextTag(b, 0) == Next(1, 8) && NextTag(b, 8) == Next(2, 12) && NextTag(b, 12) == Next(9, 16)
            && Decode(b, []) == Some(Node([], [], []))
  {
    hide Decode, Stream, Holds, NextTag, Off;
    var b := [0, 0, 0, 1, 0, 0, 0, 0, 0, 0, 0, 2, 0, 0, 0, 9];
    var open, close, end := [0, 0, 0, 1, 0, 0, 0, 0], [0, 0, 0, 2], [0, 0, 0, 9];
    HoldsOpen(open, []);
    HoldsWords();
    StreamOne(open, Begin([]));
    Then(open, [Begin([])], close, EndNode);
    Then(open + close, [Begin([])] + [EndNode], end, End);
    assert b == open + close + end && [Begin([])] + [EndNode] + [End] == [Begin([]), EndNode] + [End];
    assert b[0..8] == open && b[8..12] == close && b[12..16] == end;
    NextTagReads(b, 0, Begin([]));
    NextTagReads(b, 8, EndNode);
    NextTagReads(b, 12, End);
    RootOnly();
    DecodeStream(b, [Begin([]), EndNode], [], Node([], [], []));
  }

  lemma {:induction false} RootOnly()
    ensures Named([Begin([]), EndNode], [], Flatten(Node([], [], [])))
  {
    assert Flatten(Node([], [], [])) == [Open([]), Close];
  }

  /** Blocks that cannot be read: no word left (-8), an unknown tag and a name without an end (-11). */
  lemma {:induction false} BadBlocks()
    ensures NextTag([], 0) == Next(9, -8) && NextTag([0, 0, 0, 1], -4) == Next(9, -8)
    ensures NextTag([0, 0, 0, 7], 0) == Next(9, -11) && NextTag([0, 0, 0, 1, 97, 98, 99, 100], 0) == Next(9, -11)
    ensures NextTag([0, 0, 0, 3, 0, 0, 0, 5, 0, 0, 0, 0, 1, 2, 3, 4], 0) == Next(9, -11)
    ensures GetString([97], 0) == None && GetString([97, 0], 2) == None && GetString([97, 0], 0) == Some([97])
  {
    var p: Bytes := [0, 0, 0, 3, 0, 0, 0, 5, 0, 0, 0, 0, 1, 2, 3, 4];
    Word(p, 0, [0, 0, 0, 3]);
    Word(p, 4, [0, 0, 0, 5]);
    NulIs([97, 0], 0, 1);
    assert [97, 0][0..1] == [97];
    var b: Bytes := [0, 0, 0, 1, 97, 98, 99, 100];
    Word(b, 0, [0, 0, 0, 1]);
    assert forall i | 4 <= i < 8 :: b[i] != 0;
  }

  /** A root with a padded property and a NOP, and a child: "reg" is <21 22 23 24 25>, the child is "cpu@1". */
  lemma {:induction false} SmallTree()
    ensures var b := [0, 0, 0, 1, 0, 0, 0, 0]
                     + [0, 0, 0, 3, 0, 0, 0, 5, 0, 0, 0, 2, 21, 22, 23, 24, 25, 0, 0, 0]
                     + [0, 0, 0, 4]
                     + [0, 0, 0, 1, 99, 112, 117, 64, 49, 0, 0, 0]
                     + [0, 0, 0, 2] + [0, 0, 0, 2] + [0, 0, 0, 9];
            Decode(b, [120, 0, 114, 101, 103, 0]) ==
            Some(Node([], [Property([114, 101, 103], [21, 22, 23, 24, 25])], [Node([99, 112, 117, 64, 49], [], [])]))
  {
    hide Decode, Stream, Holds, Flatten, Strip, Named;
    var prop, child := Prop(2, [21, 22, 23, 24, 25]), Begin([99, 112, 117, 64, 49]);
    var root, reg, nop := [0, 0, 0, 1, 0, 0, 0, 0],
      [0, 0, 0, 3, 0, 0, 0, 5, 0, 0, 0, 2, 21, 22, 23, 24, 25, 0, 0, 0], [0, 0, 0, 4];
    var cpu, close, end := [0, 0, 0, 1, 99, 112, 117, 64, 49, 0, 0, 0], [0, 0, 0, 2], [0, 0, 0, 9];
    HoldsOpen(root, []);
    HoldsReg();
    HoldsOpen(cpu, child.name);
    HoldsWords();
    StreamOne(root, Begin([]));
    Then(root, [Begin([])], reg, prop);
    Then(root + reg, [Begin([])] + [prop], nop, Nop);
    Then(root + reg + nop, [Begin([])] + [prop] + [Nop], cpu, child);
    var b, ts := root + reg + nop + cpu, [Begin([])] + [prop] + [Nop] + [child];
    Then(b, ts, close, EndNode);
    Then(b + close, ts + [EndNode], close, EndNode);
    Then(b + close + close, ts + [EndNode] + [EndNode], end, End);
    assert ts + [EndNode] + [EndNode] == [Begin([]), prop, Nop, child, EndNode, EndNode];
    SmallItems();
    DecodeItems(b + close + close + end, ts + [EndNode] + [EndNode], [120, 0, 114, 101, 103, 0],
                [Open([]), Attr([114, 101, 103], prop.value), Skip, Open(child.name), Close, Close],
                Node([], [Property([114, 101, 103], prop.value)], [Node(child.name, [], [])]));
  }

  /** A token behind a stream. */
  lemma {:induction false} Then(b: Bytes, ts: seq<Token>, c: Bytes, t: Token)
    requires Stream(b, ts) && Holds(c, t)
    ensures Stream(b + c, ts + [t])
  {
    hide Holds, Stream;
    StreamOne(c, t);
    StreamConcat(b, ts, c, [t]);
  }

  lemma {:induction false} HoldsReg()
    ensures Holds([0, 0, 0, 3, 0, 0, 0, 5, 0, 0, 0, 2, 21, 22, 23, 24, 25, 0, 0, 0], Prop(2, [21, 22, 23, 24, 25]))
  {
    var c := [0, 0, 0, 3, 0, 0, 0, 5, 0, 0, 0, 2, 21, 22, 23, 24, 25, 0, 0, 0];
    assert c[12..17] == [21, 22, 23, 24, 25];
  }

  lemma {:induction false} SmallItems()
    ensures var v, name := [21, 22, 23, 24, 25], [99, 112, 117, 64, 49];
            var items := [Open([]), Attr([114, 101, 103], v), Skip, Open(name), Close, Close];
            && Named([Begin([]), Prop(2, v), Nop, Begin(name), EndNode, EndNode], [120, 0, 114, 101, 103, 0], items)
            && Strip(items) == Flatten(Node([], [Property([114, 101, 103], v)], [Node(name, [], [])]))
  {
    hide Strip, Flatten;
    RegIsNamed();
    SmallFlat([114, 101, 103], [21, 22, 23, 24, 25], [99, 112, 117, 64, 49]);
  }

  lemma {:induction false} RegIsNamed()
    ensures GetString([120, 0, 114, 101, 103, 0], 2) == Some([114, 101, 103])
  {
    var strings: Bytes := [120, 0, 114, 101, 103, 0];
    NulIs(strings, 2, 5);
    assert strings[2..5] == [114, 101, 103];
  }

  lemma {:induction false} SmallFlat(reg: Bytes, v: Bytes, name: Bytes)
    ensures var items := [Open([]), Attr(reg, v), Skip, Open(name), Close, Close];
            Strip(items) == Flatten(Node([], [Property(reg, v)], [Node(name, [], [])]))
  {
    hide Strip;
    var cpu := Node(name, [], []);
    assert Flatten(cpu) == [Open(name), Close] && FlattenAll([cpu]) == Flatten(cpu) + FlattenAll([]);
    var root, a, z := Node([], [Property(reg, v)], [cpu]), [Open([]), Attr(reg, v)], [Open(name), Close, Close];
    assert Flatten(root) == a + z;
    StripNothing(root);
    SkipDropped(a, z);
    assert [Open([]), Attr(reg, v), Skip, Open(name), Close, Close] == a + [Skip] + z;
  }

  lemma {:induction false} SkipDropped(a: seq<Item>, z: seq<Item>)
    ensures Strip(a + [Skip] + z) == Strip(a + z)
  {
    StripConcat(a, z);
    StripConcat(a + [Skip], z);
    StripConcat(a, [Skip]);
    StripFirst([Skip]);
  }

  /** The header of the smallest blob, of 72 bytes, as dtc writes it. */
  predicate SmallestHeader(b: Bytes)
    requires |b| == 72
  {
    && b[0..4] == [208, 13, 254, 237] && b[4..8] == [0, 0, 0, 72] && b[8..12] == [0, 0, 0, 56]
    && b[12..16] == [0, 0, 0, 72] && b[16..20] == [0, 0, 0, 40] && b[20..24] == [0, 0, 0, 17]
    && b[24..28] == [0, 0, 0, 16] && b[28..32] == [0, 0, 0, 0] && b[32..36] == [0, 0, 0, 0]
    && b[36..40] == [0, 0, 0, 16]
  }

  /** The smallest blob: header, one terminating reservation, a root and no strings. */
  lemma {:induction false} SmallestBlob(b: Bytes)
    requires |b| == 72 && SmallestHeader(b) && (forall i | 40 <= i < 56 :: b[i] == 0)
    requires b[56..72] == [0, 0, 0, 1, 0, 0, 0, 0, 0, 0, 0, 2, 0, 0, 0, 9]
    ensures var f := FdtCheck.ReadHeader(b);
            && FdtCheck.CheckHeader(f) == FdtCheck.Good && FdtCheck.InBuffer(f)
            && FdtCheck.HasEntry(f, 0) && FdtCheck.EntryAt(f, 0) == Reserve(0, 0)
            && Decode(FdtCheck.StructOf(f), FdtCheck.StringsOf(f)) == Some(Node([], [], []))
  {
    hide Decode, U32, SmallestHeader, FdtCheck.ReadHeader;
    HeaderWords(b);
    ZeroWord(b, 40);
    ZeroWord(b, 44);
    ZeroWord(b, 48);
    ZeroWord(b, 52);
    EmptyTree();
    assert b[72..72] == [];
  }

  lemma {:induction false} HeaderWords(b: Bytes)
    requires |b| == 72 && SmallestHeader(b)
    ensures FdtCheck.ReadHeader(b) == FdtCheck.Blob(0xD00D_FEED, 17, 16, 72, 40, 56, 72, 16, 0, b)
  {
    hide U32;
    Word(b, 0, [208, 13, 254, 237]);
    Word(b, 4, [0, 0, 0, 72]);
    Word(b, 8, [0, 0, 0, 56]);
    Word(b, 12, [0, 0, 0, 72]);
    Word(b, 16, [0, 0, 0, 40]);
    Word(b, 20, [0, 0, 0, 17]);
    Word(b, 24, [0, 0, 0, 16]);
    Word(b, 32, [0, 0, 0, 0]);
    Word(b, 36, [0, 0, 0, 16]);
  }

  lemma {:induction false} Word(b: Bytes, o: nat, c: Bytes)
    requires |c| == 4 && o + 4 <= |b| && b[o..o + 4] == c
    ensures U32(b, o) == (c[0] as int) * 0x100_0000 + (c[1] as int) * 0x1_0000 + (c[2] as int) * 256 + (c[3] as int)
  {
    assert b[o] == c[0] && b[o + 1] == c[1] && b[o + 2] == c[2] && b[o + 3] == c[3];
  }

  lemma {:induction false} ZeroWord(b: Bytes, o: nat)
    requires o + 4 <= |b| && forall i | o <= i < o + 4 :: b[i] == 0
    ensures U32(b, o) == 0
  {
  }

  /** "/soc//uart@9" goes by "soc" and "uart@9". */
  lemma {:induction false} SmallPath()
    ensures FdtPath.Parts([47, 115, 111, 99, 47, 47, 117, 97, 114, 116, 64, 57]) ==
            [[115, 111, 99], [117, 97, 114, 116, 64, 57]]
  {
    hide FdtPath.Parts;
    var soc: Bytes, uart: Bytes := [115, 111, 99], [117, 97, 114, 116, 64, 57];
    ThreeSlashes(soc, uart);
    assert [47] + soc + [47, 47] + uart == [47, 115, 111, 99, 47, 47, 117, 97, 114, 116, 64, 57];
  }

  lemma {:induction false} ThreeSlashes(a: Bytes, b: Bytes)
    requires a != [] && b != [] && 47 !in a && 47 !in b
    ensures FdtPath.Parts([47] + a + [47, 47] + b) == [a, b]
  {
    hide FdtPath.Parts;
    var rest := [] + [47] + b;
    FdtPath.PartsSplit([], a + [47] + rest);
    FdtPath.PartsSplit(a, rest);
    FdtPath.PartsSplit([], b);
    FdtPath.PartsSplit(b, []);
    assert [] + [47] + (a + [47] + rest) == [47] + a + [47, 47] + b;
  }

  /** The path of a node behind "soc" and "u@9", the path of the root, and what answers to "soc". */
  lemma {:induction false} SmallNames()
    ensures FdtPath.PathString([[], [115, 111, 99], [117, 64, 57]]) == [47, 115, 111, 99, 47, 117, 64, 57]
    ensures FdtPath.PathString([[]]) == [47]
    ensures Answers([115, 111, 99, 64, 52], [115, 111, 99]) && !Answers([115, 111, 99], [115, 111, 99, 64, 52])
  {
    var soc: Bytes := [115, 111, 99];
    assert [115, 111, 99, 64, 52] == soc + [64] + [52];
    SmallJoined(soc, [117, 64, 57]);
  }

  lemma {:induction false} SmallJoined(a: Bytes, b: Bytes)
    ensures FdtPath.Joined([[], a, b]) == [47] + a + [47] + b + [47] && FdtPath.Joined([[]]) == [47]
  {
    hide FdtPath.Joined;
    var none: Bytes := [];
    FdtPath.JoinedConcat([none], [a]);
    FdtPath.JoinedConcat([none] + [a], [b]);
    JoinedOne(none);
    JoinedOne(a);
    JoinedOne(b);
    assert [none] + [a] + [b] == [[], a, b];
  }

  lemma {:induction false} JoinedOne(a: Bytes)
    ensures FdtPath.Joined([a]) == a + [47]
  {
    assert [a][1..] == [];
  }

  /** The bytes spell the text. */
  predicate Spells(b: Bytes, text: string) {
    |b| == |text| && forall i | 0 <= i < |b| :: b[i] as char == text[i]
  }

  /** The names that the code looks for. */
  lemma {:induction false} KnownNames()
    ensures Spells(FdtPhandles.PHANDLE, "phandle") && Spells(FdtPhandles.LINUX_PHANDLE, "linux,phandle")
    ensures Spells(FdtFixups.LOCAL_FIXUPS, "__local_fixups__")
  {
  }

  /** The number of a node is the word of "phandle" if that has four bytes, else of "linux,phandle", else 0. */
  lemma {:induction false} PhandleWords(n: Node, name: Bytes, linux: Bytes)
    requires Spells(name, "phandle") && Spells(linux, "linux,phandle")
    ensures var v, w := GetProp(n, name), GetProp(n, linux);
            FdtPhandles.PhandleOf(n) ==
            if v.Some? && |v.value| == 4 then U32(v.value, 0)
            else if w.Some? && |w.value| == 4 then U32(w.value, 0) else 0
  {
    hide GetProp, U32;
    KnownNames();
    assert name == FdtPhandles.PHANDLE && linux == FdtPhandles.LINUX_PHANDLE;
  }

  lemma {:induction false} HoldsOpen(c: Bytes, name: Bytes)
    requires 0 !in name && |c| == Begin(name).Len()
    requires c[..4] == [0, 0, 0, 1] && c[4..4 + |name|] == name && c[4 + |name|] == 0
    ensures Holds(c, Begin(name))
  {
    assert c[0] == c[..4][0] && c[1] == c[..4][1] && c[2] == c[..4][2] && c[3] == c[..4][3];
  }

  lemma {:induction false} HoldsWords()
    ensures Holds([0, 0, 0, 2], EndNode) && Holds([0, 0, 0, 4], Nop) && Holds([0, 0, 0, 9], End)
  {
  }
}
