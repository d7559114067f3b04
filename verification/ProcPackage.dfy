/**
 The process package that app/tools/proc_pack.py writes and include/process.h describes: metadata
 of one image, the layout of all images, the file, and a reader that follows the header layouts.
 */
module ProcPackage {
  import opened Basics
  import opened PackRecords
  import Bits

  const PROC_PKG_MAGIC: nat := 0x504B4750
  const PROC_PKG_VERSION: nat := 1

  const HEADER_WIDTHS: seq<nat> := [4, 2, 2, 4, 4, 4, 4, 8]
  const DESC_WIDTHS: seq<nat> := [4, 4, 8, 8, 8, 8, 8, 8]
  const META_WIDTHS: seq<nat> := [4, 4, 4, 4, 4, 4, 4, 4, 4, 4, 8]
  const REF_WIDTHS: seq<nat> := [4]
  const AUXV_WIDTHS: seq<nat> := [8, 8]

  const HEADER_SIZE: nat := 32
  const DESC_SIZE: nat := 56
  const META_SIZE: nat := 48

  datatype Aux = Aux(kind: nat, value: nat)

  /** What a process is started with. */
  datatype Info = Info(name: Bytes, argv: seq<Bytes>, env: seq<Bytes>, auxv: seq<Aux>, stackSize: nat)

  datatype Image = Image(kind: nat, flags: nat, loadHint: nat, entryHint: nat, data: Bytes, info: Info)

  lemma {:induction false} Sizes()
    ensures Sum(HEADER_WIDTHS) == HEADER_SIZE && Sum(DESC_WIDTHS) == DESC_SIZE && Sum(META_WIDTHS) == META_SIZE
    ensures Sum(REF_WIDTHS) == 4 && Sum(AUXV_WIDTHS) == 16
  {
    hide Sum;
    assert HEADER_WIDTHS == [4, 2, 2, 4] + [4, 4, 4, 8];
    SumConcat([4, 2, 2, 4], [4, 4, 4, 8]);
    SumFour(4, 2, 2, 4);
    SumFour(4, 4, 4, 8);
    assert DESC_WIDTHS == [4, 4, 8, 8] + [8, 8, 8, 8];
    SumConcat([4, 4, 8, 8], [8, 8, 8, 8]);
    SumFour(4, 4, 8, 8);
    SumFour(8, 8, 8, 8);
    assert META_WIDTHS == [4, 4, 4, 4] + ([4, 4, 4, 4] + ([4] + [4, 8]));
    SumConcat([4, 4, 4, 4], [4, 4, 4, 4] + ([4] + [4, 8]));
    SumConcat([4, 4, 4, 4], [4] + [4, 8]);
    SumConcat([4], [4, 8]);
    SumFour(4, 4, 4, 4);
    SumTwo(4, 8);
    SumTwo(8, 8);
  }

  lemma {:induction false} SumTwo(a: nat, b: nat)
    ensures Sum([a]) == a && Sum([a, b]) == a + b
  {
    var none: seq<nat> := [];
    assert [a][1..] == none && [b][1..] == none && [a, b][1..] == [b];
    assert Sum([b]) == b + Sum(none);
  }

  lemma {:induction false} SumFour(a: nat, b: nat, c: nat, d: nat)
    ensures Sum([a, b, c, d]) == a + b + c + d
  {
    hide Sum;
    assert [a, b, c, d] == [a, b] + [c, d];
    SumConcat([a, b], [c, d]);
    SumTwo(a, b);
    SumTwo(c, d);
  }

  // ----- align_up -----

  function AlignUp(v: nat, align: nat): nat
    requires 0 < align
  {
    (v + align - 1) - (v + align - 1) % align
  }

  /** For a power of two this is the mask expression of align_up. */
  lemma {:induction false} AlignUpIsMask(v: nat, k: nat, n: nat)
    requires k <= n && v + Bits.Pow2(k) - 1 < Bits.Pow2(n)
    ensures Bits.Pow2(k) <= Bits.Pow2(n)
    ensures AlignUp(v, Bits.Pow2(k)) == Bits.And(v + Bits.Pow2(k) - 1, Bits.Pow2(n) - Bits.Pow2(k))
  {
    Bits.MaskIsFloor(v + Bits.Pow2(k) - 1, n, k);
  }

  lemma {:induction false} AlignUpLeast(v: nat, align: nat)
    requires 0 < align
    ensures AlignUp(v, align) % align == 0 && v <= AlignUp(v, align) < v + align
  {
    Bits.FloorGreatest(v + align - 1, align, 0);
  }

  ghost predicate PowerOfTwo(align: nat) {
    exists k :: align == Bits.Pow2(k)
  }

  /** align_up: the mask ~(align - 1) is as wide as the sum it is applied to. */
  method AlignedUp(v: nat, align: nat) returns (r: nat)
    requires PowerOfTwo(align)
    ensures r == AlignUp(v, align) && r % align == 0 && v <= r < v + align
  {
    hide AlignUp, Bits.And;
    ghost var k :| align == Bits.Pow2(k);
    ghost var n := k;
    var x, top := v + align - 1, align;
    while top <= x
      invariant k <= n && top == Bits.Pow2(n)
      decreases x - top
    {
      top, n := 2 * top, n + 1;
    }
    AlignUpIsMask(v, k, n);
    AlignUpLeast(v, align);
    r := Bits.And(x, top - align);
  }

  // ----- Metadata of one image -----

  function AllStrings(i: Info): seq<Bytes> {
    [i.name] + i.argv + i.env
  }

  function ArgvStarts(i: Info): seq<nat> {
    Starts(i.argv, |i.name| + 1)
  }

  function EnvStarts(i: Info): seq<nat> {
    Starts(i.env, |i.name| + 1 + |Strings(i.argv)|)
  }

  function AuxvOffset(i: Info): nat {
    AlignUp(META_SIZE + 4 * |i.argv| + 4 * |i.env|, 8)
  }

  function StringsOffset(i: Info): nat {
    AuxvOffset(i) + 16 * |i.auxv|
  }

  function MetaValues(i: Info): (r: seq<nat>)
    ensures |r| == 11
  {
    [|i.argv|, |i.env|, |i.auxv|, |Strings(AllStrings(i))|, 0,
     META_SIZE, META_SIZE + 4 * |i.argv|, AuxvOffset(i), StringsOffset(i), 0, i.stackSize]
  }

  function Refs(os: seq<nat>): (r: seq<seq<nat>>)
    ensures |r| == |os| && forall k | 0 <= k < |os| :: r[k] == [os[k]]
  {
    seq(|os|, k requires 0 <= k < |os| => [os[k]])
  }

  function AuxRows(auxv: seq<Aux>): (r: seq<seq<nat>>)
    ensures |r| == |auxv| && forall k | 0 <= k < |auxv| :: r[k] == [auxv[k].kind, auxv[k].value]
  {
    seq(|auxv|, k requires 0 <= k < |auxv| => [auxv[k].kind, auxv[k].value])
  }

  /** Everything in the metadata fits its field. */
  predicate MetaFits(i: Info) {
    && Fit(META_WIDTHS, MetaValues(i)) && AllFit(REF_WIDTHS, Refs(ArgvStarts(i)))
    && AllFit(REF_WIDTHS, Refs(EnvStarts(i)))
    && AllFit(AUXV_WIDTHS, AuxRows(i.auxv))
  }

  function Zeros(n: nat): (b: Bytes)
    ensures |b| == n
  {
    seq(n, _ => 0)
  }

  /** The padding in front of the auxiliary vector. */
  function Gap(i: Info): (n: nat)
    ensures META_SIZE + 4 * |i.argv| + 4 * |i.env| + n == AuxvOffset(i)
  {
    AlignUpLeast(META_SIZE + 4 * |i.argv| + 4 * |i.env|, 8);
    AuxvOffset(i) - (META_SIZE + 4 * |i.argv| + 4 * |i.env|)
  }

  function Meta(i: Info): Bytes
    requires MetaFits(i)
  {
    Pack(META_WIDTHS, MetaValues(i)) + Table(REF_WIDTHS, Refs(ArgvStarts(i))) + Table(REF_WIDTHS, Refs(EnvStarts(i)))
    + Zeros(Gap(i)) + Table(AUXV_WIDTHS, AuxRows(i.auxv)) + Strings(AllStrings(i))
  }

  /** Strings whose starts, counted from `base`, are listed. */
  function ReadStrings(b: Bytes, base: nat, refs: seq<seq<nat>>): seq<Bytes> {
    if refs == [] then []
    else if |refs[0]| != 1 || base + refs[0][0] > |b| then []
    else [CString(b, base + refs[0][0])] + ReadStrings(b, base, refs[1..])
  }

  function ReadAuxv(rows: seq<seq<nat>>): seq<Aux> {
    if rows == [] || |rows[0]| != 2 then [] else [Aux(rows[0][0], rows[0][1])] + ReadAuxv(rows[1..])
  }

  /** Read the metadata as struct proc_image_meta lays it out. */
  function ReadMeta(b: Bytes): Option<Info> {
    Sizes();
    if |b| < META_SIZE then None
    else
      var vs := Unpack(META_WIDTHS, b[..META_SIZE]);
      if |vs| != 11 || vs[5] > |b| || vs[6] > |b| || vs[7] > |b| || vs[8] + vs[4] > |b| then None
      else
        Some(Info(CString(b, vs[8] + vs[4]),
                  ReadStrings(b, vs[8], ReadTable(REF_WIDTHS, b, vs[5], vs[0])),
                  ReadStrings(b, vs[8], ReadTable(REF_WIDTHS, b, vs[6], vs[1])),
                  ReadAuxv(ReadTable(AUXV_WIDTHS, b, vs[7], vs[2])),
                  vs[10]))
  }

  predicate InfoText(i: Info) {
    Text(i.name) && AllText(i.argv) && AllText(i.env)
  }

  lemma {:induction false} ReadAuxvIs(auxv: seq<Aux>)
    ensures ReadAuxv(AuxRows(auxv)) == auxv
  {
    if auxv != [] {
      ReadAuxvIs(auxv[1..]);
      assert AuxRows(auxv)[1..] == AuxRows(auxv[1..]);
    }
  }

  lemma {:induction false} RefsFirst(ss: seq<Bytes>, o: nat)
    requires ss != []
    ensures Refs(Starts(ss, o)) == [[o]] + Refs(Starts(ss[1..], o + |ss[0]| + 1)) && Starts(ss, o)[0] == o
  {
    var a, b := Refs(Starts(ss, o)), [[o]] + Refs(Starts(ss[1..], o + |ss[0]| + 1));
    assert forall k | 0 <= k < |a| :: a[k] == b[k];
  }

  lemma {:induction false} ReadStringsFirst(b: Bytes, base: nat, o: nat, refs: seq<seq<nat>>)
    requires base + o <= |b|
    ensures ReadStrings(b, base, [[o]] + refs) == [CString(b, base + o)] + ReadStrings(b, base, refs)
  {
    assert ([[o]] + refs)[1..] == refs;
  }

  lemma {:induction false} StringsShift(pre: Bytes, skip: Bytes, ss: seq<Bytes>, post: Bytes)
    requires ss != []
    ensures pre + skip + Strings(ss) + post == pre + (skip + ss[0] + [0]) + Strings(ss[1..]) + post
  {
    assert Strings(ss) == ss[0] + [0] + Strings(ss[1..]);
  }

  /** Strings ss in the middle of a table are read back through their starts. */
  lemma {:induction false} ReadStringsIs(pre: Bytes, skip: Bytes, ss: seq<Bytes>, post: Bytes)
    requires AllText(ss)
    ensures ReadStrings(pre + skip + Strings(ss) + post, |pre|, Refs(Starts(ss, |skip|))) == ss
    decreases ss
  {
    if ss == [] {
      assert Refs(Starts(ss, |skip|)) == [];
    } else {
      hide ReadStrings, Strings, CString, Starts, Refs;
      var more := skip + ss[0] + [0];
      StringsRoundTrip(pre, skip, ss, post, 0);
      StringsShift(pre, skip, ss, post);
      ReadStringsIs(pre, more, ss[1..], post);
      RefsFirst(ss, |skip|);
      ReadStringsFirst(pre + skip + Strings(ss) + post, |pre|, |skip|, Refs(Starts(ss[1..], |more|)));
      assert [ss[0]] + ss[1..] == ss;
    }
  }

  // The parts of the metadata, and what is before and after each.

  lemma {:induction false} MetaShape(i: Info)
    requires MetaFits(i)
    ensures var h := Pack(META_WIDTHS, MetaValues(i)); var a := Table(REF_WIDTHS, Refs(ArgvStarts(i)));
            var e := Table(REF_WIDTHS, Refs(EnvStarts(i))); var x := Table(AUXV_WIDTHS, AuxRows(i.auxv));
            var z := Zeros(Gap(i));
            && Meta(i) == h + a + e + z + x + Strings(AllStrings(i))
            && |h| == META_SIZE && |h + a| == META_SIZE + 4 * |i.argv|
            && |h + a + e + z| == AuxvOffset(i) && |h + a + e + z + x| == StringsOffset(i)
  {
    hide Pack, Table, Strings, Fit, AllFit;
    Sizes();
    TableSize(REF_WIDTHS, Refs(ArgvStarts(i)));
    TableSize(REF_WIDTHS, Refs(EnvStarts(i)));
    TableSize(AUXV_WIDTHS, AuxRows(i.auxv));
  }

  lemma {:induction false} ReadTables(h: Bytes, a: seq<seq<nat>>, e: seq<seq<nat>>, z: Bytes, x: seq<seq<nat>>,
                                      s: Bytes)
    requires AllFit(REF_WIDTHS, a) && AllFit(REF_WIDTHS, e) && AllFit(AUXV_WIDTHS, x)
    ensures var ab, eb, xb := Table(REF_WIDTHS, a), Table(REF_WIDTHS, e), Table(AUXV_WIDTHS, x);
            var b := h + ab + eb + z + xb + s;
            && ReadTable(REF_WIDTHS, b, |h|, |a|) == a && ReadTable(REF_WIDTHS, b, |h + ab|, |e|) == e
            && ReadTable(AUXV_WIDTHS, b, |h + ab + eb + z|, |x|) == x && b[..|h|] == h
  {
    hide Table, ReadTable, AllFit;
    var ab, eb, xb := Table(REF_WIDTHS, a), Table(REF_WIDTHS, e), Table(AUXV_WIDTHS, x);
    var b := h + ab + eb + z + xb + s;
    assert b == h + ab + (eb + z + xb + s);
    TableRoundTrip(REF_WIDTHS, a, h, eb + z + xb + s);
    assert b == (h + ab) + eb + (z + xb + s);
    TableRoundTrip(REF_WIDTHS, e, h + ab, z + xb + s);
    assert b == (h + ab + eb + z) + xb + s;
    TableRoundTrip(AUXV_WIDTHS, x, h + ab + eb + z, s);
  }

  lemma {:induction false} StringsOf(i: Info)
    ensures Strings(AllStrings(i)) == i.name + [0] + Strings(i.argv) + Strings(i.env)
  {
    StringsConcat([i.name] + i.argv, i.env, 0);
    StringsConcat([i.name], i.argv, 0);
    OneString(i.name, 0);
  }

  lemma {:induction false} ReadAllStrings(pre: Bytes, i: Info)
    requires InfoText(i)
    ensures var b := pre + Strings(AllStrings(i));
            && CString(b, |pre|) == i.name && ReadStrings(b, |pre|, Refs(ArgvStarts(i))) == i.argv
            && ReadStrings(b, |pre|, Refs(EnvStarts(i))) == i.env
  {
    hide CString, ReadStrings, Refs, Starts, Strings, Text;
    var n, a, e := i.name + [0], Strings(i.argv), Strings(i.env);
    StringsOf(i);
    var b := pre + Strings(AllStrings(i));
    assert b == pre + i.name + [0] + (a + e) && b == pre + n + a + e && b == pre + (n + a) + e + [];
    CStringIs(pre, i.name, a + e);
    ReadStringsIs(pre, n, i.argv, e);
    ReadStringsIs(pre, n + a, i.env, []);
  }

  lemma {:induction false} MetaValuesAre(i: Info)
    ensures var vs := MetaValues(i);
            && vs[0] == |i.argv| && vs[1] == |i.env| && vs[2] == |i.auxv| && vs[4] == 0 && vs[5] == META_SIZE
            && vs[6] == META_SIZE + 4 * |i.argv| && vs[7] == AuxvOffset(i) && vs[8] == StringsOffset(i)
            && vs[10] == i.stackSize
  {
  }

  /** The record in front of the metadata says where the parts are. */
  lemma {:induction false} MetaReads(i: Info, b: Bytes)
    requires Fit(META_WIDTHS, MetaValues(i)) && META_SIZE <= |b| && b[..META_SIZE] == Pack(META_WIDTHS, MetaValues(i))
    requires META_SIZE + 4 * |i.argv| <= |b| && AuxvOffset(i) <= |b| && StringsOffset(i) <= |b|
    ensures ReadMeta(b) ==
            Some(Info(CString(b, StringsOffset(i)),
                      ReadStrings(b, StringsOffset(i), ReadTable(REF_WIDTHS, b, META_SIZE, |i.argv|)),
                      ReadStrings(b, StringsOffset(i), ReadTable(REF_WIDTHS, b, META_SIZE + 4 * |i.argv|, |i.env|)),
                      ReadAuxv(ReadTable(AUXV_WIDTHS, b, AuxvOffset(i), |i.auxv|)),
                      i.stackSize))
  {
    hide Pack, Unpack, ReadTable, Fit, Strings, ReadStrings, CString, ReadAuxv, MetaValues, Sum, AuxvOffset,
         StringsOffset;
    Sizes();
    RecordRoundTrip(META_WIDTHS, MetaValues(i));
    MetaValuesAre(i);
  }

  /** Reading the metadata of an image gives name, arguments, environment, auxiliary vector and stack size back. */
  lemma {:induction false} MetaRoundTrip(i: Info)
    requires MetaFits(i) && InfoText(i)
    ensures ReadMeta(Meta(i)) == Some(i)
  {
    hide Pack, Unpack, Table, ReadTable, Strings, ReadStrings, CString, AllFit, Fit, Refs, Starts, ReadAuxv, AuxRows,
         Meta, Zeros, ReadMeta, MetaValues;
    var h, a, e, x := Pack(META_WIDTHS, MetaValues(i)), Refs(ArgvStarts(i)), Refs(EnvStarts(i)), AuxRows(i.auxv);
    var ab, eb, xb, s := Table(REF_WIDTHS, a), Table(REF_WIDTHS, e), Table(AUXV_WIDTHS, x), Strings(AllStrings(i));
    var z := Zeros(Gap(i));
    MetaShape(i);
    ReadTables(h, a, e, z, x, s);
    ReadAllStrings(h + ab + eb + z + xb, i);
    ReadAuxvIs(i.auxv);
    MetaReads(i, Meta(i));
  }

  lemma {:induction false} OneString(s: Bytes, o: nat)
    ensures Strings([s]) == s + [0] && Starts([s], o) == [o]
  {
    assert Strings([s]) == s + [0] + Strings([]);
  }

  /** The loops over _append_c_string. */
  method AppendStrings(table: Bytes, ss: seq<Bytes>) returns (t: Bytes, offs: seq<nat>)
    ensures t == table + Strings(ss) && offs == Starts(ss, |table|)
  {
    t, offs := table, [];
    for k := 0 to |ss|
      invariant t == table + Strings(ss[..k]) && offs == Starts(ss[..k], |table|)
    {
      StringsConcat(ss[..k], [ss[k]], |table|);
      assert ss[..k] + [ss[k]] == ss[..k + 1];
      OneString(ss[k], |table| + |Strings(ss[..k])|);
      offs := offs + [|t|];
      t := t + ss[k] + [0];
    }
    assert ss[..|ss|] == ss;
  }

  /** Append records with struct.pack; false when a value does not fit. */
  method AppendRecords(meta: Bytes, ws: seq<nat>, rows: seq<seq<nat>>) returns (ok: bool, m: Bytes)
    ensures ok <==> AllFit(ws, rows)
    ensures ok ==> m == meta + Table(ws, rows)
  {
    m := meta;
    for k := 0 to |rows|
      invariant AllFit(ws, rows[..k]) && m == meta + Table(ws, rows[..k])
    {
      if !Fit(ws, rows[k]) { return false, m; }
      TableSnoc(ws, rows[..k], rows[k]);
      assert rows[..k] + [rows[k]] == rows[..k + 1];
      m := m + Pack(ws, rows[k]);
    }
    assert rows[..|rows|] == rows;
    return true, m;
  }

  /** The padding loop. */
  method PadTo(b: Bytes, target: nat) returns (r: Bytes)
    requires |b| <= target
    ensures r == b + Zeros(target - |b|)
  {
    hide Zeros;
    r := b;
    ZerosNone();
    while |r| < target
      invariant |b| <= |r| <= target && r == b + Zeros(|r| - |b|)
    {
      ZerosMore(|r| - |b|);
      r := r + [0];
    }
  }

  /** The string table and the offsets into it. */
  method BuildStrings(i: Info) returns (table: Bytes, argvRefs: seq<nat>, envRefs: seq<nat>)
    ensures table == Strings(AllStrings(i)) && argvRefs == ArgvStarts(i) && envRefs == EnvStarts(i)
  {
    hide Strings, Starts;
    table := i.name + [0];
    table, argvRefs := AppendStrings(table, i.argv);
    table, envRefs := AppendStrings(table, i.env);
    StringsOf(i);
  }

  /** The tables behind a header h that is filled in later. */
  method BuildTables(i: Info, h: Bytes, argvRefs: seq<nat>, envRefs: seq<nat>) returns (ok: bool, meta: Bytes)
    requires |h| == META_SIZE && argvRefs == ArgvStarts(i) && envRefs == EnvStarts(i)
    ensures var a, e, x := Refs(ArgvStarts(i)), Refs(EnvStarts(i)), AuxRows(i.auxv);
            && (ok <==> AllFit(REF_WIDTHS, a) && AllFit(REF_WIDTHS, e) && AllFit(AUXV_WIDTHS, x))
            && (ok ==> meta == h + Table(REF_WIDTHS, a) + Table(REF_WIDTHS, e) + Zeros(Gap(i)) + Table(AUXV_WIDTHS, x))
  {
    hide Table, AllFit, Refs, AuxRows, Zeros, Strings, Starts;
    Sizes();
    ok, meta := AppendRecords(h, REF_WIDTHS, Refs(argvRefs));
    if !ok { return; }
    TableSize(REF_WIDTHS, Refs(ArgvStarts(i)));
    ok, meta := AppendRecords(meta, REF_WIDTHS, Refs(envRefs));
    if !ok { return; }
    TableSize(REF_WIDTHS, Refs(EnvStarts(i)));
    assert |meta| + Gap(i) == AuxvOffset(i);
    meta := PadTo(meta, AuxvOffset(i));
    ok, meta := AppendRecords(meta, AUXV_WIDTHS, AuxRows(i.auxv));
  }

  /** _build_image_meta; None where struct.pack raises an error. */
  method BuildMeta(i: Info) returns (r: Option<Bytes>)
    ensures r == if MetaFits(i) then Some(Meta(i)) else None
  {
    hide Table, Pack, AllFit, Fit, Refs, AuxRows, Zeros, Strings, Starts;
    var table, argvRefs, envRefs := BuildStrings(i);
    var ok, meta := BuildTables(i, Zeros(META_SIZE), argvRefs, envRefs);
    if !ok { return None; }
    meta := meta + table;
    if !Fit(META_WIDTHS, MetaValues(i)) { return None; }
    var header := Pack(META_WIDTHS, MetaValues(i));
    ReplaceHead(Zeros(META_SIZE), header, Table(REF_WIDTHS, Refs(ArgvStarts(i))), Table(REF_WIDTHS, Refs(EnvStarts(i))),
                Zeros(Gap(i)), Table(AUXV_WIDTHS, AuxRows(i.auxv)), table);
    return Some(header + meta[META_SIZE..]);
  }

  lemma {:induction false} ZerosNone()
    ensures Zeros(0) == []
  {
  }

  lemma {:induction false} ZerosMore(n: nat)
    ensures Zeros(n) + [0] == Zeros(n + 1)
  {
  }

  lemma {:induction false} ReplaceHead(h: Bytes, g: Bytes, a: Bytes, b: Bytes, c: Bytes, d: Bytes, e: Bytes)
    ensures g + (h + a + b + c + d + e)[|h|..] == g + a + b + c + d + e
  {
    assert (h + a + b + c + d + e)[|h|..] == a + b + c + d + e;
  }

  // ----- Layout of the package -----

  datatype Slot = Slot(image: nat, meta: nat)

  /** Payloads and metadata lie one behind the other between `from` and `to`, each at an aligned offset. */
  predicate LaidOut(images: seq<Image>, metas: seq<Bytes>, slots: seq<Slot>, align: nat, from: nat, to: nat)
    requires 0 < align
  {
    && |slots| == |images| == |metas|
    && (forall k | 0 <= k < |slots| ::
          && slots[k].image % align == 0 && slots[k].meta % align == 0
          && from <= slots[k].image && slots[k].image + |images[k].data| <= slots[k].meta
          && slots[k].meta + |metas[k]| <= to)
    && (forall k, l | 0 <= k < l < |slots| :: slots[k].meta + |metas[k]| <= slots[l].image)
  }

  /** Where the layout stands before image k. */
  function Reached(metas: seq<Bytes>, slots: seq<Slot>, k: nat, align: nat, from: nat): nat
    requires 0 < align && k <= |slots| && k <= |metas|
  {
    if k == 0 then AlignUp(from, align) else slots[k - 1].meta + |metas[k - 1]|
  }

  /** Every payload and every metadata block stands at the first aligned offset behind the one before it. */
  predicate Tight(images: seq<Image>, metas: seq<Bytes>, slots: seq<Slot>, align: nat, from: nat)
    requires 0 < align
  {
    && |slots| <= |images| == |metas|
    && forall k | 0 <= k < |slots| ::
         && slots[k].image == AlignUp(Reached(metas, slots, k, align, from), align)
         && slots[k].meta == AlignUp(slots[k].image + |images[k].data|, align)
  }

  lemma {:induction false} TightMore(images: seq<Image>, metas: seq<Bytes>, slots: seq<Slot>, align: nat, from: nat,
                                     s: Slot)
    requires 0 < align && |slots| < |images| && Tight(images, metas, slots, align, from)
    requires s.image == AlignUp(Reached(metas, slots, |slots|, align, from), align)
    requires s.meta == AlignUp(s.image + |images[|slots|].data|, align)
    ensures Tight(images, metas, slots + [s], align, from)
    ensures Reached(metas, slots + [s], |slots| + 1, align, from) == s.meta + |metas[|slots|]|
  {
    hide AlignUp;
    var ss := slots + [s];
    forall k | 0 <= k < |slots| ensures ss[k] == slots[k]
    && Reached(metas, ss, k, align, from) == Reached(metas, slots, k, align, from) {}
  }

  /** The layout leaves no choice. */
  lemma {:induction false} TightUnique(images: seq<Image>, metas: seq<Bytes>, ss: seq<Slot>, ts: seq<Slot>, align: nat,
                                       from: nat)
    requires 0 < align && |ss| == |ts| && Tight(images, metas, ss, align, from) && Tight(images, metas, ts, align, from)
    ensures ss == ts
  {
    hide AlignUp;
    for k := 0 to |ss|
      invariant forall j | 0 <= j < k :: ss[j] == ts[j]
    {
      assert Reached(metas, ss, k, align, from) == Reached(metas, ts, k, align, from);
    }
  }

  /** _layout_package. */
  method LayoutPackage(images: seq<Image>, metas: seq<Bytes>, align: nat) returns (slots: seq<Slot>, total: nat)
    requires |images| == |metas| && PowerOfTwo(align)
    ensures LaidOut(images, metas, slots, align, HEADER_SIZE + |images| * DESC_SIZE, total)
    ensures total % align == 0 && HEADER_SIZE + |images| * DESC_SIZE <= total
    ensures Tight(images, metas, slots, align, HEADER_SIZE + |images| * DESC_SIZE) && |slots| == |images|
    ensures total == AlignUp(Reached(metas, slots, |images|, align, HEADER_SIZE + |images| * DESC_SIZE), align)
    ensures AlignUp(HEADER_SIZE + |images| * DESC_SIZE, align) <= total
    ensures forall k | 0 <= k < |slots| :: AlignUp(HEADER_SIZE + |images| * DESC_SIZE, align) <= slots[k].image
  {
    hide AlignUp, Reached, Tight;
    var from := HEADER_SIZE + |images| * DESC_SIZE;
    var current := AlignedUp(from, align);
    slots := [];
    TightNone(images, metas, align, from);
    for k := 0 to |images|
      invariant from <= current && |slots| == k && current == Reached(metas, slots, k, align, from)
      invariant AlignUp(from, align) <= current
      invariant forall j | 0 <= j < k :: AlignUp(from, align) <= slots[j].image
      invariant LaidOut(images[..k], metas[..k], slots, align, from, current)
      invariant Tight(images, metas, slots, align, from)
    {
      var image := AlignedUp(current, align);
      var meta := AlignedUp(image + |images[k].data|, align);
      TightMore(images, metas, slots, align, from, Slot(image, meta));
      LaidOutMore(images, metas, slots, align, from, current, k, Slot(image, meta));
      slots := slots + [Slot(image, meta)];
      current := meta + |metas[k]|;
    }
    assert images[..|images|] == images && metas[..|metas|] == metas;
    total := AlignedUp(current, align);
  }

  lemma {:induction false} TightNone(images: seq<Image>, metas: seq<Bytes>, align: nat, from: nat)
    requires 0 < align && |images| == |metas|
    ensures Tight(images, metas, [], align, from) && Reached(metas, [], 0, align, from) == AlignUp(from, align)
  {
  }

  lemma {:induction false} LaidOutMore(images: seq<Image>, metas: seq<Bytes>, slots: seq<Slot>, align: nat, from: nat,
                                       to: nat, k: nat, s: Slot)
    requires 0 < align && k < |images| == |metas| && LaidOut(images[..k], metas[..k], slots, align, from, to)
    requires from <= to <= s.image && s.image % align == 0 && s.meta % align == 0
    requires s.image + |images[k].data| <= s.meta
    ensures LaidOut(images[..k + 1], metas[..k + 1], slots + [s], align, from, s.meta + |metas[k]|)
  {
    var xs, ms, ss := images[..k + 1], metas[..k + 1], slots + [s];
    forall j | 0 <= j < k ensures xs[j] == images[..k][j] && ms[j] == metas[..k][j] && ss[j] == slots[j] {}
  }

  // ----- The file -----

  function HeaderValues(n: nat, total: nat): (r: seq<nat>)
    ensures |r| == 8
  {
    [PROC_PKG_MAGIC, PROC_PKG_VERSION, HEADER_SIZE, n, HEADER_SIZE, n * DESC_SIZE, 0, total]
  }

  function DescRow(i: Image, meta: Bytes, s: Slot): (r: seq<nat>)
    ensures |r| == 8
  {
    [i.kind, i.flags, s.image, |i.data|, s.meta, |meta|, i.loadHint, i.entryHint]
  }

  /** _build_descriptors. */
  function DescRows(images: seq<Image>, metas: seq<Bytes>, slots: seq<Slot>): (r: seq<seq<nat>>)
    requires |images| == |metas| == |slots|
    ensures |r| == |images| && forall k | 0 <= k < |r| :: r[k] == DescRow(images[k], metas[k], slots[k])
  {
    seq(|images|, k requires 0 <= k < |images| => DescRow(images[k], metas[k], slots[k]))
  }

  predicate Stored(out: Bytes, i: Image, meta: Bytes, s: Slot) {
    && s.image + |i.data| <= |out| && out[s.image..s.image + |i.data|] == i.data
    && s.meta + |meta| <= |out| && out[s.meta..s.meta + |meta|] == meta
  }

  predicate AllStored(out: Bytes, images: seq<Image>, metas: seq<Bytes>, slots: seq<Slot>, n: nat)
    requires n <= |images| == |metas| == |slots|
  {
    forall k | 0 <= k < n :: Stored(out, images[k], metas[k], slots[k])
  }

  lemma {:induction false} StoredStays(out: Bytes, more: Bytes, images: seq<Image>, metas: seq<Bytes>, slots: seq<Slot>,
                                       n: nat)
    requires n <= |images| == |metas| == |slots| && AllStored(out, images, metas, slots, n)
    ensures AllStored(out + more, images, metas, slots, n)
  {
    forall k | 0 <= k < n ensures Stored(out + more, images[k], metas[k], slots[k]) {
      assert Stored(out, images[k], metas[k], slots[k]);
      Inside(out, more, slots[k].image, |images[k].data|);
      Inside(out, more, slots[k].meta, |metas[k]|);
    }
  }

  lemma {:induction false} Inside(out: Bytes, more: Bytes, o: nat, n: nat)
    requires o + n <= |out|
    ensures (out + more)[o..o + n] == out[o..o + n]
  {
  }

  /** Pad to an offset and append; a negative padding would be an error and does not happen. */
  method AppendAt(out: Bytes, o: nat, c: Bytes) returns (r: Bytes, ghost more: Bytes)
    requires |out| <= o
    ensures r == out + more && |r| == o + |c| && r[o..o + |c|] == c
  {
    r := out + Zeros(o - |out|) + c;
    more := Zeros(o - |out|) + c;
  }

  /** One image and its metadata. */
  method AppendImage(out: Bytes, i: Image, meta: Bytes, s: Slot) returns (r: Bytes, ghost more: Bytes)
    requires |out| <= s.image && s.image + |i.data| <= s.meta
    ensures r == out + more && |r| == s.meta + |meta| && Stored(r, i, meta, s)
  {
    var mid;
    ghost var x, y;
    mid, x := AppendAt(out, s.image, i.data);
    r, y := AppendAt(mid, s.meta, meta);
    more := x + y;
    Inside(mid, y, s.image, |i.data|);
    Assoc(out, x, y);
  }

  lemma {:induction false} Assoc(a: Bytes, b: Bytes, c: Bytes)
    ensures (a + b) + c == a + (b + c)
  {
  }

  /** The writing loop of _write_package, behind what is already written. */
  method WriteImages(head: Bytes, images: seq<Image>, metas: seq<Bytes>, slots: seq<Slot>, total: nat,
                     ghost align: nat) returns (out: Bytes)
    requires 0 < align && |head| <= total && LaidOut(images, metas, slots, align, |head|, total)
    ensures |out| == total && AllStored(out, images, metas, slots, |images|) && |head| <= |out| && out[..|head|] == head
  {
    hide AllStored, Stored;
    out := head;
    NoneStored(out, images, metas, slots);
    for k := 0 to |images|
      invariant |head| <= |out| <= total && out[..|head|] == head && AllStored(out, images, metas, slots, k)
      invariant k < |images| ==> |out| <= slots[k].image
    {
      ghost var was := out;
      ghost var more;
      out, more := AppendImage(out, images[k], metas[k], slots[k]);
      StoredStays(was, more, images, metas, slots, k);
      OneMoreStored(out, images, metas, slots, k);
      Inside(was, more, 0, |head|);
    }
    var z := Zeros(total - |out|);
    StoredStays(out, z, images, metas, slots, |images|);
    Inside(out, z, 0, |head|);
    out := out + z;
  }

  lemma {:induction false} NoneStored(out: Bytes, images: seq<Image>, metas: seq<Bytes>, slots: seq<Slot>)
    requires |images| == |metas| == |slots|
    ensures AllStored(out, images, metas, slots, 0)
  {
  }

  lemma {:induction false} OneMoreStored(out: Bytes, images: seq<Image>, metas: seq<Bytes>, slots: seq<Slot>, k: nat)
    requires k < |images| == |metas| == |slots| && AllStored(out, images, metas, slots, k)
    requires Stored(out, images[k], metas[k], slots[k])
    ensures AllStored(out, images, metas, slots, k + 1)
  {
  }

  /** What the file starts with. */
  function Head(images: seq<Image>, metas: seq<Bytes>, slots: seq<Slot>, total: nat): (b: Bytes)
    requires |images| == |metas| == |slots|
    requires Fit(HEADER_WIDTHS, HeaderValues(|images|, total)) && AllFit(DESC_WIDTHS, DescRows(images, metas, slots))
    ensures |b| == HEADER_SIZE + |images| * DESC_SIZE
  {
    Sizes();
    TableSize(DESC_WIDTHS, DescRows(images, metas, slots));
    Pack(HEADER_WIDTHS, HeaderValues(|images|, total)) + Table(DESC_WIDTHS, DescRows(images, metas, slots))
  }

  /** _build_descriptors and _write_package; None where struct.pack raises an error. */
  method WritePackage(images: seq<Image>, metas: seq<Bytes>, slots: seq<Slot>, total: nat, ghost align: nat)
    returns (r: Option<Bytes>)
    requires 0 < align && LaidOut(images, metas, slots, align, HEADER_SIZE + |images| * DESC_SIZE, total)
    requires HEADER_SIZE + |images| * DESC_SIZE <= total
    ensures r.Some? <==>
              && Fit(HEADER_WIDTHS, HeaderValues(|images|, total))
              && AllFit(DESC_WIDTHS, DescRows(images, metas, slots))
    ensures r.Some? ==>
              && |r.value| == total && AllStored(r.value, images, metas, slots, |images|)
              && r.value[..HEADER_SIZE + |images| * DESC_SIZE] == Head(images, metas, slots, total)
  {
    hide Pack, Table, AllFit, Fit, DescRows, HeaderValues, AllStored;
    if !Fit(HEADER_WIDTHS, HeaderValues(|images|, total)) { return None; }
    var header := Pack(HEADER_WIDTHS, HeaderValues(|images|, total));
    var ok, head := AppendRecords(header, DESC_WIDTHS, DescRows(images, metas, slots));
    if !ok { return None; }
    assert head == Head(images, metas, slots, total);
    var out := WriteImages(head, images, metas, slots, total, align);
    return Some(out);
  }

  // ----- Reading the package -----

  /** One image, as its descriptor says. */
  function ReadImage(b: Bytes, row: seq<nat>): Option<Image> {
    if |row| != 8 || row[2] + row[3] > |b| || row[4] + row[5] > |b| then None
    else
      match ReadMeta(b[row[4]..row[4] + row[5]])
      case None => None
      case Some(info) => Some(Image(row[0], row[1], row[6], row[7], b[row[2]..row[2] + row[3]], info))
  }

  function ReadImages(b: Bytes, rows: seq<seq<nat>>): Option<seq<Image>> {
    if rows == [] then Some([])
    else
      match ReadImage(b, rows[0])
      case None => None
      case Some(i) =>
        match ReadImages(b, rows[1..])
        case None => None
        case Some(rest) => Some([i] + rest)
  }

  /** Read a package as struct proc_pkg_header and struct proc_image_desc lay it out. */
  function ReadPackage(b: Bytes): Option<seq<Image>> {
    Sizes();
    if |b| < HEADER_SIZE then None
    else
      var vs := Unpack(HEADER_WIDTHS, b[..HEADER_SIZE]);
      if |vs| != 8 || vs[0] != PROC_PKG_MAGIC || vs[1] < PROC_PKG_VERSION || vs[7] != |b| || vs[4] > |b| then None
      else ReadImages(b, ReadTable(DESC_WIDTHS, b, vs[4], vs[3]))
  }

  lemma {:induction false} ReadStored(b: Bytes, i: Image, meta: Bytes, s: Slot)
    requires Stored(b, i, meta, s) && ReadMeta(meta) == Some(i.info)
    ensures ReadImage(b, DescRow(i, meta, s)) == Some(i)
  {
    hide ReadMeta;
  }

  lemma {:induction false} ReadImagesIs(b: Bytes, images: seq<Image>, metas: seq<Bytes>, slots: seq<Slot>)
    requires |images| == |metas| == |slots| && AllStored(b, images, metas, slots, |images|)
    requires forall k | 0 <= k < |images| :: ReadMeta(metas[k]) == Some(images[k].info)
    ensures ReadImages(b, DescRows(images, metas, slots)) == Some(images)
    decreases images
  {
    hide ReadMeta, ReadImage, Stored;
    if images == [] {
      assert DescRows(images, metas, slots) == [];
    } else {
      assert Stored(b, images[0], metas[0], slots[0]);
      ReadStored(b, images[0], metas[0], slots[0]);
      forall k | 0 <= k < |images| - 1 ensures Stored(b, images[1..][k], metas[1..][k], slots[1..][k]) {
        assert Stored(b, images[k + 1], metas[k + 1], slots[k + 1]);
      }
      ReadImagesIs(b, images[1..], metas[1..], slots[1..]);
      assert DescRows(images, metas, slots)[1..] == DescRows(images[1..], metas[1..], slots[1..]);
      assert [images[0]] + images[1..] == images;
    }
  }

  lemma {:induction false} Parted(b: Bytes, n: nat, header: Bytes, ws: seq<nat>, rows: seq<seq<nat>>)
    requires n <= |b| && AllFit(ws, rows) && b[..n] == header + Table(ws, rows)
    ensures |header| <= |b| && b[..|header|] == header && ReadTable(ws, b, |header|, |rows|) == rows
  {
    hide AllFit, Table, ReadTable;
    var table := Table(ws, rows);
    SliceParts(b, 0, header, table);
    TableAt(ws, rows, b, |header|);
  }

  lemma {:induction false} HeaderReads(b: Bytes, n: nat)
    requires Fit(HEADER_WIDTHS, HeaderValues(n, |b|)) && HEADER_SIZE <= |b|
    requires b[..HEADER_SIZE] == Pack(HEADER_WIDTHS, HeaderValues(n, |b|))
    ensures ReadPackage(b) == ReadImages(b, ReadTable(DESC_WIDTHS, b, HEADER_SIZE, n))
  {
    hide Pack, Unpack, ReadTable, Fit, ReadImages;
    Sizes();
    RecordRoundTrip(HEADER_WIDTHS, HeaderValues(n, |b|));
  }

  lemma {:induction false} HeadIs(images: seq<Image>, metas: seq<Bytes>, slots: seq<Slot>, total: nat)
    requires |images| == |metas| == |slots|
    requires Fit(HEADER_WIDTHS, HeaderValues(|images|, total)) && AllFit(DESC_WIDTHS, DescRows(images, metas, slots))
    ensures Head(images, metas, slots, total) ==
            Pack(HEADER_WIDTHS, HeaderValues(|images|, total)) + Table(DESC_WIDTHS, DescRows(images, metas, slots))
    ensures |Pack(HEADER_WIDTHS, HeaderValues(|images|, total))| == HEADER_SIZE
  {
    hide Pack, Table, Fit, AllFit, DescRows, HeaderValues;
    Sizes();
  }

  lemma {:induction false} ReadPackageIs(b: Bytes, images: seq<Image>, metas: seq<Bytes>, slots: seq<Slot>)
    requires |images| == |metas| == |slots|
    requires Fit(HEADER_WIDTHS, HeaderValues(|images|, |b|)) && AllFit(DESC_WIDTHS, DescRows(images, metas, slots))
    requires HEADER_SIZE + |images| * DESC_SIZE <= |b|
    requires b[..HEADER_SIZE + |images| * DESC_SIZE] == Head(images, metas, slots, |b|)
    requires AllStored(b, images, metas, slots, |images|)
    requires forall k | 0 <= k < |images| :: ReadMeta(metas[k]) == Some(images[k].info)
    ensures ReadPackage(b) == Some(images)
  {
    hide Pack, Unpack, Table, ReadTable, Fit, AllFit, DescRows, AllStored, ReadImages, ReadMeta, ReadPackage,
         HeaderValues, Head;
    var n, header, rows := HEADER_SIZE + |images| * DESC_SIZE, Pack(HEADER_WIDTHS, HeaderValues(|images|, |b|)),
      DescRows(images, metas, slots);
    HeadIs(images, metas, slots, |b|);
    Parted(b, n, header, DESC_WIDTHS, rows);
    HeaderReads(b, |images|);
    ReadImagesIs(b, images, metas, slots);
  }

  /** b is the package of the images, with their payloads and metadata in the slots. */
  ghost predicate IsPackage(b: Bytes, images: seq<Image>, slots: seq<Slot>, align: nat) {
    && 0 < align && |slots| == |images| && (forall k | 0 <= k < |images| :: MetaFits(images[k].info))
    && var metas, n := Metas(images), |images|;
       && LaidOut(images, metas, slots, align, HEADER_SIZE + n * DESC_SIZE, |b|)
       && AlignUp(HEADER_SIZE + n * DESC_SIZE, align) <= |b|
       && (forall k | 0 <= k < n :: AlignUp(HEADER_SIZE + n * DESC_SIZE, align) <= slots[k].image)
       && Fit(HEADER_WIDTHS, HeaderValues(n, |b|)) && AllFit(DESC_WIDTHS, DescRows(images, metas, slots))
       && HEADER_SIZE + n * DESC_SIZE <= |b|
       && b[..HEADER_SIZE + n * DESC_SIZE] == Head(images, metas, slots, |b|)
       && AllStored(b, images, metas, slots, n)
  }

  /** main: the package of a list of images. */
  method Package(images: seq<Image>, align: nat) returns (r: Option<Bytes>, ghost slots: seq<Slot>)
    requires PowerOfTwo(align)
    ensures (exists k :: 0 <= k < |images| && !MetaFits(images[k].info)) ==> r.None?
    ensures (forall k | 0 <= k < |images| :: MetaFits(images[k].info)) ==>
              var metas, from := Metas(images), HEADER_SIZE + |images| * DESC_SIZE;
              && |slots| == |images| && Tight(images, metas, slots, align, from)
              && var total := AlignUp(Reached(metas, slots, |images|, align, from), align);
                 && LaidOut(images, metas, slots, align, from, total)
                 && (r.Some? <==>
                       && Fit(HEADER_WIDTHS, HeaderValues(|images|, total))
                       && AllFit(DESC_WIDTHS, DescRows(images, metas, slots)))
                 && (r.Some? ==> |r.value| == total && AllStored(r.value, images, metas, slots, |images|))
    ensures r.Some? ==> IsPackage(r.value, images, slots, align) && |r.value| % align == 0
    ensures r.Some? && (forall k | 0 <= k < |images| :: InfoText(images[k].info)) ==>
              ReadPackage(r.value) == Some(images)
  {
    hide ReadMeta, Meta, MetaFits, LaidOut, AllStored, Fit, AllFit, DescRows, HeaderValues, Head, ReadPackage, InfoText,
         Tight, Reached, AlignUp;
    slots := [];
    var metas: seq<Bytes> := [];
    for k := 0 to |images|
      invariant |metas| == k
      invariant forall j | 0 <= j < k :: MetaFits(images[j].info) && metas[j] == Meta(images[j].info)
    {
      var meta := BuildMeta(images[k].info);
      if meta.None? { return None, []; }
      metas := metas + [meta.value];
    }
    assert metas == Metas(images);
    var places, total := LayoutPackage(images, metas, align);
    slots := places;
    SlotCount(images, metas, slots, align, HEADER_SIZE + |images| * DESC_SIZE, total);
    r := WritePackage(images, metas, places, total, align);
    if r.Some? && forall k | 0 <= k < |images| :: InfoText(images[k].info) {
      forall k | 0 <= k < |images| ensures ReadMeta(metas[k]) == Some(images[k].info) { MetaRoundTrip(images[k].info); }
      ReadPackageIs(r.value, images, metas, slots);
    }
  }

  /** The metadata of all images. */
  function Metas(images: seq<Image>): (r: seq<Bytes>)
    requires forall k | 0 <= k < |images| :: MetaFits(images[k].info)
    ensures |r| == |images| && forall k | 0 <= k < |r| :: r[k] == Meta(images[k].info)
  {
    seq(|images|, k requires 0 <= k < |images| => Meta(images[k].info))
  }

  lemma {:induction false} SlotCount(images: seq<Image>, metas: seq<Bytes>, slots: seq<Slot>, align: nat, from: nat,
                                     to: nat)
    requires 0 < align && LaidOut(images, metas, slots, align, from, to)
    ensures |slots| == |images| == |metas|
  {
  }
}
