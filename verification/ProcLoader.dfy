/**
 The kernel's side of the process package: the checks of src/schedule/process.c on the header, the
 descriptors and the metadata, and which packages of app/tools/proc_pack.py pass them.
 */
module ProcLoader {
  import opened Basics
  import opened PackRecords
  import opened ProcPackage
  import Bits

  /** The little-endian field of k bytes at o. */
  function Word(b: Bytes, o: nat, k: nat): nat
    requires o + k <= |b|
  {
    UnLE(b[o..o + k])
  }

  /** The least significant byte comes first. */
  lemma {:induction false} LittleEndian()
    ensures LE(0x0403_0201, 4) == [1, 2, 3, 4] && UnLE([1, 2, 3, 4]) == 0x0403_0201
    ensures LE(PROC_PKG_MAGIC, 4) == [0x50, 0x47, 0x4B, 0x50]
  {
    FourLE(0x0403_0201);
    FourLE(PROC_PKG_MAGIC);
    NumberRoundTrip(0x0403_0201, 4);
  }

  lemma {:induction false} FourLE(x: nat)
    requires x < 0x1_0000_0000
    ensures Pow256(4) == 0x1_0000_0000
    ensures LE(x, 4) == [x % 256, x / 256 % 256, x / 256 / 256 % 256, x / 256 / 256 / 256 % 256]
  {
    assert Pow256(1) == 256 && Pow256(2) == 0x1_0000 && Pow256(3) == 0x100_0000;
    assert LE(x / 256 / 256, 2) == [x / 256 / 256 % 256, x / 256 / 256 / 256 % 256];
  }

  // ----- Fields of packed records -----

  lemma {:induction false} SumPrefix(ws: seq<nat>, j: nat)
    requires j < |ws|
    ensures Sum(ws[..j]) + ws[j] <= Sum(ws)
  {
    assert ws == ws[..j] + ([ws[j]] + ws[j + 1..]);
    SumConcat(ws[..j], [ws[j]] + ws[j + 1..]);
    SumConcat([ws[j]], ws[j + 1..]);
    SumTwo(ws[j], 0);
  }

  lemma {:induction false} SumNone()
    ensures Sum([]) == 0
  {
  }

  lemma {:induction false} PackFirst(ws: seq<nat>, vs: seq<nat>)
    requires Fit(ws, vs) && ws != []
    ensures Fit(ws[1..], vs[1..]) && Pack(ws, vs) == LE(vs[0], ws[0]) + Pack(ws[1..], vs[1..])
  {
  }

  lemma {:induction false} SumFirst(ws: seq<nat>)
    requires ws != []
    ensures Sum(ws) == ws[0] + Sum(ws[1..])
  {
  }

  /** Field j of a record stands behind the fields before it. */
  lemma {:induction false} PackField(ws: seq<nat>, vs: seq<nat>, j: nat)
    requires Fit(ws, vs) && j < |ws|
    ensures Sum(ws[..j]) + ws[j] <= Sum(ws)
    ensures Word(Pack(ws, vs), Sum(ws[..j]), ws[j]) == vs[j]
  {
    hide Pack, Sum, LE, UnLE;
    SumPrefix(ws, j);
    PackFirst(ws, vs);
    var b, rest := Pack(ws, vs), Pack(ws[1..], vs[1..]);
    if j == 0 {
      SumNone();
      assert ws[..0] == [] && b[0..ws[0]] == LE(vs[0], ws[0]);
      NumberRoundTrip(vs[0], ws[0]);
    } else {
      PackField(ws[1..], vs[1..], j - 1);
      SumFirst(ws[..j]);
      assert ws[1..][..j - 1] == ws[..j][1..];
      var o := Sum(ws[1..][..j - 1]);
      assert b[ws[0]..ws[0] + |rest|] == rest;
      SliceOf(b, ws[0], rest, o, ws[j]);
    }
  }

  lemma {:induction false} SliceOf(b: Bytes, o: nat, c: Bytes, p: nat, k: nat)
    requires o + |c| <= |b| && b[o..o + |c|] == c && p + k <= |c|
    ensures b[o + p..o + p + k] == c[p..p + k]
  {
    var x, y := b[o + p..o + p + k], c[p..p + k];
    forall i | 0 <= i < k ensures x[i] == y[i] {
      assert b[o..o + |c|][p + i] == b[o + (p + i)];
    }
  }

  /** Row i of a table. */
  lemma {:induction false} TableRow(ws: seq<nat>, rows: seq<seq<nat>>, i: nat)
    requires AllFit(ws, rows) && i < |rows|
    ensures 0 <= i * Sum(ws) && i * Sum(ws) + Sum(ws) <= |Table(ws, rows)|
    ensures Table(ws, rows)[i * Sum(ws)..i * Sum(ws) + Sum(ws)] == Pack(ws, rows[i])
  {
    hide Pack, Table, Sum, AllFit, Fit;
    TableFirst(ws, rows);
    var one, rest := Pack(ws, rows[0]), Table(ws, rows[1..]);
    if i > 0 {
      TableRow(ws, rows[1..], i - 1);
      assert i * Sum(ws) == Sum(ws) + (i - 1) * Sum(ws);
      assert (one + rest)[|one|..] == rest;
      SliceOf(one + rest, |one|, rest, (i - 1) * Sum(ws), Sum(ws));
    }
  }

  /** Field j of row i of a table that stands at o. */
  lemma {:induction false} TableField(ws: seq<nat>, rows: seq<seq<nat>>, b: Bytes, o: nat, i: nat, j: nat)
    requires AllFit(ws, rows) && o + |Table(ws, rows)| <= |b| && b[o..o + |Table(ws, rows)|] == Table(ws, rows)
    requires i < |rows| && j < |ws|
    ensures |rows[i]| == |ws| && 0 <= i * Sum(ws) && o + i * Sum(ws) + Sum(ws[..j]) + ws[j] <= |b|
    ensures Word(b, o + i * Sum(ws) + Sum(ws[..j]), ws[j]) == rows[i][j]
  {
    hide Pack, Table, Sum, UnLE;
    TableRow(ws, rows, i);
    PackField(ws, rows[i], j);
    var t, n, p := Table(ws, rows), i * Sum(ws), Sum(ws[..j]);
    SliceOf(t, n, Pack(ws, rows[i]), p, ws[j]);
    SliceOf(b, o, t, n + p, ws[j]);
    assert o + n + p == o + (n + p);
  }

  // ----- The metadata of one image -----

  /** struct proc_image_meta without its reserved word. */
  datatype MetaHead = MetaHead(argc: nat, envc: nat, auxc: nat, strSize: nat, name: nat, argv: nat, env: nat, auxv: nat,
                               strs: nat, stack: nat)

  function MetaHeadOf(b: Bytes): MetaHead
    requires 48 <= |b|
  {
    MetaHead(Word(b, 0, 4), Word(b, 4, 4), Word(b, 8, 4), Word(b, 12, 4), Word(b, 16, 4), Word(b, 20, 4),
             Word(b, 24, 4), Word(b, 28, 4), Word(b, 32, 4), Word(b, 40, 8))
  }

  /** check_meta_array. */
  predicate ArrayOk(offset: nat, count: nat, elem: nat, size: nat) {
    count == 0 || (offset < size && count * elem <= size - offset)
  }

  /** The string at off of a table ends inside the table. */
  ghost predicate EndsInside(m: Bytes, table: nat, size: nat, off: nat)
    requires table + size <= |m|
  {
    exists j: nat :: table + off <= j < table + size && m[j] == 0
  }

  /** All strings of an array of offsets end inside the table. */
  ghost predicate AllEndInside(m: Bytes, table: nat, size: nat, refs: nat, count: nat)
    requires table + size <= |m| && ArrayOk(refs, count, 4, |m|)
  {
    forall k | 0 <= k < count :: EndsInside(m, table, size, Word(m, refs + 4 * k, 4))
  }

  /** What check_image_meta demands. */
  ghost predicate MetaAccepted(m: Bytes) {
    && 48 <= |m|
    && var h := MetaHeadOf(m);
       && h.argc <= 128 && h.envc <= 128 && h.auxc <= 128
       && ArrayOk(h.argv, h.argc, 4, |m|) && ArrayOk(h.env, h.envc, 4, |m|) && ArrayOk(h.auxv, h.auxc, 16, |m|)
       && (h.auxc != 0 ==> h.auxv % 8 == 0)
       && h.strs + h.strSize <= |m| && EndsInside(m, h.strs, h.strSize, h.name)
       && AllEndInside(m, h.strs, h.strSize, h.argv, h.argc) && AllEndInside(m, h.strs, h.strSize, h.env, h.envc)
       && h.stack % 4096 == 0
  }

  /** check_string_ref, with strnlen as its loop. */
  method CheckStringRef(m: Bytes, table: nat, size: nat, off: nat) returns (ok: bool)
    requires table + size <= |m|
    ensures ok <==> EndsInside(m, table, size, off)
  {
    if off >= size { return false; }
    var remain, len := size - off, 0;
    while len < remain && m[table + off + len] != 0
      invariant 0 <= len <= remain && forall j | table + off <= j < table + off + len :: m[j] != 0
    {
      len := len + 1;
    }
    return len != remain;
  }

  /** The loops over argv and env. */
  method CheckStringRefs(m: Bytes, table: nat, size: nat, refs: nat, count: nat) returns (ok: bool)
    requires table + size <= |m| && ArrayOk(refs, count, 4, |m|)
    ensures ok <==> AllEndInside(m, table, size, refs, count)
  {
    for k := 0 to count
      invariant forall i | 0 <= i < k :: EndsInside(m, table, size, Word(m, refs + 4 * i, 4))
    {
      ok := CheckStringRef(m, table, size, Word(m, refs + 4 * k, 4));
      if !ok { return; }
    }
    ok := true;
  }

  /** check_image_meta. */
  method CheckImageMeta(m: Bytes) returns (ok: bool)
    ensures ok <==> MetaAccepted(m)
  {
    hide EndsInside, AllEndInside, UnLE;
    if |m| < 48 { return false; }
    var h := MetaHeadOf(m);
    if h.argc > 128 || h.envc > 128 || h.auxc > 128 { return false; }
    if !ArrayOk(h.argv, h.argc, 4, |m|) || !ArrayOk(h.env, h.envc, 4, |m|) || !ArrayOk(h.auxv, h.auxc, 16, |m|) {
      return false;
    }
    if h.auxc != 0 && h.auxv % 8 != 0 { return false; }
    if h.strs > |m| || h.strSize > |m| - h.strs { return false; }
    if (h.argc != 0 || h.envc != 0) && h.strSize == 0 {
      NothingInside(m, h.strs, h.name);
      return false;
    }
    ok := CheckStringRef(m, h.strs, h.strSize, h.name);
    if !ok { return; }
    ok := CheckStringRefs(m, h.strs, h.strSize, h.argv, h.argc);
    if !ok { return; }
    ok := CheckStringRefs(m, h.strs, h.strSize, h.env, h.envc);
    if !ok { return; }
    return h.stack % 4096 == 0;
  }

  lemma {:induction false} NothingInside(m: Bytes, table: nat, off: nat)
    requires table <= |m|
    ensures !EndsInside(m, table, 0, off)
  {
  }

  /** strscpy into a buffer of 128 bytes. */
  function Short(name: Bytes): Bytes {
    if |name| <= 127 then name else name[..127]
  }

  /** The strings whose offsets stand in an array. */
  function StringsAt(m: Bytes, table: nat, size: nat, refs: nat, count: nat): (r: seq<Bytes>)
    requires table + size <= |m| && ArrayOk(refs, count, 4, |m|)
  {
    seq(count, k requires 0 <= k < count =>
      var o := Word(m, refs + 4 * k, 4); if o <= size then CString(m, table + o) else [])
  }

  /** What load_user_meta takes over from metadata that it accepts. */
  ghost function Loaded(m: Bytes): Info
    requires MetaAccepted(m)
  {
    var h := MetaHeadOf(m);
    NameInside(m);
    Info(Short(CString(m, h.strs + h.name)),
         StringsAt(m, h.strs, h.strSize, h.argv, h.argc), StringsAt(m, h.strs, h.strSize, h.env, h.envc),
         seq(h.auxc, k requires 0 <= k < h.auxc => Aux(Word(m, h.auxv + 16 * k, 8), Word(m, h.auxv + 16 * k + 8, 8))),
         h.stack)
  }

  lemma {:induction false} NameInside(m: Bytes)
    requires MetaAccepted(m)
    ensures MetaHeadOf(m).strs + MetaHeadOf(m).name <= |m|
  {
  }

  lemma {:induction false} CStringStops(b: Bytes, o: nat, j: nat)
    requires o <= j < |b| && b[j] == 0
    ensures o + |CString(b, o)| <= j && b[o + |CString(b, o)|] == 0
    decreases j - o
  {
    if b[o] != 0 { CStringStops(b, o + 1, j); }
  }

  /** The string at off of the table that the words 12 and 32 describe has its NUL inside the table. */
  predicate Terminated(m: Bytes, off: nat)
    requires 48 <= |m|
  {
    var o, end := Word(m, 32, 4) + off, Word(m, 32, 4) + Word(m, 12, 4);
    o < end <= |m| && o + |CString(m, o)| < end && m[o + |CString(m, o)|] == 0
  }

  lemma {:induction false} InsideTerminated(m: Bytes, off: nat)
    requires 48 <= |m| && Word(m, 32, 4) + Word(m, 12, 4) <= |m|
    requires EndsInside(m, Word(m, 32, 4), Word(m, 12, 4), off)
    ensures Terminated(m, off)
  {
    hide Word, CString;
    var o := Word(m, 32, 4) + off;
    var j: nat :| o <= j < Word(m, 32, 4) + Word(m, 12, 4) && m[j] == 0;
    CStringStops(m, o, j);
  }

  /** Of whatever bytes the kernel accepts as metadata, all that it reads through them lies inside them. */
  lemma {:induction false} AcceptedSafe(m: Bytes)
    requires MetaAccepted(m)
    ensures 48 <= |m| && Word(m, 40, 8) % 4096 == 0 && Terminated(m, Word(m, 16, 4))
    ensures Word(m, 0, 4) <= 128 && Word(m, 4, 4) <= 128 && Word(m, 8, 4) <= 128
    ensures forall k | 0 <= k < Word(m, 0, 4) :: RefSafe(m, Word(m, 20, 4) + 4 * k)
    ensures forall k | 0 <= k < Word(m, 4, 4) :: RefSafe(m, Word(m, 24, 4) + 4 * k)
    ensures Word(m, 8, 4) > 0 ==> Word(m, 28, 4) % 8 == 0 && Word(m, 28, 4) + 16 * Word(m, 8, 4) <= |m|
  {
    hide Word, Terminated, EndsInside;
    InsideTerminated(m, Word(m, 16, 4));
    var h := MetaHeadOf(m);
    forall k | 0 <= k < h.argc ensures RefSafe(m, h.argv + 4 * k) {
      InsideTerminated(m, Word(m, h.argv + 4 * k, 4));
    }
    forall k | 0 <= k < h.envc ensures RefSafe(m, h.env + 4 * k) {
      InsideTerminated(m, Word(m, h.env + 4 * k, 4));
    }
  }

  /** A string offset stands at p, and its string ends in the table. */
  predicate RefSafe(m: Bytes, p: nat)
    requires 48 <= |m|
  {
    p + 4 <= |m| && Terminated(m, Word(m, p, 4))
  }

  /** load_user_meta: check, then take over. */
  method LoadUserMeta(m: Bytes) returns (r: Option<Info>)
    ensures r.Some? <==> MetaAccepted(m)
    ensures r.Some? ==> r.value == Loaded(m)
  {
    hide MetaAccepted;
    var ok := CheckImageMeta(m);
    if !ok { return None; }
    AcceptedArrays(m);
    NameInside(m);
    var h := MetaHeadOf(m);
    var argv := PointStrings(m, h.strs, h.strSize, h.argv, h.argc);
    var env := PointStrings(m, h.strs, h.strSize, h.env, h.envc);
    var auxv: seq<Aux> := [];
    for k := 0 to h.auxc
      invariant |auxv| == k
      invariant forall i | 0 <= i < k :: auxv[i] == Aux(Word(m, h.auxv + 16 * i, 8), Word(m, h.auxv + 16 * i + 8, 8))
    {
      auxv := auxv + [Aux(Word(m, h.auxv + 16 * k, 8), Word(m, h.auxv + 16 * k + 8, 8))];
    }
    return Some(Info(Short(CString(m, h.strs + h.name)), argv, env, auxv, h.stack));
  }

  /** The loops that set argv and env. */
  method PointStrings(m: Bytes, table: nat, size: nat, refs: nat, count: nat) returns (r: seq<Bytes>)
    requires table + size <= |m| && ArrayOk(refs, count, 4, |m|) && AllEndInside(m, table, size, refs, count)
    ensures r == StringsAt(m, table, size, refs, count)
  {
    r := [];
    for k := 0 to count
      invariant |r| == k && forall i | 0 <= i < k :: r[i] == StringsAt(m, table, size, refs, count)[i]
    {
      assert EndsInside(m, table, size, Word(m, refs + 4 * k, 4));
      r := r + [CString(m, table + Word(m, refs + 4 * k, 4))];
    }
  }

  lemma {:induction false} AcceptedArrays(m: Bytes)
    requires MetaAccepted(m)
    ensures 48 <= |m|
    ensures var h := MetaHeadOf(m);
            && ArrayOk(h.argv, h.argc, 4, |m|) && ArrayOk(h.env, h.envc, 4, |m|) && ArrayOk(h.auxv, h.auxc, 16, |m|)
            && h.strs + h.strSize <= |m|
            && AllEndInside(m, h.strs, h.strSize, h.argv, h.argc) && AllEndInside(m, h.strs, h.strSize, h.env, h.envc)
  {
  }

  // ----- What the packer writes, as the kernel reads it -----

  lemma {:induction false} SumFours(n: nat)
    ensures Sum(seq(n, _ => 4)) == 4 * n
  {
    if n > 0 {
      SumFours(n - 1);
      assert seq(n, _ => 4)[1..] == seq(n - 1, _ => 4);
    }
  }

  /** Word j of the metadata. */
  lemma {:induction false} MetaWord(i: Info, j: nat)
    requires MetaFits(i) && j < 11
    ensures 48 <= |Meta(i)| && Word(Meta(i), 4 * j, if j < 10 then 4 else 8) == MetaValues(i)[j]
  {
    hide Pack, Table, Strings, UnLE, Sum, AllFit, Starts, Refs, AuxRows, MetaValues, Meta;
    MetaShape(i);
    var m, h := Meta(i), Pack(META_WIDTHS, MetaValues(i));
    assert m[0..0 + |h|] == h;
    Sizes();
    PackField(META_WIDTHS, MetaValues(i), j);
    assert META_WIDTHS[..j] == seq(j, _ => 4);
    SumFours(j);
    assert META_WIDTHS[j] == if j < 10 then 4 else 8;
    SliceOf(m, 0, h, 4 * j, META_WIDTHS[j]);
  }

  /** The head of the metadata: counts, the size of the string table, and where the parts stand. */
  lemma {:induction false} PackedHead(i: Info)
    requires MetaFits(i)
    ensures 48 <= |Meta(i)| && StringsOffset(i) <= |Meta(i)|
    ensures MetaHeadOf(Meta(i)) ==
            MetaHead(|i.argv|, |i.env|, |i.auxv|, |Meta(i)| - StringsOffset(i), 0, 48, 48 + 4 * |i.argv|, AuxvOffset(i),
                     StringsOffset(i), i.stackSize)
    ensures Word(Meta(i), 36, 4) == 0
  {
    hide Word, Meta, Strings, StringsOffset, AuxvOffset;
    MetaWord(i, 0);
    MetaWord(i, 1);
    MetaWord(i, 2);
    MetaWord(i, 3);
    MetaWord(i, 4);
    MetaWord(i, 5);
    MetaWord(i, 6);
    MetaWord(i, 7);
    MetaWord(i, 8);
    MetaWord(i, 9);
    MetaWord(i, 10);
    MetaParts(i);
  }

  /** The tables of the metadata and its strings. */
  lemma {:induction false} MetaParts(i: Info)
    requires MetaFits(i)
    ensures var m, s := Meta(i), Strings(AllStrings(i));
            var a, e, x := Table(REF_WIDTHS, Refs(ArgvStarts(i))), Table(REF_WIDTHS, Refs(EnvStarts(i))),
            Table(AUXV_WIDTHS, AuxRows(i.auxv));
            && |a| == 4 * |i.argv| && |e| == 4 * |i.env| && |x| == 16 * |i.auxv|
            && 48 + |a| + |e| <= AuxvOffset(i) && AuxvOffset(i) + |x| == StringsOffset(i)
            && |m| == StringsOffset(i) + |s|
            && m[48..48 + |a|] == a && m[48 + |a|..48 + |a| + |e|] == e
            && m[AuxvOffset(i)..AuxvOffset(i) + |x|] == x && m[StringsOffset(i)..] == s
            && m == m[..StringsOffset(i)] + s && AuxvOffset(i) % 8 == 0
  {
    hide Pack, Table, Strings, Sum, AllFit, Starts, Refs, AuxRows, MetaValues, Meta, AlignUp;
    MetaShape(i);
    Sizes();
    AlignUpLeast(META_SIZE + 4 * |i.argv| + 4 * |i.env|, 8);
    TableSize(REF_WIDTHS, Refs(ArgvStarts(i)));
    TableSize(REF_WIDTHS, Refs(EnvStarts(i)));
    TableSize(AUXV_WIDTHS, AuxRows(i.auxv));
    SixParts(Pack(META_WIDTHS, MetaValues(i)), Table(REF_WIDTHS, Refs(ArgvStarts(i))),
             Table(REF_WIDTHS, Refs(EnvStarts(i))), Zeros(Gap(i)), Table(AUXV_WIDTHS, AuxRows(i.auxv)),
             Strings(AllStrings(i)));
  }

  lemma {:induction false} SixParts(h: Bytes, a: Bytes, e: Bytes, z: Bytes, x: Bytes, s: Bytes)
    ensures var m := h + a + e + z + x + s; var p, q := |h| + |a|, |h| + |a| + |e| + |z|;
            && m[|h|..p] == a && m[p..p + |e|] == e && m[q..q + |x|] == x && m[q + |x|..] == s
            && m == m[..q + |x|] + s
  {
  }

  /** A table of offsets reads back as the offsets. */
  lemma {:induction false} RefAt(m: Bytes, o: nat, os: seq<nat>, k: nat)
    requires AllFit(REF_WIDTHS, Refs(os)) && k < |os|
    requires var t := Table(REF_WIDTHS, Refs(os)); o + |t| <= |m| && m[o..o + |t|] == t
    ensures o + 4 * k + 4 <= |m| && Word(m, o + 4 * k, 4) == os[k]
  {
    hide Table, UnLE, AllFit, Sum;
    Sizes();
    SumNone();
    TableField(REF_WIDTHS, Refs(os), m, o, k, 0);
    assert REF_WIDTHS[..0] == [];
  }

  lemma {:induction false} AuxAt(m: Bytes, o: nat, auxv: seq<Aux>, k: nat)
    requires AllFit(AUXV_WIDTHS, AuxRows(auxv)) && k < |auxv|
    requires var t := Table(AUXV_WIDTHS, AuxRows(auxv)); o + |t| <= |m| && m[o..o + |t|] == t
    ensures o + 16 * k + 16 <= |m|
    ensures Word(m, o + 16 * k, 8) == auxv[k].kind && Word(m, o + 16 * k + 8, 8) == auxv[k].value
  {
    hide Table, UnLE, AllFit, Sum;
    Sizes();
    SumNone();
    TableField(AUXV_WIDTHS, AuxRows(auxv), m, o, k, 0);
    TableField(AUXV_WIDTHS, AuxRows(auxv), m, o, k, 1);
    assert AUXV_WIDTHS[..0] == [] && AUXV_WIDTHS[..1] == [8];
    SumTwo(8, 0);
  }

  lemma {:induction false} StartsBelow(ss: seq<Bytes>, o: nat, k: nat)
    requires k < |ss|
    ensures o <= Starts(ss, o)[k] < o + |Strings(ss)|
  {
    if k > 0 { StartsBelow(ss[1..], o + |ss[0]| + 1, k - 1); }
  }

  /** The string table ends with a NUL. */
  lemma {:induction false} StringsEnd(ss: seq<Bytes>)
    requires ss != []
    ensures Strings(ss) != [] && Strings(ss)[|Strings(ss)| - 1] == 0
  {
    if |ss| > 1 { StringsEnd(ss[1..]); }
  }

  /** In the string table of an image every offset inside it is a string that ends inside it. */
  lemma {:induction false} PackedEnds(i: Info, off: nat)
    requires MetaFits(i) && off < |Strings(AllStrings(i))|
    ensures StringsOffset(i) + |Strings(AllStrings(i))| == |Meta(i)|
    ensures EndsInside(Meta(i), StringsOffset(i), |Strings(AllStrings(i))|, off)
  {
    hide Meta, Strings, MetaFits, StringsOffset;
    MetaParts(i);
    StringsEnd(AllStrings(i));
    var m, s := Meta(i), Strings(AllStrings(i));
    assert m[StringsOffset(i) + (|s| - 1)] == m[StringsOffset(i)..][|s| - 1];
  }

  /** The offsets of the arguments and of the environment lie inside the string table. */
  lemma {:induction false} PackedStarts(i: Info)
    ensures 0 < |Strings(AllStrings(i))|
    ensures forall k | 0 <= k < |i.argv| :: ArgvStarts(i)[k] < |Strings(AllStrings(i))|
    ensures forall k | 0 <= k < |i.env| :: EnvStarts(i)[k] < |Strings(AllStrings(i))|
  {
    hide Strings, Starts;
    StringsOf(i);
    forall k | 0 <= k < |i.argv| ensures ArgvStarts(i)[k] < |Strings(AllStrings(i))| {
      StartsBelow(i.argv, |i.name| + 1, k);
    }
    forall k | 0 <= k < |i.env| ensures EnvStarts(i)[k] < |Strings(AllStrings(i))| {
      StartsBelow(i.env, |i.name| + 1 + |Strings(i.argv)|, k);
    }
  }

  /** What the kernel limits: the counts, and the alignment of the stack size. */
  predicate Modest(i: Info) {
    |i.argv| <= 128 && |i.env| <= 128 && |i.auxv| <= 128 && i.stackSize % 4096 == 0
  }

  /** The kernel accepts the metadata of exactly the images that keep its limits. */
  lemma {:induction false} MetaPasses(i: Info)
    requires MetaFits(i)
    ensures MetaAccepted(Meta(i)) <==> Modest(i)
  {
    hide Meta, Strings, StringsOffset, AuxvOffset, MetaFits, Word, EndsInside, Table, Refs, Starts, AuxRows;
    PackedHead(i);
    MetaParts(i);
    PackedStarts(i);
    PackedEnds(i, 0);
    ArraysPass(i);
  }

  lemma {:induction false} ArraysPass(i: Info)
    requires MetaFits(i)
    ensures var m, s := Meta(i), |Strings(AllStrings(i))|;
            && StringsOffset(i) + s == |m|
            && ArrayOk(48, |i.argv|, 4, |m|) && ArrayOk(48 + 4 * |i.argv|, |i.env|, 4, |m|)
            && ArrayOk(AuxvOffset(i), |i.auxv|, 16, |m|)
            && AllEndInside(m, StringsOffset(i), s, 48, |i.argv|)
            && AllEndInside(m, StringsOffset(i), s, 48 + 4 * |i.argv|, |i.env|)
  {
    hide Meta, Strings, StringsOffset, AuxvOffset, Word, EndsInside, Table, Refs, Starts, AuxRows, AllFit, Fit;
    MetaParts(i);
    PackedStarts(i);
    var m, s := Meta(i), |Strings(AllStrings(i))|;
    forall k | 0 <= k < |i.argv| ensures EndsInside(m, StringsOffset(i), s, Word(m, 48 + 4 * k, 4)) {
      RefAt(m, 48, ArgvStarts(i), k);
      PackedEnds(i, ArgvStarts(i)[k]);
    }
    forall k | 0 <= k < |i.env|
      ensures EndsInside(m, StringsOffset(i), s, Word(m, 48 + 4 * |i.argv| + 4 * k, 4))
    {
      RefAt(m, 48 + 4 * |i.argv|, EnvStarts(i), k);
      PackedEnds(i, EnvStarts(i)[k]);
    }
  }

  /** What the kernel takes over is what was packed, with a long name cut off. */
  lemma {:induction false} MetaLoads(i: Info)
    requires MetaFits(i) && Modest(i) && InfoText(i)
    ensures MetaAccepted(Meta(i))
    ensures Loaded(Meta(i)) == if |i.name| < 128 then i else i.(name := i.name[..127])
  {
    hide Meta, Strings, StringsOffset, AuxvOffset, Word, Table, Refs, Starts, AuxRows, AllFit, Fit, MetaAccepted,
         CString, InfoText, StringsAt;
    MetaPasses(i);
    PackedHead(i);
    MetaParts(i);
    NameInside(Meta(i));
    AcceptedArrays(Meta(i));
    StringsLoad(i);
    forall k | 0 <= k < |i.auxv|
      ensures Word(Meta(i), AuxvOffset(i) + 16 * k, 8) == i.auxv[k].kind
      ensures Word(Meta(i), AuxvOffset(i) + 16 * k + 8, 8) == i.auxv[k].value
    {
      AuxAt(Meta(i), AuxvOffset(i), i.auxv, k);
    }
    assert Loaded(Meta(i)).auxv == i.auxv;
  }

  lemma {:induction false} StringsLoad(i: Info)
    requires MetaFits(i) && InfoText(i)
    ensures var m, o, s := Meta(i), StringsOffset(i), |Strings(AllStrings(i))|;
            && o + s == |m| && CString(m, o) == i.name
            && ArrayOk(48, |i.argv|, 4, |m|) && StringsAt(m, o, s, 48, |i.argv|) == i.argv
            && ArrayOk(48 + 4 * |i.argv|, |i.env|, 4, |m|)
            && StringsAt(m, o, s, 48 + 4 * |i.argv|, |i.env|) == i.env
  {
    hide Meta, Strings, StringsOffset, AuxvOffset, Word, Table, Refs, Starts, AuxRows, AllFit, Fit, CString, Text,
         StringsAt, EndsInside;
    MetaParts(i);
    ArraysPass(i);
    PackedStarts(i);
    StringsOf(i);
    var m, o, s := Meta(i), StringsOffset(i), |Strings(AllStrings(i))|;
    var pre, n, a, e := m[..o], i.name + [0], Strings(i.argv), Strings(i.env);
    ThreeStrings(m, pre, i.name, a, e);
    CStringIs(pre, i.name, a + e);
    StringsAtIs(m, pre, n, i.argv, e, s, 48);
    StringsAtIs(m, pre, n + a, i.env, [], s, 48 + 4 * |i.argv|);
  }

  lemma {:induction false} ThreeStrings(m: Bytes, pre: Bytes, name: Bytes, a: Bytes, e: Bytes)
    requires m == pre + (name + [0] + a + e)
    ensures m == pre + name + [0] + (a + e) && m == pre + (name + [0]) + a + e
    ensures m == pre + (name + [0] + a) + e + []
  {
  }

  /** Strings in the middle of a table, through the array of their starts. */
  lemma {:induction false} StringsAtIs(m: Bytes, pre: Bytes, skip: Bytes, ss: seq<Bytes>, post: Bytes, s: nat,
                                       refs: nat)
    requires m == pre + skip + Strings(ss) + post && |pre| + s <= |m| && |skip| + |Strings(ss)| <= s && AllText(ss)
    requires AllFit(REF_WIDTHS, Refs(Starts(ss, |skip|))) && ArrayOk(refs, |ss|, 4, |m|)
    requires var t := Table(REF_WIDTHS, Refs(Starts(ss, |skip|))); refs + |t| <= |m| && m[refs..refs + |t|] == t
    ensures StringsAt(m, |pre|, s, refs, |ss|) == ss
  {
    hide Strings, Starts, Word, Refs, Table, AllFit, CString, AllText, ArrayOk;
    var r := StringsAt(m, |pre|, s, refs, |ss|);
    forall k | 0 <= k < |ss| ensures r[k] == ss[k] {
      RefAt(m, refs, Starts(ss, |skip|), k);
      StartsBelow(ss, |skip|, k);
      StringsRoundTrip(pre, skip, ss, post, k);
    }
  }

  // ----- The header and the descriptors -----

  /** struct proc_pkg_header without its reserved word. */
  datatype PkgHeader = PkgHeader(magic: nat, version: nat, headerSize: nat, count: nat, descOffset: nat, descSize: nat,
                                 total: nat)

  function HeaderOf(b: Bytes): PkgHeader
    requires 32 <= |b|
  {
    PkgHeader(Word(b, 0, 4), Word(b, 4, 2), Word(b, 6, 2), Word(b, 8, 4), Word(b, 12, 4), Word(b, 16, 4),
              Word(b, 24, 8))
  }

  /** struct proc_image_desc. */
  datatype Desc = Desc(kind: nat, flags: nat, image: nat, imageSize: nat, meta: nat, metaSize: nat, load: nat,
                       entry: nat)

  function DescOf(b: Bytes, o: nat): Desc
    requires o + 56 <= |b|
  {
    Desc(Word(b, o, 4), Word(b, o + 4, 4), Word(b, o + 8, 8), Word(b, o + 16, 8), Word(b, o + 24, 8),
         Word(b, o + 32, 8), Word(b, o + 40, 8), Word(b, o + 48, 8))
  }

  const U32: nat := 0x1_0000_0000

  /** check_pkg_header; the end of the descriptors is a sum of 32 bits. */
  predicate CheckPkgHeader(b: Bytes) {
    && 32 <= |b|
    && var h := HeaderOf(b);
       && h.magic == 0x504B_4750 && 1 <= h.version && 32 <= h.headerSize <= |b| && h.headerSize <= h.total <= |b|
       && h.count != 0 && h.count <= 0xFFFF_FFFF / 56 && h.descSize == h.count * 56
       && h.headerSize <= h.descOffset < h.total && h.descSize <= h.total - h.descOffset
       && AlignUp((h.descOffset + h.descSize) % U32, 4096) <= h.total
  }

  /** ALIGN of a value of 32 bits to pages. */
  function PageAlign32(x: nat): (r: nat)
    ensures r <= x + 4095 && r % 4096 == 0
  {
    var y := (x + 4095) % U32;
    y - y % 4096
  }

  /** check_image_desc. */
  predicate CheckImageDesc(h: PkgHeader, d: Desc) {
    var start := PageAlign32((h.descOffset + h.descSize) % U32);
    && d.image < h.total && d.meta < h.total && start <= d.image && start <= d.meta
    && 0 < d.imageSize <= 0x800_0000 && 0 < d.metaSize <= 0x10_0000
    && d.imageSize <= h.total - d.image && d.metaSize <= h.total - d.meta
    && d.image % 4096 == 0 && d.meta % 4096 == 0 && (d.kind == 1 || d.kind == 2)
  }

  /** In an accepted package every descriptor, and what an accepted descriptor names, lies in the blob. */
  lemma {:induction false} CheckedInside(b: Bytes, k: nat)
    requires CheckPkgHeader(b) && k < HeaderOf(b).count
    ensures var h := HeaderOf(b);
            && h.descOffset + 56 * k + 56 <= |b|
            && var d := DescOf(b, h.descOffset + 56 * k);
               CheckImageDesc(h, d) ==> d.image + d.imageSize <= |b| && d.meta + d.metaSize <= |b|
  {
    hide Word, PageAlign32, AlignUp;
  }

  /** A package that passes starts with the magic bytes and a version that is not 0. */
  lemma {:induction false} CheckedStart(b: Bytes)
    requires CheckPkgHeader(b)
    ensures 32 <= |b| && b[..4] == [0x50, 0x47, 0x4B, 0x50] && b[4..6] != [0, 0]
  {
    FourBytes(b[0..4]);
    assert b[..4] == b[0..4];
    if b[4..6] == [0, 0] { TwoZeros(); }
  }

  lemma {:induction false} UnLEFirst(c: Bytes)
    ensures UnLE(c) == if c == [] then 0 else c[0] as int + 256 * UnLE(c[1..])
  {
  }

  lemma {:induction false} TwoZeros()
    ensures UnLE([0, 0]) == 0
  {
    assert [0, 0][1..] == [0];
  }

  lemma {:induction false} FourBytes(c: Bytes)
    requires |c| == 4 && UnLE(c) == 0x504B_4750
    ensures c == [0x50, 0x47, 0x4B, 0x50]
  {
    hide UnLE;
    UnLEFirst(c);
    UnLEFirst(c[1..]);
    UnLEFirst(c[1..][1..]);
    UnLEFirst(c[1..][1..][1..]);
    UnLEFirst([]);
  }

  /** What load_one_image registers; elf says whether load_user_elf takes the payload, and flat images are refused. */
  ghost function LoadedImage(b: Bytes, k: nat, elf: Bytes -> bool): Option<Info>
    requires CheckPkgHeader(b) && k < HeaderOf(b).count
  {
    CheckedInside(b, k);
    var h := HeaderOf(b);
    var d := DescOf(b, h.descOffset + 56 * k);
    if CheckImageDesc(h, d) && d.kind == 1 && elf(b[d.image..d.image + d.imageSize])
       && MetaAccepted(b[d.meta..d.meta + d.metaSize])
    then Some(Loaded(b[d.meta..d.meta + d.metaSize])) else None
  }

  /** load_one_image. */
  method LoadOneImage(b: Bytes, k: nat, elf: Bytes -> bool) returns (r: Option<Info>)
    requires CheckPkgHeader(b) && k < HeaderOf(b).count
    ensures r == LoadedImage(b, k, elf)
  {
    hide CheckPkgHeader, Word, MetaAccepted, Loaded;
    CheckedInside(b, k);
    CheckedSize(b);
    var h := HeaderOf(b);
    var d := DescOf(b, h.descOffset + 56 * k);
    if !CheckImageDesc(h, d) { return None; }
    if d.kind != 1 { return None; }
    if !elf(b[d.image..d.image + d.imageSize]) { return None; }
    r := LoadUserMeta(b[d.meta..d.meta + d.metaSize]);
  }

  lemma {:induction false} CheckedSize(b: Bytes)
    requires CheckPkgHeader(b)
    ensures 32 <= |b|
  {
  }

  /** The first n images, as far as they are registered. */
  ghost function LoadedFirst(b: Bytes, n: nat, elf: Bytes -> bool): (r: seq<Info>)
    requires CheckPkgHeader(b) && n <= HeaderOf(b).count
  {
    if n == 0 then []
    else
      var i := LoadedImage(b, n - 1, elf);
      LoadedFirst(b, n - 1, elf) + if i.Some? then [i.value] else []
  }

  /** load_processes: at most 128 processes, in the order of the package. */
  method LoadProcesses(b: Bytes, elf: Bytes -> bool) returns (r: Option<seq<Info>>)
    ensures r.Some? <==> CheckPkgHeader(b)
    ensures r.Some? ==>
              var all := LoadedFirst(b, HeaderOf(b).count, elf);
              r.value == if |all| <= 128 then all else all[..128]
  {
    hide LoadedImage, LoadedFirst, Word, CheckPkgHeader;
    if !CheckPkgHeader(b) { return None; }
    CheckedSize(b);
    var count := HeaderOf(b).count;
    var loaded: seq<Info> := [];
    LoadedStep(b, 0, elf);
    for k := 0 to count
      invariant |loaded| <= 128 && loaded == LoadedFirst(b, k, elf)
    {
      if |loaded| >= 128 {
        LoadedPrefix(b, k, count, elf);
        return Some(loaded);
      }
      var i := LoadOneImage(b, k, elf);
      LoadedStep(b, k + 1, elf);
      if i.Some? { loaded := loaded + [i.value]; }
    }
    return Some(loaded);
  }

  lemma {:induction false} LoadedStep(b: Bytes, n: nat, elf: Bytes -> bool)
    requires CheckPkgHeader(b) && n <= HeaderOf(b).count
    ensures LoadedFirst(b, n, elf) ==
            if n == 0 then []
            else LoadedFirst(b, n - 1, elf)
                 + match LoadedImage(b, n - 1, elf) { case Some(i) => [i] case None => [] }
  {
  }

  lemma {:induction false} LoadedPrefix(b: Bytes, k: nat, n: nat, elf: Bytes -> bool)
    requires CheckPkgHeader(b) && k <= n <= HeaderOf(b).count
    ensures LoadedFirst(b, k, elf) <= LoadedFirst(b, n, elf)
    decreases n
  {
    hide CheckPkgHeader, Word, LoadedImage, LoadedFirst;
    if k < n {
      LoadedStep(b, n, elf);
      LoadedPrefix(b, k, n - 1, elf);
    }
  }

  // ----- Packages of the packer -----

  lemma {:induction false} HeaderOffsets()
    ensures Sum(HEADER_WIDTHS[..0]) == 0 && Sum(HEADER_WIDTHS[..1]) == 4 && Sum(HEADER_WIDTHS[..2]) == 6
    ensures Sum(HEADER_WIDTHS[..3]) == 8 && Sum(HEADER_WIDTHS[..4]) == 12 && Sum(HEADER_WIDTHS[..5]) == 16
    ensures Sum(HEADER_WIDTHS[..7]) == 24
  {
    hide Sum;
    var w := HEADER_WIDTHS;
    SumNone();
    SumSnoc(w, 0);
    SumSnoc(w, 1);
    SumSnoc(w, 2);
    SumSnoc(w, 3);
    SumSnoc(w, 4);
    SumSnoc(w, 5);
    SumSnoc(w, 6);
    assert w[..0] == [];
  }

  lemma {:induction false} DescOffsets(j: nat)
    requires j < 8
    ensures Sum(DESC_WIDTHS[..j]) == if j < 2 then 4 * j else 8 * j - 8
  {
    hide Sum;
    SumNone();
    if j == 0 {
      assert DESC_WIDTHS[..0] == [];
    } else {
      DescOffsets(j - 1);
      SumSnoc(DESC_WIDTHS, j - 1);
    }
  }

  lemma {:induction false} SumSnoc(ws: seq<nat>, j: nat)
    requires j < |ws|
    ensures Sum(ws[..j + 1]) == Sum(ws[..j]) + ws[j]
  {
    assert ws[..j + 1] == ws[..j] + [ws[j]];
    SumConcat(ws[..j], [ws[j]]);
    SumTwo(ws[j], 0);
  }

  /** Field j of the header of a package. */
  lemma {:induction false} HeaderField(b: Bytes, n: nat, j: nat)
    requires 32 <= |b| && Fit(HEADER_WIDTHS, HeaderValues(n, |b|)) && j < 8
    requires b[..32] == Pack(HEADER_WIDTHS, HeaderValues(n, |b|))
    ensures Sum(HEADER_WIDTHS[..j]) + HEADER_WIDTHS[j] <= 32
    ensures Word(b, Sum(HEADER_WIDTHS[..j]), HEADER_WIDTHS[j]) == HeaderValues(n, |b|)[j]
  {
    hide Pack, Sum, UnLE, Fit;
    Sizes();
    PackField(HEADER_WIDTHS, HeaderValues(n, |b|), j);
    SliceOf(b, 0, Pack(HEADER_WIDTHS, HeaderValues(n, |b|)), Sum(HEADER_WIDTHS[..j]), HEADER_WIDTHS[j]);
  }

  lemma {:induction false} PackageHead(b: Bytes, images: seq<Image>, slots: seq<Slot>, align: nat)
    requires IsPackage(b, images, slots, align)
    ensures forall k | 0 <= k < |images| :: MetaFits(images[k].info)
    ensures var n, metas := |images|, Metas(images);
            && 32 + 56 * n <= |b| && |slots| == n
            && Fit(HEADER_WIDTHS, HeaderValues(n, |b|)) && AllFit(DESC_WIDTHS, DescRows(images, metas, slots))
            && b[..32] == Pack(HEADER_WIDTHS, HeaderValues(n, |b|))
            && |Table(DESC_WIDTHS, DescRows(images, metas, slots))| == 56 * n
            && b[32..32 + 56 * n] == Table(DESC_WIDTHS, DescRows(images, metas, slots))
  {
    hide Pack, Table, Fit, AllFit, DescRows, HeaderValues, Head, MetaFits, Meta, LaidOut, AllStored, AlignUp, Metas,
         Sum;
    var metas := Metas(images);
    HeadIs(images, metas, slots, |b|);
    Sizes();
    TableSize(DESC_WIDTHS, DescRows(images, metas, slots));
    TwoParts(b, Pack(HEADER_WIDTHS, HeaderValues(|images|, |b|)), Table(DESC_WIDTHS, DescRows(images, metas, slots)));
  }

  lemma {:induction false} TwoParts(b: Bytes, x: Bytes, y: Bytes)
    requires |x| + |y| <= |b| && b[..|x| + |y|] == x + y
    ensures b[..|x|] == x && b[|x|..|x| + |y|] == y
  {
    SliceParts(b, 0, x, y);
  }

  /** The header of a package, as the kernel reads it. */
  lemma {:induction false} PackedHeader(b: Bytes, images: seq<Image>, slots: seq<Slot>, align: nat)
    requires IsPackage(b, images, slots, align)
    ensures 32 <= |b|
    ensures HeaderOf(b) == PkgHeader(0x504B_4750, 1, 32, |images|, 32, 56 * |images|, |b|)
    ensures 56 * |images| < U32
  {
    hide Word, Pack, Sum, IsPackage, Table, AllFit, DescRows, Fit;
    PackageHead(b, images, slots, align);
    var n := |images|;
    HeaderOffsets();
    HeaderField(b, n, 0);
    HeaderField(b, n, 1);
    HeaderField(b, n, 2);
    HeaderField(b, n, 3);
    HeaderField(b, n, 4);
    HeaderField(b, n, 5);
    HeaderField(b, n, 7);
    DescSizeFits(n, |b|);
  }

  lemma {:induction false} DescSizeFits(n: nat, total: nat)
    requires Fit(HEADER_WIDTHS, HeaderValues(n, total))
    ensures 56 * n < U32
  {
    FourLE(0);
    assert HeaderValues(n, total)[5] < Pow256(HEADER_WIDTHS[5]);
  }

  lemma {:induction false} DescField(b: Bytes, images: seq<Image>, slots: seq<Slot>, align: nat, k: nat, j: nat)
    requires IsPackage(b, images, slots, align) && k < |images| && j < 8
    ensures |slots| == |images| && MetaFits(images[k].info)
    ensures var p, w := 32 + 56 * k + (if j < 2 then 4 * j else 8 * j - 8), if j < 2 then 4 else 8;
            p + w <= |b| && Word(b, p, w) == DescRow(images[k], Meta(images[k].info), slots[k])[j]
  {
    hide Word, Pack, Sum, IsPackage, Table, AllFit, Fit, MetaFits, Meta, DescRow;
    PackageHead(b, images, slots, align);
    Sizes();
    DescOffsets(j);
    TableField(DESC_WIDTHS, DescRows(images, Metas(images), slots), b, 32, k, j);
    assert DESC_WIDTHS[j] == if j < 2 then 4 else 8;
  }

  /** Descriptor k of a package, as the kernel reads it. */
  lemma {:induction false} PackedDesc(b: Bytes, images: seq<Image>, slots: seq<Slot>, align: nat, k: nat)
    requires IsPackage(b, images, slots, align) && k < |images|
    ensures |slots| == |images| && MetaFits(images[k].info) && 32 + 56 * k + 56 <= |b|
    ensures DescOf(b, 32 + 56 * k) ==
            Desc(images[k].kind, images[k].flags, slots[k].image, |images[k].data|, slots[k].meta,
                 |Meta(images[k].info)|, images[k].loadHint, images[k].entryHint)
  {
    hide Word, Pack, Sum, IsPackage, Table, AllFit, Fit, MetaFits, Meta;
    PackageParts(b, images, slots, align, k);
    DescField(b, images, slots, align, k, 0);
    DescField(b, images, slots, align, k, 1);
    DescField(b, images, slots, align, k, 2);
    DescField(b, images, slots, align, k, 3);
    DescField(b, images, slots, align, k, 4);
    DescField(b, images, slots, align, k, 5);
    DescField(b, images, slots, align, k, 6);
    DescField(b, images, slots, align, k, 7);
  }

  /** Where image k of a package stands. */
  lemma {:induction false} PackageParts(b: Bytes, images: seq<Image>, slots: seq<Slot>, align: nat, k: nat)
    requires IsPackage(b, images, slots, align) && k < |images|
    ensures 0 < align && |slots| == |images| && MetaFits(images[k].info)
    ensures var s, i := slots[k], images[k];
            && s.image + |i.data| <= s.meta && s.meta + |Meta(i.info)| <= |b|
            && b[s.image..s.image + |i.data|] == i.data && b[s.meta..s.meta + |Meta(i.info)|] == Meta(i.info)
            && s.image % align == 0 && s.meta % align == 0
            && AlignUp(32 + 56 * |images|, align) <= s.image
    ensures AlignUp(32 + 56 * |images|, align) <= |b|
  {
    hide Pack, Table, Fit, AllFit, DescRows, HeaderValues, Head, MetaFits, Meta, AlignUp;
    var metas := Metas(images);
    assert Stored(b, images[k], metas[k], slots[k]);
  }

  lemma {:induction false} AlignUpGrows(x: nat, y: nat, align: nat)
    requires 0 < align && align % 4096 == 0 && x <= y
    ensures AlignUp(x, 4096) <= AlignUp(y, align)
  {
    hide AlignUp;
    AlignUpLeast(x, 4096);
    AlignUpLeast(y, align);
    var r, a := AlignUp(y, align), AlignUp(x, 4096);
    Divides(r, align, 4096);
    Below(a, r);
  }

  lemma {:induction false} Divides(r: nat, align: nat, d: nat)
    requires 0 < d && 0 < align && align % d == 0 && r % align == 0
    ensures r % d == 0
  {
    var p := Bits.Euclid(r, align);
    var q := Bits.Euclid(align, d);
    assert r == p * (q * d) == (p * q) * d;
    Bits.ModUnique(r, d, p * q, 0);
  }

  /** Multiples of the page size less than a page apart are in order. */
  lemma {:induction false} Below(a: nat, r: nat)
    requires a % 4096 == 0 && r % 4096 == 0 && a < r + 4096
    ensures a <= r
  {
  }

  /** What the kernel demands of an image, its payload apart. */
  predicate Bootable(i: Image) {
    && MetaFits(i.info) && i.kind == 1 && 0 < |i.data| <= 0x800_0000 && |Meta(i.info)| <= 0x10_0000 && Modest(i.info)
  }

  /**
   A package passes the check of its header exactly when it holds an image and reaches to the page behind
   its descriptors; one that is aligned to pages does.
   */
  lemma {:induction false} HeaderPasses(b: Bytes, images: seq<Image>, slots: seq<Slot>, align: nat)
    requires IsPackage(b, images, slots, align)
    ensures CheckPkgHeader(b) <==> images != [] && AlignUp((32 + 56 * |images|) % U32, 4096) <= |b|
    ensures align % 4096 == 0 ==> (CheckPkgHeader(b) <==> images != [])
  {
    hide IsPackage, HeaderOf, AlignUp, Meta, MetaFits;
    PackedHeader(b, images, slots, align);
    if images != [] {
      PackageParts(b, images, slots, align, 0);
      CountFits(|images|);
      AlignUpLeast(32 + 56 * |images|, align);
      if align % 4096 == 0 { HeaderNumbers(|images|, |b|, align); }
    }
  }

  lemma {:induction false} CountFits(n: nat)
    requires 56 * n < U32
    ensures n <= 0xFFFF_FFFF / 56
  {
  }

  lemma {:induction false} HeaderNumbers(n: nat, total: nat, align: nat)
    requires 0 < n && 56 * n < U32 && 0 < align && align % 4096 == 0 && AlignUp(32 + 56 * n, align) <= total
    ensures n <= 0xFFFF_FFFF / 56 && 32 + 56 * n <= total && AlignUp((32 + 56 * n) % U32, 4096) <= total
  {
    hide AlignUp;
    var end := 32 + 56 * n;
    AlignUpLeast(end, align);
    WordBelow(end);
    AlignUpGrows(end % U32, end, align);
  }

  lemma {:induction false} WordBelow(x: nat)
    ensures x % U32 <= x
  {
  }

  /** Of such a package, the kernel registers exactly the images that keep its limits, each as it was packed. */
  lemma {:induction false} ImagePasses(b: Bytes, images: seq<Image>, slots: seq<Slot>, align: nat, k: nat,
                                       elf: Bytes -> bool)
    requires IsPackage(b, images, slots, align) && align % 4096 == 0 && k < |images| && InfoText(images[k].info)
    ensures CheckPkgHeader(b) && HeaderOf(b).count == |images|
    ensures LoadedImage(b, k, elf) ==
            if Bootable(images[k]) && elf(images[k].data)
            then Some(images[k].info.(name := Short(images[k].info.name))) else None
  {
    hide IsPackage, Word, AlignUp, CheckPkgHeader, Meta, MetaFits, MetaAccepted, Loaded, InfoText, Modest;
    HeaderPasses(b, images, slots, align);
    PackedHeader(b, images, slots, align);
    PackedDesc(b, images, slots, align, k);
    PackageParts(b, images, slots, align, k);
    DescPasses(b, images, slots, align, k);
    CheckedInside(b, k);
    var i := images[k];
    MetaPasses(i.info);
    if Modest(i.info) { MetaLoads(i.info); }
  }

  lemma {:induction false} DescPasses(b: Bytes, images: seq<Image>, slots: seq<Slot>, align: nat, k: nat)
    requires IsPackage(b, images, slots, align) && k < |images|
    ensures 32 <= |b| && 32 + 56 * k + 56 <= |b| && MetaFits(images[k].info) && |slots| == |images|
    ensures CheckImageDesc(HeaderOf(b), DescOf(b, 32 + 56 * k)) <==>
            && 0 < |images[k].data| <= 0x800_0000 && |Meta(images[k].info)| <= 0x10_0000
            && (images[k].kind == 1 || images[k].kind == 2) && AtPages(32 + 56 * |images|, slots[k])
    ensures align % 4096 == 0 ==> AtPages(32 + 56 * |images|, slots[k])
  {
    hide IsPackage, HeaderOf, DescOf, AlignUp, Meta, MetaFits, PageAlign32;
    PackedHeader(b, images, slots, align);
    PackedDesc(b, images, slots, align, k);
    PackageParts(b, images, slots, align, k);
    PackedHead(images[k].info);
    if align % 4096 == 0 { PlaceNumbers(32 + 56 * |images|, slots[k].image, slots[k].meta, align); }
  }

  /** Payload and metadata stand at pages, behind the page in which the descriptors end. */
  predicate AtPages(end: nat, s: Slot) {
    s.image % 4096 == 0 && s.meta % 4096 == 0 && PageAlign32(end % U32) <= s.image
  }

  lemma {:induction false} PlaceNumbers(end: nat, image: nat, meta: nat, align: nat)
    requires 0 < align && align % 4096 == 0 && image % align == 0 && meta % align == 0
    requires AlignUp(end, align) <= image <= meta
    ensures image % 4096 == 0 && meta % 4096 == 0 && PageAlign32(end % U32) <= image
  {
    hide AlignUp, PageAlign32;
    Divides(image, align, 4096);
    Divides(meta, align, 4096);
    AlignUpLeast(end, align);
    WordBelow(end);
    Below(PageAlign32(end % U32), image);
  }

  /** The infos of the first n images that the kernel registers. */
  function Booted(images: seq<Image>, n: nat, elf: Bytes -> bool): seq<Info>
    requires n <= |images|
  {
    if n == 0 then []
    else
      var i := images[n - 1];
      Booted(images, n - 1, elf)
      + if Bootable(i) && elf(i.data) then [i.info.(name := Short(i.info.name))] else []
  }

  lemma {:induction false} BootedFirst(b: Bytes, images: seq<Image>, slots: seq<Slot>, align: nat, n: nat,
                                       elf: Bytes -> bool)
    requires IsPackage(b, images, slots, align) && align % 4096 == 0 && n <= |images| && images != []
    requires forall k | 0 <= k < |images| :: InfoText(images[k].info)
    ensures CheckPkgHeader(b) && HeaderOf(b).count == |images|
    ensures LoadedFirst(b, n, elf) == Booted(images, n, elf)
  {
    hide IsPackage, Word, CheckPkgHeader, InfoText, Bootable, LoadedImage, LoadedFirst;
    HeaderPasses(b, images, slots, align);
    PackedHeader(b, images, slots, align);
    LoadedStep(b, n, elf);
    if n > 0 {
      BootedFirst(b, images, slots, align, n - 1, elf);
      ImagePasses(b, images, slots, align, n - 1, elf);
    }
  }

  /**
   From the configuration to the processes: a package of the packer, with page alignment, is refused by
   the kernel only if it holds no image, and the first 128 of the bootable images become processes with
   the names, arguments, environments, auxiliary vectors and stack sizes they were packed with.
   */
  method LoadPackage(file: Bytes, elf: Bytes -> bool, ghost images: seq<Image>, ghost slots: seq<Slot>,
                     ghost align: nat)
    returns (r: Option<seq<Info>>)
    requires IsPackage(file, images, slots, align) && align % 4096 == 0
    requires forall k | 0 <= k < |images| :: InfoText(images[k].info)
    ensures r.Some? <==> images != []
    ensures r.Some? ==>
              var all := Booted(images, |images|, elf);
              r.value == if |all| <= 128 then all else all[..128]
  {
    hide IsPackage, CheckPkgHeader, InfoText, LoadedFirst, Booted;
    HeaderPasses(file, images, slots, align);
    r := LoadProcesses(file, elf);
    if r.Some? { BootedFirst(file, images, slots, align, |images|, elf); }
  }
}
