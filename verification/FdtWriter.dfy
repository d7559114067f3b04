/**
 The sequential writer: a buffer in which the structure block grows upwards and the
 strings grow downwards from the end, and fdt_finish, which joins the two.
 */
module FdtWriter {
  import opened Basics
  import opened FdtTokens
  import opened FdtBuffer
  import opened FdtTree

  const FDT_MAGIC: nat := 0xD00D_FEED
  const FDT_SW_MAGIC: nat := 0x2FF2_0112
  const FDT_CREATE_FLAG_NO_NAME_DEDUP: nat := 1
  const FDT_FIRST_SUPPORTED_VERSION: nat := 2
  const FDT_LAST_SUPPORTED_VERSION: nat := 17

  /** Header and first reservation aligned together. */
  const HEADER: nat := 48
  const ENTRY: nat := 16

  /** Overrun is not an error code: there the code writes before the buffer, and the model stops. */
  datatype Err = Ok | NoSpace | BadState | BadMagic | BadFlags | BadStructure | Overrun

  datatype Reserve = Reserve(address: nat, size: nat) {
    predicate Ok() { address < WORD * WORD && size < WORD * WORD }
  }

  function BE64(x: nat): (b: Bytes)
    requires x < WORD * WORD
    ensures |b| == 8
  {
    BE32(x / WORD) + BE32(x % WORD)
  }

  function Entry(r: Reserve): (b: Bytes)
    requires r.Ok()
    ensures |b| == ENTRY
  {
    BE64(r.address) + BE64(r.size)
  }

  /** b starts with the entries of rs. */
  predicate ReserveTable(b: Bytes, rs: seq<Reserve>) {
    if rs == [] then true
    else rs[0].Ok() && ENTRY <= |b| && b[..ENTRY] == Entry(rs[0]) && ReserveTable(b[ENTRY..], rs[1..])
  }

  // ----- Names in the downward-growing table -----

  /** The string d bytes before the end of strs is name. */
  predicate EndsAt(strs: Bytes, d: nat, name: Bytes) {
    && |name| < d <= |strs| && 0 !in name
    && strs[|strs| - d..|strs| - d + |name|] == name && strs[|strs| - d + |name|] == 0
  }

  /** Token t of an unfinished blob stands for item i: names are addressed from the end of the table. */
  predicate Pending(t: Token, strs: Bytes, i: Item) {
    match i
    case Open(name) => t == Begin(name)
    case Attr(name, value) => t.Prop? && t.value == value && t.nameoff < WORD && EndsAt(strs, WORD - t.nameoff, name)
    case Close => t == EndNode
    case Skip => false
  }

  predicate AllPending(ts: seq<Token>, strs: Bytes, items: seq<Item>) {
    |ts| == |items| && forall k | 0 <= k < |ts| :: Pending(ts[k], strs, items[k])
  }

  /** The token after fdt_finish has moved the table to n bytes further down. */
  function Fix(t: Token, n: nat): Token {
    if t.Prop? then t.(nameoff := (t.nameoff + n) % WORD) else t
  }

  function FixAll(ts: seq<Token>, n: nat): (r: seq<Token>)
    ensures |r| == |ts| && forall k | 0 <= k < |ts| :: r[k] == Fix(ts[k], n)
  {
    if ts == [] then [] else [Fix(ts[0], n)] + FixAll(ts[1..], n)
  }

  /** Prepending to the table keeps every name. */
  lemma {:induction false} EndsAtGrows(strs: Bytes, more: Bytes, d: nat, name: Bytes)
    requires EndsAt(strs, d, name)
    ensures EndsAt(more + strs, d, name)
  {
    var s, o := more + strs, |strs| - d;
    assert s[|more| + o..|more| + o + |name|] == strs[o..o + |name|];
  }

  lemma {:induction false} PendingGrows(ts: seq<Token>, strs: Bytes, items: seq<Item>, more: Bytes)
    requires AllPending(ts, strs, items)
    ensures AllPending(ts, more + strs, items)
  {
    forall k | 0 <= k < |ts| ensures Pending(ts[k], more + strs, items[k]) {
      if items[k].Attr? { EndsAtGrows(strs, more, WORD - ts[k].nameoff, items[k].name); }
    }
  }

  /** A relocated name is found by fdt_get_string. */
  lemma {:induction false} FixedName(strs: Bytes, nameoff: nat, name: Bytes)
    requires nameoff < WORD && |strs| <= INT_MAX && EndsAt(strs, WORD - nameoff, name)
    ensures GetString(strs, (nameoff + |strs|) % WORD) == Some(name)
  {
    var o := |strs| - (WORD - nameoff);
    assert (nameoff + |strs|) % WORD == o;
    forall i | o <= i < o + |name| ensures strs[i] != 0 {
      assert strs[i] == strs[o..o + |name|][i - o];
    }
    NulIs(strs, o, o + |name|);
  }

  /** After relocation the tokens name the items they stood for. */
  lemma {:induction false} FixedNamed(ts: seq<Token>, strs: Bytes, items: seq<Item>)
    requires AllPending(ts, strs, items) && |strs| <= INT_MAX
    ensures Named(FixAll(ts, |strs|), strs, items)
  {
    hide Pending, ItemOf;
    forall k | 0 <= k < |ts| ensures ItemOf(FixAll(ts, |strs|)[k], strs) == Some(items[k]) {
      FixedItem(ts[k], strs, items[k]);
    }
  }

  lemma {:induction false} FixedItem(t: Token, strs: Bytes, i: Item)
    requires Pending(t, strs, i) && |strs| <= INT_MAX
    ensures ItemOf(Fix(t, |strs|), strs) == Some(i)
  {
    hide EndsAt, GetString;
    if t.Prop? { FixedName(strs, t.nameoff, i.name); }
  }

  /** The bytes b of an unfinished blob hold exactly these reservations, tokens and names. */
  predicate Draft(b: Bytes, os: nat, zs: nat, zt: nat, rs: seq<Reserve>, ts: seq<Token>, items: seq<Item>) {
    && HEADER <= os && os + zs + zt <= |b|
    && |b[HEADER..os]| == ENTRY * |rs| && ReserveTable(b[HEADER..os], rs)
    && Stream(b[os..os + zs], ts) && AllPending(ts, b[|b| - zt..|b|], items)
  }

  lemma {:induction false} FirstDraft(b: Bytes)
    requires HEADER <= |b|
    ensures Draft(b, HEADER, 0, 0, [], [], [])
  {
    assert b[HEADER..HEADER] == [] && b[|b| - 0..|b|] == [];
  }

  /** A string has been added below the table, and nothing else has changed. */
  lemma {:induction false} NamesGrow(was: Bytes, b: Bytes, os: nat, zs: nat, zt: nat, name: Bytes,
                                     rs: seq<Reserve>, ts: seq<Token>, items: seq<Item>)
    requires Draft(was, os, zs, zt, rs, ts, items) && |b| == |was| && 0 !in name && os + zs + zt + |name| + 1 <= |b|
    requires var p := |b| - zt - |name| - 1; b[..p] == was[..p] && b[p..|b|] == name + [0] + was[|was| - zt..|was|]
    ensures Draft(b, os, zs, zt + |name| + 1, rs, ts, items) && b[os..os + zs] == was[os..os + zs]
    ensures EndsAt(b[|b| - zt - |name| - 1..|b|], zt + |name| + 1, name)
    ensures Draft(b, os, zs, zt, rs, ts, items)
  {
    hide Stream, ReserveTable, AllPending, EndsAt;
    var p, strs := |b| - zt - |name| - 1, was[|was| - zt..|was|];
    PendingGrows(ts, strs, items, name + [0]);
    NewEndsAt(strs, name);
    DropFirst(b, p, name + [0], strs);
    RangeSame(b, was, p, os, os + zs);
    RangeSame(b, was, p, HEADER, os);
  }

  /** The structure block has grown by the bytes of a token, and nothing else has changed. */
  lemma {:induction false} BlocksGrow(was: Bytes, b: Bytes, os: nat, zs: nat, zt: nat, rs: seq<Reserve>, ts: seq<Token>,
                                      items: seq<Item>, t: Token)
    requires Draft(was, os, zs, zt, rs, ts, items) && os + zs + t.Len() + zt <= |b| == |was|
    requires var top := os + zs;
             && b[..top] == was[..top] && b[top + t.Len()..] == was[top + t.Len()..]
             && Holds(b[top..top + t.Len()], t)
    ensures Stream(b[os..os + zs + t.Len()], ts + [t]) && b[|b| - zt..|b|] == was[|was| - zt..|was|]
    ensures b[HEADER..os] == was[HEADER..os]
  {
    hide Holds, Token.Len, Stream, AllPending, ReserveTable;
    var top, n := os + zs, t.Len();
    AppendStream(was, b, os, top, n, ts, t);
    SuffixSame(b, was, top + n, |b| - zt);
    RangeSame(b, was, top, HEADER, os);
  }

  lemma {:induction false} DraftGrows(was: Bytes, b: Bytes, os: nat, zs: nat, zt: nat, rs: seq<Reserve>, ts: seq<Token>,
                                      items: seq<Item>, t: Token, i: Item)
    requires Draft(was, os, zs, zt, rs, ts, items) && os + zs + t.Len() + zt <= |b| == |was|
    requires var top := os + zs;
             && b[..top] == was[..top] && b[top + t.Len()..] == was[top + t.Len()..]
             && Holds(b[top..top + t.Len()], t)
    requires Pending(t, was[|was| - zt..|was|], i)
    ensures Draft(b, os, zs + t.Len(), zt, rs, ts + [t], items + [i]) && b[|b| - zt..|b|] == was[|was| - zt..|was|]
  {
    hide Holds, Pending, Token.Len, Stream, AllPending, ReserveTable;
    BlocksGrow(was, b, os, zs, zt, rs, ts, items, t);
    PendingSnoc(ts, b[|b| - zt..|b|], items, t, i);
  }

  /** A draft whose end tag has been written. */
  predicate Ended(b: Bytes, os: nat, zs: nat, zt: nat, rs: seq<Reserve>, ts: seq<Token>, items: seq<Item>) {
    && HEADER <= os && os + zs + zt <= |b|
    && |b[HEADER..os]| == ENTRY * |rs| && ReserveTable(b[HEADER..os], rs)
    && Stream(b[os..os + zs], ts + [End]) && AllPending(ts, b[|b| - zt..|b|], items)
  }

  lemma {:induction false} DraftEnds(was: Bytes, b: Bytes, os: nat, zs: nat, zt: nat, rs: seq<Reserve>, ts: seq<Token>,
                                     items: seq<Item>)
    requires Draft(was, os, zs, zt, rs, ts, items) && os + zs + 4 + zt <= |b| == |was|
    requires var top := os + zs;
             && b[..top] == was[..top] && b[top + 4..] == was[top + 4..]
             && Holds(b[top..top + End.Len()], End)
    ensures Ended(b, os, zs + 4, zt, rs, ts, items)
  {
    hide Holds, Stream, AllPending, ReserveTable;
    BlocksGrow(was, b, os, zs, zt, rs, ts, items, End);
  }

  lemma {:induction false} DropName(name: Bytes, s: Bytes)
    ensures (name + [0] + s)[|name| + 1..] == s
  {
  }

  // ----- The writer -----

  class Writer {
    const buf: array<byte>
    var magic: nat
    var version: nat
    var lastCompVersion: nat
    var totalSize: nat
    var offMemRsvmap: nat
    var offStruct: nat
    var offStrings: nat
    var sizeStruct: nat
    var sizeStrings: nat

    /** What has been written so far. */
    ghost var reserves: seq<Reserve>
    ghost var items: seq<Item>
    ghost var tokens: seq<Token>

    constructor (buffer: array<byte>)
      ensures buf == buffer && magic == 0
    {
      buf := buffer;
      magic, version, lastCompVersion, totalSize, offMemRsvmap := 0, 0, 0, 0, 0;
      offStruct, offStrings, sizeStruct, sizeStrings := 0, 0, 0, 0;
      reserves, items, tokens := [], [], [];
    }

    /** The blocks lie in the buffer in order: reservations, structure, free space, strings. */
    ghost predicate Layout()
      reads this
    {
      && totalSize == buf.Length <= INT_MAX
      && offMemRsvmap == HEADER <= offStruct
      && offStruct + sizeStruct + sizeStrings <= totalSize
    }

    ghost function Struct(): Bytes
      requires Layout()
      reads this, buf
    {
      buf[..][offStruct..offStruct + sizeStruct]
    }

    ghost function Strings(): Bytes
      requires Layout()
      reads this, buf
    {
      buf[..][totalSize - sizeStrings..totalSize]
    }

    ghost function Reservations(): Bytes
      requires Layout()
      reads this, buf
    {
      buf[..][HEADER..offStruct]
    }

    /** The blob is being written and holds exactly the reservations and items recorded. */
    ghost predicate Writing()
      reads this, buf
    {
      && magic == FDT_SW_MAGIC && version == FDT_LAST_SUPPORTED_VERSION && Layout()
      && Draft(buf[..], offStruct, sizeStruct, sizeStrings, reserves, tokens, items)
    }

    ghost predicate InMemRsv()
      reads this, buf
    {
      Writing() && offStrings == 0 && items == [] && sizeStrings == 0
    }

    ghost predicate InStruct()
      reads this, buf
    {
      Writing() && offStrings == totalSize
    }

    /** fdt_create_with_flags. */
    method Create(flags: nat) returns (err: Err)
      requires buf.Length <= INT_MAX
      modifies this, buf
      ensures err == if buf.Length < HEADER then NoSpace
                     else if flags != 0 && flags != FDT_CREATE_FLAG_NO_NAME_DEDUP then BadFlags
                     else Ok
      ensures err == Ok ==> InMemRsv() && reserves == [] && lastCompVersion == flags
      ensures err == Ok ==> magic == 0xFFFF_FFFF - 0xD00D_FEED && version == 17 && totalSize == buf.Length
      ensures err == Ok ==> offMemRsvmap == offStruct == 48
    {
      hide ReserveTable, Stream, AllPending;
      if buf.Length < HEADER { return NoSpace; }
      if flags != 0 && flags != FDT_CREATE_FLAG_NO_NAME_DEDUP { return BadFlags; }
      forall i | 0 <= i < buf.Length { buf[i] := 0; }
      FirstHeader(flags);
      return Ok;
    }

    method SetHeader(flags: nat)
      modifies `magic, `version, `lastCompVersion, `totalSize, `offMemRsvmap, `offStruct, `offStrings, `sizeStruct,
               `sizeStrings
      ensures magic == FDT_SW_MAGIC && version == FDT_LAST_SUPPORTED_VERSION && lastCompVersion == flags
      ensures totalSize == buf.Length
      ensures offMemRsvmap == HEADER && offStruct == HEADER && offStrings == 0 && sizeStruct == 0 && sizeStrings == 0
    {
      magic, version, lastCompVersion, totalSize := FDT_SW_MAGIC, FDT_LAST_SUPPORTED_VERSION, flags, buf.Length;
      offMemRsvmap, offStruct, offStrings, sizeStruct, sizeStrings := HEADER, HEADER, 0, 0, 0;
    }

    /** The header that fdt_create_with_flags writes. */
    method FirstHeader(flags: nat)
      requires HEADER <= buf.Length <= INT_MAX
      modifies this
      ensures InMemRsv() && reserves == [] && lastCompVersion == flags
    {
      hide Draft;
      ghost var b := buf[..];
      FirstDraft(b);
      SetHeader(flags);
      reserves, items, tokens := [], [], [];
      assert buf[..] == b;
    }

    /** fdt_sw_probe_. */
    function Probe(): Err
      reads this
    {
      if magic == FDT_MAGIC then BadState else if magic != FDT_SW_MAGIC then BadMagic else Ok
    }

    /** fdt_sw_probe_memrsv_. */
    function ProbeMemRsv(): Err
      reads this
    {
      if Probe() != Ok then Probe() else if offStrings != 0 then BadState else Ok
    }

    /** fdt_sw_probe_struct_. */
    function ProbeStruct(): Err
      reads this
    {
      if Probe() != Ok then Probe() else if offStrings != totalSize then BadState else Ok
    }

    /** Which calls are allowed when: reservations first, then the structure, and nothing after fdt_finish. */
    lemma {:induction false} ProbesExactly()
      ensures ProbeMemRsv() == Ok <==> magic == 0x2FF2_0112 && offStrings == 0
      ensures ProbeStruct() == Ok <==> magic == 0x2FF2_0112 && offStrings == totalSize
      ensures ProbeStruct() == BadMagic <==> ProbeMemRsv() == BadMagic
      ensures ProbeMemRsv() == BadMagic <==> magic != 0x2FF2_0112 && magic != 0xD00D_FEED
      ensures ProbeMemRsv() in {Ok, BadMagic, BadState} && ProbeStruct() in {Ok, BadMagic, BadState}
    {
    }

    /** fdt_add_reservemap_entry. */
    method AddReservemapEntry(r: Reserve) returns (err: Err)
      requires r.Ok() && (ProbeMemRsv() == Ok ==> InMemRsv())
      modifies this`offStruct, this`reserves, buf
      ensures ProbeMemRsv() == old(ProbeMemRsv())
      ensures err == if old(ProbeMemRsv()) != Ok then old(ProbeMemRsv())
                     else if old(offStruct) + ENTRY > totalSize then NoSpace
                     else Ok
      ensures err == Ok ==> InMemRsv() && reserves == old(reserves) + [r]
      ensures err != Ok ==> unchanged(this) && unchanged(buf)
    {
      if ProbeMemRsv() != Ok { return ProbeMemRsv(); }
      if offStruct + ENTRY > totalSize { return NoSpace; }
      ghost var was := Reservations();
      Store(buf, offStruct, Entry(r));
      offStruct := offStruct + ENTRY;
      assert Reservations() == was + Entry(r);
      ReserveAppend(was, reserves, r);
      reserves := reserves + [r];
      return Ok;
    }

    /** fdt_finish_reservemap. */
    method FinishReservemap() returns (err: Err)
      requires ProbeMemRsv() == Ok ==> InMemRsv()
      modifies this`offStruct, this`offStrings, this`reserves, buf
      ensures err == Ok ==> InStruct() && reserves == old(reserves) + [Reserve(0, 0)] && items == []
      ensures err != Ok ==> unchanged(this) && unchanged(buf)
      ensures err == if old(ProbeMemRsv()) != Ok then old(ProbeMemRsv())
                     else if old(offStruct) + ENTRY > old(totalSize) then NoSpace
                     else Ok
    {
      err := AddReservemapEntry(Reserve(0, 0));
      if err != Ok { return; }
      offStrings := totalSize;
    }

    /** fdt_grab_space_. */
    method GrabSpace(len: nat) returns (ok: bool)
      requires Layout()
      modifies this`sizeStruct
      ensures ok <==> offStruct + old(sizeStruct) + len + sizeStrings <= totalSize
      ensures sizeStruct == if ok then old(sizeStruct) + len else old(sizeStruct)
    {
      var spaceLeft := totalSize - offStruct - sizeStrings;
      if sizeStruct + len > spaceLeft { return false; }
      sizeStruct := sizeStruct + len;
      return true;
    }

    /** Room for n more bytes of structure. */
    predicate Fits(n: nat)
      reads this
    {
      offStruct + sizeStruct + n + sizeStrings <= totalSize
    }

    /** Grab space for a token and write it. */
    method Emit(t: Token, ghost i: Item) returns (ok: bool)
      requires InStruct() && t.Ok() && Pending(t, Strings(), i)
      modifies this`sizeStruct, this`items, this`tokens, buf
      ensures ok <==> old(Fits(t.Len()))
      ensures ok ==> InStruct() && items == old(items) + [i] && tokens == old(tokens) + [t]
      ensures ok ==> sizeStruct == old(sizeStruct) + t.Len()
      ensures !ok ==> unchanged(this) && unchanged(buf)
    {
      hide Holds, Draft, Pending, Token.Len;
      ghost var was, zs := buf[..], sizeStruct;
      var top := offStruct + sizeStruct;
      ok := GrabSpace(t.Len());
      if !ok { return; }
      WriteToken(buf, top, t);
      DraftGrows(was, buf[..], offStruct, zs, sizeStrings, reserves, tokens, items, t, i);
      items, tokens := items + [i], tokens + [t];
    }

    /** fdt_begin_node. */
    method BeginNode(name: Bytes) returns (err: Err)
      requires 0 !in name && (ProbeStruct() == Ok ==> InStruct())
      modifies this`sizeStruct, this`items, this`tokens, buf
      ensures err == if old(ProbeStruct()) != Ok then old(ProbeStruct())
                     else if old(Fits(Begin(name).Len())) then Ok else NoSpace
      ensures err == Ok ==> InStruct() && items == old(items) + [Open(name)]
      ensures err == Ok ==> sizeStruct == old(sizeStruct) + Begin(name).Len()
      ensures err != Ok ==> unchanged(this) && unchanged(buf)
    {
      if ProbeStruct() != Ok { return ProbeStruct(); }
      var ok := Emit(Begin(name), Open(name));
      return if ok then Ok else NoSpace;
    }

    /** fdt_end_node. */
    method CloseNode() returns (err: Err)
      requires ProbeStruct() == Ok ==> InStruct()
      modifies this`sizeStruct, this`items, this`tokens, buf
      ensures err == if old(ProbeStruct()) != Ok then old(ProbeStruct())
                     else if old(Fits(EndNode.Len())) then Ok else NoSpace
      ensures err == Ok ==> InStruct() && items == old(items) + [Close]
      ensures err == Ok ==> sizeStruct == old(sizeStruct) + EndNode.Len()
      ensures err != Ok ==> unchanged(this) && unchanged(buf)
    {
      if ProbeStruct() != Ok { return ProbeStruct(); }
      var ok := Emit(EndNode, Close);
      return if ok then Ok else NoSpace;
    }

    /** fdt_add_string_: the distance of the new string from the end of the buffer, or 0 for no room. */
    method AddString(name: Bytes) returns (d: nat, overrun: bool)
      requires Layout() && 0 !in name
      modifies this`sizeStrings, buf
      ensures overrun <==> old(sizeStrings) + |name| + 1 > totalSize
      ensures !overrun ==> (d == 0 <==> offStruct + sizeStruct + old(sizeStrings) + |name| + 1 > totalSize)
      ensures d == 0 || overrun ==> unchanged(this) && unchanged(buf)
      ensures d > 0 && !overrun ==>
                && Layout() && sizeStrings == old(sizeStrings) + |name| + 1 == d
                && Strings() == name + [0] + old(Strings())
                && buf[..][..totalSize - d] == old(buf[..])[..totalSize - d]
    {
      var offset := sizeStrings + (|name| + 1);
      if offset > totalSize { return 0, true; }
      if totalSize - offset < offStruct + sizeStruct { return 0, false; }
      hide Overwrite;
      ghost var was, strs := buf[..], Strings();
      Store(buf, totalSize - offset, name + [0]);
      sizeStrings := sizeStrings + (|name| + 1);
      StringsGrow(was, buf[..], totalSize - offset, name + [0], strs);
      return offset, false;
    }

    /** fdt_find_add_string_: the distance from the end of the buffer of an old or a new string. */
    method FindAddString(name: Bytes) returns (d: nat, added: bool, overrun: bool)
      requires Layout() && 0 !in name
      modifies this`sizeStrings, buf
      ensures added <==> !Occurs(old(Strings()), name)
      ensures overrun <==> added && old(sizeStrings) + |name| + 1 > totalSize
      ensures !added || d == 0 || overrun ==> unchanged(this) && unchanged(buf)
      ensures !added ==> 0 < d && EndsAt(Strings(), d, name)
      ensures added && !overrun ==> (d == 0 <==> offStruct + sizeStruct + old(sizeStrings) + |name| + 1 > totalSize)
      ensures added && !overrun && d > 0 ==>
                && Layout() && sizeStrings == old(sizeStrings) + |name| + 1 == d
                && Strings() == name + [0] + old(Strings())
                && buf[..][..totalSize - d] == old(buf[..])[..totalSize - d]
    {
      hide OccursAt, EndsAt;
      var p := FindString(buf, totalSize - sizeStrings, sizeStrings, name);
      assert buf[totalSize - sizeStrings..totalSize] == Strings();
      if p >= 0 {
        assert Occurs(Strings(), name);
        OccursEndsAt(Strings(), p, name);
        return sizeStrings - p, false, false;
      }
      added := true;
      d, overrun := AddString(name);
    }

    /** The name of a new property is already in the table and may be shared. */
    ghost predicate Shared(name: Bytes)
      requires Layout()
      reads this, buf
    {
      lastCompVersion != FDT_CREATE_FLAG_NO_NAME_DEDUP && Occurs(Strings(), name)
    }

    /** Bytes that a property takes in the structure block and in the strings. */
    ghost function Cost(name: Bytes, value: Bytes): nat
      requires Layout()
      reads this, buf
    {
      Prop(0, value).Len() + if Shared(name) then 0 else |name| + 1
    }

    /** fdt_del_last_string_. */
    method DelLastString(name: Bytes)
      requires InStruct() && |name| + 1 <= sizeStrings
      requires Draft(buf[..], offStruct, sizeStruct, sizeStrings - (|name| + 1), reserves, tokens, items)
      modifies this`sizeStrings
      ensures InStruct() && Strings() == old(Strings())[|name| + 1..] && Struct() == old(Struct())
    {
      hide Draft;
      sizeStrings := sizeStrings - (|name| + 1);
    }

    /** fdt_property. */
    method AddProperty(name: Bytes, value: Bytes) returns (err: Err)
      requires 0 !in name && |value| <= INT_MAX && (ProbeStruct() == Ok ==> InStruct())
      modifies this`sizeStruct, this`sizeStrings, this`items, this`tokens, buf
      ensures old(ProbeStruct()) != Ok ==> err == old(ProbeStruct()) && unchanged(this) && unchanged(buf)
      ensures old(ProbeStruct()) == Ok ==>
                && (err == Overrun <==> !old(Shared(name)) && old(sizeStrings) + |name| + 1 > totalSize)
                && (err == Ok <==> err != Overrun && old(Fits(Cost(name, value))))
                && (err != Ok && err != Overrun ==> err == NoSpace)
      ensures err == Ok ==> InStruct() && items == old(items) + [Attr(name, value)]
      ensures err == Ok ==> sizeStruct + sizeStrings == old(sizeStruct + sizeStrings + Cost(name, value))
      ensures err == NoSpace ==>
                && InStruct() && items == old(items) && tokens == old(tokens)
                && Struct() == old(Struct()) && Strings() == old(Strings())
    {
      hide InStruct, Shared, Token.Len;
      if ProbeStruct() != Ok { return ProbeStruct(); }
      WritingHere();
      err := PutProperty(name, value);
      if err != Overrun { WritingHere(); }
    }

    lemma {:induction false} WritingHere()
      requires InStruct()
      ensures Layout()
    {
    }

    /** fdt_property_placeholder in the right state. */
    method PutProperty(name: Bytes, value: Bytes) returns (err: Err)
      requires InStruct() && 0 !in name && |value| <= INT_MAX
      modifies this`sizeStruct, this`sizeStrings, this`items, this`tokens, buf
      ensures err == Overrun <==> !old(Shared(name)) && old(sizeStrings) + |name| + 1 > totalSize
      ensures err == Ok <==> err != Overrun && old(Fits(Cost(name, value)))
      ensures err == Ok || err == Overrun || err == NoSpace
      ensures err != Overrun ==> InStruct()
      ensures err == Ok ==>
                items == old(items) + [Attr(name, value)]
                && sizeStruct + sizeStrings == old(sizeStruct + sizeStrings + Cost(name, value))
      ensures err == NoSpace ==>
                items == old(items) && tokens == old(tokens) && Struct() == old(Struct()) && Strings() == old(Strings())
    {
      hide InStruct, Draft, EndsAt, Shared, Token.Len;
      WritingHere();
      DropName(name, Strings());
      var d, added, overrun := PlaceName(name);
      if overrun { return Overrun; }
      WritingHere();
      if d == 0 { return NoSpace; }
      err := EmitProperty(name, value, d, added);
      WritingHere();
    }

    /** The second half of fdt_property: write the token, or take a new name back. */
    method EmitProperty(name: Bytes, value: Bytes, d: nat, added: bool) returns (err: Err)
      requires InStruct() && |value| <= INT_MAX && EndsAt(Strings(), d, name)
      requires added ==> |name| + 1 <= sizeStrings
      requires added ==> Draft(buf[..], offStruct, sizeStruct, sizeStrings - (|name| + 1), reserves, tokens, items)
      modifies this`sizeStruct, this`sizeStrings, this`items, this`tokens, buf
      ensures err == if old(Fits(Prop(0, value).Len())) then Ok else NoSpace
      ensures InStruct()
      ensures err == Ok ==> items == old(items) + [Attr(name, value)]
      ensures err == Ok ==> sizeStruct == old(sizeStruct) + Prop(0, value).Len() && sizeStrings == old(sizeStrings)
      ensures err == NoSpace ==>
                && items == old(items) && tokens == old(tokens) && Struct() == old(Struct())
                && Strings() == if added then old(Strings())[|name| + 1..] else old(Strings())
    {
      hide Draft, EndsAt, Pending, Token.Len;
      ghost var was := buf[..];
      PropPending(Strings(), d, name, value);
      var ok := Emit(Prop(WORD - d, value), Attr(name, value));
      if ok { return Ok; }
      assert buf[..] == was;
      if added { DelLastString(name); }
      return NoSpace;
    }

    /** Find or add the name of a property, as the creation flags say. */
    method PlaceName(name: Bytes) returns (d: nat, added: bool, overrun: bool)
      requires InStruct() && 0 !in name
      modifies this`sizeStrings, buf
      ensures added == !old(Shared(name))
      ensures overrun <==> added && old(sizeStrings) + |name| + 1 > totalSize
      ensures !overrun ==> (d == 0 <==> added && offStruct + sizeStruct + old(sizeStrings) + |name| + 1 > totalSize)
      ensures d == 0 || !added ==> unchanged(this) && unchanged(buf)
      ensures !overrun ==> InStruct() && Struct() == old(Struct())
      ensures !overrun && d > 0 ==> EndsAt(Strings(), d, name)
      ensures !overrun && d > 0 && added ==>
                && sizeStrings == old(sizeStrings) + |name| + 1 && Strings() == name + [0] + old(Strings())
                && Draft(buf[..], offStruct, sizeStruct, old(sizeStrings), reserves, tokens, items)
    {
      hide Draft, Occurs, EndsAt, OccursAt, Shared;
      ghost var was, zt := buf[..], sizeStrings;
      d, added, overrun := ChooseString(name);
      if !overrun && d > 0 && added {
        NamesGrow(was, buf[..], offStruct, sizeStruct, zt, name, reserves, tokens, items);
      } else {
        assert !overrun ==> buf[..] == was;
      }
    }

    /** Look the name up or not, as the flags say. */
    method ChooseString(name: Bytes) returns (d: nat, added: bool, overrun: bool)
      requires Layout() && 0 !in name
      modifies this`sizeStrings, buf
      ensures added == !old(Shared(name)) && (overrun <==> added && old(sizeStrings) + |name| + 1 > totalSize)
      ensures !added || d == 0 || overrun ==> unchanged(this) && unchanged(buf)
      ensures !added ==> 0 < d && EndsAt(Strings(), d, name)
      ensures added && !overrun ==> (d == 0 <==> offStruct + sizeStruct + old(sizeStrings) + |name| + 1 > totalSize)
      ensures added && !overrun && d > 0 ==>
                && Layout() && sizeStrings == old(sizeStrings) + |name| + 1 == d
                && Strings() == name + [0] + old(Strings())
                && buf[..][..totalSize - d] == old(buf[..])[..totalSize - d]
    {
      hide Occurs, EndsAt;
      added := true;
      if lastCompVersion == FDT_CREATE_FLAG_NO_NAME_DEDUP {
        d, overrun := AddString(name);
      } else {
        d, added, overrun := FindAddString(name);
      }
    }

    /** The finished blob: structure and strings joined, and every property name relocated. */
    ghost predicate Finished()
      reads this, buf
    {
      && magic == FDT_MAGIC && version == FDT_LAST_SUPPORTED_VERSION
      && lastCompVersion == FDT_FIRST_SUPPORTED_VERSION
      && offMemRsvmap == HEADER <= offStruct && offStrings == offStruct + sizeStruct
      && totalSize == offStrings + sizeStrings <= buf.Length <= INT_MAX
      && |buf[..][HEADER..offStruct]| == ENTRY * |reserves| && ReserveTable(buf[..][HEADER..offStruct], reserves)
      && Stream(buf[..][offStruct..offStrings], tokens + [End])
      && Named(tokens, buf[..][offStrings..totalSize], items)
    }

    /** The loop of fdt_finish that adds the size of the table to every name offset. */
    method Relocate(ghost was: Bytes) returns (next: int)
      requires offStruct + sizeStruct + sizeStrings <= buf.Length <= INT_MAX && was == buf[..]
      requires Stream(was[offStruct..offStruct + sizeStruct], tokens + [End]) && NoEnd(tokens)
      modifies buf
      ensures next == sizeStruct
      ensures buf[..][..offStruct] == was[..offStruct]
      ensures buf[..][offStruct + sizeStruct..] == was[offStruct + sizeStruct..]
      ensures Stream(buf[..][offStruct..offStruct + sizeStruct], FixAll(tokens, sizeStrings) + [End])
    {
      hide Stream, Overwrite, NextTag, NoEnd, Off, Mixed, U32, BE32;
      var os, top := offStruct, offStruct + sizeStruct;
      ghost var k := 0;
      var offset: nat := 0;
      RelocateStart(was[os..top], tokens, sizeStrings);
      var n := NextTag(buf[..][os..top], offset);
      while n.tag != FDT_END
        invariant k <= |tokens| && offset == Off(tokens + [End], k)
        invariant buf[..][..os] == was[..os] && buf[..][top..] == was[top..]
        invariant Stream(buf[..][os..top], Mixed(tokens, sizeStrings, k))
        invariant n == NextTag(buf[..][os..top], offset)
        decreases |tokens| - k
      {
        ghost var b := buf[..];
        MixedNext(b[os..top], tokens, sizeStrings, k);
        if n.tag == FDT_PROP {
          var nameoff := U32(buf[..], os + offset + 8);
          Store(buf, os + offset + 8, BE32((nameoff + sizeStrings) % WORD));
          RelocateOne(b, buf[..], os, top, tokens, sizeStrings, k);
        } else {
          MixedSame(tokens, sizeStrings, k);
        }
        offset := n.offset;
        k := k + 1;
        n := NextTag(buf[..][os..top], offset);
      }
      MixedNext(buf[..][os..top], tokens, sizeStrings, k);
      MixedAll(tokens, sizeStrings);
      next := n.offset;
    }

    /** fdt_finish. */
    method Finish() returns (err: Err)
      requires ProbeStruct() == Ok ==> InStruct()
      modifies this, buf
      ensures err == if old(ProbeStruct()) != Ok then old(ProbeStruct())
                     else if old(Fits(End.Len())) then Ok else NoSpace
      ensures err == Ok ==> Finished() && items == old(items) && reserves == old(reserves)
      ensures err != Ok ==> unchanged(this) && unchanged(buf)
    {
      if ProbeStruct() != Ok { return ProbeStruct(); }
      hide Draft, Ended, Finished;
      var ok := Terminate();
      if !ok { return NoSpace; }
      err := JoinAndSeal();
    }

    /** fdt_finish after its end tag has been written. */
    method JoinAndSeal() returns (err: Err)
      requires Layout() && version == FDT_LAST_SUPPORTED_VERSION
      requires Ended(buf[..], offStruct, sizeStruct, sizeStrings, reserves, tokens, items)
      modifies this, buf
      ensures err == Ok && Finished() && items == old(items) && reserves == old(reserves)
    {
      hide Stream, ReserveTable, AllPending, Named, Finished, NoEnd, FixAll;
      ghost var strs := Strings();
      PendingNoEnd(tokens, strs, items);
      var next := Join();
      if next < 0 { return BadStructure; }
      FixedNamed(tokens, strs, items);
      Seal();
      return Ok;
    }

    /** The end of fdt_finish: the final header. */
    method Seal()
      requires Layout() && version == FDT_LAST_SUPPORTED_VERSION
      requires |buf[..][HEADER..offStruct]| == ENTRY * |reserves| && ReserveTable(buf[..][HEADER..offStruct], reserves)
      requires var top := offStruct + sizeStruct;
               && Stream(buf[..][offStruct..top], FixAll(tokens, sizeStrings) + [End])
               && Named(FixAll(tokens, sizeStrings), buf[..][top..top + sizeStrings], items)
      modifies this
      ensures Finished() && items == old(items) && reserves == old(reserves)
    {
      hide Stream, ReserveTable, Named;
      tokens := FixAll(tokens, sizeStrings);
      offStrings := offStruct + sizeStruct;
      totalSize := offStrings + sizeStrings;
      lastCompVersion := FDT_FIRST_SUPPORTED_VERSION;
      magic := FDT_MAGIC;
    }

    /** The first step of fdt_finish: the end tag. */
    method Terminate() returns (ok: bool)
      requires InStruct()
      modifies this`sizeStruct, buf
      ensures ok <==> old(Fits(End.Len()))
      ensures !ok ==> unchanged(this) && unchanged(buf)
      ensures ok ==> Layout() && Ended(buf[..], offStruct, sizeStruct, sizeStrings, reserves, tokens, items)
    {
      hide Draft, Ended, Holds;
      ghost var was, zs := buf[..], sizeStruct;
      var top := offStruct + sizeStruct;
      ok := GrabSpace(4);
      if !ok { return; }
      WriteToken(buf, top, End);
      DraftEnds(was, buf[..], offStruct, zs, sizeStrings, reserves, tokens, items);
    }

    /** The middle of fdt_finish: move the strings behind the structure and relocate the names. */
    method Join() returns (next: int)
      requires Layout() && Stream(Struct(), tokens + [End]) && NoEnd(tokens)
      modifies buf
      ensures next == sizeStruct
      ensures var top := offStruct + sizeStruct;
              && Stream(buf[..][offStruct..top], FixAll(tokens, sizeStrings) + [End])
              && buf[..][top..top + sizeStrings] == old(Strings())
              && buf[..][HEADER..offStruct] == old(Reservations())
    {
      hide Stream, NoEnd, Overwrite;
      ghost var first, strs := buf[..], Strings();
      var top := offStruct + sizeStruct;
      Move(buf, top, totalSize - sizeStrings, sizeStrings);
      ghost var joined := buf[..];
      Written(first, top, strs);
      RangeSame(joined, first, top, offStruct, top);
      RangeSame(joined, first, top, HEADER, offStruct);
      next := Relocate(joined);
      FinalBlocks(joined, buf[..], offStruct, top, sizeStrings);
    }
  }

  lemma {:induction false} PendingSnoc(ts: seq<Token>, strs: Bytes, items: seq<Item>, t: Token, i: Item)
    requires AllPending(ts, strs, items) && Pending(t, strs, i)
    ensures AllPending(ts + [t], strs, items + [i])
  {
  }

  lemma {:induction false} OccursEndsAt(tab: Bytes, i: nat, name: Bytes)
    requires OccursAt(tab, i, name) && 0 !in name
    ensures i < |tab| && EndsAt(tab, |tab| - i, name)
  {
    var c := tab[i..i + |name| + 1];
    assert tab[i..i + |name|] == c[..|name|] == name && tab[i + |name|] == c[|name|];
  }

  lemma {:induction false} PropPending(strs: Bytes, d: nat, name: Bytes, value: Bytes)
    requires EndsAt(strs, d, name) && |strs| <= INT_MAX && |value| <= INT_MAX
    ensures 0 < d < WORD && Prop(WORD - d, value).Ok()
    ensures Pending(Prop(WORD - d, value), strs, Attr(name, value))
    ensures Prop(WORD - d, value).Len() == Prop(0, value).Len()
  {
  }

  lemma {:induction false} DropFirst(b: Bytes, p: nat, c: Bytes, strs: Bytes)
    requires p <= |b| && b[p..|b|] == c + strs
    ensures p + |c| <= |b| && b[p + |c|..|b|] == strs
  {
    assert b[p + |c|..|b|] == b[p..|b|][|c|..];
  }

  lemma {:induction false} StringsGrow(was: Bytes, b: Bytes, p: nat, c: Bytes, strs: Bytes)
    requires p + |c| <= |was| && was[p + |c|..|was|] == strs && b == Overwrite(was, p, c)
    ensures b[p..|was|] == c + strs && b[..p] == was[..p]
  {
    Written(was, p, c);
    hide Overwrite;
    assert b[p..|was|] == b[p..p + |c|] + b[p + |c|..];
  }

  lemma {:induction false} NewEndsAt(strs: Bytes, name: Bytes)
    requires 0 !in name
    ensures EndsAt(name + [0] + strs, |strs| + |name| + 1, name)
  {
  }

  lemma {:induction false} AppendStream(was: Bytes, b: Bytes, os: nat, top: nat, n: nat, ts: seq<Token>, t: Token)
    requires os <= top && top + n <= |b| == |was| && b[..top] == was[..top]
    requires Stream(was[os..top], ts) && Holds(b[top..top + n], t)
    ensures Stream(b[os..top + n], ts + [t])
  {
    hide Holds;
    RangeSame(b, was, top, os, top);
    StreamOne(b[top..top + n], t);
    StreamConcat(b[os..top], ts, b[top..top + n], [t]);
    assert b[os..top] + b[top..top + n] == b[os..top + n];
  }

  // ----- Relocating the names -----

  predicate NoEnd(ts: seq<Token>) {
    forall k | 0 <= k < |ts| :: !ts[k].End?
  }

  /** The tokens with the names of the first k relocated. */
  function Mixed(ts: seq<Token>, n: nat, k: nat): (r: seq<Token>)
    requires k <= |ts|
    ensures |r| == |ts| + 1
  {
    FixAll(ts[..k], n) + ts[k..] + [End]
  }

  lemma {:induction false} MixedAt(ts: seq<Token>, n: nat, k: nat, j: nat)
    requires k <= |ts| && j <= |ts|
    ensures Mixed(ts, n, k)[j] == if j == |ts| then End else if j < k then Fix(ts[j], n) else ts[j]
  {
  }

  lemma {:induction false} RelocateStart(b: Bytes, ts: seq<Token>, n: nat)
    requires Stream(b, ts + [End])
    ensures Stream(b, Mixed(ts, n, 0)) && Off(ts + [End], 0) == 0
  {
    assert ts[..0] == [] && ts[0..] == ts && [] + ts == ts;
  }

  /** Relocation does not move tokens. */
  lemma {:induction false} MixedOff(ts: seq<Token>, n: nat, k: nat, j: nat)
    requires k <= |ts| && j <= |ts| + 1
    ensures Off(Mixed(ts, n, k), j) == Off(ts + [End], j)
    decreases j
  {
    if j > 0 {
      MixedOff(ts, n, k, j - 1);
      OffStep(Mixed(ts, n, k), j - 1);
      OffStep(ts + [End], j - 1);
      MixedAt(ts, n, k, j - 1);
    }
  }

  /** What fdt_next_tag sees at token k of the loop. */
  lemma {:induction false} MixedNext(b: Bytes, ts: seq<Token>, n: nat, k: nat)
    requires k <= |ts| && |b| <= INT_MAX && Stream(b, Mixed(ts, n, k)) && NoEnd(ts)
    ensures var o := Off(ts + [End], k);
            && NextTag(b, o) == Next((ts + [End])[k].Tag(), Off(ts + [End], k + 1))
            && (NextTag(b, o).tag == FDT_END <==> k == |ts|)
            && (k == |ts| ==> Off(ts + [End], k + 1) == |b|)
            && o + (ts + [End])[k].Len() <= |b|
  {
    hide Stream, NextTag, Off, Holds;
    var all, m := ts + [End], Mixed(ts, n, k);
    MixedAt(ts, n, k, k);
    MixedOff(ts, n, k, k);
    MixedOff(ts, n, k, k + 1);
    TokenAt(b, m, k);
    NextTagReads(b, Off(m, k), m[k]);
    OffStep(m, k);
    if k == |ts| { StreamLength(b, m); }
  }

  lemma {:induction false} MixedSame(ts: seq<Token>, n: nat, k: nat)
    requires k < |ts| && !ts[k].Prop?
    ensures Mixed(ts, n, k + 1) == Mixed(ts, n, k)
  {
    FixSnoc(ts, n, k);
    assert ts[k..] == [ts[k]] + ts[k + 1..];
  }

  lemma {:induction false} FixSnoc(ts: seq<Token>, n: nat, k: nat)
    requires k < |ts|
    ensures FixAll(ts[..k + 1], n) == FixAll(ts[..k], n) + [Fix(ts[k], n)]
  {
    var a, b := FixAll(ts[..k + 1], n), FixAll(ts[..k], n) + [Fix(ts[k], n)];
    assert forall j | 0 <= j < k + 1 :: a[j] == b[j];
  }

  /** Rewriting the name offset of token k relocates it. */
  lemma {:induction false} MixedAll(ts: seq<Token>, n: nat)
    ensures Mixed(ts, n, |ts|) == FixAll(ts, n) + [End]
  {
    assert ts[..|ts|] == ts && ts[|ts|..] == [];
  }

  lemma {:induction false} RelocateOne(b: Bytes, b': Bytes, os: nat, top: nat, ts: seq<Token>, n: nat, k: nat)
    requires os <= top <= |b| && k < |ts| && ts[k].Prop? && Stream(b[os..top], Mixed(ts, n, k))
    requires var o := os + Off(ts + [End], k);
             && o + ts[k].Len() <= top
             && b' == Overwrite(b, o + 8, BE32((U32(b, o + 8) + n) % WORD))
    ensures b'[..os] == b[..os] && b'[top..] == b[top..]
    ensures Stream(b'[os..top], Mixed(ts, n, k + 1))
  {
    hide Stream, Off, Holds;
    var m, p, len := Mixed(ts, n, k), Off(ts + [End], k), ts[k].Len();
    var o := os + p;
    var x := (U32(b, o + 8) + n) % WORD;
    Written(b, o + 8, BE32(x));
    PrefixSame(b', b, o + 8, os);
    SuffixSame(b', b, o + 12, top);
    MixedOff(ts, n, k, k);
    MixedOff(ts, n, k, k + 1);
    MixedAt(ts, n, k, k);
    OffStep(ts + [End], k);
    var c, c' := b[os..top], b'[os..top];
    TokenAt(c, m, k);
    FixBytes(b, b', os, top, p, ts[k], n);
    StreamOne(c'[p..p + len], Fix(ts[k], n));
    StreamSplice(c, m, k, k + 1, c'[p..p + len], [Fix(ts[k], n)]);
    FixSlices(b, b', os, top, p, len);
    MixedSplice(ts, n, k);
  }

  lemma {:induction false} MixedSplice(ts: seq<Token>, n: nat, k: nat)
    requires k < |ts|
    ensures var m := Mixed(ts, n, k); m[..k] + [Fix(ts[k], n)] + m[k + 1..] == Mixed(ts, n, k + 1)
  {
    FixSnoc(ts, n, k);
    var m := Mixed(ts, n, k);
    assert m[..k] == FixAll(ts[..k], n);
    assert m[k + 1..] == ts[k + 1..] + [End];
  }

  lemma {:induction false} FixSlices(b: Bytes, b': Bytes, os: nat, top: nat, p: nat, len: nat)
    requires os + p + len <= top <= |b| == |b'| && 12 <= len
    requires b'[..os + p + 8] == b[..os + p + 8] && b'[os + p + 12..] == b[os + p + 12..]
    ensures var c, c' := b[os..top], b'[os..top]; c' == c[..p] + c'[p..p + len] + c[p + len..]
  {
    var c, c' := b[os..top], b'[os..top];
    var d := c[..p] + c'[p..p + len] + c[p + len..];
    forall i | 0 <= i < |c| ensures c'[i] == d[i] {
      if i < p {
        assert c'[i] == b'[os + i] == b'[..os + p + 8][os + i];
      } else if i >= p + len {
        assert c'[i] == b'[os + i] == b'[os + p + 12..][i - p - 12];
        assert c[i] == b[os + i] == b[os + p + 12..][i - p - 12];
      }
    }
  }

  lemma {:induction false} FixBytes(b: Bytes, b': Bytes, os: nat, top: nat, p: nat, t: Token, n: nat)
    requires t.Prop? && os + p + t.Len() <= top <= |b| == |b'|
    requires Holds(b[os..top][p..p + t.Len()], t)
    requires b'[..os + p + 8] == b[..os + p + 8] && b'[os + p + 12..] == b[os + p + 12..]
    requires b'[os + p + 8..os + p + 12] == BE32((U32(b, os + p + 8) + n) % WORD)
    ensures Holds(b'[os..top][p..p + t.Len()], Fix(t, n))
  {
    hide Holds, BE32, U32, Token.Len;
    PropFits(t);
    var len, k, o := t.Len(), |t.value|, os + p;
    SliceAt(b, os, top - os, p, p + len);
    SliceAt(b', os, top - os, p, p + len);
    HeldNameoff(b, o, t);
    RangeSame(b', b, o + 8, o, o + 8);
    SameInside(b', b, o, len, 0, 8);
    SliceAt(b', o, len, 8, 12);
    TailRange(b', b, o + 12, k);
    SameInside(b', b, o, len, 12, 12 + k);
    FixFields(b[o..o + len], b'[o..o + len], t, n);
  }

  lemma {:induction false} HeldNameoff(b: Bytes, o: nat, t: Token)
    requires t.Prop? && o + t.Len() <= |b| && Holds(b[o..o + t.Len()], t)
    ensures U32(b, o + 8) == t.nameoff
  {
    WordAt(b, o, t.Len(), 8);
  }

  lemma {:induction false} PropFits(t: Token)
    requires t.Prop?
    ensures 12 + |t.value| <= t.Len() && Fix(t, 0).Len() == t.Len()
  {
  }

  lemma {:induction false} FixFields(c: Bytes, c': Bytes, t: Token, n: nat)
    requires t.Prop? && Holds(c, t) && |c'| == |c| && c'[0..8] == c[0..8]
    requires c'[8..12] == BE32((t.nameoff + n) % WORD) && c'[12..12 + |t.value|] == c[12..12 + |t.value|]
    ensures Holds(c', Fix(t, n))
  {
    assert c'[0..4] == c'[0..8][0..4] && c[0..4] == c[0..8][0..4];
    WordSame(c', 0, c, 0);
    assert c'[4..8] == c'[0..8][4..8] && c[4..8] == c[0..8][4..8];
    WordSame(c', 4, c, 4);
    WordRoundTrip(c', 8, (t.nameoff + n) % WORD);
  }

  lemma {:induction false} PendingNoEnd(ts: seq<Token>, strs: Bytes, items: seq<Item>)
    requires AllPending(ts, strs, items)
    ensures NoEnd(ts)
  {
    forall k | 0 <= k < |ts| ensures !ts[k].End? { assert Pending(ts[k], strs, items[k]); }
  }

  lemma {:induction false} FinalBlocks(joined: Bytes, b: Bytes, os: nat, top: nat, n: nat)
    requires HEADER <= os <= top && top + n <= |joined| == |b|
    requires b[..os] == joined[..os] && b[top..] == joined[top..]
    ensures b[HEADER..os] == joined[HEADER..os]
    ensures b[top..top + n] == joined[top..top + n]
  {
    RangeSame(b, joined, os, HEADER, os);
    TailRange(b, joined, top, n);
  }

  lemma {:induction false} ReserveAppend(b: Bytes, rs: seq<Reserve>, r: Reserve)
    requires r.Ok() && ReserveTable(b, rs) && |b| == ENTRY * |rs|
    ensures ReserveTable(b + Entry(r), rs + [r])
  {
    var c, all := b + Entry(r), rs + [r];
    if rs == [] {
      assert c[..ENTRY] == Entry(r);
    } else {
      assert c[..ENTRY] == b[..ENTRY] && c[ENTRY..] == b[ENTRY..] + Entry(r) && all[1..] == rs[1..] + [r];
      ReserveAppend(b[ENTRY..], rs[1..], r);
    }
  }
}
