/**
 fdt_pack in place: the three blocks are moved down one after the other, and no move overwrites
 bytes that a later move still has to read.
 */
module FdtPack {
  import opened Basics
  import opened FdtTokens
  import opened FdtBuffer
  import opened FdtTree
  import opened FdtEditor
  import FdtCheck

  /** The header, rounded up to the alignment of the reservations. */
  const HEADER: nat := 40

  /** Bytes of one reservation. */
  const ENTRY: nat := 16

  lemma {:induction false} Moved(w: Bytes, dst: nat, src: nat, len: nat, x: nat, y: nat)
    requires dst <= src && src + len <= |w| && x <= y <= |w| && (y <= dst || src + len <= x)
    ensures var b := Overwrite(w, dst, w[src..src + len]);
            b[dst..dst + len] == w[src..src + len] && b[x..y] == w[x..y]
  {
    var c := w[src..src + len];
    Written(w, dst, c);
    OverwriteElsewhere(w, dst, c, x, y);
  }

  /** The three moves of fdt_packblocks_ with one buffer as source and destination. */
  lemma {:induction false} Packed(w: Bytes, b: Bytes, b': Bytes, b'': Bytes, r: nat, z: nat, os: nat, zs: nat, ot: nat,
                                  zt: nat)
    requires HEADER <= r && r + z <= os && os + zs <= ot && ot + zt <= |w|
    requires b == Overwrite(w, HEADER, w[r..r + z])
    requires b' == Overwrite(b, HEADER + z, b[os..os + zs])
    requires b'' == Overwrite(b', HEADER + z + zs, b'[ot..ot + zt])
    ensures b''[HEADER..HEADER + z] == w[r..r + z]
    ensures b''[HEADER + z..HEADER + z + zs] == w[os..os + zs]
    ensures b''[HEADER + z + zs..HEADER + z + zs + zt] == w[ot..ot + zt]
  {
    hide Overwrite;
    var d, e := HEADER + z, HEADER + z + zs;
    Moved(w, HEADER, r, z, os, os + zs);
    Moved(w, HEADER, r, z, ot, ot + zt);
    Moved(b, d, os, zs, HEADER, d);
    Moved(b, d, os, zs, ot, ot + zt);
    Moved(b', e, ot, zt, HEADER, d);
    Moved(b', e, ot, zt, d, e);
  }

  lemma {:induction false} ImageMoved(w: Bytes, b: Bytes, os: nat, zs: nat, ot: nat, zt: nat, os': nat, ot': nat,
                                      ts: seq<Token>, items: seq<Item>)
    requires Image(w, os, zs, ot, zt, ts, items) && os' + zs <= ot' && ot' + zt <= |b|
    requires b[os'..os' + zs] == w[os..os + zs] && b[ot'..ot' + zt] == w[ot..ot + zt]
    ensures Image(b, os', zs, ot', zt, ts, items)
  {
  }

  /** fdt_packblocks_ with one buffer as source and destination. */
  method PackBlocks(buf: array<byte>, r: nat, z: nat, os: nat, zs: nat, ot: nat, zt: nat)
    requires HEADER <= r && r + z <= os && os + zs <= ot && ot + zt <= buf.Length
    modifies buf
    ensures var w, b := old(buf[..]), buf[..];
            && b[HEADER..HEADER + z] == w[r..r + z] && b[HEADER + z..HEADER + z + zs] == w[os..os + zs]
            && b[HEADER + z + zs..HEADER + z + zs + zt] == w[ot..ot + zt]
  {
    hide Overwrite;
    ghost var w := buf[..];
    Move(buf, HEADER, r, z);
    ghost var b := buf[..];
    Move(buf, HEADER + z, os, zs);
    ghost var b' := buf[..];
    Move(buf, HEADER + z + zs, ot, zt);
    Packed(w, b, b', buf[..], r, z, os, zs, ot, zt);
  }

  /** The bytes of the blob, with its reservations at r. */
  function Reservations(e: Editor, r: nat): FdtCheck.Blob
    reads e, e.buf
  {
    FdtCheck.Blob(0, 0, 0, e.totalSize, r, e.offStruct, e.offStrings, e.sizeStruct, e.sizeStrings, e.buf[..])
  }

  /** Entry n ends the reservations: it has size 0, no entry before it has, and it stands before the structure block. */
  ghost predicate EndsAt(f: FdtCheck.Blob, n: nat) {
    && FdtCheck.HasEntry(f, n) && FdtCheck.EntryAt(f, n).size == 0
    && (forall i: nat | i < n :: FdtCheck.LiveEntry(f, i))
    && f.offMemRsvmap + ENTRY * (n + 1) <= f.offStruct
  }

  /** fdt_pack of a blob whose reservations start at r; n of them. */
  method Pack(e: Editor, r: nat) returns (n: nat)
    requires e.Valid() && HEADER <= r && exists k :: EndsAt(Reservations(e, r), k)
    modifies e`offStruct, e`offStrings, e`totalSize, e.buf
    ensures e.Valid() && e.Struct() == old(e.Struct()) && e.Strings() == old(e.Strings())
    ensures EndsAt(old(Reservations(e, r)), n)
    ensures var z := ENTRY * (n + 1);
            e.offStruct == HEADER + z && r + z <= e.buf.Length
            && e.buf[..][HEADER..HEADER + z] == old(e.buf[..])[r..r + z]
    ensures e.offStrings == e.offStruct + e.sizeStruct
    ensures e.totalSize == e.offStrings + e.sizeStrings <= old(e.totalSize)
  {
    hide Image, Stream, Named, EndsAt;
    n := CountReservations(e, r);
    EndsBefore(Reservations(e, r), n);
    PackAround(e, r, ENTRY * (n + 1));
  }

  /** The same for reservations of z bytes. */
  method PackAround(e: Editor, r: nat, z: nat)
    requires e.Valid() && HEADER <= r && r + z <= e.offStruct
    modifies e`offStruct, e`offStrings, e`totalSize, e.buf
    ensures e.Valid() && e.Struct() == old(e.Struct()) && e.Strings() == old(e.Strings())
    ensures e.offStruct == HEADER + z && e.buf[..][HEADER..HEADER + z] == old(e.buf[..])[r..r + z]
    ensures e.offStrings == e.offStruct + e.sizeStruct
    ensures e.totalSize == e.offStrings + e.sizeStrings <= old(e.totalSize)
  {
    hide Image, Stream, Named;
    ghost var st, strs := e.Struct(), e.Strings();
    MoveBlocks(e.buf, r, z, e.offStruct, e.sizeStruct, e.offStrings, e.sizeStrings, e.tokens, e.items);
    SetOffsets(e, HEADER + z, st, strs);
  }

  lemma {:induction false} EndsBefore(f: FdtCheck.Blob, n: nat)
    requires EndsAt(f, n)
    ensures f.offMemRsvmap + ENTRY * (n + 1) <= f.offStruct
  {
  }

  method CountReservations(e: Editor, r: nat) returns (n: nat)
    requires e.Layout() && exists k :: EndsAt(Reservations(e, r), k)
    ensures EndsAt(Reservations(e, r), n)
  {
    hide FdtCheck.EntryAt;
    var f := Reservations(e, r);
    ghost var k :| EndsAt(f, k);
    var c := FdtCheck.NumMemRsv(f);
    assert !FdtCheck.LiveEntry(f, k);
    n := c;
  }

  /** The moves, seen on what the blocks hold. */
  method MoveBlocks(buf: array<byte>, r: nat, z: nat, os: nat, zs: nat, ot: nat, zt: nat, ghost ts: seq<Token>,
                    ghost items: seq<Item>)
    requires HEADER <= r && r + z <= os && os + zs <= ot && ot + zt <= buf.Length
    requires Image(buf[..], os, zs, ot, zt, ts, items)
    modifies buf
    ensures var d := HEADER + z; var w, b := old(buf[..]), buf[..];
            && Image(b, d, zs, d + zs, zt, ts, items) && b[HEADER..d] == w[r..r + z]
            && b[d..d + zs] == w[os..os + zs] && b[d + zs..d + zs + zt] == w[ot..ot + zt]
  {
    hide Image;
    ghost var w := buf[..];
    PackBlocks(buf, r, z, os, zs, ot, zt);
    ImageMoved(w, buf[..], os, zs, ot, zt, HEADER + z, HEADER + z + zs, ts, items);
  }

  /** The new offsets in the header, and the new total size. */
  method SetOffsets(e: Editor, d: nat, ghost st: Bytes, ghost strs: Bytes)
    requires e.totalSize <= e.buf.Length && e.totalSize <= INT_MAX && |e.tokens| == |e.items|
    requires d + e.sizeStruct + e.sizeStrings <= e.totalSize
    requires Image(e.buf[..], d, e.sizeStruct, d + e.sizeStruct, e.sizeStrings, e.tokens, e.items)
    requires var c := d + e.sizeStruct; e.buf[..][d..c] == st && e.buf[..][c..c + e.sizeStrings] == strs
    modifies e`offStruct, e`offStrings, e`totalSize
    ensures e.Valid() && e.Struct() == st && e.Strings() == strs
    ensures e.offStruct == d && e.offStrings == d + e.sizeStruct && e.totalSize == e.offStrings + e.sizeStrings
  {
    hide Image;
    e.offStruct, e.offStrings := d, d + e.sizeStruct;
    e.totalSize := e.DataSize();
  }
}
