/**
 In-place editing of a finished blob: fdt_rw.c moves everything behind the splice point,
 fdt_wip.c writes NOPs instead. The header is kept as fields.
 */
module FdtEditor {
  import opened Basics
  import opened FdtTokens
  import opened FdtBuffer
  import opened FdtTree
  import opened FdtEdit
  import opened FdtSubnodes

  /** The longest value whose padded length is still an int. */
  const MAX_VALUE: nat := INT_MAX - 15

  /** The longest node name for which this holds of its node. */
  const MAX_NAME: nat := INT_MAX - 12

  /**
   Two outcomes are no error codes of their own.  Argument: the negative offset that was passed in
   comes back.  Stray: the program writes outside the property or the structure block.
   */
  datatype Err = Argument | Ok | NotFound | Exists | NoSpace | BadOffset | BadStructure
    | BadPhandle | NoPhandles | BadOverlay | Stray

  // ----- Values -----

  /** b is w with the m bytes at a replaced by n other bytes, as far as the data of w reaches. */
  predicate Edited(w: Bytes, b: Bytes, end: nat, a: nat, m: nat, n: nat) {
    && |b| == |w| && a + m <= end <= |w| && end - m + n <= |b|
    && b[..a] == w[..a] && b[a + n..end - m + n] == w[a + m..end]
  }

  /** Moving the tail of the data makes room for an edit. */
  lemma {:induction false} Moved(w: Bytes, a: nat, m: nat, n: nat, end: nat)
    requires a + m <= end <= |w| && end - m + n <= |w|
    ensures Edited(w, Overwrite(w, a + n, w[a + m..end]), end, a, m, n)
  {
    var c := w[a + m..end];
    var b := Overwrite(w, a + n, c);
    Written(w, a + n, c);
    hide Overwrite;
    PrefixSame(b, w, a + n, a);
  }

  /** An edit inside the structure block leaves the rest of that block and the strings. */
  lemma {:induction false} EditedFront(w: Bytes, b: Bytes, os: nat, zs: nat, len: nat, a: nat)
    requires os <= a <= os + zs <= |w| && a <= os + len <= |b| && b[..a] == w[..a]
    ensures b[os..os + len][..a - os] == w[os..os + zs][..a - os]
  {
    RangeSame(b, w, a, os, a);
    SliceAt(b, os, len, 0, a - os);
    SliceAt(w, os, zs, 0, a - os);
  }

  lemma {:induction false} EditedBack(w: Bytes, b: Bytes, os: nat, zs: nat, len: nat, x: nat, y: nat, size: nat)
    requires os <= x <= os + zs <= x + size <= |w| && os <= y <= os + len <= y + size <= |b|
    requires b[y..y + size] == w[x..x + size] && os + zs - x == os + len - y
    ensures b[os..os + len][y - os..] == w[os..os + zs][x - os..]
  {
    var k := os + zs - x;
    SliceAt(b, os, len, y - os, len);
    SliceAt(w, os, zs, x - os, zs);
    SliceAt(b, y, size, 0, k);
    SliceAt(w, x, size, 0, k);
  }

  lemma {:induction false} EditedStruct(w: Bytes, b: Bytes, os: nat, zs: nat, end: nat, a: nat, m: nat, n: nat)
    requires os <= a && a + m <= os + zs <= end && Edited(w, b, end, a, m, n)
    ensures var st, st', o := w[os..os + zs], b[os..os + zs - m + n], a - os;
            st'[..o] == st[..o] && st'[o + n..] == st[o + m..] && st'[o..o + n] == b[a..a + n]
  {
    var o, len, size := a - os, zs - m + n, end - a - m;
    EditedFront(w, b, os, zs, len, a);
    EditedBack(w, b, os, zs, len, a + m, a + n, size);
    SliceAt(b, os, len, o, o + n);
  }

  lemma {:induction false} EditedBlocks(w: Bytes, b: Bytes, os: nat, zs: nat, ot: nat, end: nat, a: nat, m: nat, n: nat)
    requires os <= a && a + m <= os + zs <= ot <= end && Edited(w, b, end, a, m, n)
    ensures var st, st', o := w[os..os + zs], b[os..os + zs - m + n], a - os;
            st'[..o] == st[..o] && st'[o + n..] == st[o + m..] && st'[o..o + n] == b[a..a + n]
    ensures b[ot - m + n..end - m + n] == w[ot..end] && b[..os] == w[..os]
  {
    EditedStruct(w, b, os, zs, end, a, m, n);
    PrefixSame(b, w, a, os);
    var size := end - a - m;
    SliceAt(b, a + n, size, ot - a - m, size);
    SliceAt(w, a + m, size, ot - a - m, size);
  }

  lemma {:induction false} Glue(b: Bytes, x: nat, y: nat)
    requires x <= y <= |b|
    ensures b == b[..x] + b[x..y] + b[y..]
  {
  }

  /** Tokens k to j replaced by us. */
  lemma {:induction false} StreamEdited(st: Bytes, st': Bytes, ts: seq<Token>, k: nat, j: nat, n: nat, us: seq<Token>)
    requires Stream(st, ts) && k <= j <= |ts| && Off(ts, k) <= Off(ts, j) <= |st| && Off(ts, k) + n <= |st'|
    requires st'[..Off(ts, k)] == st[..Off(ts, k)] && st'[Off(ts, k) + n..] == st[Off(ts, j)..]
    requires Stream(st'[Off(ts, k)..Off(ts, k) + n], us)
    ensures Stream(st', ts[..k] + us + ts[j..])
  {
    hide Stream, Off;
    var o := Off(ts, k);
    Glue(st', o, o + n);
    StreamSplice(st, ts, k, j, st'[o..o + n], us);
  }

  lemma {:induction false} NamedEdited(ts: seq<Token>, strings: Bytes, items: seq<Item>, k: nat, j: nat, us: seq<Token>,
                                       mid: seq<Item>)
    requires Named(ts, strings, items) && k <= j <= |ts| && Named(us, strings, mid)
    ensures Named(ts[..k] + us + ts[j..], strings, Cut(items, k, j, mid))
  {
    hide ItemOf;
  }

  /** Names stay where they are when the strings block grows at its end. */
  lemma {:induction false} NamedGrows(ts: seq<Token>, strings: Bytes, more: Bytes, items: seq<Item>)
    requires Named(ts, strings, items)
    ensures Named(ts, strings + more, items)
  {
    forall k | 0 <= k < |ts| ensures ItemOf(ts[k], strings + more) == Some(items[k]) {
      if ts[k].Prop? { StringGrows(strings, more, ts[k].nameoff); }
    }
  }

  lemma {:induction false} StringGrows(strings: Bytes, more: Bytes, off: nat)
    requires GetString(strings, off).Some?
    ensures GetString(strings + more, off) == GetString(strings, off)
  {
    var p, all := Nul(strings, off), strings + more;
    NulIs(all, off, p);
    assert all[off..p] == strings[off..p];
  }

  lemma {:induction false} OccursGets(tab: Bytes, i: nat, name: Bytes)
    requires OccursAt(tab, i, name) && 0 !in name
    ensures GetString(tab, i) == Some(name)
  {
    var c, p := tab[i..i + |name| + 1], i + |name|;
    assert tab[i..p] == c[..|name|] == name && tab[p] == c[|name|] == 0;
    assert forall q | i <= q < p :: tab[q] == tab[i..p][q - i];
    NulIs(tab, i, p);
  }

  function Nops(n: nat): (r: seq<Token>)
    ensures |r| == n && forall i | 0 <= i < n :: r[i] == Nop
  {
    seq(n, _ => Nop)
  }

  lemma {:induction false} NopsNamed(n: nat, strings: Bytes)
    ensures Named(Nops(n), strings, Skips(n))
  {
  }

  /** A blob whose items are known decodes to a tree exactly when the items, without NOPs, are the tree's. */
  lemma {:induction false} DecodeItems(b: Bytes, ts: seq<Token>, strings: Bytes, items: seq<Item>, root: Node)
    requires Stream(b, ts + [End]) && |b| <= INT_MAX && Named(ts, strings, items)
    ensures Decode(b, strings) == Some(root) <==> Strip(items) == Flatten(root)
  {
    hide Stream, Named, ReadItems, ParseNode, Flatten, Strip;
    ReadStream(b, ts, strings, items, 0);
    assert items[0..] == items && Off(ts + [End], 0) == 0;
    ParseExact(Strip(items), root);
  }

  /** The bytes w hold these tokens in the structure block and their names in the strings block. */
  predicate Image(w: Bytes, os: nat, zs: nat, ot: nat, zt: nat, ts: seq<Token>, items: seq<Item>) {
    && os + zs <= ot && ot + zt <= |w| && |ts| == |items|
    && Stream(w[os..os + zs], ts + [End]) && Named(ts, w[ot..ot + zt], items)
  }

  /** At o there are n bytes that hold the tokens us. */
  ghost predicate Wrote(b: Bytes, o: nat, n: nat, us: seq<Token>) {
    o + n <= |b| && Stream(b[o..o + n], us)
  }

  /** At o there is the token t. */
  ghost predicate HeldAt(b: Bytes, o: nat, t: Token) {
    o + t.Len() <= |b| && Holds(b[o..o + t.Len()], t)
  }

  lemma {:induction false} WroteOne(b: Bytes, o: nat, t: Token)
    requires HeldAt(b, o, t)
    ensures Wrote(b, o, t.Len(), [t])
  {
    StreamOne(b[o..o + t.Len()], t);
  }

  /** The header and the strings of the blob w. */
  ghost predicate Known(w: Bytes, os: nat, head: Bytes, ot: nat, zt: nat, strings: Bytes) {
    os <= |w| && ot + zt <= |w| && head == w[..os] && strings == w[ot..ot + zt]
  }

  /** Outside n bytes at a nothing has changed. */
  ghost predicate Around(w: Bytes, b: Bytes, a: nat, n: nat) {
    |b| == |w| && a + n <= |w| && b[..a] == w[..a] && b[a + n..] == w[a + n..]
  }

  /** In the blob w, tokens k to j, which lie at o and take m bytes, have been replaced by us, which take n. */
  ghost predicate Replaced(w: Bytes, b: Bytes, os: nat, zs: nat, ot: nat, zt: nat, ts: seq<Token>, items: seq<Item>,
                           k: nat, j: nat, o: nat, m: nat, n: nat, us: seq<Token>, mid: seq<Item>)
  {
    && Image(w, os, zs, ot, zt, ts, items) && k <= j <= |ts| == |items| && |us| == |mid|
    && Named(us, w[ot..ot + zt], mid)
    && o == Off(ts + [End], k) && o + m == Off(ts + [End], j) && o + m <= zs
    && Edited(w, b, ot + zt, os + o, m, n) && Wrote(b, os + o, n, us)
  }

  lemma {:induction false} ReplacedBy(w: Bytes, b: Bytes, os: nat, zs: nat, ot: nat, zt: nat, ts: seq<Token>,
                                      items: seq<Item>, k: nat, j: nat, o: nat, m: nat, n: nat, us: seq<Token>,
                                      mid: seq<Item>, head: Bytes, strings: Bytes)
    requires Image(w, os, zs, ot, zt, ts, items) && k <= j <= |ts| && |us| == |mid|
    requires Known(w, os, head, ot, zt, strings) && Named(us, strings, mid)
    requires o == Off(ts + [End], k) && o + m == Off(ts + [End], j) && o + m <= zs
    requires Edited(w, b, ot + zt, os + o, m, n) && Wrote(b, os + o, n, us)
    ensures Replaced(w, b, os, zs, ot, zt, ts, items, k, j, o, m, n, us, mid)
  {
  }

  /** NOPs in place of the tokens k to j. */
  lemma {:induction false} NopsReplace(w: Bytes, b: Bytes, os: nat, zs: nat, ot: nat, zt: nat, ts: seq<Token>,
                                       items: seq<Item>, k: nat, j: nat, o: nat, n: nat, head: Bytes, strings: Bytes)
    requires Image(w, os, zs, ot, zt, ts, items) && k <= j <= |ts| && Known(w, os, head, ot, zt, strings)
    requires o == Off(ts + [End], k) && o + n == Off(ts + [End], j) && o + n <= zs
    requires Around(w, b, os + o, n) && Wrote(b, os + o, n, Nops(n / 4))
    ensures Replaced(w, b, os, zs, ot, zt, ts, items, k, j, o, n, n, Nops(n / 4), Skips(n / 4))
  {
    hide Stream, Named, Off, Edited, Wrote, Known, Around, Replaced;
    var us, mid := Nops(n / 4), Skips(n / 4);
    EditedInPlace(w, b, ot + zt, os + o, n);
    NopsNamed(n / 4, strings);
    ReplacedBy(w, b, os, zs, ot, zt, ts, items, k, j, o, n, n, us, mid, head, strings);
  }

  lemma {:induction false} Rebuilt(w: Bytes, b: Bytes, os: nat, zs: nat, ot: nat, zt: nat, ts: seq<Token>,
                                   items: seq<Item>, k: nat, j: nat, o: nat, m: nat, n: nat, us: seq<Token>,
                                   mid: seq<Item>)
    requires Replaced(w, b, os, zs, ot, zt, ts, items, k, j, o, m, n, us, mid)
    ensures k <= j <= |ts| == |items| && m <= zs && m <= ot
    ensures Image(b, os, zs - m + n, ot - m + n, zt, ts[..k] + us + ts[j..], Cut(items, k, j, mid))
    ensures |ts[..k] + us + ts[j..]| == |Cut(items, k, j, mid)|
    ensures b[ot - m + n..ot - m + n + zt] == w[ot..ot + zt] && b[..os] == w[..os]
  {
    hide Stream, Named, Off;
    var all := ts + [End];
    EditedBlocks(w, b, os, zs, ot, ot + zt, os + o, m, n);
    StreamEdited(w[os..os + zs], b[os..os + zs - m + n], all, k, j, n, us);
    Endless(ts, k, j, us);
    NamedEdited(ts, w[ot..ot + zt], items, k, j, us, mid);
  }

  lemma {:induction false} Endless(ts: seq<Token>, k: nat, j: nat, us: seq<Token>)
    requires k <= j <= |ts|
    ensures (ts + [End])[..k] + us + (ts + [End])[j..] == ts[..k] + us + ts[j..] + [End]
  {
    var all := ts + [End];
    assert all[..k] == ts[..k] && all[j..] == ts[j..] + [End];
    assert (ts[..k] + us) + (ts[j..] + [End]) == ts[..k] + us + ts[j..] + [End];
  }

  /** The number of words that tokens k to e take. */
  function Words(ts: seq<Token>, k: nat, e: nat): nat
    requires k <= e <= |ts|
  {
    OffMonotone(ts, k, e);
    (Off(ts, e) - Off(ts, k)) / 4
  }

  lemma {:induction false} Aligned(o: nat, e: nat)
    requires o % 4 == 0 && e % 4 == 0 && o <= e
    ensures Align4(e - o) == e - o
  {
  }

  /** A property whose value has been replaced by one of another length. */
  lemma {:induction false} ResizedEdited(w: Bytes, b: Bytes, b': Bytes, b'': Bytes, end: nat, a: nat, m: nat, n: nat,
                                         value: Bytes)
    requires a + 12 + m <= end <= |w| && |value| <= n && |value| <= INT_MAX && Edited(w, b, end, a + 12, m, n)
    requires b' == Overwrite(b, a + 4, BE32(|value|)) && b'' == Overwrite(b', a + 12, value)
    ensures Edited(w, b'', end, a, 12 + m, 12 + n)
  {
    hide Overwrite, BE32;
    ResizedElsewhere(w, b, b', b'', a, value, 0, a);
    OverwriteElsewhere(b, a + 4, BE32(|value|), a + 12 + n, end - m + n);
    OverwriteElsewhere(b', a + 12, value, a + 12 + n, end - m + n);
    assert b''[..a] == b''[0..a] && w[..a] == w[0..a];
  }

  lemma {:induction false} Resized(w: Bytes, b: Bytes, b': Bytes, b'': Bytes, end: nat, a: nat, t: Token, value: Bytes)
    requires t.Prop? && a + t.Len() <= end <= |w| && Holds(w[a..a + t.Len()], t) && |value| <= INT_MAX
    requires Edited(w, b, end, a + 12, Align4(|t.value|), Align4(|value|))
    requires b' == Overwrite(b, a + 4, BE32(|value|)) && b'' == Overwrite(b', a + 12, value)
    ensures var t' := Prop(t.nameoff, value);
            Edited(w, b'', end, a, t.Len(), t'.Len()) && Holds(b''[a..a + t'.Len()], t')
  {
    hide Overwrite, Align4, Token.Len, Holds, BE32;
    var m, n, t' := Align4(|t.value|), Align4(|value|), Prop(t.nameoff, value);
    PropLen(t);
    PropLen(t');
    ResizedEdited(w, b, b', b'', end, a, m, n, value);
    ResizedElsewhere(w, b, b', b'', a, value, a, a + 4);
    ResizedElsewhere(w, b, b', b'', a, value, a + 8, a + 12);
    OverwriteElsewhere(b', a + 12, value, a + 4, a + 8);
    Written(b, a + 4, BE32(|value|));
    Written(b', a + 12, value);
    ResizedHolds(w, b'', a, t, value);
  }

  lemma {:induction false} ResizedElsewhere(w: Bytes, b: Bytes, b': Bytes, b'': Bytes, a: nat, value: Bytes, x: nat,
                                            y: nat)
    requires a + 12 + |value| <= |b| && a + 12 <= |w| && b[..a + 12] == w[..a + 12] && |value| <= INT_MAX
    requires b' == Overwrite(b, a + 4, BE32(|value|)) && b'' == Overwrite(b', a + 12, value)
    requires x <= y <= a + 4 || a + 8 <= x <= y <= a + 12
    ensures b''[x..y] == w[x..y]
  {
    hide Overwrite;
    RangeSame(b, w, a + 12, x, y);
    OverwriteElsewhere(b, a + 4, BE32(|value|), x, y);
    OverwriteElsewhere(b', a + 12, value, x, y);
  }

  lemma {:induction false} PropHeld(w: Bytes, a: nat, t: Token)
    requires t.Prop? && a + t.Len() <= |w| && Holds(w[a..a + t.Len()], t)
    ensures a + 12 <= |w| && t.Ok() && U32(w, a) == t.Tag() && U32(w, a + 8) == t.nameoff
  {
    hide U32;
    var m := t.Len();
    WordAt(w, a, m, 0);
    WordAt(w, a, m, 8);
  }

  lemma {:induction false} HoldsProp(b: Bytes, a: nat, t: Token)
    requires t.Prop? && t.Ok() && a + t.Len() <= |b| && 12 + |t.value| <= t.Len()
    requires U32(b, a) == t.Tag() && U32(b, a + 4) == |t.value| && U32(b, a + 8) == t.nameoff
    requires b[a + 12..a + 12 + |t.value|] == t.value
    ensures Holds(b[a..a + t.Len()], t)
  {
    hide U32, Token.Len, Token.Tag;
    var n := t.Len();
    WordAt(b, a, n, 0);
    WordAt(b, a, n, 4);
    WordAt(b, a, n, 8);
    SliceAt(b, a, n, 12, 12 + |t.value|);
  }

  lemma {:induction false} ResizedHolds(w: Bytes, b: Bytes, a: nat, t: Token, value: Bytes)
    requires t.Prop? && a + t.Len() <= |w| && Holds(w[a..a + t.Len()], t) && |value| <= INT_MAX
    requires a + Prop(t.nameoff, value).Len() <= |b|
    requires b[a..a + 4] == w[a..a + 4] && b[a + 4..a + 8] == BE32(|value|) && b[a + 8..a + 12] == w[a + 8..a + 12]
    requires b[a + 12..a + 12 + |value|] == value
    ensures Holds(b[a..a + Prop(t.nameoff, value).Len()], Prop(t.nameoff, value))
  {
    hide U32, Holds, BE32;
    PropHeld(w, a, t);
    WordSame(b, a, w, a);
    WordSame(b, a + 8, w, a + 8);
    WordRoundTrip(b, a + 4, |value|);
    HoldsProp(b, a, Prop(t.nameoff, value));
  }

  /** A string appended to the strings block; without it the blob is what it was. */
  /** The name has been written behind the strings of the blob w. */
  ghost predicate Appended(w: Bytes, b: Bytes, os: nat, zs: nat, ot: nat, zt: nat, name: Bytes,
                           ts: seq<Token>, items: seq<Item>)
  {
    && os + zs <= ot && ot + zt + |name| + 1 <= |b| == |w|
    && Image(b, os, zs, ot, zt, ts, items) && Image(b, os, zs, ot, zt + |name| + 1, ts, items)
    && b[ot..ot + zt + |name| + 1] == w[ot..ot + zt] + (name + [0]) && b[ot..ot + zt] == w[ot..ot + zt]
    && b[os..os + zs] == w[os..os + zs] && b[..os] == w[..os]
  }

  lemma {:induction false} StringAdded(w: Bytes, gap: Bytes, b: Bytes, os: nat, zs: nat, ot: nat, zt: nat, name: Bytes,
                                       ts: seq<Token>, items: seq<Item>)
    requires Image(w, os, zs, ot, zt, ts, items) && ot + zt + |name| + 1 <= |gap|
    requires Edited(w, gap, ot + zt, ot + zt, 0, |name| + 1) && b == Overwrite(gap, ot + zt, name + [0])
    ensures Appended(w, b, os, zs, ot, zt, name, ts, items)
  {
    hide Stream, Named, Overwrite;
    var end := ot + zt;
    Written(gap, end, name + [0]);
    RangeSame(b, w, end, os, os + zs);
    RangeSame(b, w, end, ot, end);
    PrefixSame(b, w, end, os);
    assert b[ot..end + |name| + 1] == b[ot..end] + b[end..end + |name| + 1];
    NamedGrows(ts, w[ot..end], name + [0], items);
  }

  lemma {:induction false} OccursLast(strings: Bytes, name: Bytes)
    ensures OccursAt(strings + (name + [0]), |strings|, name)
  {
    var all := strings + (name + [0]);
    assert all[|strings|..|strings| + |name| + 1] == name + [0];
  }

  lemma {:induction false} NewProp(strings: Bytes, off: nat, name: Bytes, value: Bytes)
    requires OccursAt(strings, off, name) && 0 !in name && |strings| <= INT_MAX && |value| <= MAX_VALUE
    ensures Prop(off, value).Ok() && Prop(off, value).Len() == 12 + Align4(|value|)
    ensures Named([Prop(off, value)], strings, [Attr(name, value)])
  {
    PropLen(Prop(off, value));
    OccursGets(strings, off, name);
  }

  // ----- The blob -----

  /** The length of the run of properties and NOPs at i. */
  function RunFrom(s: seq<Item>, i: nat): nat
    requires i <= |s|
  {
    PropRun(s[i..])
  }

  lemma {:induction false} RunIs(s: seq<Item>, i: nat)
    requires i <= |s|
    ensures RunFrom(s, i) == PropRun(s[i..])
  {
  }

  lemma {:induction false} RunStep(s: seq<Item>, i: nat)
    requires i <= |s|
    ensures RunFrom(s, i) == if i < |s| && (s[i].Attr? || s[i].Skip?) then 1 + RunFrom(s, i + 1) else 0
  {
    PropRunFirst(s[i..]);
    if i < |s| { assert s[i..][1..] == s[i + 1..]; }
  }

  class Editor {
    const buf: array<byte>
    var totalSize: nat
    var offStruct: nat
    var sizeStruct: nat
    var offStrings: nat
    var sizeStrings: nat

    ghost var tokens: seq<Token>
    ghost var items: seq<Item>

    /** What fdt_rw_probe_ demands of the blocks. */
    predicate Layout()
      reads this
    {
      && offStruct + sizeStruct <= offStrings && offStrings + sizeStrings <= totalSize
      && totalSize <= buf.Length && totalSize <= INT_MAX
    }

    function Struct(): Bytes
      requires Layout()
      reads this, buf
    {
      buf[..][offStruct..offStruct + sizeStruct]
    }

    function Strings(): Bytes
      requires Layout()
      reads this, buf
    {
      buf[..][offStrings..offStrings + sizeStrings]
    }

    /** The header and the memory reservations. */
    function Head(): Bytes
      requires Layout()
      reads this, buf
    {
      buf[..][..offStruct]
    }

    ghost predicate Valid()
      reads this, buf
    {
      && Layout() && |tokens| == |items|
      && Image(buf[..], offStruct, sizeStruct, offStrings, sizeStrings, tokens, items)
    }

    function DataSize(): nat
      reads this
    {
      offStrings + sizeStrings
    }

    /** fdt_splice_. */
    method Splice(p: nat, oldLen: nat, newLen: nat) returns (err: Err)
      requires Layout()
      modifies buf
      ensures err == if p + oldLen > DataSize() then BadOffset
                     else if DataSize() - oldLen + newLen > totalSize then NoSpace
                     else Ok
      ensures err != Ok ==> unchanged(buf)
      ensures err == Ok ==> Edited(old(buf[..]), buf[..], DataSize(), p, oldLen, newLen)
    {
      hide Overwrite, Edited;
      var end := DataSize();
      if p + oldLen > end { return BadOffset; }
      if end - oldLen + newLen > totalSize { return NoSpace; }
      ghost var w := buf[..];
      Move(buf, p + newLen, p + oldLen, end - p - oldLen);
      Moved(w, p, oldLen, newLen, end);
      return Ok;
    }

    /** fdt_splice_struct_. */
    method SpliceStruct(p: nat, oldLen: nat, newLen: nat) returns (err: Err)
      requires Layout() && (p + oldLen <= DataSize() ==> offStruct <= p && p + oldLen <= offStruct + sizeStruct)
      modifies this`sizeStruct, this`offStrings, buf
      ensures err == if p + oldLen > old(DataSize()) then BadOffset
                     else if old(DataSize()) - oldLen + newLen > totalSize then NoSpace
                     else Ok
      ensures err != Ok ==> unchanged(this) && unchanged(buf)
      ensures err == Ok ==> sizeStruct == old(sizeStruct) - oldLen + newLen
      ensures err == Ok ==> offStrings == old(offStrings) - oldLen + newLen
      ensures err == Ok ==> Layout() && Edited(old(buf[..]), buf[..], old(DataSize()), p, oldLen, newLen)
    {
      hide Edited;
      err := Splice(p, oldLen, newLen);
      if err != Ok { return; }
      sizeStruct := sizeStruct - oldLen + newLen;
      offStrings := offStrings - oldLen + newLen;
    }

    /** Record that tokens k to j of the blob w have been replaced by us. */
    ghost method Commit(w: Bytes, zs: nat, ot: nat, k: nat, j: nat, o: nat, m: nat, n: nat, us: seq<Token>,
                        mid: seq<Item>, head: Bytes, strings: Bytes)
      requires Layout() && Replaced(w, buf[..], offStruct, zs, ot, sizeStrings, tokens, items, k, j, o, m, n, us, mid)
      requires sizeStruct == zs - m + n && offStrings == ot - m + n
      requires Known(w, offStruct, head, ot, sizeStrings, strings)
      modifies this`tokens, this`items
      ensures Valid() && Strings() == strings && Head() == head
      ensures k <= j <= |old(tokens)| == |old(items)| && items == Cut(old(items), k, j, mid)
      ensures k <= |tokens| && tokens == old(tokens)[..k] + us + old(tokens)[j..]
    {
      hide Image, Replaced;
      ghost var b := buf[..];
      Rebuilt(w, b, offStruct, zs, ot, sizeStrings, tokens, items, k, j, o, m, n, us, mid);
      tokens, items := tokens[..k] + us + tokens[j..], Cut(items, k, j, mid);
      assert buf[..] == b;
    }

    // ----- Reading -----

    /** The offset o is that of token k, or for k < 0 it is no offset of the structure block. */
    ghost predicate Addr(o: int, k: int)
      reads this
    {
      if 0 <= k then k <= |tokens| && o == Off(tokens + [End], k) else o < 0 || o % 4 != 0 || o >= sizeStruct
    }

    /** The tokens and items up to the node k, and so its offset, are what they were. */
    ghost predicate KeptUpTo(was: seq<Token>, ones: seq<Item>, k: nat)
      reads this
    {
      && k < |was| && k < |tokens| && tokens[..k + 1] == was[..k + 1]
      && k < |ones| && k < |items| && items[..k + 1] == ones[..k + 1]
    }

    lemma {:induction false} KeptSelf(k: nat)
      requires k < |tokens| && k < |items|
      ensures KeptUpTo(tokens, items, k)
    {
    }

    ghost predicate IsNode(k: int)
      reads this
    {
      0 <= k < |tokens| && tokens[k].Begin?
    }

    /** The token at a boundary. */
    lemma {:induction false} TokenHere(k: nat)
      requires Valid() && k <= |tokens|
      ensures var all := tokens + [End]; var st, o := Struct(), Off(all, k);
              && NextTag(st, o) == Next(all[k].Tag(), Off(all, k + 1)) && o + all[k].Len() == Off(all, k + 1) <= |st|
              && Holds(st[o..o + all[k].Len()], all[k])
      ensures k < |tokens| ==> ItemOf(tokens[k], Strings()) == Some(items[k])
    {
      hide Stream, Off, NextTag, Holds, ItemOf;
      var all := tokens + [End];
      TokenAt(Struct(), all, k);
      NextTagReads(Struct(), Off(all, k), all[k]);
      OffStep(all, k);
    }

    /** fdt_next_tag at token k tells the kind of item k and steps to the next token. */
    lemma {:induction false} Step(k: nat)
      requires Valid() && k <= |tokens|
      ensures var n := NextTag(Struct(), Off(tokens + [End], k));
              && n.offset == Off(tokens + [End], k + 1)
              && if k == |tokens| then n.tag == FDT_END else n.tag == ItemTag(items[k])
    {
      hide Stream, Off, NextTag, Holds, Image;
      TokenHere(k);
    }

    /** The fields of property number k. */
    lemma {:induction false} PropFieldsHere(k: nat)
      requires Valid() && k < |tokens| && items[k].Attr?
      ensures var st, o, t := Struct(), Off(tokens + [End], k), tokens[k];
              && t.Prop? && o + 12 + |t.value| <= |st| && t.value == items[k].value
              && U32(st, o + 4) == |t.value| && st[o + 12..o + 12 + |t.value|] == t.value
              && GetString(Strings(), U32(st, o + 8)) == Some(items[k].name) && 0 !in items[k].name
    {
      hide Stream, Off, NextTag, Holds, Image;
      TokenHere(k);
      HeldFields(Struct(), Off(tokens + [End], k), tokens[k]);
    }

    /** The name of node number k. */
    lemma {:induction false} NameHere(k: nat)
      requires Valid() && k < |tokens| && items[k].Open?
      ensures var st, o := Struct(), Off(tokens + [End], k);
              && tokens[k] == Begin(items[k].name) && 0 !in items[k].name
              && o + 4 <= |st| && st[o + 4..Nul(st, o + 4)] == items[k].name
    {
      hide Stream, Off, NextTag, Image;
      TokenHere(k);
      HeldFields(Struct(), Off(tokens + [End], k), tokens[k]);
    }

    /**
     fdt_check_node_offset_.  It accepts every aligned word that holds the tag of a node,
     whether or not a token starts there.
     */
    method CheckNodeOffset(o: int, ghost k: int) returns (next: int)
      requires Valid()
      ensures 0 <= next <==> 0 <= o && o % 4 == 0 && o + 4 <= sizeStruct && U32(Struct(), o) == FDT_BEGIN_NODE
      ensures Addr(o, k) ==> (0 <= next <==> IsNode(k)) && (IsNode(k) ==> next == Off(tokens + [End], k + 1))
    {
      hide Stream, Named, Off, NextTag, Image, ItemTag, U32;
      if o < 0 || o % 4 != 0 { return -1; }
      var n := NextTag(Struct(), o);
      NodeWord(o);
      if Addr(o, k) {
        if k >= 0 { Step(k); NodeTag(k); } else { PastEnd(Struct(), o); }
      }
      if n.tag != FDT_BEGIN_NODE { return -1; }
      return n.offset;
    }

    lemma {:induction false} NodeWord(o: nat)
      requires Valid() && o % 4 == 0
      ensures NextTag(Struct(), o).tag == FDT_BEGIN_NODE <==> o + 4 <= sizeStruct && U32(Struct(), o) == FDT_BEGIN_NODE
      ensures NextTag(Struct(), o).tag == FDT_BEGIN_NODE ==> 0 <= NextTag(Struct(), o).offset
    {
      hide Stream, Named;
      NodeTagAt(Struct(), tokens, o);
    }

    /** So a property value can hold an offset that is accepted and names no node. */
    lemma {:induction false} InsideValue(j: nat, i: nat)
      requires Valid() && j < |tokens| && tokens[j].Prop? && i % 4 == 0 && i + 4 <= |tokens[j].value|
      requires U32(tokens[j].value, i) == FDT_BEGIN_NODE
      ensures var st, o := Struct(), Off(tokens + [End], j) + 12 + i;
              && Off(tokens + [End], j) < o < Off(tokens + [End], j + 1) && o + 4 <= |st|
              && U32(st, o) == FDT_BEGIN_NODE
    {
      hide Stream, Named, Off, NextTag, Image, U32;
      var st, o, v := Struct(), Off(tokens + [End], j), tokens[j].value;
      TokenHere(j);
      HeldFields(st, o, tokens[j]);
      UsedBound(tokens[j]);
      WordAt(st, o + 12, |v|, i);
    }

    /** fdt_get_property, as an offset into the structure block. */
    method GetProperty(o: int, name: Bytes, ghost k: int) returns (err: Err, p: nat, len: nat)
      requires Valid() && Addr(o, k)
      ensures !IsNode(k) ==> err == BadOffset
      ensures IsNode(k) ==> err == match AttrOf(items, k, name)
                              case At(_) => Ok
                              case Absent => NotFound
                              case Broken => BadStructure
      ensures err == Ok ==> var j := AttrOf(items, k, name).index;
                            tokens[j].Prop? && p == Off(tokens + [End], j)
                            && len == |tokens[j].value| == |items[j].value|
    {
      hide Stream, Named, Off, NextTag, Image, FindAttr, U32, GetString, Token.Tag, Token.Used, Token.Len, Token.Ok;
      p, len := 0, 0;
      var next := CheckNodeOffset(o, k);
      if next < 0 { return BadOffset, 0, 0; }
      ghost var i := k + 1;
      while true
        invariant k < i <= |tokens| && next == Off(tokens + [End], i)
        invariant AttrOf(items, k, name) == Later(FindAttr(items[i..], name), i)
        decreases |tokens| - i
      {
        p := next;
        var n := NextTag(Struct(), p);
        Step(i);
        FindAttrFirst(items[i..], name);
        if i < |items| { TailOf(items, i); }
        if n.tag == FDT_END {
          return BadStructure, 0, 0;
        } else if n.tag == FDT_PROP {
          PropFieldsHere(i);
          len := U32(Struct(), p + 4);
          if GetString(Strings(), U32(Struct(), p + 8)) == Some(name) { return Ok, p, len; }
        } else if n.tag != FDT_NOP {
          return NotFound, 0, 0;
        }
        i, next := i + 1, n.offset;
      }
    }

    /** The first item behind the node at o; a negative offset stands before the first item. */
    ghost function From(o: int, k: int): int { if o < 0 then 0 else k + 1 }

    /** fdt_next_node from the node k, `depth` levels below the start, or from before the first node. */
    method NextNode(o: int, depth: nat, ghost k: int, ghost pat: Pattern)
      returns (next: int, depth': int, ghost k': nat)
      requires Valid() && Addr(o, k)
      ensures 0 <= o && !IsNode(k) ==> next < 0
      ensures o < 0 || IsNode(k) ==>
                && Stepped(items, From(o, k), depth, pat, 0 <= next, depth', k')
                && (0 <= next ==>
                      && k' <= |tokens| && next == Off(tokens + [End], k')
                      && (0 <= depth' ==> IsNode(k') && 0 < depth'))
    {
      hide Stream, Named, Off, NextTag, Span, FindSub, Image, Along, Later, Plus, Quiet, Closes, U32;
      next := 0;
      if 0 <= o {
        next := CheckNodeOffset(o, k);
        if next < 0 { return -1, depth, 0; }
      }
      k', depth' := From(o, k), depth;
      ghost var i := k';
      OffAtZero(tokens + [End]);
      AlongStart(items, i, depth, pat);
      while true
        invariant i <= k' <= |tokens| && next == Off(tokens + [End], k') && 0 <= depth'
        invariant Along(items, i, depth, k', depth', pat)
        decreases |tokens| - k'
      {
        var here := next;
        var n := NextTag(Struct(), here);
        Step(k');
        NodeTag(k');
        AlongStep(items, i, depth, k', depth', pat);
        if n.tag == FDT_END { return -1, depth', k'; }
        k', next := k' + 1, n.offset;
        if n.tag == FDT_BEGIN_NODE {
          return here, depth' + 1, k' - 1;
        } else if n.tag == FDT_END_NODE {
          depth' := depth' - 1;
          if depth' < 0 { return; }
        }
      }
    }

    /** fdt_node_end_offset_. */
    method NodeEnd(o: int, ghost k: int) returns (err: Err, end: nat)
      requires Valid() && Addr(o, k)
      ensures !IsNode(k) ==> err == if o < 0 then Argument else BadOffset
      ensures IsNode(k) ==> err == if EndOf(items, k).Some? then Ok else NotFound
      ensures err == Ok ==> end == Off(tokens + [End], EndOf(items, k).value)
    {
      hide Stream, Named, Off, Span, Plus, U32, Stepped, Image;
      end := 0;
      if o < 0 { return Argument, 0; }
      var first := CheckNodeOffset(o, k);
      if first < 0 { return BadOffset, 0; }
      var offset, depth: int := o, 0;
      ghost var i := k;
      while 0 <= depth
        invariant k <= i <= |tokens| && 0 <= offset == Off(tokens + [End], i)
        invariant 0 <= depth ==> IsNode(i) && EndOf(items, k) == Plus(Span(items[i + 1..], depth), i + 1)
        invariant depth < 0 ==> EndOf(items, k) == Some(i)
        decreases |tokens| - i, depth
      {
        ghost var d, was := depth, i;
        offset, depth, i := NextNode(offset, depth, i, Any);
        SteppedEnd(items, was + 1, d, Any, 0 <= offset, depth, i);
        if offset < 0 { return NotFound, 0; }
      }
      return Ok, offset;
    }

    // ----- Erasing -----

    /** fdt_nop_region_. */
    method NopRegion(start: nat, len: nat)
      requires start + Align4(len) <= buf.Length
      modifies buf
      ensures var n := Align4(len); Around(old(buf[..]), buf[..], start, n) && Wrote(buf[..], start, n, Nops(n / 4))
    {
      hide Stream, Holds;
      ghost var w := buf[..];
      var p := start;
      EmptyStream(w, start);
      while p < start + len
        invariant start <= p <= start + Align4(len) && (p - start) % 4 == 0
        invariant buf[..][..start] == w[..start] && buf[..][p..] == w[p..]
        invariant Stream(buf[..][start..p], Nops((p - start) / 4))
      {
        ghost var b := buf[..];
        WriteToken(buf, p, Nop);
        SuffixSame(b, w, p, p + 4);
        PrefixSame(buf[..], b, p, start);
        RangeSame(buf[..], b, p, start, p);
        NopMore(buf[..], start, p, (p - start) / 4);
        p := p + 4;
      }
      assert p == start + Align4(len);
    }

    /** Splice tokens j to e out of the structure block. */
    method CutOut(p: nat, q: nat, ghost j: nat, ghost e: nat)
      requires Valid() && j <= e <= |tokens| && p == Off(tokens + [End], j) && q == Off(tokens + [End], e)
      modifies this`sizeStruct, this`offStrings, this`tokens, this`items, buf
      ensures Valid() && Strings() == old(Strings()) && Head() == old(Head())
      ensures items == Cut(old(items), j, e, [])
    {
      hide Stream, Named, Off, Edited, Image, Cut, Valid, Struct, Strings, Head, Replaced, Wrote, Known, Around;
      Blocks();
      ghost var head, strs := Head(), Strings();
      ghost var w := buf[..];
      OffsFit(w, offStruct, sizeStruct, offStrings, sizeStrings, tokens, items, j, e);
      var err := SpliceStruct(offStruct + p, q - p, 0);
      ghost var b, zs, ot := buf[..], old(sizeStruct), old(offStrings);
      EmptyStream(b, offStruct + p);
      NoNames(strs);
      ReplacedBy(w, b, offStruct, zs, ot, sizeStrings, tokens, items, j, e, p, q - p, 0, [], [], head, strs);
      Commit(w, zs, ot, j, e, p, q - p, 0, [], [], head, strs);
    }

    /** Write NOPs over tokens j to e. */
    method NopOut(p: nat, len: nat, ghost j: nat, ghost e: nat)
      requires Valid() && j <= e <= |tokens|
      requires p == Off(tokens + [End], j) && p + Align4(len) == Off(tokens + [End], e)
      modifies this`tokens, this`items, buf
      ensures Valid() && Strings() == old(Strings()) && Head() == old(Head())
      ensures items == Cut(old(items), j, e, Skips(Align4(len) / 4))
    {
      hide Stream, Named, Off, Edited, Align4, Image, Cut, Valid, Struct, Strings, Head, Replaced, Wrote, Known, Around;
      Blocks();
      ghost var head, strs := Head(), Strings();
      ghost var w, n := buf[..], Align4(len);
      OffsFit(w, offStruct, sizeStruct, offStrings, sizeStrings, tokens, items, j, e);
      NopRegion(offStruct + p, len);
      ghost var b, us, mid := buf[..], Nops(n / 4), Skips(n / 4);
      NopsReplace(w, b, offStruct, sizeStruct, offStrings, sizeStrings, tokens, items, j, e, p, n, head, strs);
      Commit(w, sizeStruct, offStrings, j, e, p, n, n, us, mid, head, strs);
    }

    /** fdt_delprop. */
    method DelProp(o: int, name: Bytes, ghost k: int) returns (err: Err)
      requires Valid() && Addr(o, k)
      modifies this`sizeStruct, this`offStrings, this`tokens, this`items, buf
      ensures Valid() && Strings() == old(Strings()) && Head() == old(Head())
      ensures !old(IsNode(k)) ==> err == BadOffset
      ensures old(IsNode(k)) ==> err == match AttrOf(old(items), k, name)
                              case At(_) => Ok
                              case Absent => NotFound
                              case Broken => BadStructure
      ensures err != Ok ==> unchanged(this) && unchanged(buf)
      ensures err == Ok ==> var j := AttrOf(old(items), k, name).index; items == Cut(old(items), j, j + 1, [])
    {
      hide Stream, Named, Off, FindAttr, Token.Len, Align4, Cut, Image;
      var p, len;
      err, p, len := GetProperty(o, name, k);
      if err != Ok { return; }
      ghost var j := AttrOf(items, k, name).index;
      OffStep(tokens + [End], j);
      PropLen(tokens[j]);
      CutOut(p, p + 12 + Align4(len), j, j + 1);
    }

    /** fdt_nop_property. */
    method NopProperty(o: int, name: Bytes, ghost k: int) returns (err: Err)
      requires Valid() && Addr(o, k)
      modifies this`tokens, this`items, buf
      ensures Valid() && Strings() == old(Strings()) && Head() == old(Head())
      ensures !old(IsNode(k)) ==> err == BadOffset
      ensures old(IsNode(k)) ==> err == match AttrOf(old(items), k, name)
                              case At(_) => Ok
                              case Absent => NotFound
                              case Broken => BadStructure
      ensures err != Ok ==> unchanged(this) && unchanged(buf)
      ensures err == Ok ==> var j := AttrOf(old(items), k, name).index;
                            items == Cut(old(items), j, j + 1, Skips(old(tokens)[j].Len() / 4))
    {
      hide Stream, Named, Off, FindAttr, Token.Len, Align4, Cut, Image;
      var p, len;
      err, p, len := GetProperty(o, name, k);
      if err != Ok { return; }
      ghost var j := AttrOf(items, k, name).index;
      OffStep(tokens + [End], j);
      PropLen(tokens[j]);
      NopOut(p, 12 + len, j, j + 1);
    }

    /** fdt_del_node. */
    method DelNode(o: int, ghost k: int) returns (err: Err)
      requires Valid() && Addr(o, k)
      modifies this`sizeStruct, this`offStrings, this`tokens, this`items, buf
      ensures Valid() && Strings() == old(Strings()) && Head() == old(Head())
      ensures !old(IsNode(k)) ==> err == if o < 0 then Argument else BadOffset
      ensures old(IsNode(k)) ==> err == if EndOf(old(items), k).Some? then Ok else NotFound
      ensures err != Ok ==> unchanged(this) && unchanged(buf)
      ensures err == Ok ==> items == Cut(old(items), k, EndOf(old(items), k).value, [])
    {
      hide Stream, Named, Off, EndOf, Cut, Image, U32;
      var end;
      err, end := NodeEnd(o, k);
      if err != Ok { return; }
      CutOut(o, end, k, EndOf(items, k).value);
    }

    /** fdt_nop_node. */
    method NopNode(o: int, ghost k: int) returns (err: Err)
      requires Valid() && Addr(o, k)
      modifies this`tokens, this`items, buf
      ensures Valid() && Strings() == old(Strings()) && Head() == old(Head())
      ensures !old(IsNode(k)) ==> err == if o < 0 then Argument else BadOffset
      ensures old(IsNode(k)) ==> err == if EndOf(old(items), k).Some? then Ok else NotFound
      ensures err != Ok ==> unchanged(this) && unchanged(buf)
      ensures err == Ok ==> var e := EndOf(old(items), k).value;
                            items == Cut(old(items), k, e, Skips(Words(old(tokens) + [End], k, e)))
    {
      hide Stream, Named, Off, EndOf, Cut, Image, Align4, U32;
      var end;
      err, end := NodeEnd(o, k);
      if err != Ok { return; }
      ghost var e := EndOf(items, k).value;
      OffMonotone(tokens + [End], k, e);
      Aligned(o, end);
      NopOut(o, end - o, k, e);
    }

    // ----- Setting a property -----

    /** The new length and the new value of the property at a, after the splice. */
    method Refill(a: nat, value: Bytes, ghost w: Bytes, ghost end: nat, ghost t: Token)
      requires t.Prop? && a + t.Len() <= end <= |w| && Holds(w[a..a + t.Len()], t) && |value| <= MAX_VALUE
      requires Edited(w, buf[..], end, a + 12, Align4(|t.value|), Align4(|value|))
      modifies buf
      ensures var t' := Prop(t.nameoff, value);
              Edited(w, buf[..], end, a, t.Len(), t'.Len()) && Wrote(buf[..], a, t'.Len(), [t'])
    {
      hide Stream, Edited, Overwrite, Align4, Token.Len, Holds;
      ghost var t', b := Prop(t.nameoff, value), buf[..];
      FitsAfter(w, b, end, a, t, value);
      Store(buf, a + 4, BE32(|value|));
      ghost var b' := buf[..];
      Store(buf, a + 12, value);
      Resized(w, b, b', buf[..], end, a, t, value);
      StreamOne(buf[..][a..a + t'.Len()], t');
    }

    /** The bytes of a property that is resized. */
    method ResizeBytes(p: nat, value: Bytes, ghost t: Token) returns (err: Err)
      requires Layout() && t.Prop? && |value| <= MAX_VALUE && p + t.Len() <= sizeStruct
      requires HeldAt(buf[..], offStruct + p, t) && t.Len() == 12 + Align4(|t.value|)
      requires Prop(t.nameoff, value).Len() == 12 + Align4(|value|)
      modifies this`sizeStruct, this`offStrings, buf
      ensures err == if old(DataSize()) - t.Len() + Prop(t.nameoff, value).Len() > totalSize then NoSpace else Ok
      ensures err != Ok ==> unchanged(this) && unchanged(buf)
      ensures err == Ok ==>
                var n, o := Prop(t.nameoff, value).Len(), offStruct + p;
                && Layout() && sizeStruct == old(sizeStruct) - t.Len() + n
                && offStrings == old(offStrings) - t.Len() + n
                && Edited(old(buf[..]), buf[..], old(DataSize()), o, t.Len(), n)
                && Wrote(buf[..], o, n, [Prop(t.nameoff, value)])
    {
      hide Stream, Edited, Overwrite, Align4, Token.Len, Holds;
      ghost var w := buf[..];
      var len := U32(buf[..], offStruct + p + 4);
      LengthHeld(w, offStruct + p, t);
      err := SpliceStruct(offStruct + p + 12, Align4(len), Align4(|value|));
      if err != Ok { return; }
      Refill(offStruct + p, value, w, old(DataSize()), t);
    }

    /** fdt_resize_property_ and the copy of the new value. */
    method Resize(p: nat, len: nat, value: Bytes, ghost j: nat) returns (err: Err)
      requires Valid() && j < |tokens| && tokens[j].Prop? && |value| <= MAX_VALUE
      requires p == Off(tokens + [End], j) && len == |tokens[j].value|
      modifies this`sizeStruct, this`offStrings, this`tokens, this`items, buf
      ensures err == if old(DataSize()) - Align4(len) + Align4(|value|) > totalSize then NoSpace else Ok
      ensures err != Ok ==> unchanged(this) && unchanged(buf)
      ensures err == Ok ==> DataSize() == old(DataSize()) - Align4(len) + Align4(|value|)
      ensures Valid() && Strings() == old(Strings()) && Head() == old(Head())
      ensures err == Ok ==> old(items)[j].Attr? && items == Cut(old(items), j, j + 1, [Attr(old(items)[j].name, value)])
      ensures j <= |tokens| && tokens[..j] == old(tokens)[..j]
    {
      hide Stream, Named, Off, Edited, Image, Cut, Overwrite, Align4, Token.Len, Holds, ItemOf, Valid, Struct, Strings,
           Head, Replaced, Wrote, Known, HeldAt;
      Blocks();
      ghost var head, strs := Head(), Strings();
      ghost var w, t, i := buf[..], tokens[j], items[j];
      ghost var t' := Prop(t.nameoff, value);
      PropHere(w, offStruct, sizeStruct, offStrings, sizeStrings, tokens, items, j, value, head, strs);
      err := ResizeBytes(p, value, t);
      if err != Ok { return; }
      ghost var b, zs, ot, x := buf[..], old(sizeStruct), old(offStrings), Attr(i.name, value);
      assert Edited(w, b, ot + sizeStrings, offStruct + p, t.Len(), t'.Len());
      ReplacedBy(w, b, offStruct, zs, ot, sizeStrings, tokens, items, j, j + 1, p, t.Len(), t'.Len(), [t'], [x], head,
                 strs);
      Commit(w, zs, ot, j, j + 1, p, t.Len(), t'.Len(), [t'], [x], head, strs);
    }

    /** Overwrite part of the value of property j, and nothing else. */
    method Patch(p: nat, idx: nat, val: Bytes, ghost j: nat)
      requires Valid() && j < |tokens| && tokens[j].Prop? && p == Off(tokens + [End], j)
      requires idx + |val| <= |tokens[j].value|
      modifies this`tokens, this`items, buf
      ensures Valid() && Strings() == old(Strings()) && Head() == old(Head()) && old(items)[j].Attr?
      ensures var v := Overwrite(old(tokens)[j].value, idx, val);
              && tokens == old(tokens)[j := Prop(old(tokens)[j].nameoff, v)]
              && items == old(items)[j := Attr(old(items)[j].name, v)]
    {
      hide Stream, Named, Off, Edited, Image, Overwrite, Align4, Token.Len, Holds, ItemOf, Cut, Valid, Struct, Strings,
           Head, Replaced, Wrote, Known, HeldAt;
      Blocks();
      ghost var head, strs := Head(), Strings();
      ghost var w, t, v := buf[..], tokens[j], Overwrite(tokens[j].value, idx, val);
      PropHere(w, offStruct, sizeStruct, offStrings, sizeStrings, tokens, items, j, v, head, strs);
      ghost var t', x := Prop(t.nameoff, v), Attr(items[j].name, v);
      Store(buf, offStruct + p + 12 + idx, val);
      ghost var b := buf[..];
      Patched(w, b, offStruct + p, t, idx, val, DataSize());
      WroteOne(b, offStruct + p, t');
      OneReplaced(tokens, items, j, t', x);
      ReplacedBy(w, b, offStruct, sizeStruct, offStrings, sizeStrings, tokens, items, j, j + 1, p, t.Len(), t.Len(),
                 [t'], [x], head, strs);
      Commit(w, sizeStruct, offStrings, j, j + 1, p, t.Len(), t.Len(), [t'], [x], head, strs);
    }

    /** fdt_find_add_string_. */
    method FindAddString(name: Bytes) returns (err: Err, off: nat, added: bool)
      requires Valid() && 0 !in name
      modifies this`sizeStrings, buf
      ensures err == if !Occurs(old(Strings()), name) && old(DataSize()) + |name| + 1 > totalSize then NoSpace else Ok
      ensures err == Ok ==> added == !Occurs(old(Strings()), name)
      ensures err != Ok || !added ==> unchanged(this) && unchanged(buf)
      ensures Valid() && Struct() == old(Struct()) && Head() == old(Head())
      ensures err == Ok ==> OccursAt(Strings(), off, name)
      ensures err == Ok && added ==> sizeStrings == old(sizeStrings) + |name| + 1
      ensures err == Ok && added ==> Strings() == old(Strings()) + (name + [0])
      ensures err == Ok && added ==> Image(buf[..], offStruct, sizeStruct, offStrings, old(sizeStrings), tokens, items)
      ensures err == Ok && added ==> buf[..][offStrings..offStrings + old(sizeStrings)] == old(Strings())
    {
      hide Image, Valid, Struct, Head, OccursAt;
      LayoutHere();
      off, added := 0, false;
      var p := FindString(buf, offStrings, sizeStrings, name);
      assert buf[offStrings..offStrings + sizeStrings] == Strings();
      if p >= 0 { return Ok, p, false; }
      off := sizeStrings;
      err := AppendString(name);
      added := err == Ok;
    }

    /** Make room behind the strings and write one there; b is the buffer in between. */
    method PutString(name: Bytes) returns (err: Err, ghost b: Bytes)
      requires Layout()
      modifies buf
      ensures err == if DataSize() + |name| + 1 > totalSize then NoSpace else Ok
      ensures err != Ok ==> unchanged(buf)
      ensures err == Ok ==>
                && Edited(old(buf[..]), b, offStrings + sizeStrings, offStrings + sizeStrings, 0, |name| + 1)
                && offStrings + sizeStrings + |name| + 1 <= |b|
                && buf[..] == Overwrite(b, offStrings + sizeStrings, name + [0])
    {
      hide Overwrite, Edited;
      var end := DataSize();
      err := Splice(end, 0, |name| + 1);
      b := buf[..];
      if err != Ok { return; }
      Store(buf, end, name + [0]);
    }

    /** The second half of fdt_find_add_string_. */
    method AppendString(name: Bytes) returns (err: Err)
      requires Valid()
      modifies this`sizeStrings, buf
      ensures err == if old(DataSize()) + |name| + 1 > totalSize then NoSpace else Ok
      ensures err != Ok ==> unchanged(this) && unchanged(buf)
      ensures Valid() && Struct() == old(Struct()) && Head() == old(Head())
      ensures err == Ok ==> sizeStrings == old(sizeStrings) + |name| + 1
      ensures err == Ok ==> Strings() == old(Strings()) + (name + [0]) && OccursAt(Strings(), old(sizeStrings), name)
      ensures err == Ok ==> Image(buf[..], offStruct, sizeStruct, offStrings, old(sizeStrings), tokens, items)
      ensures err == Ok ==> buf[..][offStrings..offStrings + old(sizeStrings)] == old(Strings())
    {
      hide Image, OccursAt, Overwrite, Edited, Valid, Struct, Strings, Head, Appended;
      Spans();
      ghost var w, zt, b := buf[..], sizeStrings, buf[..];
      err, b := PutString(name);
      if err != Ok { return; }
      ghost var b' := buf[..];
      StringAdded(w, b, b', offStruct, sizeStruct, offStrings, zt, name, tokens, items);
      sizeStrings := sizeStrings + (|name| + 1);
      assert buf[..] == b';
      AppendedHere(w, zt, name);
    }

    lemma {:induction false} AppendedHere(w: Bytes, zt: nat, name: Bytes)
      requires Layout() && |tokens| == |items| && sizeStrings == zt + |name| + 1 && |w| == buf.Length
      requires Appended(w, buf[..], offStruct, sizeStruct, offStrings, zt, name, tokens, items)
      ensures Valid() && Struct() == w[offStruct..offStruct + sizeStruct] && Head() == w[..offStruct]
      ensures Strings() == w[offStrings..offStrings + zt] + (name + [0]) && OccursAt(Strings(), zt, name)
      ensures Image(buf[..], offStruct, sizeStruct, offStrings, zt, tokens, items)
      ensures buf[..][offStrings..offStrings + zt] == w[offStrings..offStrings + zt]
    {
      hide Image, OccursAt;
      OccursLast(w[offStrings..offStrings + zt], name);
    }

    /** What an edit starts from. */
    lemma {:induction false} Blocks()
      requires Valid()
      ensures Layout() && |tokens| == |items|
      ensures Image(buf[..], offStruct, sizeStruct, offStrings, sizeStrings, tokens, items)
      ensures Known(buf[..], offStruct, Head(), offStrings, sizeStrings, Strings())
    {
    }

    lemma {:induction false} Spans()
      requires Valid()
      ensures Layout() && |tokens| == |items|
      ensures Image(buf[..], offStruct, sizeStruct, offStrings, sizeStrings, tokens, items)
      ensures Struct() == buf[..][offStruct..offStruct + sizeStruct]
      ensures Strings() == buf[..][offStrings..offStrings + sizeStrings]
      ensures Head() == buf[..][..offStruct]
    {
    }

    /** The second half of fdt_add_property_: a new property in front of token k. */
    method Insert(next: nat, off: nat, name: Bytes, value: Bytes, ghost k: nat) returns (err: Err)
      requires Valid() && k <= |tokens| && next == Off(tokens + [End], k)
      requires 0 !in name && OccursAt(Strings(), off, name) && |value| <= MAX_VALUE
      modifies this`sizeStruct, this`offStrings, this`tokens, this`items, buf
      ensures err == if old(DataSize()) + 12 + Align4(|value|) > totalSize then NoSpace else Ok
      ensures err == Ok ==> DataSize() == old(DataSize()) + 12 + Align4(|value|)
      ensures err != Ok ==> unchanged(this) && unchanged(buf)
      ensures Valid() && Strings() == old(Strings()) && Head() == old(Head())
      ensures err == Ok ==> items == Cut(old(items), k, k, [Attr(name, value)])
      ensures k <= |tokens| && tokens[..k] == old(tokens)[..k]
    {
      hide Stream, Named, Off, Edited, Image, Cut, Align4, Token.Len, Holds, Token.Ok, Valid, Struct, Strings, Head,
           Replaced, Wrote, Known, Around;
      Blocks();
      ghost var head, strs := Head(), Strings();
      ghost var w := buf[..];
      var t := Prop(off, value);
      NewProp(strs, off, name, value);
      OffsFit(w, offStruct, sizeStruct, offStrings, sizeStrings, tokens, items, k, k);
      err := InsertBytes(next, t);
      if err != Ok { return; }
      ghost var b, zs, ot, x := buf[..], old(sizeStruct), old(offStrings), Attr(name, value);
      ReplacedBy(w, b, offStruct, zs, ot, sizeStrings, tokens, items, k, k, next, 0, t.Len(), [t], [x], head, strs);
      Commit(w, zs, ot, k, k, next, 0, t.Len(), [t], [x], head, strs);
    }

    /** The bytes of a new token. */
    method InsertBytes(next: nat, t: Token) returns (err: Err)
      requires Layout() && next <= sizeStruct && t.Ok()
      modifies this`sizeStruct, this`offStrings, buf
      ensures err == if old(DataSize()) + t.Len() > totalSize then NoSpace else Ok
      ensures err != Ok ==> unchanged(this) && unchanged(buf)
      ensures err == Ok ==>
                var n, o := t.Len(), offStruct + next;
                && Layout() && sizeStruct == old(sizeStruct) + n && offStrings == old(offStrings) + n
                && Edited(old(buf[..]), buf[..], old(DataSize()), o, 0, n) && Wrote(buf[..], o, n, [t])
    {
      hide Stream, Edited, Token.Len, Token.Ok;
      ghost var w := buf[..];
      err := SpliceStruct(offStruct + next, 0, t.Len());
      if err != Ok { return; }
      Fill(offStruct + next, t, w, old(DataSize()));
    }

    /** Write a token into the gap that a splice has made. */
    method Fill(a: nat, t: Token, ghost w: Bytes, ghost end: nat)
      requires t.Ok() && a <= end && Edited(w, buf[..], end, a, 0, t.Len())
      modifies buf
      ensures Edited(w, buf[..], end, a, 0, t.Len()) && Wrote(buf[..], a, t.Len(), [t])
    {
      hide Stream, Token.Len, Holds;
      ghost var b := buf[..];
      WriteToken(buf, a, t);
      StreamOne(buf[..][a..a + t.Len()], t);
      TailRange(buf[..], b, a + t.Len(), end - a);
    }

    /** fdt_add_property_ and the copy of the value. */
    method DelLastString(n: nat, ghost strs: Bytes)
      requires Layout() && n <= sizeStrings && Strings()[..sizeStrings - n] == strs
      requires |tokens| == |items| && Image(buf[..], offStruct, sizeStruct, offStrings, sizeStrings - n, tokens, items)
      modifies this`sizeStrings
      ensures Valid() && Struct() == old(Struct()) && Head() == old(Head()) && Strings() == strs
      ensures sizeStrings == old(sizeStrings) - n
    {
      hide Image;
      SliceAt(buf[..], offStrings, sizeStrings, 0, sizeStrings - n);
      sizeStrings := sizeStrings - n;
    }

    method AddProp(next: nat, name: Bytes, value: Bytes, ghost k: nat) returns (err: Err)
      requires Valid() && k <= |tokens| && next == Off(tokens + [End], k) && 0 !in name && |value| <= MAX_VALUE
      modifies this`sizeStrings, this`sizeStruct, this`offStrings, this`tokens, this`items, buf
      ensures err == if old(DataSize() + AddCost(name, value)) > totalSize then NoSpace else Ok
      ensures err == Ok ==> DataSize() == old(DataSize() + AddCost(name, value))
      ensures Valid() && Head() == old(Head())
      ensures err != Ok ==> unchanged(this) && Struct() == old(Struct()) && Strings() == old(Strings())
      ensures err == Ok ==> Strings() == old(if Occurs(Strings(), name) then Strings() else Strings() + (name + [0]))
      ensures err == Ok ==> items == Cut(old(items), k, k, [Attr(name, value)])
      ensures k <= |tokens| && tokens[..k] == old(tokens)[..k]
    {
      hide Off, Image, Cut, Align4, Valid, Layout, Struct, Strings, Head, OccursAt, Occurs;
      LayoutHere();
      ghost var strs := Strings();
      var off, added;
      err, off, added := FindAddString(name);
      if err != Ok { return; }
      LayoutHere();
      ghost var b := buf[..];
      err := Insert(next, off, name, value, k);
      if err != Ok && added {
        assert buf[..] == b;
        DelLastString(|name| + 1, strs);
      }
      LayoutHere();
    }

    /** Bytes that a new property takes. */
    ghost function AddCost(name: Bytes, value: Bytes): nat
      requires Layout()
      reads this, buf
    {
      12 + Align4(|value|) + if Occurs(Strings(), name) then 0 else |name| + 1
    }

    /** fdt_setprop. */
    method SetProp(o: int, name: Bytes, value: Bytes, ghost k: int) returns (err: Err)
      requires Valid() && Addr(o, k) && 0 !in name && |value| <= MAX_VALUE
      modifies this`sizeStrings, this`sizeStruct, this`offStrings, this`tokens, this`items, buf
      ensures Valid() && Head() == old(Head())
      ensures !old(IsNode(k)) ==> err == BadOffset
      ensures old(IsNode(k)) && AttrOf(old(items), k, name).Broken? ==> err == BadStructure
      ensures old(IsNode(k)) && !AttrOf(old(items), k, name).Broken? ==>
                err == if old(DataSize() + SetCost(k, name, value)) > totalSize then NoSpace else Ok
      ensures err == Ok ==> DataSize() == old(DataSize() + SetCost(k, name, value))
      ensures err != Ok ==> unchanged(this) && Struct() == old(Struct()) && Strings() == old(Strings())
      ensures err == Ok ==> items == SetAttr(old(items), k, name, value)
      ensures old(IsNode(k)) ==> KeptUpTo(old(tokens), old(items), k)
    {
      hide Image, Valid, Off, AttrOf, SetAttr, KeptUpTo, Align4, Layout, Struct, Strings, Head, DataSize, SetCost;
      LayoutHere();
      var p, len;
      err, p, len := GetProperty(o, name, k);
      if IsNode(k) { ItemHere(k); }
      if err == Ok {
        err := SetFound(p, len, name, value, k, AttrOf(items, k, name).index);
      } else if err == NotFound {
        var next := CheckNodeOffset(o, k);
        err := SetMissing(next, name, value, k);
      }
    }

    lemma {:induction false} LayoutHere()
      requires Valid()
      ensures Layout() && |tokens| == |items|
    {
    }

    /** What every edit finds at a node. */
    lemma {:induction false} ItemHere(k: nat)
      requires Valid() && IsNode(k)
      ensures Layout() && |tokens| == |items| && k < |items| && KeptUpTo(tokens, items, k)
    {
    }

    /** fdt_setprop on a property that is there. */
    method SetFound(p: nat, len: nat, name: Bytes, value: Bytes, ghost k: nat, ghost j: nat) returns (err: Err)
      requires Valid() && IsNode(k) && |value| <= MAX_VALUE && AttrOf(items, k, name) == At(j) && tokens[j].Prop?
      requires p == Off(tokens + [End], j) && len == |tokens[j].value| == |items[j].value|
      modifies this`sizeStruct, this`offStrings, this`tokens, this`items, buf
      ensures Valid() && Head() == old(Head())
      ensures err == if old(DataSize() + SetCost(k, name, value)) > totalSize then NoSpace else Ok
      ensures err == Ok ==> DataSize() == old(DataSize() + SetCost(k, name, value))
      ensures err != Ok ==> unchanged(this) && Struct() == old(Struct()) && Strings() == old(Strings())
      ensures err == Ok ==> items == SetAttr(old(items), k, name, value)
      ensures KeptUpTo(old(tokens), old(items), k)
    {
      hide Stream, Named, Off, Image, Cut, Align4, FindAttr, U32;
      SetAttrKept(items, k, name, value);
      err := Resize(p, len, value, j);
      ShorterPrefix(tokens, old(tokens), j, k + 1);
    }

    /** fdt_setprop on a property that is not there. */
    method SetMissing(next: nat, name: Bytes, value: Bytes, ghost k: nat) returns (err: Err)
      requires Valid() && IsNode(k) && 0 !in name && |value| <= MAX_VALUE && AttrOf(items, k, name) == Absent
      requires next == Off(tokens + [End], k + 1)
      modifies this`sizeStrings, this`sizeStruct, this`offStrings, this`tokens, this`items, buf
      ensures Valid() && Head() == old(Head())
      ensures err == if old(DataSize() + SetCost(k, name, value)) > totalSize then NoSpace else Ok
      ensures err == Ok ==> DataSize() == old(DataSize() + SetCost(k, name, value))
      ensures err != Ok ==> unchanged(this) && Struct() == old(Struct()) && Strings() == old(Strings())
      ensures err == Ok ==> items == SetAttr(old(items), k, name, value)
      ensures KeptUpTo(old(tokens), old(items), k)
    {
      hide Stream, Named, Off, Image, Cut, Align4, FindAttr, U32;
      SetAttrKept(items, k, name, value);
      err := AddProp(next, name, value, k + 1);
    }

    /** How many bytes longer the data of the blob becomes when the property is set. */
    ghost function SetCost(k: nat, name: Bytes, value: Bytes): int
      requires Layout() && k < |tokens| == |items|
      reads this, buf
    {
      match AttrOf(items, k, name)
      case At(j) => Align4(|value|) - Align4(|items[j].value|)
      case _ => AddCost(name, value)
    }

    // ----- Children -----

    /** fdt_subnode_offset. */
    method SubnodeOffset(o: int, name: Bytes, ghost k: int) returns (err: Err, off: nat)
      requires Valid() && Addr(o, k)
      ensures !IsNode(k) ==> err == if o < 0 then Argument else BadOffset
      ensures IsNode(k) ==> err == if SubOf(items, k, Called(name)).At? then Ok else NotFound
      ensures err == Ok ==> off == Off(tokens + [End], SubOf(items, k, Called(name)).index)
    {
      hide Stream, Named, Off, FindSub, Image, NextTag, Nul, NameEq, U32, Stepped, Later;
      off := 0;
      if o < 0 { return Argument, 0; }
      var first := CheckNodeOffset(o, k);
      if first < 0 { return BadOffset, 0; }
      ghost var pat, i := Called(name), k;
      var offset, depth: int := o, 0;
      while true
        invariant k <= i < |tokens| && IsNode(i) && 0 <= offset == Off(tokens + [End], i) && 0 <= depth
        invariant SubOf(items, k, pat) == Later(FindSub(items[i + 1..], depth, pat), i + 1)
        decreases |tokens| - i
      {
        ghost var d, was := depth, i;
        offset, depth, i := NextNode(offset, depth, i, pat);
        SteppedFind(items, was + 1, d, pat, 0 <= offset, depth, i);
        if offset < 0 || depth < 0 { return NotFound, 0; }
        NameHere(i);
        if depth == 1 && NameEq(Struct()[offset + 4..Nul(Struct(), offset + 4)], name) { return Ok, offset; }
      }
    }

    /**
     fdt_first_subnode, or fdt_next_subnode of the node k.  For a negative offset the search starts
     before the first node, so that the first subnode is the root.
     */
    method NextSubnode(o: int, down: bool, ghost k: int) returns (err: Err, off: nat)
      requires Valid() && Addr(o, k)
      ensures 0 <= o && !IsNode(k) ==> err == NotFound
      ensures o < 0 || IsNode(k) ==>
                var f := NextFrom(items, From(o, k), down);
                err == (if f.At? then Ok else NotFound) && (f.At? ==> off == Off(tokens + [End], f.index))
    {
      hide Stream, Named, Off, FindSub, Image, NextTag, U32, Stepped, Later;
      var offset, depth, at := NextNode(o, if down then 0 else 1, k, Any);
      if o < 0 || IsNode(k) { SteppedFind(items, From(o, k), if down then 0 else 1, Any, 0 <= offset, depth, at); }
      if offset < 0 || depth < 1 { return NotFound, 0; }
      ghost var f := NextFrom(items, From(o, k), down);
      while depth > 1
        invariant IsNode(at) && 0 <= offset == Off(tokens + [End], at) && 0 < depth
        invariant f == if depth == 1 then At(at) else Later(FindSub(items[at + 1..], depth, Any), at + 1)
        decreases |tokens| - at
      {
        ghost var d, was := depth, at;
        offset, depth, at := NextNode(offset, depth, at, Any);
        SteppedFind(items, was + 1, d, Any, 0 <= offset, depth, at);
        if offset < 0 || depth < 1 { return NotFound, 0; }
      }
      return Ok, offset;
    }

    /** The place behind the properties of the node k. */
    method PropsEnd(o: nat, ghost k: nat) returns (off: nat)
      requires Valid() && Addr(o, k) && IsNode(k)
      ensures off == Off(tokens + [End], k + 1 + PropRun(items[k + 1..]))
    {
      hide Off, NextTag, Valid, Struct, RunFrom;
      LayoutHere();
      var n := NextTag(Struct(), o);
      Step(k);
      ghost var i := k + 1;
      off := n.offset;
      n := NextTag(Struct(), off);
      Step(i);
      RunIs(items, k + 1);
      while n.tag == FDT_PROP || n.tag == FDT_NOP
        invariant k < i <= |tokens| && off == Off(tokens + [End], i)
        invariant n.offset == Off(tokens + [End], i + 1)
        invariant if i == |tokens| then n.tag == FDT_END else n.tag == ItemTag(items[i])
        invariant k + 1 + RunFrom(items, k + 1) == i + RunFrom(items, i)
        decreases |tokens| - i
      {
        RunStep(items, i);
        off, i := n.offset, i + 1;
        n := NextTag(Struct(), off);
        Step(i);
      }
      RunStep(items, i);
    }

    /** Write an empty node into the gap that a splice has made. */
    method FillNode(a: nat, name: Bytes, ghost w: Bytes, ghost end: nat)
      requires 0 !in name && a <= end && Edited(w, buf[..], end, a, 0, Begin(name).Len() + 4)
      modifies buf
      ensures var n := Begin(name).Len() + 4;
              Edited(w, buf[..], end, a, 0, n) && Wrote(buf[..], a, n, [Begin(name), EndNode])
    {
      hide Stream, Token.Len, Holds, Edited;
      ghost var b := buf[..];
      GapFits(w, b, end, a, Begin(name).Len() + 4);
      WriteToken(buf, a, Begin(name));
      ghost var b' := buf[..];
      EndLen();
      WriteToken(buf, a + Begin(name).Len(), EndNode);
      TwoTokens(w, b, b', buf[..], end, a, Begin(name), EndNode);
    }

    /** fdt_add_subnode after the search for a child of that name. */
    method InsertNode(next: nat, name: Bytes, ghost k: nat) returns (err: Err)
      requires Valid() && k <= |tokens| && next == Off(tokens + [End], k) && 0 !in name && |name| <= MAX_NAME
      modifies this`sizeStruct, this`offStrings, this`tokens, this`items, buf
      ensures err == if old(DataSize()) + 8 + Align4(|name| + 1) > totalSize then NoSpace else Ok
      ensures err == Ok ==> DataSize() == old(DataSize()) + 8 + Align4(|name| + 1)
      ensures err != Ok ==> unchanged(this) && unchanged(buf)
      ensures Valid() && Strings() == old(Strings()) && Head() == old(Head())
      ensures err == Ok ==> items == Cut(old(items), k, k, [Open(name), Close])
      ensures k <= |tokens| && tokens[..k] == old(tokens)[..k]
    {
      hide Stream, Named, Off, Edited, Image, Cut, Align4, Token.Len, Holds, Valid, Struct, Strings, Head, Replaced,
           Wrote, Known, Around;
      Blocks();
      ghost var head, strs := Head(), Strings();
      ghost var w := buf[..];
      NewNode(strs, name);
      OffsFit(w, offStruct, sizeStruct, offStrings, sizeStrings, tokens, items, k, k);
      err := SpliceStruct(offStruct + next, 0, 4 + Align4(|name| + 1) + 4);
      if err != Ok { return; }
      FillNode(offStruct + next, name, w, old(DataSize()));
      ghost var b, zs, ot, n, us, mid :=
        buf[..], old(sizeStruct), old(offStrings), Begin(name).Len() + 4, [Begin(name), EndNode], [Open(name), Close];
      ReplacedBy(w, b, offStruct, zs, ot, sizeStrings, tokens, items, k, k, next, 0, n, us, mid, head, strs);
      Commit(w, zs, ot, k, k, next, 0, n, us, mid, head, strs);
    }

    /**
     fdt_add_subnode.  The offset -1 is also the code for "not found", so the program takes it for a
     parent without that child and, if there is space, splices a node in 8 bytes before the structure
     block; the model stops there with Stray.
     */
    method AddSubnode(o: int, name: Bytes, ghost k: int) returns (err: Err, off: nat)
      requires Valid() && Addr(o, k) && 0 !in name && |name| <= MAX_NAME
      modifies this`sizeStruct, this`offStrings, this`tokens, this`items, buf
      ensures err != Stray ==> Valid() && Strings() == old(Strings()) && Head() == old(Head())
      ensures !old(IsNode(k)) && 0 <= o ==> err == BadOffset
      ensures o < 0 ==> err == if o != -1 then Argument
                               else if old(DataSize()) + 8 + Align4(|name| + 1) > totalSize then NoSpace
                               else Stray
      ensures old(IsNode(k)) ==> err == if SubOf(old(items), k, Called(name)).At? then Exists
                                        else if old(DataSize()) + 8 + Align4(|name| + 1) > totalSize then NoSpace
                                        else Ok
      ensures err != Ok && err != Stray ==> unchanged(this) && unchanged(buf)
      ensures err == Ok ==> items == AddSub(old(items), k, name)
      ensures err == Ok ==> DataSize() == old(DataSize()) + 8 + Align4(|name| + 1)
      ensures err == Ok ==> off == Off(tokens + [End], k + 1 + PropRun(old(items)[k + 1..]))
      ensures old(IsNode(k)) ==> KeptUpTo(old(tokens), old(items), k)
    {
      hide Stream, Named, Off, Image, Cut, Align4, PropRun, FindSub, U32, Valid, Layout, Struct, Strings, Head, Cut;
      LayoutHere();
      err, off := SubnodeOffset(o, name, k);
      if err == Ok { return Exists, 0; }
      if o == -1 {
        return (if DataSize() + 4 + Align4(|name| + 1) + 4 > totalSize then NoSpace else Stray), 0;
      }
      if err != NotFound { return err, 0; }
      off := PropsEnd(o, k);
      ghost var q := k + 1 + PropRun(items[k + 1..]);
      err := InsertNode(off, name, q);
      if err == Ok {
        OffAgree(old(tokens) + [End], tokens + [End], q);
        assert tokens[..k + 1] == tokens[..q][..k + 1] && old(tokens)[..k + 1] == old(tokens)[..q][..k + 1];
        CutPrefix(old(items), q, q, [Open(name), Close], k + 1);
      }
    }

    // ----- Edits of the tree -----

    /** The blob stands for the tree. */
    ghost predicate Holding(root: Node)
      reads this, buf
    {
      Valid() && Decode(Struct(), Strings()) == Some(root)
    }

    lemma {:induction false} HoldingValid(root: Node)
      requires Holding(root)
      ensures Valid() && |tokens| == |items|
    {
    }

    lemma {:induction false} Means(root: Node)
      requires Valid()
      ensures Holding(root) <==> Strip(items) == Flatten(root)
    {
      hide Stream, Named, Decode, Strip, Flatten;
      DecodeItems(Struct(), tokens, Strings(), items, root);
    }

    lemma {:induction false} SetCostBound(k: nat, name: Bytes, value: Bytes)
      requires Layout() && k < |tokens| == |items|
      ensures SetCost(k, name, value) <= 12 + Align4(|value|) + |name| + 1
    {
      hide Occurs, AttrOf, Align4;
    }

    /** fdt_setprop on the node at `path` of the tree changes that property of that node, or nothing. */
    method SetPropAt(o: int, name: Bytes, value: Bytes, ghost k: nat, ghost root: Node, ghost path: seq<nat>)
      returns (err: Err)
      requires Holding(root) && Addr(o, k) && Opens(items, k, root, path) && 0 !in name && |value| <= MAX_VALUE
      modifies this`sizeStrings, this`sizeStruct, this`offStrings, this`tokens, this`items, buf
      ensures Path(root, path) && (err == Ok || err == NoSpace)
      ensures old(DataSize()) + 12 + Align4(|value|) + |name| + 1 <= totalSize ==> err == Ok
      ensures DataSize() <= old(DataSize()) + 12 + Align4(|value|) + |name| + 1
      ensures Holding(if err == Ok then Replace(root, path, WithProp(SubTree(root, path), name, value)) else root)
      ensures Head() == old(Head()) && KeptUpTo(old(tokens), old(items), k)
    {
      hide Stream, Named, Off, Image, Decode, Opens, SetAttr, WithProp, SubTree, Replace, FindAttr, Strip, Flatten,
           AttrOf;
      SetAttrTree(items, k, root, path, name, value);
      Opened(items, k, root, path, name);
      Means(root);
      OpenIsNode(k);
      SetCostBound(k, name, value);
      err := SetProp(o, name, value, k);
      if err == Ok { Means(Replace(root, path, WithProp(SubTree(root, path), name, value))); }
    }

    /** fdt_subnode_offset on the tree: the first child with that name, or with that name and a unit address. */
    method SubnodeAt(o: int, name: Bytes, ghost k: nat, ghost root: Node, ghost path: seq<nat>)
      returns (err: Err, off: nat, ghost h: nat, ghost i: nat)
      requires Holding(root) && Addr(o, k) && Opens(items, k, root, path)
      ensures Path(root, path) && (err == Ok || err == NotFound)
      ensures err == NotFound <==> NoneAnswers(SubTree(root, path).children, name)
      ensures err == Ok ==> FirstAnswering(SubTree(root, path).children, name, i)
      ensures err == Ok ==> Addr(off, h) && Opens(items, h, root, path + [i])
    {
      hide Stream, Named, Off, Image, Decode, Opens, SubTree, Strip, Flatten, SubOf, ChildIndex, Answers;
      Opened(items, k, root, path, name);
      OpenIsNode(k);
      SubOpens(items, k, root, path, Called(name));
      ChildAnswers(SubTree(root, path).children, name);
      i, h := ChildIndex(SubTree(root, path).children, Called(name)), 0;
      err, off := SubnodeOffset(o, name, k);
      if err == Ok { h := SubOf(items, k, Called(name)).index; }
    }

    /** fdt_add_subnode at the node at `path`: a new first child, unless the name selects an old one. */
    method AddSubnodeAt(o: int, name: Bytes, ghost k: nat, ghost root: Node, ghost path: seq<nat>)
      returns (err: Err, off: nat, ghost q: nat)
      requires Holding(root) && Addr(o, k) && Opens(items, k, root, path) && 0 !in name && |name| <= MAX_NAME
      modifies this`sizeStruct, this`offStrings, this`tokens, this`items, buf
      ensures Path(root, path)
      ensures var ns := SubTree(root, path).children;
              if ChildIndex(ns, Called(name)) < |ns| then err == Exists else err == Ok || err == NoSpace
      ensures err != Ok ==> unchanged(this) && unchanged(buf)
      ensures err == NoSpace ==> old(DataSize()) + 8 + Align4(|name| + 1) > totalSize
      ensures err == Ok ==> DataSize() == old(DataSize()) + 8 + Align4(|name| + 1)
      ensures err == Ok ==> k < q && Addr(off, q)
      ensures err == Ok ==> var root' := Replace(root, path, WithChild(SubTree(root, path), Empty(name)));
                            Holding(root') && Opens(items, q, root', path + [0])
      ensures Valid() && Head() == old(Head()) && KeptUpTo(old(tokens), old(items), k)
    {
      hide Stream, Named, Off, Image, Decode, Opens, SubTree, Replace, Strip, Flatten, SubOf, PropRun, AddSub,
           ChildIndex;
      AddSubTree(items, k, root, path, name);
      SubOpens(items, k, root, path, Called(name));
      Opened(items, k, root, path, name);
      OpenIsNode(k);
      q := k + 1 + PropRun(items[k + 1..]);
      err, off := AddSubnode(o, name, k);
      if err == Ok {
        Means(Replace(root, path, WithChild(SubTree(root, path), Empty(name))));
        OpensInside(items, q, Replace(root, path, WithChild(SubTree(root, path), Empty(name))), path + [0]);
      }
    }

    /** Erasing a property, by fdt_delprop or by fdt_nop_property, takes it from that node. */
    method ErasePropAt(o: int, name: Bytes, nop: bool, ghost k: nat, ghost root: Node, ghost path: seq<nat>)
      returns (err: Err)
      requires Holding(root) && Addr(o, k) && Opens(items, k, root, path)
      modifies this`sizeStruct, this`offStrings, this`tokens, this`items, buf
      ensures Path(root, path)
      ensures err == if GetProp(SubTree(root, path), name).Some? then Ok else NotFound
      ensures Holding(if err == Ok then Replace(root, path, WithoutProp(SubTree(root, path), name)) else root)
      ensures Head() == old(Head())
    {
      hide Stream, Named, Off, Image, Decode, Opens, WithoutProp, SubTree, Replace, FindAttr, Strip, Flatten, AttrOf,
           GetProp, Cut;
      Opened(items, k, root, path, name);
      OpenIsNode(k);
      ghost var n := if AttrOf(items, k, name).At? then tokens[AttrOf(items, k, name).index].Len() / 4 else 0;
      EraseAttrTree(items, k, root, path, name, if nop then n else 0);
      Means(root);
      NoSkips();
      if nop {
        err := NopProperty(o, name, k);
      } else {
        err := DelProp(o, name, k);
      }
      Means(if err == Ok then Replace(root, path, WithoutProp(SubTree(root, path), name)) else root);
    }

    /** Erasing a node other than the root, by fdt_del_node or by fdt_nop_node, takes its subtree. */
    method EraseNodeAt(o: int, nop: bool, ghost k: nat, ghost root: Node, ghost path: seq<nat>) returns (err: Err)
      requires Holding(root) && Addr(o, k) && Opens(items, k, root, path) && path != []
      modifies this`sizeStruct, this`offStrings, this`tokens, this`items, buf
      ensures err == Ok && Path(root, path) && Holding(Remove(root, path)) && Head() == old(Head())
    {
      hide Stream, Named, Off, Image, Decode, Opens, Remove, Strip, Flatten, EndOf, Cut;
      Opened(items, k, root, path, []);
      OpenIsNode(k);
      EraseNodeTree(items, k, root, path, 0);
      EraseNodeTree(items, k, root, path, Words(tokens + [End], k, EndOf(items, k).value));
      NoSkips();
      if nop {
        err := NopNode(o, k);
      } else {
        err := DelNode(o, k);
      }
      Means(Remove(root, path));
    }

    lemma {:induction false} NodeTag(k: nat)
      requires Valid() && k <= |tokens|
      ensures IsNode(k) <==> k < |tokens| && ItemTag(items[k]) == FDT_BEGIN_NODE
      ensures k < |tokens| ==> ItemTag(items[k]) != FDT_END
    {
      hide Stream, Off;
      assert k < |tokens| ==> ItemOf(tokens[k], Strings()) == Some(items[k]);
    }

    lemma {:induction false} OpenIsNode(k: nat)
      requires Valid() && k < |items| && items[k].Open?
      ensures IsNode(k)
    {
      hide Stream, Off;
      assert ItemOf(tokens[k], Strings()) == Some(items[k]);
    }
  }

  lemma {:induction false} OpensInside(s: seq<Item>, k: nat, root: Node, path: seq<nat>)
    requires Opens(s, k, root, path)
    ensures k < |s|
  {
  }

  lemma {:induction false} NoSkips()
    ensures Skips(0) == []
  {
  }

  lemma {:induction false} Opened(s: seq<Item>, k: nat, root: Node, path: seq<nat>, name: Bytes)
    requires Opens(s, k, root, path)
    ensures k < |s| && s[k].Open? && Path(root, path) && !AttrOf(s, k, name).Broken?
  {
    hide FindAttr, Strip, Flatten, Before, After;
    FlattenAt(root, path);
    AttrOfStrip(s, k, name);
    AttrOfIn(Before(root, path), SubTree(root, path), After(root, path), name);
  }

  lemma {:induction false} EmptyStream(b: Bytes, p: nat)
    requires p <= |b|
    ensures Stream(b[p..p], []) && Nops(0) == [] && Wrote(b, p, 0, [])
  {
  }

  lemma {:induction false} NoNames(strings: Bytes)
    ensures Named([], strings, [])
  {
  }

  lemma {:induction false} NopMore(b: Bytes, start: nat, p: nat, n: nat)
    requires start <= p && p + 4 <= |b| && Stream(b[start..p], Nops(n)) && Holds(b[p..p + Nop.Len()], Nop)
    ensures Stream(b[start..p + 4], Nops(n + 1))
  {
    hide Stream, Holds;
    StreamOne(b[p..p + 4], Nop);
    StreamConcat(b[start..p], Nops(n), b[p..p + 4], [Nop]);
    assert b[start..p] + b[p..p + 4] == b[start..p + 4] && Nops(n) + [Nop] == Nops(n + 1);
  }

  lemma {:induction false} OffsFit(w: Bytes, os: nat, zs: nat, ot: nat, zt: nat, ts: seq<Token>, items: seq<Item>,
                                   j: nat, e: nat)
    requires Image(w, os, zs, ot, zt, ts, items) && j <= e <= |ts|
    ensures Off(ts + [End], j) <= Off(ts + [End], e) <= zs
  {
    hide Stream, Off;
    var all := ts + [End];
    OffMonotone(all, j, e);
    OffMonotone(all, e, |all|);
    StreamLength(w[os..os + zs], all);
  }

  /** The bytes and the name of property number j. */
  lemma {:induction false} PropHere(w: Bytes, os: nat, zs: nat, ot: nat, zt: nat, ts: seq<Token>, items: seq<Item>,
                                    j: nat, value: Bytes, head: Bytes, strings: Bytes)
    requires Image(w, os, zs, ot, zt, ts, items) && j < |ts| && ts[j].Prop? && Known(w, os, head, ot, zt, strings)
    ensures var o, t := Off(ts + [End], j), ts[j];
            && Off(ts + [End], j + 1) == o + t.Len() && t.Len() == 12 + Align4(|t.value|)
            && Prop(t.nameoff, value).Len() == 12 + Align4(|value|)
            && o + t.Len() <= zs && HeldAt(w, os + o, t)
    ensures items[j].Attr? && Named([Prop(ts[j].nameoff, value)], strings, [Attr(items[j].name, value)])
  {
    hide Stream, Off, Token.Len, Align4, Holds;
    var all := ts + [End];
    var o, t := Off(all, j), ts[j];
    TokenAt(w[os..os + zs], all, j);
    OffStep(all, j);
    PropLen(t);
    PropLen(Prop(t.nameoff, value));
    SliceAt(w, os, zs, o, o + t.Len());
  }

  lemma {:induction false} FitsAfter(w: Bytes, b: Bytes, end: nat, a: nat, t: Token, value: Bytes)
    requires t.Prop? && Edited(w, b, end, a + 12, Align4(|t.value|), Align4(|value|))
    ensures a + 12 + |value| <= |b| == |w| && a + Prop(t.nameoff, value).Len() <= |b|
  {
    PropLen(Prop(t.nameoff, value));
  }

  lemma {:induction false} PropLen(t: Token)
    requires t.Prop?
    ensures t.Len() == 12 + Align4(|t.value|) == Align4(12 + |t.value|)
  {
    AlignShift(12, |t.value|);
  }

  lemma {:induction false} EditedInPlace(w: Bytes, b: Bytes, end: nat, a: nat, n: nat)
    requires a + n <= end <= |w| && Around(w, b, a, n)
    ensures Edited(w, b, end, a, n, n)
  {
    TailRange(b, w, a + n, end - a - n);
  }

  lemma {:induction false} LengthHeld(w: Bytes, a: nat, t: Token)
    requires t.Prop? && a + t.Len() <= |w| && Holds(w[a..a + t.Len()], t)
    ensures U32(w, a + 4) == |t.value|
  {
    WordAt(w, a, t.Len(), 4);
  }

  lemma {:induction false} OneReplaced(ts: seq<Token>, s: seq<Item>, j: nat, t: Token, x: Item)
    requires j < |ts| == |s|
    ensures ts[..j] + [t] + ts[j + 1..] == ts[j := t] && Cut(s, j, j + 1, [x]) == s[j := x]
  {
  }

  lemma {:induction false} PatchedParts(w: Bytes, b: Bytes, a: nat, n: nat, i: nat, val: Bytes)
    requires i + |val| <= n && a + n <= |w| && b == Overwrite(w, a + i, val)
    ensures b[a..a + n] == Overwrite(w[a..a + n], i, val) && b[..a] == w[..a] && b[a + n..] == w[a + n..]
  {
  }

  lemma {:induction false} PatchedHolds(c: Bytes, c': Bytes, t: Token, idx: nat, val: Bytes)
    requires t.Prop? && Holds(c, t) && idx + |val| <= |t.value| && c' == Overwrite(c, 12 + idx, val)
    ensures var t' := Prop(t.nameoff, Overwrite(t.value, idx, val)); t'.Len() == t.Len() && Holds(c', t')
  {
    hide U32, Overwrite;
    var i, m := 12 + idx, |t.value|;
    OverwriteElsewhere(c, i, val, 0, 4);
    OverwriteElsewhere(c, i, val, 4, 8);
    OverwriteElsewhere(c, i, val, 8, 12);
    WordSame(c', 0, c, 0);
    WordSame(c', 4, c, 4);
    WordSame(c', 8, c, 8);
    PatchedParts(c, c', 12, m, idx, val);
  }

  lemma {:induction false} Patched(w: Bytes, b: Bytes, a: nat, t: Token, idx: nat, val: Bytes, end: nat)
    requires t.Prop? && a + t.Len() <= end <= |w| && HeldAt(w, a, t) && idx + |val| <= |t.value|
    requires a + 12 + idx + |val| <= |w| && b == Overwrite(w, a + 12 + idx, val)
    ensures var t' := Prop(t.nameoff, Overwrite(t.value, idx, val));
            t'.Len() == t.Len() && HeldAt(b, a, t') && Edited(w, b, end, a, t.Len(), t.Len())
  {
    hide Edited, Overwrite, Holds, Token.Len;
    var n, v := t.Len(), Overwrite(t.value, idx, val);
    var c, c' := w[a..a + n], b[a..a + n];
    PatchedParts(w, b, a, n, 12 + idx, val);
    PatchedHolds(c, c', t, idx, val);
    EditedInPlace(w, b, end, a, n);
  }

  lemma {:induction false} TailOf(s: seq<Item>, i: nat)
    requires i < |s|
    ensures s[i..][1..] == s[i + 1..] && s[i..] != [] && s[i..][0] == s[i]
  {
  }

  lemma {:induction false} ShorterPrefix(ts: seq<Token>, us: seq<Token>, j: nat, k: nat)
    requires k <= j <= |ts| && j <= |us| && ts[..j] == us[..j]
    ensures ts[..k] == us[..k]
  {
    assert ts[..k] == ts[..j][..k] && us[..k] == us[..j][..k];
  }

  lemma {:induction false} SetAttrKept(s: seq<Item>, k: nat, name: Bytes, value: Bytes)
    requires k < |s|
    ensures var s' := SetAttr(s, k, name, value); k < |s'| && s'[..k + 1] == s[..k + 1]
  {
    hide SetAttr;
    SetAttrPrefix(s, k, name, value);
    var s' := SetAttr(s, k, name, value);
    assert s'[..k + 1] == s'[..k] + [s'[k]] && s[..k + 1] == s[..k] + [s[k]];
  }

  /** No node opens from i up to j. */
  predicate Quiet(s: seq<Item>, i: nat, j: nat) {
    i <= j <= |s| && forall m | i <= m < j :: !s[m].Open?
  }

  function Closes(s: seq<Item>): nat {
    if s == [] then 0 else Closes(s[..|s| - 1]) + if s[|s| - 1].Close? then 1 else 0
  }

  lemma {:induction false} ClosesMore(s: seq<Item>, i: nat, j: nat)
    requires i <= j < |s|
    ensures Closes(s[i..j + 1]) == Closes(s[i..j]) + if s[j].Close? then 1 else 0
  {
    assert s[i..j + 1][..j - i] == s[i..j] && s[i..j + 1][j - i] == s[j];
  }

  /** From item i to item k', which is at depth', nothing has been found. */
  predicate Along(s: seq<Item>, i: nat, d: nat, k': nat, d': nat, pat: Pattern) {
    && i <= k' <= |s| && Quiet(s, i, k') && d' + Closes(s[i..k']) == d
    && Span(s[i..], d) == Plus(Span(s[k'..], d'), k' - i)
    && FindSub(s[i..], d, pat) == Later(FindSub(s[k'..], d', pat), k' - i)
  }

  lemma {:induction false} AlongStart(s: seq<Item>, i: nat, d: nat, pat: Pattern)
    requires i <= |s|
    ensures Along(s, i, d, i, d, pat)
  {
    hide Span, FindSub;
  }

  lemma {:induction false} AlongStep(s: seq<Item>, i: nat, d: nat, k': nat, d': nat, pat: Pattern)
    requires Along(s, i, d, k', d', pat)
    ensures i <= k' <= |s| && Quiet(s, i, k') && d' + Closes(s[i..k']) == d
    ensures k' < |s| && !s[k'].Open? ==> Quiet(s, i, k' + 1)
    ensures k' == |s| ==> Span(s[i..], d) == None && FindSub(s[i..], d, pat) == Broken
    ensures k' < |s| && (s[k'].Attr? || s[k'].Skip?) ==> Along(s, i, d, k' + 1, d', pat)
    ensures k' < |s| && s[k'].Close? && d' > 0 ==> Along(s, i, d, k' + 1, d' - 1, pat)
    ensures k' < |s| && s[k'].Close? && d' == 0 ==>
              && Span(s[i..], d) == Some(k' + 1 - i) && FindSub(s[i..], d, pat) == Absent
              && Closes(s[i..k' + 1]) == d + 1
    ensures k' < |s| && s[k'].Open? ==>
              && Span(s[i..], d) == Plus(Span(s[k' + 1..], d' + 1), k' + 1 - i)
              && FindSub(s[i..], d, pat) == Later(FindSub(s[k'..], d', pat), k' - i)
  {
    hide Span, FindSub, Closes;
    SpanFirst(s[k'..], d');
    FindSubFirst(s[k'..], d', pat);
    if k' < |s| {
      TailOf(s, k');
      ClosesMore(s, i, k');
    }
  }

  /**
   A step of fdt_next_node from item i on, at depth d: it found a node or the end of the start
   node, at k', or nothing.
   */
  predicate Stepped(s: seq<Item>, i: nat, d: nat, pat: Pattern, found: bool, d': int, k': nat) {
    i <= |s|
    && (!found ==> Span(s[i..], d) == None && FindSub(s[i..], d, pat) == Broken && Quiet(s, i, |s|))
    && (found ==> i <= k' <= |s| && Quiet(s, i, k'))
    && (found && d' < 0 ==>
          && i < k' && Span(s[i..], d) == Some(k' - i) && FindSub(s[i..], d, pat) == Absent
          && Closes(s[i..k']) == d + 1)
    && (found && 0 <= d' ==>
          && k' < |s| && s[k'].Open? && 0 < d' && d' - 1 + Closes(s[i..k']) == d
          && Span(s[i..], d) == Plus(Span(s[k' + 1..], d'), k' + 1 - i)
          && FindSub(s[i..], d, pat) == Later(FindSub(s[k'..], d' - 1, pat), k' - i))
  }

  /** What the step means for the search for a child. */
  lemma {:induction false} SteppedFind(s: seq<Item>, i: nat, d: nat, pat: Pattern, found: bool, d': int, k': nat)
    requires Stepped(s, i, d, pat, found, d', k')
    ensures i <= |s|
    ensures !found || d' < 0 ==> !Later(FindSub(s[i..], d, pat), i).At?
    ensures found && 0 <= d' ==>
              && i <= k' < |s| && s[k'].Open?
              && Later(FindSub(s[i..], d, pat), i) ==
                 (if d' == 1 && Fits(pat, s[k'].name) then At(k') else Later(FindSub(s[k' + 1..], d', pat), k' + 1))
  {
    hide Span, FindSub, Quiet, Closes;
    if found && 0 <= d' {
      FindSubFirst(s[k'..], d' - 1, pat);
      TailOf(s, k');
    }
  }

  /** What it means for the end of the start node. */
  lemma {:induction false} SteppedEnd(s: seq<Item>, i: nat, d: nat, pat: Pattern, found: bool, d': int, k': nat)
    requires Stepped(s, i, d, pat, found, d', k')
    ensures i <= |s| && (found ==> i <= k' <= |s|) && (found && 0 <= d' ==> k' < |s|) && (found && d' < 0 ==> i < k')
    ensures Plus(Span(s[i..], d), i) ==
            if !found then None else if d' < 0 then Some(k') else Plus(Span(s[k' + 1..], d'), k' + 1)
  {
    hide Span, FindSub, Quiet, Closes;
  }

  /** What it means for the nodes that are open. */
  lemma {:induction false} SteppedQuiet(s: seq<Item>, i: nat, d: nat, pat: Pattern, found: bool, d': int, k': nat)
    requires Stepped(s, i, d, pat, found, d', k')
    ensures i <= |s| && (!found ==> Quiet(s, i, |s|)) && (found ==> i <= k' <= |s| && Quiet(s, i, k'))
    ensures found && d' < 0 ==> i < k' && Closes(s[i..k']) == d + 1
    ensures found && 0 <= d' ==> k' < |s| && s[k'].Open? && 0 < d' && d' - 1 + Closes(s[i..k']) == d
  {
  }

  lemma {:induction false} OffAtZero(ts: seq<Token>)
    ensures Off(ts, 0) == 0
  {
  }

  lemma {:induction false} EndLen()
    ensures EndNode.Len() == 4 && EndNode.Ok()
  {
  }

  lemma {:induction false} NewNode(strings: Bytes, name: Bytes)
    requires 0 !in name
    ensures Begin(name).Len() == 4 + Align4(|name| + 1) && Begin(name).Ok()
    ensures Named([Begin(name), EndNode], strings, [Open(name), Close])
  {
    AlignShift(4, |name| + 1);
  }

  lemma {:induction false} GapFits(w: Bytes, b: Bytes, end: nat, a: nat, n: nat)
    requires Edited(w, b, end, a, 0, n)
    ensures a + n <= |b|
  {
  }

  /** Two tokens written one after the other into a gap. */
  lemma {:induction false} WroteTwo(b: Bytes, a: nat, t: Token, u: Token)
    requires HeldAt(b, a, t) && HeldAt(b, a + t.Len(), u)
    ensures Wrote(b, a, t.Len() + u.Len(), [t, u])
  {
    hide Holds, Token.Len, Stream;
    var p, e := a + t.Len(), a + t.Len() + u.Len();
    StreamOne(b[a..p], t);
    StreamOne(b[p..e], u);
    StreamConcat(b[a..p], [t], b[p..e], [u]);
    assert b[a..p] + b[p..e] == b[a..e] && [t] + [u] == [t, u];
  }

  lemma {:induction false} TwoTokens(w: Bytes, b: Bytes, b': Bytes, b'': Bytes, end: nat, a: nat, t: Token, u: Token)
    requires a <= end && Edited(w, b, end, a, 0, t.Len() + u.Len()) && |b| == |b'| == |b''|
    requires b'[..a] == b[..a] && b'[a + t.Len()..] == b[a + t.Len()..] && Holds(b'[a..a + t.Len()], t)
    requires var p := a + t.Len();
             && b''[..p] == b'[..p] && b''[p + u.Len()..] == b'[p + u.Len()..]
             && Holds(b''[p..p + u.Len()], u)
    ensures Edited(w, b'', end, a, 0, t.Len() + u.Len()) && Wrote(b'', a, t.Len() + u.Len(), [t, u])
  {
    hide Holds, Token.Len, Stream, Wrote;
    var p, n := a + t.Len(), t.Len() + u.Len();
    PrefixSame(b'', b', p, a);
    RangeSame(b'', b', p, a, p);
    SuffixSame(b', b, p, a + n);
    TailRange(b'', b, a + n, end - a);
    WroteTwo(b'', a, t, u);
  }

  lemma {:induction false} OffAgree(ts: seq<Token>, us: seq<Token>, k: nat)
    requires k <= |ts| && k <= |us| && ts[..k] == us[..k]
    ensures Off(ts, k) == Off(us, k)
  {
    hide Off;
    OffPrefix(ts[..k], ts[k..], k);
    OffPrefix(us[..k], us[k..], k);
    assert ts == ts[..k] + ts[k..] && us == us[..k] + us[k..];
  }

  /** The words of a structure block that fdt_next_tag takes for the start of a node. */
  lemma {:induction false} NodeTagAt(st: Bytes, ts: seq<Token>, o: nat)
    requires Stream(st, ts + [End]) && |st| <= INT_MAX && o % 4 == 0
    ensures NextTag(st, o).tag == FDT_BEGIN_NODE <==> o + 4 <= |st| && U32(st, o) == FDT_BEGIN_NODE
    ensures NextTag(st, o).tag == FDT_BEGIN_NODE ==> 0 <= NextTag(st, o).offset
  {
    hide Stream, Off;
    var all := ts + [End];
    TokenAt(st, all, |ts|);
    StreamLength(st, all);
    OffStep(all, |ts|);
    var e := |st| - 4;
    assert st[e..e + 4][0] == st[e];
    HeldFields(st, e, End);
    assert e % 4 == 0 && st[e] == 0;
    if o + 4 <= |st| && U32(st, o) == FDT_BEGIN_NODE {
      assert o + 4 <= e;
      assert Nul(st, o + 4) <= e;
    }
  }

  lemma {:induction false} PastEnd(b: Bytes, o: int)
    requires o < 0 || o >= |b|
    ensures NextTag(b, o).tag == FDT_END
  {
  }

  /** The tag that stands for an item. */
  function ItemTag(i: Item): nat {
    match i
    case Open(_) => FDT_BEGIN_NODE
    case Attr(_, _) => FDT_PROP
    case Close => FDT_END_NODE
    case Skip => FDT_NOP
  }
}
