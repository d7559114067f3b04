/**
 The structure block of a flattened devicetree: 32-bit big-endian words, the tokens
 they encode, and fdt_next_tag, which reads one token.
 */
module FdtTokens {
  import opened Basics

  const FDT_BEGIN_NODE: nat := 1
  const FDT_END_NODE: nat := 2
  const FDT_PROP: nat := 3
  const FDT_NOP: nat := 4
  const FDT_END: nat := 9

  const WORD: nat := 0x1_0000_0000
  const INT_MAX: nat := 0x7FFF_FFFF

  const TRUNCATED: int := -8
  const BADSTRUCTURE: int := -11

  function BE32(x: nat): (b: Bytes)
    requires x < WORD
    ensures |b| == 4
  {
    [x / 0x100_0000, x / 0x1_0000 % 256, x / 256 % 256, x % 256]
  }

  function U32(b: Bytes, o: nat): (x: nat)
    requires o + 4 <= |b|
    ensures x < WORD
  {
    (b[o] as int) * 0x100_0000 + (b[o + 1] as int) * 0x1_0000 + (b[o + 2] as int) * 256 + (b[o + 3] as int)
  }

  /** The four bytes of a word. */
  lemma {:induction false} FourBytes(x: nat)
    ensures x / 0x1_0000 == x / 256 / 256 && x / 0x100_0000 == x / 256 / 256 / 256
    ensures x == x / 0x100_0000 * 0x100_0000 + x / 0x1_0000 % 256 * 0x1_0000 + x / 256 % 256 * 256 + x % 256
  {
    var y := x / 256;
    var z := y / 256;
    assert x == 256 * y + x % 256 && y == 256 * z + y % 256 && z == 256 * (z / 256) + z % 256;
    assert z == x / 0x1_0000;
    assert z / 256 == x / 0x100_0000;
  }

  lemma {:induction false} WordRoundTrip(b: Bytes, o: nat, x: nat)
    requires x < WORD && o + 4 <= |b| && b[o..o + 4] == BE32(x)
    ensures U32(b, o) == x
  {
    var c := b[o..o + 4];
    assert b[o] == c[0] && b[o + 1] == c[1] && b[o + 2] == c[2] && b[o + 3] == c[3];
    FourBytes(x);
  }

  lemma {:induction false} WordSame(b: Bytes, o: nat, c: Bytes, p: nat)
    requires o + 4 <= |b| && p + 4 <= |c| && b[o..o + 4] == c[p..p + 4]
    ensures U32(b, o) == U32(c, p)
  {
    assert b[o] == b[o..o + 4][0] && b[o + 1] == b[o..o + 4][1];
    assert b[o + 2] == b[o..o + 4][2] && b[o + 3] == b[o..o + 4][3];
    assert c[p] == c[p..p + 4][0] && c[p + 1] == c[p..p + 4][1];
    assert c[p + 2] == c[p..p + 4][2] && c[p + 3] == c[p..p + 4][3];
  }

  function Align4(n: nat): (r: nat)
    ensures r % 4 == 0 && n <= r < n + 4
  {
    (n + 3) / 4 * 4
  }

  // ----- Tokens -----

  /** One token of the structure block; a property names its string by offset. */
  datatype Token = Begin(name: Bytes) | Prop(nameoff: nat, value: Bytes) | EndNode | Nop | End {

    predicate Ok() {
      match this
      case Begin(name) => 0 !in name
      case Prop(nameoff, value) => nameoff < WORD && |value| <= INT_MAX
      case _ => true
    }

    function Tag(): nat {
      match this
      case Begin(_) => FDT_BEGIN_NODE
      case Prop(_, _) => FDT_PROP
      case EndNode => FDT_END_NODE
      case Nop => FDT_NOP
      case End => FDT_END
    }

    /** Length without padding. */
    function Used(): nat {
      match this
      case Begin(name) => 4 + |name| + 1
      case Prop(_, value) => 12 + |value|
      case _ => 4
    }

    function Len(): (n: nat)
      ensures n % 4 == 0 && Used() <= n < Used() + 4
    {
      Align4(Used())
    }
  }

  /** c holds exactly the token; the padding may hold anything. */
  predicate Holds(c: Bytes, t: Token) {
    && t.Ok() && |c| == t.Len() && U32(c, 0) == t.Tag()
    && match t
       case Begin(name) => c[4..4 + |name|] == name && c[4 + |name|] == 0
       case Prop(nameoff, value) => U32(c, 4) == |value| && U32(c, 8) == nameoff && c[12..12 + |value|] == value
       case _ => true
  }

  /** b is the concatenation of the tokens. */
  predicate Stream(b: Bytes, ts: seq<Token>) {
    if ts == [] then b == []
    else ts[0].Len() <= |b| && Holds(b[..ts[0].Len()], ts[0]) && Stream(b[ts[0].Len()..], ts[1..])
  }

  /** Offset of token number k. */
  function Off(ts: seq<Token>, k: nat): (o: nat)
    requires k <= |ts|
    ensures o % 4 == 0
  {
    if k == 0 then 0 else ts[0].Len() + Off(ts[1..], k - 1)
  }

  lemma {:induction false} StreamConcat(b: Bytes, ts: seq<Token>, c: Bytes, us: seq<Token>)
    requires Stream(b, ts) && Stream(c, us)
    ensures Stream(b + c, ts + us)
  {
    hide Holds, Token.Len;
    if ts == [] {
      assert b + c == c && ts + us == us;
    } else {
      var n := ts[0].Len();
      StreamConcat(b[n..], ts[1..], c, us);
      assert (b + c)[..n] == b[..n] && (b + c)[n..] == b[n..] + c;
      assert (ts + us)[1..] == ts[1..] + us;
    }
  }

  lemma {:induction false} StreamOne(c: Bytes, t: Token)
    requires Holds(c, t)
    ensures Stream(c, [t])
  {
    assert c[..t.Len()] == c;
  }

  lemma {:induction false} StreamNone()
    ensures Stream([], [])
  {
  }

  lemma {:induction false} StreamFirst(b: Bytes, ts: seq<Token>)
    requires Stream(b, ts) && ts != []
    ensures ts[0].Len() <= |b| && Holds(b[..ts[0].Len()], ts[0]) && Stream(b[ts[0].Len()..], ts[1..])
  {
  }

  lemma {:induction false} OffFirst(ts: seq<Token>, k: nat)
    requires k <= |ts|
    ensures Off(ts, k) == if k == 0 then 0 else ts[0].Len() + Off(ts[1..], k - 1)
  {
  }

  /** Any token boundary splits a stream in two. */
  lemma {:induction false} StreamSplit(b: Bytes, ts: seq<Token>, k: nat)
    requires Stream(b, ts) && k <= |ts|
    ensures Off(ts, k) <= |b|
    ensures Stream(b[..Off(ts, k)], ts[..k]) && Stream(b[Off(ts, k)..], ts[k..])
  {
    hide Holds, Token.Len, Stream, Off;
    OffFirst(ts, k);
    if k == 0 {
      StreamNone();
      assert b[..0] == [] && b[0..] == b && ts[..0] == [] && ts[0..] == ts;
    } else {
      var n := ts[0].Len();
      StreamFirst(b, ts);
      StreamSplit(b[n..], ts[1..], k - 1);
      var o := Off(ts[1..], k - 1);
      StreamOne(b[..n], ts[0]);
      StreamConcat(b[..n], [ts[0]], b[n..][..o], ts[1..][..k - 1]);
      assert b[..n] + b[n..][..o] == b[..n + o] && b[n + o..] == b[n..][o..];
      assert [ts[0]] + ts[1..][..k - 1] == ts[..k] && ts[k..] == ts[1..][k - 1..];
    }
  }

  lemma {:induction false} OffStep(ts: seq<Token>, k: nat)
    requires k < |ts|
    ensures Off(ts, k + 1) == Off(ts, k) + ts[k].Len()
  {
    if k > 0 { OffStep(ts[1..], k - 1); }
  }

  lemma {:induction false} OffPrefix(ts: seq<Token>, us: seq<Token>, k: nat)
    requires k <= |ts|
    ensures Off(ts + us, k) == Off(ts, k)
  {
    if k > 0 {
      assert (ts + us)[1..] == ts[1..] + us;
      OffPrefix(ts[1..], us, k - 1);
    }
  }

  lemma {:induction false} StreamLength(b: Bytes, ts: seq<Token>)
    requires Stream(b, ts)
    ensures |b| == Off(ts, |ts|)
  {
    if ts != [] { StreamLength(b[ts[0].Len()..], ts[1..]); }
  }

  /** The bytes of token number k. */
  lemma {:induction false} TokenAt(b: Bytes, ts: seq<Token>, k: nat)
    requires Stream(b, ts) && k < |ts|
    ensures Off(ts, k) + ts[k].Len() <= |b|
    ensures Holds(b[Off(ts, k)..Off(ts, k) + ts[k].Len()], ts[k])
  {
    hide Holds, Off, Token.Len;
    StreamSplit(b, ts, k);
    var o, n := Off(ts, k), ts[k].Len();
    assert b[o..][..n] == b[o..o + n];
  }

  /** Replacing token k by other tokens. */
  lemma {:induction false} StreamSplice(b: Bytes, ts: seq<Token>, k: nat, j: nat, c: Bytes, us: seq<Token>)
    requires Stream(b, ts) && k <= j <= |ts| && Stream(c, us)
    ensures Off(ts, k) <= Off(ts, j) <= |b|
    ensures Stream(b[..Off(ts, k)] + c + b[Off(ts, j)..], ts[..k] + us + ts[j..])
  {
    StreamSplit(b, ts, k);
    StreamSplit(b, ts, j);
    OffMonotone(ts, k, j);
    StreamConcat(b[..Off(ts, k)], ts[..k], c, us);
    StreamConcat(b[..Off(ts, k)] + c, ts[..k] + us, b[Off(ts, j)..], ts[j..]);
  }

  lemma {:induction false} OffMonotone(ts: seq<Token>, k: nat, j: nat)
    requires k <= j <= |ts|
    ensures Off(ts, k) <= Off(ts, j)
    decreases j
  {
    if k < j {
      OffStep(ts, j - 1);
      OffMonotone(ts, k, j - 1);
    }
  }

  // ----- Reading: fdt_offset_ptr and fdt_next_tag -----

  /** The bounds check of fdt_offset_ptr, in 32-bit arithmetic. */
  predicate OffsetPtr(total: nat, offStruct: nat, sizeStruct: nat, offset: int, len: nat) {
    var uoffset := offset % WORD;
    var absoffset := (offset + offStruct) % WORD;
    && 0 <= offset
    && uoffset <= absoffset <= (absoffset + len) % WORD <= total
    && uoffset <= (uoffset + len) % WORD && (offset + len) % WORD <= sizeStruct
  }

  /** The same check for a structure block of n bytes that lies inside its blob. */
  predicate InBlock(n: nat, offset: int, len: nat) {
    0 <= offset && offset + len < WORD && offset + len <= n
  }

  lemma {:induction false} OffsetPtrIsInBlock(total: nat, offStruct: nat, sizeStruct: nat, offset: int, len: nat)
    requires offStruct + sizeStruct <= total <= INT_MAX && offset <= INT_MAX && len < WORD
    ensures OffsetPtr(total, offStruct, sizeStruct, offset, len) <==> InBlock(sizeStruct, offset, len)
  {
    if 0 <= offset {
      if offset + len < WORD {
        assert (offset + len) % WORD == offset + len;
      } else {
        assert (offset + len) % WORD == offset + len - WORD;
      }
    }
  }

  /** The first NUL at or after o, or |b|. */
  function Nul(b: Bytes, o: nat): (p: nat)
    requires o <= |b|
    ensures o <= p <= |b|
    ensures forall i | o <= i < p :: b[i] != 0
    ensures p < |b| ==> b[p] == 0
    decreases |b| - o
  {
    if o == |b| || b[o] == 0 then o else Nul(b, o + 1)
  }

  function Int32(x: int): int {
    var w := x % WORD;
    if w <= INT_MAX then w else w - WORD
  }

  datatype Next = Next(tag: nat, offset: int)

  /** Where the token at `start` ends, before alignment; -1 where the code gives up early. */
  function EndOfToken(b: Bytes, start: nat): (e: int)
    requires start + 4 <= |b|
  {
    var tag := U32(b, start);
    if tag == FDT_BEGIN_NODE then
      var p := Nul(b, start + 4);
      if p < |b| then p + 1 else -1
    else if tag == FDT_PROP then
      if InBlock(|b|, start + 4, 4) then Int32(start + 12 + U32(b, start + 4)) else -1
    else if tag == FDT_END || tag == FDT_END_NODE || tag == FDT_NOP then start + 4
    else -1
  }

  /** fdt_next_tag on the structure block b. */
  function NextTag(b: Bytes, start: int): Next {
    if !InBlock(|b|, start, 4) then Next(FDT_END, TRUNCATED)
    else
      var e := EndOfToken(b, start);
      if e < 0 || !InBlock(|b|, start, (e - start) % WORD) then Next(FDT_END, BADSTRUCTURE)
      else Next(U32(b, start), Align4(e))
  }

  lemma {:induction false} WordAt(b: Bytes, o: nat, n: nat, i: nat)
    requires o + n <= |b| && i + 4 <= n
    ensures U32(b[o..o + n], i) == U32(b, o + i)
  {
    var c := b[o..o + n];
    assert c[i] == b[o + i] && c[i + 1] == b[o + i + 1] && c[i + 2] == b[o + i + 2] && c[i + 3] == b[o + i + 3];
  }

  lemma {:induction false} NulIs(b: Bytes, o: nat, p: nat)
    requires o <= p < |b| && b[p] == 0 && forall i | o <= i < p :: b[i] != 0
    ensures Nul(b, o) == p
    decreases p - o
  {
    if o < p { NulIs(b, o + 1, p); }
  }

  /** fdt_next_tag reads the token at a boundary and steps to the next one. */
  lemma {:induction false} NextTagReads(b: Bytes, o: nat, t: Token)
    requires o % 4 == 0 && o + t.Len() <= |b| <= INT_MAX && Holds(b[o..o + t.Len()], t)
    ensures NextTag(b, o) == Next(t.Tag(), o + t.Len())
  {
    hide EndOfToken, Align4, Token.Used, Token.Len;
    UsedBound(t);
    WordAt(b, o, t.Len(), 0);
    EndOfHeld(b, o, t);
    AlignShift(o, t.Used());
  }

  lemma {:induction false} AlignShift(o: nat, n: nat)
    requires o % 4 == 0
    ensures Align4(o + n) == o + Align4(n)
  {
  }

  lemma {:induction false} UsedBound(t: Token)
    ensures 4 <= t.Used() <= t.Len() == Align4(t.Used())
  {
  }

  lemma {:induction false} SliceAt(b: Bytes, o: nat, n: nat, i: nat, j: nat)
    requires o + n <= |b| && i <= j <= n
    ensures b[o..o + n][i..j] == b[o + i..o + j]
  {
    var c, d := b[o..o + n][i..j], b[o + i..o + j];
    forall k | 0 <= k < j - i ensures c[k] == d[k] {
      assert c[k] == b[o..o + n][i + k] == b[o + (i + k)];
      assert d[k] == b[(o + i) + k];
    }
  }

  /** The contents of a held token, read at its offset in the block. */
  lemma {:induction false} HeldName(b: Bytes, o: nat, t: Token)
    requires t.Begin? && o + t.Len() <= |b| && Holds(b[o..o + t.Len()], t)
    ensures b[o + 4..o + 4 + |t.name|] == t.name && Nul(b, o + 4) == o + 4 + |t.name| < |b|
  {
    hide U32, Nul;
    var n, p := t.Len(), o + 4 + |t.name|;
    SliceAt(b, o, n, 4, 4 + |t.name|);
    assert b[o..o + n][4 + |t.name|] == b[p];
    forall i | o + 4 <= i < p ensures b[i] != 0 {
      assert b[i] == b[o + 4..p][i - (o + 4)];
    }
    NulIs(b, o + 4, p);
  }

  lemma {:induction false} HeldFields(b: Bytes, o: nat, t: Token)
    requires o + t.Len() <= |b| <= INT_MAX && Holds(b[o..o + t.Len()], t)
    ensures U32(b, o) == t.Tag()
    ensures t.Begin? ==> b[o + 4..o + 4 + |t.name|] == t.name && Nul(b, o + 4) == o + 4 + |t.name| < |b|
    ensures t.Prop? ==> U32(b, o + 4) == |t.value| && U32(b, o + 8) == t.nameoff
    ensures t.Prop? ==> b[o + 12..o + 12 + |t.value|] == t.value
  {
    hide U32, Nul;
    var n := t.Len();
    WordAt(b, o, n, 0);
    match t
    case Begin(_) => HeldName(b, o, t);
    case Prop(nameoff, value) =>
      WordAt(b, o, n, 4);
      WordAt(b, o, n, 8);
      SliceAt(b, o, n, 12, 12 + |value|);
    case _ =>
  }

  lemma {:induction false} EndOfHeld(b: Bytes, o: nat, t: Token)
    requires o + t.Len() <= |b| <= INT_MAX && Holds(b[o..o + t.Len()], t)
    ensures EndOfToken(b, o) == o + t.Used()
  {
    HeldFields(b, o, t);
  }

  /**
   fdt_next_tag always moves forward when it succeeds, except at a property whose length
   is 2^32 - 12: there its 32-bit sum wraps and it returns the offset it started from.
   */
  lemma {:induction false} NextTagAdvances(b: Bytes, start: nat)
    requires |b| <= INT_MAX && start % 4 == 0 && 0 <= NextTag(b, start).offset
    ensures NextTag(b, start).offset <= |b| + 3
    ensures start < NextTag(b, start).offset <==>
            !(NextTag(b, start).tag == FDT_PROP && U32(b, start + 4) == WORD - 12)
  {
    var tag, e := U32(b, start), EndOfToken(b, start);
    if tag == FDT_PROP {
      var len := U32(b, start + 4);
      if start + 12 + len < WORD {
        assert (start + 12 + len) % WORD == start + 12 + len;
      } else {
        assert (start + 12 + len) % WORD == start + 12 + len - WORD;
      }
    }
  }

  /** A block on which fdt_next_tag does not move. */
  lemma {:induction false} NextTagStuck()
    ensures NextTag(BE32(FDT_PROP) + BE32(WORD - 12), 0) == Next(FDT_PROP, 0)
  {
    var b := BE32(FDT_PROP) + BE32(WORD - 12);
    WordRoundTrip(b, 0, FDT_PROP);
    WordRoundTrip(b, 4, WORD - 12);
  }
}
