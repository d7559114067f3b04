/**
 Byte buffers: memcpy and memmove, and what they leave unchanged.
 */
module FdtBuffer {
  import opened Basics
  import opened FdtTokens

  /** b with c written over it at o. */
  function Overwrite(b: Bytes, o: nat, c: Bytes): (r: Bytes)
    requires o + |c| <= |b|
    ensures |r| == |b|
  {
    b[..o] + c + b[o + |c|..]
  }

  lemma {:induction false} SuffixSame(b: Bytes, c: Bytes, o: nat, p: nat)
    requires o <= p <= |b| == |c| && b[o..] == c[o..]
    ensures b[p..] == c[p..] && b[p..|b|] == c[p..|b|]
  {
    assert b[p..] == b[o..][p - o..];
  }

  lemma {:induction false} Written(b: Bytes, o: nat, c: Bytes)
    requires o + |c| <= |b|
    ensures var r := Overwrite(b, o, c); r[..o] == b[..o] && r[o..o + |c|] == c && r[o + |c|..] == b[o + |c|..]
  {
  }

  lemma {:induction false} OverwriteElsewhere(b: Bytes, o: nat, c: Bytes, x: nat, y: nat)
    requires o + |c| <= |b| && x <= y <= |b| && (y <= o || o + |c| <= x)
    ensures Overwrite(b, o, c)[x..y] == b[x..y]
  {
  }

  lemma {:induction false} PrefixSame(b: Bytes, c: Bytes, o: nat, p: nat)
    requires p <= o <= |b| && o <= |c| && b[..o] == c[..o]
    ensures b[..p] == c[..p]
  {
    assert b[..p] == b[..o][..p];
  }

  lemma {:induction false} RangeSame(b: Bytes, c: Bytes, o: nat, i: nat, j: nat)
    requires i <= j <= o <= |b| && o <= |c| && b[..o] == c[..o]
    ensures b[i..j] == c[i..j]
  {
    assert b[i..j] == b[..o][i..j];
  }

  lemma {:induction false} SameInside(b: Bytes, c: Bytes, o: nat, n: nat, i: nat, j: nat)
    requires o + n <= |b| == |c| && i <= j <= n && b[o + i..o + j] == c[o + i..o + j]
    ensures b[o..o + n][i..j] == c[o..o + n][i..j]
  {
    SliceAt(b, o, n, i, j);
    SliceAt(c, o, n, i, j);
  }

  lemma {:induction false} TailRange(b: Bytes, c: Bytes, o: nat, k: nat)
    requires o + k <= |b| == |c| && b[o..] == c[o..]
    ensures b[o..o + k] == c[o..o + k]
  {
    assert b[o..o + k] == b[o..][..k] && c[o..o + k] == c[o..][..k];
  }

  /** memcpy into a buffer. */
  method Store(buf: array<byte>, o: nat, c: Bytes)
    requires o + |c| <= buf.Length
    modifies buf
    ensures buf[..] == Overwrite(old(buf[..]), o, c)
  {
    forall i | 0 <= i < |c| { buf[o + i] := c[i]; }
    assert forall i | 0 <= i < buf.Length :: buf[i] == Overwrite(old(buf[..]), o, c)[i];
  }

  /** memmove inside a buffer. */
  method Move(buf: array<byte>, dst: nat, src: nat, len: nat)
    requires dst + len <= buf.Length && src + len <= buf.Length
    modifies buf
    ensures buf[..] == Overwrite(old(buf[..]), dst, old(buf[..])[src..src + len])
  {
    ghost var was, c := buf[..], buf[..][src..src + len];
    forall i | 0 <= i < len { buf[dst + i] := buf[src + i]; }
    assert forall i | 0 <= i < len :: c[i] == was[src + i];
    assert forall i | 0 <= i < buf.Length :: buf[i] == Overwrite(was, dst, c)[i];
  }

  // ----- Writing a token -----

  lemma {:induction false} HoldsBegin(was: Bytes, mid: Bytes, b: Bytes, o: nat, name: Bytes)
    requires 0 !in name && o + Begin(name).Len() <= |was|
    requires mid == Overwrite(was, o, BE32(FDT_BEGIN_NODE)) && b == Overwrite(mid, o + 4, name + [0])
    ensures b[..o] == was[..o] && b[o + Begin(name).Len()..] == was[o + Begin(name).Len()..]
    ensures Holds(b[o..o + Begin(name).Len()], Begin(name))
  {
    var n, k := Begin(name).Len(), |name|;
    Written(was, o, BE32(FDT_BEGIN_NODE));
    Written(mid, o + 4, name + [0]);
    PrefixSame(b, mid, o + 4, o);
    SuffixSame(b, mid, o + 4 + k + 1, o + n);
    SuffixSame(mid, was, o + 4, o + n);
    var c := b[o..o + n];
    assert c[0..4] == b[o..o + 4] == mid[..o + 4][o..] == BE32(FDT_BEGIN_NODE);
    WordRoundTrip(c, 0, FDT_BEGIN_NODE);
    assert c[4..4 + k + 1] == b[o + 4..o + 4 + k + 1] == name + [0];
    assert c[4..4 + k] == c[4..4 + k + 1][..k] == name;
    assert c[4 + k] == c[4..4 + k + 1][k];
  }

  lemma {:induction false} HoldsPlain(was: Bytes, b: Bytes, o: nat, t: Token)
    requires t.EndNode? || t.Nop? || t.End?
    requires o + 4 <= |was| && b == Overwrite(was, o, BE32(t.Tag()))
    ensures b[..o] == was[..o] && b[o + 4..] == was[o + 4..] && Holds(b[o..o + 4], t)
  {
    Written(was, o, BE32(t.Tag()));
    WordRoundTrip(b[o..o + 4], 0, t.Tag());
  }

  lemma {:induction false} HoldsProp(was: Bytes, mid: Bytes, b: Bytes, o: nat, t: Token)
    requires t.Prop? && t.Ok() && o + t.Len() <= |was|
    requires mid == Overwrite(was, o, BE32(FDT_PROP))
    requires b == Overwrite(mid, o + 4, BE32(|t.value|) + BE32(t.nameoff) + t.value)
    ensures b[..o] == was[..o] && b[o + t.Len()..] == was[o + t.Len()..]
    ensures Holds(b[o..o + t.Len()], t)
  {
    var n, k := t.Len(), |t.value|;
    var d := BE32(k) + BE32(t.nameoff) + t.value;
    Written(was, o, BE32(FDT_PROP));
    Written(mid, o + 4, d);
    hide Overwrite;
    PrefixSame(b, mid, o + 4, o);
    SuffixSame(b, mid, o + 12 + k, o + n);
    SuffixSame(mid, was, o + 4, o + n);
    var c := b[o..o + n];
    RangeSame(b, mid, o + 4, o, o + 4);
    SliceAt(b, o, n, 0, 4);
    WordRoundTrip(c, 0, FDT_PROP);
    SliceAt(b, o, n, 4, 12 + k);
    assert c[4..12 + k] == d;
    PropFields(c, t);
  }

  lemma {:induction false} PropParts(c: Bytes, x: Bytes, y: Bytes, v: Bytes)
    requires |x| == |y| == 4 && 12 + |v| <= |c| && c[4..12 + |v|] == x + y + v
    ensures c[4..8] == x && c[8..12] == y && c[12..12 + |v|] == v
  {
    SliceAt(c, 4, 8 + |v|, 0, 4);
    SliceAt(c, 4, 8 + |v|, 4, 8);
    SliceAt(c, 4, 8 + |v|, 8, 8 + |v|);
    assert (x + y + v)[0..4] == x && (x + y + v)[4..8] == y && (x + y + v)[8..8 + |v|] == v;
  }

  lemma {:induction false} PropFields(c: Bytes, t: Token)
    requires t.Prop? && t.Ok() && |c| == t.Len() && U32(c, 0) == FDT_PROP
    requires c[4..12 + |t.value|] == BE32(|t.value|) + BE32(t.nameoff) + t.value
    ensures Holds(c, t)
  {
    var k := |t.value|;
    PropParts(c, BE32(k), BE32(t.nameoff), t.value);
    WordRoundTrip(c, 4, k);
    WordRoundTrip(c, 8, t.nameoff);
  }

  /** Write the fields of a token at o; its padding is left as it is. */
  method WriteToken(buf: array<byte>, o: nat, t: Token)
    requires t.Ok() && o + t.Len() <= buf.Length
    modifies buf
    ensures buf[..][..o] == old(buf[..])[..o] && buf[..][o + t.Len()..] == old(buf[..])[o + t.Len()..]
    ensures Holds(buf[..][o..o + t.Len()], t)
    ensures buf[..][o..o + 4] == match t
                                 case Begin(_) => [0, 0, 0, 1]
                                 case EndNode => [0, 0, 0, 2]
                                 case Prop(_, _) => [0, 0, 0, 3]
                                 case Nop => [0, 0, 0, 4]
                                 case End => [0, 0, 0, 9]
    ensures t.Prop? && |t.value| < 256 && t.nameoff < 256 ==>
              buf[..][o + 4..o + 12] == [0, 0, 0, |t.value|] + [0, 0, 0, t.nameoff]
  {
    hide Overwrite;
    ghost var was := buf[..];
    Store(buf, o, BE32(t.Tag()));
    ghost var mid := buf[..];
    match t {
      case Begin(name) =>
        Store(buf, o + 4, name + [0]);
        HoldsBegin(was, mid, buf[..], o, name);
      case Prop(nameoff, value) =>
        Store(buf, o + 4, BE32(|value|) + BE32(nameoff) + value);
        HoldsProp(was, mid, buf[..], o, t);
      case _ =>
        HoldsPlain(was, mid, o, t);
    }
    TokenBytes(buf[..], o, t);
  }

  /** A word below 256 is three zero bytes and its value. */
  lemma {:induction false} SmallWord(b: Bytes, o: nat)
    requires o + 4 <= |b| && U32(b, o) < 256
    ensures b[o..o + 4] == [0, 0, 0, U32(b, o)]
  {
  }

  /** The words of a token as bytes. */
  lemma {:induction false} TokenBytes(b: Bytes, o: nat, t: Token)
    requires o + t.Len() <= |b| && Holds(b[o..o + t.Len()], t)
    ensures b[o..o + 4] == match t
                           case Begin(_) => [0, 0, 0, 1]
                           case EndNode => [0, 0, 0, 2]
                           case Prop(_, _) => [0, 0, 0, 3]
                           case Nop => [0, 0, 0, 4]
                           case End => [0, 0, 0, 9]
    ensures t.Prop? && |t.value| < 256 && t.nameoff < 256 ==>
              b[o + 4..o + 12] == [0, 0, 0, |t.value|] + [0, 0, 0, t.nameoff]
  {
    hide U32;
    var n := t.Len();
    WordAt(b, o, n, 0);
    SmallWord(b, o);
    if t.Prop? && |t.value| < 256 && t.nameoff < 256 {
      WordAt(b, o, n, 4);
      WordAt(b, o, n, 8);
      SmallWord(b, o + 4);
      SmallWord(b, o + 8);
      assert b[o + 4..o + 12] == b[o + 4..o + 8] + b[o + 8..o + 12];
    }
  }

  // ----- Strings -----

  /** The terminated string name starts at i in tab. */
  predicate OccursAt(tab: Bytes, i: nat, name: Bytes) {
    i + |name| + 1 <= |tab| && tab[i..i + |name| + 1] == name + [0]
  }

  predicate NoneBefore(tab: Bytes, p: int, name: Bytes) {
    forall i: nat | i < p :: !OccursAt(tab, i, name)
  }

  ghost predicate Occurs(tab: Bytes, name: Bytes) {
    exists i: nat :: OccursAt(tab, i, name)
  }

  /** fdt_find_string_: the first occurrence of a terminated string in a table, or -1. */
  method FindString(buf: array<byte>, strtab: nat, tabSize: nat, name: Bytes) returns (p: int)
    requires strtab + tabSize <= buf.Length
    ensures -1 <= p
    ensures p >= 0 ==> p + |name| + 1 <= tabSize && OccursAt(buf[strtab..strtab + tabSize], p, name)
    ensures p == -1 ==> !Occurs(buf[strtab..strtab + tabSize], name)
    ensures NoneBefore(buf[strtab..strtab + tabSize], p, name)
  {
    ghost var tab, b := buf[strtab..strtab + tabSize], buf[..];
    assert tab == b[strtab..strtab + tabSize];
    p := 0;
    while p <= tabSize - (|name| + 1)
      invariant 0 <= p
      invariant NoneBefore(tab, p, name)
      decreases tabSize - p
    {
      SliceAt(b, strtab, tabSize, p, p + |name| + 1);
      var here := buf[strtab + p..strtab + p + |name| + 1];
      assert here == b[strtab + p..strtab + p + |name| + 1];
      if here == name + [0] { return; }
      p := p + 1;
    }
    p := -1;
  }
}
