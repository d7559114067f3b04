/**
 fdt_get_path and fdt_path_offset: the path of a node as a string, and back.
 */
module FdtPath {
  import opened Basics
  import opened FdtTokens
  import opened FdtTree
  import opened FdtEdit
  import opened FdtSubnodes
  import opened FdtEditor

  const SLASH: byte := 47

  // ----- The names on the way to a node -----

  /** The names of the nodes that are open after the items s, from the outside in. */
  function Stack(s: seq<Item>): seq<Bytes> {
    if s == [] then []
    else Pushed(Stack(s[..|s| - 1]), s[|s| - 1])
  }

  function Pushed(st: seq<Bytes>, i: Item): seq<Bytes> {
    match i
    case Open(name) => st + [name]
    case Close => if st == [] then [] else st[..|st| - 1]
    case _ => st
  }

  lemma {:induction false} StackSnoc(s: seq<Item>, i: Item)
    ensures Stack(s + [i]) == Pushed(Stack(s), i)
  {
    assert (s + [i])[..|s|] == s;
  }

  function NamesAlong(n: Node, p: seq<nat>): (r: seq<Bytes>)
    requires Path(n, p)
    ensures |r| == |p| + 1
    decreases |p|
  {
    [n.name] + if p == [] then [] else NamesAlong(n.children[p[0]], p[1..])
  }

  lemma {:induction false} StackStrip(s: seq<Item>)
    ensures Stack(Strip(s)) == Stack(s)
    decreases |s|
  {
    hide Strip, Stack;
    if s == [] {
      StripEmpty();
    } else {
      var t, i := s[..|s| - 1], s[|s| - 1];
      assert s == t + [i];
      StackStrip(t);
      StripConcat(t, [i]);
      StripFirst([i]);
      StripEmpty();
      assert [i][1..] == [];
      StackSnoc(t, i);
      if i.Skip? {
        assert Strip(s) == Strip(t);
      } else {
        assert Strip(s) == Strip(t) + [i];
        StackSnoc(Strip(t), i);
      }
    }
  }

  lemma {:induction false} StackAttrs(pre: seq<Item>, ps: seq<Property>)
    ensures Stack(pre + Attrs(ps)) == Stack(pre)
    decreases |ps|
  {
    hide Stack, Attrs;
    if ps == [] {
      assert pre + Attrs(ps) == pre;
    } else {
      var n := |ps| - 1;
      AttrsSnoc(ps, n);
      assert ps[..n + 1] == ps;
      StackAttrs(pre, ps[..n]);
      var a := Attr(ps[n].name, ps[n].value);
      assert pre + Attrs(ps) == pre + Attrs(ps[..n]) + [a];
      StackSnoc(pre + Attrs(ps[..n]), a);
    }
  }

  /** A whole node leaves the open nodes as they were. */
  lemma {:induction false} StackNode(pre: seq<Item>, n: Node)
    ensures Stack(pre + Flatten(n)) == Stack(pre)
    decreases n, 0
  {
    hide Stack, Flatten, FlattenAll, Attrs;
    var a, b := pre + [Open(n.name)], pre + [Open(n.name)] + Attrs(n.props);
    FlattenIs(n.name, n.props, n.children);
    StackSnoc(pre, Open(n.name));
    StackAttrs(a, n.props);
    StackNodes(b, n.children);
    StackSnoc(b + FlattenAll(n.children), Close);
    assert pre + ([Open(n.name)] + Attrs(n.props) + FlattenAll(n.children) + [Close]) == b + FlattenAll(n.children)
           + [Close];
  }

  lemma {:induction false} StackNodes(pre: seq<Item>, ns: seq<Node>)
    ensures Stack(pre + FlattenAll(ns)) == Stack(pre)
    decreases ns, 1
  {
    hide Stack, Flatten, FlattenAll;
    if ns == [] {
      FlattenNone();
      assert pre + FlattenAll(ns) == pre;
    } else {
      FlattenFirst(ns);
      StackNode(pre, ns[0]);
      StackNodes(pre + Flatten(ns[0]), ns[1..]);
      assert pre + (Flatten(ns[0]) + FlattenAll(ns[1..])) == pre + Flatten(ns[0]) + FlattenAll(ns[1..]);
    }
  }

  lemma {:induction false} StackBefore(pre: seq<Item>, n: Node, p: seq<nat>)
    requires Path(n, p)
    ensures Stack(pre + Before(n, p) + [Open(SubTree(n, p).name)]) == Stack(pre) + NamesAlong(n, p)
    decreases |p|
  {
    hide Stack, Flatten, FlattenAll, Attrs, Before;
    if p == [] {
      NothingAround(n);
      assert pre + [] + [Open(n.name)] == pre + [Open(n.name)];
      StackSnoc(pre, Open(n.name));
    } else {
      var c, ns := n.children[p[0]], n.children[..p[0]];
      var a := pre + [Open(n.name)];
      var b := a + Attrs(n.props);
      var d := b + FlattenAll(ns);
      BeforeIs(n, p);
      StackSnoc(pre, Open(n.name));
      StackAttrs(a, n.props);
      StackNodes(b, ns);
      StackBefore(d, c, p[1..]);
      assert pre + ([Open(n.name)] + Attrs(n.props) + FlattenAll(ns) + Before(c, p[1..])) == d + Before(c, p[1..]);
    }
  }

  /** At the item that opens a node, the open nodes are those on its path. */
  lemma {:induction false} StackOpens(s: seq<Item>, k: nat, root: Node, p: seq<nat>)
    requires Opens(s, k, root, p)
    ensures Stack(s[..k + 1]) == NamesAlong(root, p)
  {
    hide Stack, Strip, Flatten, Before, NamesAlong;
    StackStrip(s[..k]);
    StackSnoc(s[..k], s[k]);
    assert s[..k + 1] == s[..k] + [s[k]];
    OpenName(s, k, root, p);
    StackSnoc(Strip(s[..k]), s[k]);
    StackBefore([], root, p);
    StackNone();
    assert [] + Before(root, p) + [s[k]] == Before(root, p) + [s[k]];
  }

  lemma {:induction false} StackNone()
    ensures Stack([]) == []
  {
  }

  // ----- Path strings -----

  function Joined(names: seq<Bytes>): Bytes {
    if names == [] then [] else names[0] + [SLASH] + Joined(names[1..])
  }

  lemma {:induction false} JoinedConcat(a: seq<Bytes>, b: seq<Bytes>)
    ensures Joined(a + b) == Joined(a) + Joined(b)
  {
    if a == [] {
      assert a + b == b;
    } else {
      assert (a + b)[1..] == a[1..] + b;
      JoinedConcat(a[1..], b);
    }
  }

  lemma {:induction false} JoinedSnoc(names: seq<Bytes>, m: nat)
    requires m < |names|
    ensures Joined(names[..m + 1]) == Joined(names[..m]) + names[m] + [SLASH]
  {
    JoinedConcat(names[..m], [names[m]]);
    var none: seq<Bytes> := [];
    assert names[..m + 1] == names[..m] + [names[m]] && [names[m]][1..] == none;
    assert Joined([names[m]]) == names[m] + [SLASH] + Joined(none);
  }

  /** The string that fdt_get_path writes: no final slash, except for the root. */
  function PathString(names: seq<Bytes>): Bytes {
    var s := Joined(names);
    if |s| > 1 then s[..|s| - 1] else s
  }

  /** The first m names are all that fits into size bytes. */
  predicate Fitting(names: seq<Bytes>, size: nat, m: nat) {
    m <= |names| && |Joined(names[..m])| <= size && (m < |names| ==> |Joined(names[..m + 1])| > size)
  }

  lemma {:induction false} JoinedEnds(names: seq<Bytes>)
    requires names != []
    ensures Joined(names) != [] && Joined(names)[|Joined(names)| - 1] == SLASH
  {
    JoinedSnoc(names, |names| - 1);
    assert names[..|names|] == names;
  }

  lemma {:induction false} JoinedGrows(names: seq<Bytes>, m: nat, n: nat)
    requires m <= n <= |names|
    ensures |Joined(names[..m])| <= |Joined(names[..n])|
  {
    hide Joined;
    JoinedConcat(names[..m], names[m..n]);
    assert names[..n] == names[..m] + names[m..n];
  }

  /** From the node k, through items that open nothing, to the opening item k'. */
  lemma {:induction false} QuietStack(s: seq<Item>, k: nat, m: nat)
    requires k < m <= |s| && Quiet(s, k + 1, m) && Closes(s[k + 1..m]) <= |Stack(s[..k + 1])|
    ensures var st := Stack(s[..k + 1]); Stack(s[..m]) == st[..|st| - Closes(s[k + 1..m])]
    decreases m
  {
    hide Stack, Closes;
    var st := Stack(s[..k + 1]);
    if m == k + 1 {
      assert s[k + 1..m] == [];
      ClosesNone();
      assert st[..|st|] == st;
    } else {
      ClosesMore(s, k + 1, m - 1);
      QuietStack(s, k, m - 1);
      StackSnoc(s[..m - 1], s[m - 1]);
      assert s[..m] == s[..m - 1] + [s[m - 1]];
    }
  }

  lemma {:induction false} ClosesNone()
    ensures Closes([]) == 0
  {
  }

  lemma {:induction false} NextStack(s: seq<Item>, k: nat, k': nat, d: nat)
    requires k < k' < |s| && Quiet(s, k + 1, k') && s[k'].Open? && d + Closes(s[k + 1..k']) + 1 == |Stack(s[..k + 1])|
    ensures Stack(s[..k' + 1]) == Stack(s[..k + 1])[..d + 1] + [s[k'].name]
  {
    hide Stack, Closes;
    QuietStack(s, k, k');
    StackSnoc(s[..k'], s[k']);
    assert s[..k' + 1] == s[..k'] + [s[k']];
  }

  // ----- fdt_get_path -----

  /** The first m names of st stand in the buffer, p bytes long. */
  predicate Written(b: Bytes, p: nat, st: seq<Bytes>, m: nat) {
    p <= |b| && m <= |st| && b[..p] == Joined(st[..m])
  }

  /** None of the names contains c. */
  predicate Without(st: seq<Bytes>, c: byte) {
    forall i | 0 <= i < |st| :: c !in st[i]
  }

  predicate Plain(st: seq<Bytes>) {
    Without(st, SLASH)
  }

  /** Take the last name off. */
  method PopOne(buf: array<byte>, p: nat, ghost st: seq<Bytes>, ghost m: nat) returns (q: nat)
    requires 2 <= m && Written(buf[..], p, st, m) && Plain(st)
    ensures Written(buf[..], q, st, m - 1)
  {
    ghost var b, keep, name := buf[..], Joined(st[..m - 1]), st[m - 1];
    PopShape(b, p, st, m);
    assert b[|keep| - 1] == b[..|keep|][|keep| - 1];
    assert forall i | |keep| <= i < |keep| + |name| :: b[i] == b[|keep|..|keep| + |name|][i - |keep|];
    q := p - 1;
    while buf[q - 1] != SLASH
      invariant 0 < |keep| <= q <= |keep| + |name| < buf.Length && buf[|keep| - 1] == SLASH
      invariant forall i | |keep| <= i < |keep| + |name| :: buf[i] != SLASH
      decreases q
    {
      q := q - 1;
    }
  }

  lemma {:induction false} PopShape(b: Bytes, p: nat, st: seq<Bytes>, m: nat)
    requires 2 <= m && Written(b, p, st, m) && Plain(st)
    ensures var keep, name := Joined(st[..m - 1]), st[m - 1];
            && 0 < |keep| && p == |keep| + |name| + 1 && b[..|keep|] == keep && keep[|keep| - 1] == SLASH
            && b[|keep|..|keep| + |name|] == name && SLASH !in name
  {
    hide Joined;
    JoinedSnoc(st, m - 1);
    JoinedEnds(st[..m - 1]);
    var keep, name := Joined(st[..m - 1]), st[m - 1];
    assert b[..p] == keep + name + [SLASH];
    assert b[..|keep|] == b[..p][..|keep|] && b[|keep|..|keep| + |name|] == b[..p][|keep|..|keep| + |name|];
  }

  /** Take names off until there are at most depth. */
  method PopTo(buf: array<byte>, p: nat, pdepth: nat, depth: nat, ghost st: seq<Bytes>) returns (q: nat, qdepth: nat)
    requires Written(buf[..], p, st, pdepth) && Plain(st) && (0 < depth || pdepth == 0)
    ensures Written(buf[..], q, st, qdepth) && qdepth == if pdepth > depth then depth else pdepth
  {
    hide Written;
    q, qdepth := p, pdepth;
    while qdepth > depth
      invariant Written(buf[..], q, st, qdepth) && qdepth <= pdepth && (qdepth == pdepth || depth <= qdepth)
    {
      q := PopOne(buf, q, st, qdepth);
      qdepth := qdepth - 1;
    }
  }

  /** Write one more name if it fits. */
  method PushName(buf: array<byte>, p: nat, name: Bytes, ghost names: seq<Bytes>, ghost m: nat)
    returns (q: nat, ok: bool)
    requires m < |names| && Written(buf[..], p, names, m) && name == names[m]
    modifies buf
    ensures ok <==> |Joined(names[..m + 1])| <= buf.Length
    ensures Written(buf[..], q, names, if ok then m + 1 else m)
  {
    JoinedSnoc(names, m);
    if p + |name| + 1 > buf.Length { return p, false; }
    ghost var b := buf[..];
    forall i | 0 <= i < |name| { buf[p + i] := name[i]; }
    buf[p + |name|] := SLASH;
    assert buf[..][..p] == b[..p];
    assert buf[..][p..p + |name|] == name;
    assert buf[..][..p + |name| + 1] == b[..p] + name + [SLASH];
    return p + |name| + 1, true;
  }

  /** The body of the loop of fdt_get_path: the buffer goes from the names st to the names of the next node. */
  method Visit(buf: array<byte>, p: nat, pdepth: nat, depth: nat, name: Bytes, ghost st: seq<Bytes>,
               ghost names: seq<Bytes>)
    returns (q: nat, qdepth: nat)
    requires Written(buf[..], p, st, pdepth) && Fitting(st, buf.Length, pdepth) && Plain(st)
    requires (0 < depth || pdepth == 0)
    requires |names| == depth + 1 && depth <= |st| && names[..depth] == st[..depth] && name == names[depth]
    modifies buf
    ensures Written(buf[..], q, names, qdepth) && Fitting(names, buf.Length, qdepth)
  {
    hide Joined;
    q, qdepth := PopTo(buf, p, pdepth, depth, st);
    assert st[..qdepth] == names[..qdepth] by {
      assert st[..qdepth] == st[..depth][..qdepth] && names[..qdepth] == names[..depth][..qdepth];
    }
    JoinedGrows(st, qdepth, pdepth);
    if qdepth >= depth {
      var ok;
      q, ok := PushName(buf, q, name, names, depth);
      if ok { qdepth := qdepth + 1; }
      assert names[..depth + 1] == names;
    } else {
      assert st[..qdepth + 1] == st[..depth][..qdepth + 1] && names[..qdepth + 1] == names[..depth][..qdepth + 1];
    }
  }

  /** No name of a node contains c. */
  predicate NamesWithout(s: seq<Item>, c: byte) {
    forall m | 0 <= m < |s| && s[m].Open? :: c !in s[m].name
  }

  predicate PlainNames(s: seq<Item>) {
    NamesWithout(s, SLASH)
  }

  lemma {:induction false} StackWithout(s: seq<Item>, k: nat, c: byte)
    requires NamesWithout(s, c) && k <= |s|
    ensures Without(Stack(s[..k]), c)
    decreases k
  {
    if k > 0 {
      StackWithout(s, k - 1, c);
      assert s[..k] == s[..k - 1] + [s[k - 1]];
      hide Stack;
      StackSnoc(s[..k - 1], s[k - 1]);
    }
  }

  /** Inside a node at least that node is open. */
  lemma {:induction false} StackInside(pre: seq<Item>, n: Node, j: nat)
    requires 0 < j < |Flatten(n)|
    ensures |Stack(pre + Flatten(n)[..j])| > |Stack(pre)|
    decreases n, 0
  {
    hide Stack, Flatten, FlattenAll, Attrs;
    var a, all := pre + [Open(n.name)], FlattenAll(n.children);
    FlattenIs(n.name, n.props, n.children);
    StackSnoc(pre, Open(n.name));
    var i := j - 1;
    if i <= |n.props| {
      AttrsPrefix(n.props, i);
      StackAttrs(a, n.props[..i]);
      assert pre + Flatten(n)[..j] == a + Attrs(n.props)[..i];
    } else {
      var b := a + Attrs(n.props);
      StackAttrs(a, n.props);
      StackAmong(b, n.children, i - |n.props|);
      assert pre + Flatten(n)[..j] == b + all[..i - |n.props|];
    }
  }

  lemma {:induction false} AttrsPrefix(ps: seq<Property>, i: nat)
    requires i <= |ps|
    ensures Attrs(ps[..i]) == Attrs(ps)[..i]
  {
    var a, b := Attrs(ps[..i]), Attrs(ps)[..i];
    hide Attrs;
    assert forall m | 0 <= m < i :: a[m] == b[m];
  }

  lemma {:induction false} StackAmong(pre: seq<Item>, ns: seq<Node>, j: nat)
    requires j <= |FlattenAll(ns)|
    ensures |Stack(pre + FlattenAll(ns)[..j])| >= |Stack(pre)|
    decreases ns, 1
  {
    hide Stack, Flatten, FlattenAll;
    if ns == [] || j == 0 {
      FlattenNone();
      assert pre + FlattenAll(ns)[..j] == pre;
    } else {
      FlattenFirst(ns);
      var one := Flatten(ns[0]);
      if j < |one| {
        StackInside(pre, ns[0], j);
        assert FlattenAll(ns)[..j] == one[..j];
      } else {
        StackNode(pre, ns[0]);
        StackAmong(pre + one, ns[1..], j - |one|);
        assert pre + FlattenAll(ns)[..j] == pre + one + FlattenAll(ns[1..])[..j - |one|];
      }
    }
  }

  /** Up to the last opening item, the root is open. */
  lemma {:induction false} RootOpen(s: seq<Item>, root: Node, k: nat, m: nat, h: nat)
    requires Strip(s) == Flatten(root) && k < m <= h < |s| && s[k].Open? && s[h].Open?
    ensures Stack(s[..m]) != []
  {
    hide Stack, Flatten, Strip;
    StackStrip(s[..m]);
    StripSplit(s, m);
    StripIndex(s[..m], k);
    StripIndex(s, h);
    StripSplit(s[..h], m);
    assert s[..h][..m] == s[..m];
    var j := |Strip(s[..m])|;
    assert Strip(s)[..j] == Strip(s[..m]);
    StackInside([], root, j);
    StackNone();
    assert [] + Flatten(root)[..j] == Flatten(root)[..j];
  }

  /** The position of a walk over the nodes of a blob, at the node k. */
  ghost predicate At(e: Editor, o: int, depth: int, k: nat)
    reads e, e.buf
  {
    && e.Valid() && e.IsNode(k) && o == Off(e.tokens + [End], k) && e.items[k].Open?
    && 0 <= depth && |Stack(e.items[..k + 1])| == depth + 1
  }

  /** One step of the walk, towards a node h that is still ahead. */
  method Walk(e: Editor, o: nat, depth: nat, ghost k: nat, ghost h: nat, ghost root: Node)
    returns (o': int, depth': int, ghost k': nat)
    requires At(e, o, depth, k) && k < h < |e.items| && e.items[h].Open? && Strip(e.items) == Flatten(root)
    ensures k < k' <= h && At(e, o', depth', k') && 0 < depth' <= depth + 1
    ensures Stack(e.items[..k' + 1]) == Stack(e.items[..k + 1])[..depth'] + [e.items[k'].name]
  {
    hide Stream, Named, Off, Image, Stack, Closes, Strip, Flatten, Stepped;
    e.NodeTag(k);
    o', depth', k' := e.NextNode(o, depth, k, Any);
    SteppedQuiet(e.items, k + 1, depth, Any, 0 <= o', depth', k');
    StaysOpen(e.items, root, k, if o' < 0 then h else k', h, depth);
    assert 0 <= o' && 0 <= depth';
    e.NodeTag(k');
    NextStack(e.items, k, k', depth' - 1);
  }

  lemma {:induction false} StaysOpen(s: seq<Item>, root: Node, k: nat, m: nat, h: nat, depth: nat)
    requires Strip(s) == Flatten(root) && k < h < |s| && s[k].Open? && s[h].Open? && |Stack(s[..k + 1])| == depth + 1
    ensures k < m <= h && Quiet(s, k + 1, m) ==> Closes(s[k + 1..m]) != depth + 1
  {
    hide Stack, Flatten, Strip, Closes;
    if k < m <= h && Quiet(s, k + 1, m) {
      if Closes(s[k + 1..m]) == depth + 1 {
        QuietStack(s, k, m);
        RootOpen(s, root, k, m, h);
      }
    }
  }

  /** fdt_get_path for the node h. */
  method GetPath(e: Editor, o: nat, buf: array<byte>, ghost h: nat, ghost root: Node, ghost path: seq<nat>)
    returns (err: Err)
    requires buf != e.buf && e.Holding(root) && e.Addr(o, h) && Opens(e.items, h, root, path)
    requires e.items[0].Open? && root.name == [] && PlainNames(e.items)
    modifies buf
    ensures Path(root, path)
    ensures var names := NamesAlong(root, path);
            && err == (if buf.Length < 2 || |Joined(names)| > buf.Length then NoSpace else Ok)
            && (err == Ok ==>
                  && |PathString(names)| < buf.Length
                  && buf[..|PathString(names)| + 1] == PathString(names) + [0])
  {
    hide Stream, Named, Off, Image, Decode, Opens, Stack, Strip, Flatten, Joined, Nul, Written, Fitting;
    Opened(e.items, h, root, path, []);
    StackOpens(e.items, h, root, path);
    e.Means(root);
    ghost var names := NamesAlong(root, path);
    if buf.Length < 2 { return NoSpace; }
    ghost var k, st: seq<Bytes> := 0, [];
    StartWalk(e);
    NothingWritten(buf[..]);
    var offset, depth, p, pdepth: nat := 0, 0, 0, 0;
    while true
      invariant k <= h && At(e, offset, depth, k) && e.Holding(root) && buf.Length >= 2
      invariant Written(buf[..], p, st, pdepth) && Fitting(st, buf.Length, pdepth) && Plain(st)
      invariant depth <= |st| && Stack(e.items[..k + 1])[..depth] == st[..depth]
      invariant (0 < depth || (pdepth == 0 && st == []))
      invariant Stack(e.items[..k + 1])[depth] == e.items[k].name
      decreases h - k
    {
      e.NodeTag(k);
      e.NameHere(k);
      ghost var here := Stack(e.items[..k + 1]);
      var name := e.Struct()[offset + 4..Nul(e.Struct(), offset + 4)];
      p, pdepth := Visit(buf, p, pdepth, depth, name, st, here);
      SameOffset(e, k, h);
      if offset == o {
        err := Conclude(buf, p, pdepth, depth, here);
        return;
      }
      StackWithout(e.items, k + 1, SLASH);
      st := here;
      offset, depth, k := Walk(e, offset, depth, k, h, root);
    }
  }

  lemma {:induction false} SameOffset(e: Editor, k: nat, h: nat)
    requires e.Valid() && k <= h <= |e.tokens|
    ensures Off(e.tokens + [End], k) == Off(e.tokens + [End], h) <==> k == h
  {
    hide Off, Stream, Named;
    if k < h {
      var all := e.tokens + [End];
      OffStep(all, k);
      UsedBound(all[k]);
      OffMonotone(all, k + 1, h);
    }
  }

  lemma {:induction false} NothingWritten(b: Bytes)
    ensures Written(b, 0, [], 0) && Fitting([], |b|, 0) && Plain([])
  {
  }

  lemma {:induction false} StartWalk(e: Editor)
    requires e.Valid() && e.items != [] && e.items[0].Open?
    ensures At(e, 0, 0, 0) && Stack(e.items[..1])[0] == e.items[0].name
  {
    hide Stream, Named;
    e.OpenIsNode(0);
    assert e.items[..1] == [] + [e.items[0]];
    StackSnoc([], e.items[0]);
  }

  /** The end of fdt_get_path. */
  method Conclude(buf: array<byte>, p: nat, pdepth: nat, depth: nat, ghost names: seq<Bytes>) returns (err: Err)
    requires 2 <= buf.Length && |names| == depth + 1 && names[0] == []
    requires Written(buf[..], p, names, pdepth) && Fitting(names, buf.Length, pdepth)
    modifies buf
    ensures err == if |Joined(names)| > buf.Length then NoSpace else Ok
    ensures err == Ok ==> |PathString(names)| < buf.Length && buf[..|PathString(names)| + 1] == PathString(names) + [0]
  {
    hide Joined;
    assert names[..|names|] == names;
    JoinedGrows(names, if pdepth < |names| then pdepth + 1 else pdepth, |names|);
    if pdepth < depth + 1 { return NoSpace; }
    JoinedEnds(names);
    ghost var b, s := buf[..], Joined(names);
    var q := if p > 1 then p - 1 else p;
    assert b[..p] == s && b[..q] == PathString(names);
    buf[q] := 0;
    assert buf[..][..q] == b[..q];
    return Ok;
  }

  // ----- fdt_path_offset -----

  /** The length of the first part of a path that does not start with a slash. */
  function PartLen(path: Bytes): (n: nat)
    ensures n <= |path| && SLASH !in path[..n] && (n < |path| ==> path[n] == SLASH)
  {
    if path == [] || path[0] == SLASH then 0
    else
      var n := 1 + PartLen(path[1..]);
      assert path[..n] == [path[0]] + path[1..][..n - 1];
      n
  }

  /** The parts between the slashes. */
  function Parts(path: Bytes): seq<Bytes>
    decreases |path|
  {
    if path == [] then []
    else if path[0] == SLASH then Parts(path[1..])
    else
      var n := PartLen(path);
      [path[..n]] + Parts(path[n..])
  }

  /** Follow names downwards, each to the first child that it selects. */
  function Resolve(n: Node, names: seq<Bytes>): Option<seq<nat>>
    decreases |names|
  {
    if names == [] then Some([])
    else
      var i := ChildIndex(n.children, Called(names[0]));
      if i == |n.children| then None
      else
        match Resolve(n.children[i], names[1..])
        case None => None
        case Some(p) => Some([i] + p)
  }

  function Under(t: seq<nat>, r: Option<seq<nat>>): Option<seq<nat>> {
    if r.None? then None else Some(t + r.value)
  }

  lemma {:induction false} ResolveStep(n: Node, t: seq<nat>, names: seq<Bytes>)
    requires Path(n, t) && names != []
    ensures var m := SubTree(n, t); var i := ChildIndex(m.children, Called(names[0]));
            Under(t, Resolve(m, names)) ==
            if i < |m.children| then Under(t + [i], Resolve(m.children[i], names[1..])) else None
  {
    hide ChildIndex, SubTree, Path;
    var m := SubTree(n, t);
    var i := ChildIndex(m.children, Called(names[0]));
    if i < |m.children| {
      var r := Resolve(m.children[i], names[1..]);
      if r.Some? { assert t + ([i] + r.value) == (t + [i]) + r.value; }
    }
  }

  lemma {:induction false} PartsSkip(path: Bytes, p: nat)
    requires p < |path| && path[p] == SLASH
    ensures Parts(path[p..]) == Parts(path[p + 1..])
  {
    assert path[p..][1..] == path[p + 1..];
  }

  lemma {:induction false} PartsTake(path: Bytes, p: nat)
    requires p < |path| && path[p] != SLASH
    ensures var n := PartLen(path[p..]);
            && 0 < n <= |path| - p
            && Parts(path[p..]) == [path[p..p + n]] + Parts(path[p + n..])
  {
    var n := PartLen(path[p..]);
    assert path[p..][..n] == path[p..p + n] && path[p..][n..] == path[p + n..];
  }

  /** memchr for the next slash. */
  method NextSlash(path: Bytes, p: nat) returns (q: nat)
    requires p <= |path|
    ensures p <= q <= |path| && q == p + PartLen(path[p..])
  {
    q := p;
    while q < |path| && path[q] != SLASH
      invariant p <= q <= |path| && p + PartLen(path[p..]) == q + PartLen(path[q..])
    {
      assert path[q..][1..] == path[q + 1..];
      q := q + 1;
    }
  }

  /** From n on, t goes at each name to the first child that answers to it. */
  ghost predicate Leads(n: Node, names: seq<Bytes>, t: seq<nat>)
    decreases |names|
  {
    if names == [] then t == []
    else t != [] && FirstAnswering(n.children, names[0], t[0]) && Leads(n.children[t[0]], names[1..], t[1..])
  }

  lemma {:induction false} ResolveLeads(n: Node, names: seq<Bytes>, t: seq<nat>)
    ensures Resolve(n, names) == Some(t) <==> Leads(n, names, t)
    decreases |names|
  {
    hide ChildIndex, FirstAnswering;
    if names != [] {
      ChildAnswers(n.children, names[0]);
      var i := ChildIndex(n.children, Called(names[0]));
      if i < |n.children| {
        if t != [] {
          FirstOnce(n.children, names[0], i, t[0]);
          ResolveLeads(n.children[i], names[1..], t[1..]);
          assert t == [t[0]] + t[1..];
        }
      } else if t != [] {
        NeverFirst(n.children, names[0], t[0]);
      }
    }
  }

  lemma {:induction false} FirstOnce(ns: seq<Node>, name: Bytes, i: nat, j: nat)
    requires FirstAnswering(ns, name, i)
    ensures FirstAnswering(ns, name, j) <==> i == j
  {
  }

  lemma {:induction false} NeverFirst(ns: seq<Node>, name: Bytes, j: nat)
    requires NoneAnswers(ns, name)
    ensures !FirstAnswering(ns, name, j)
  {
  }

  /** The names of a path lead to at most one node, and there is one unless nothing is resolved. */
  lemma {:induction false} ResolveExactly(n: Node, names: seq<Bytes>)
    ensures Resolve(n, names).Some? ==> Leads(n, names, Resolve(n, names).value)
    ensures Resolve(n, names).None? ==> forall t :: !Leads(n, names, t)
  {
    if Resolve(n, names).Some? {
      ResolveLeads(n, names, Resolve(n, names).value);
    } else {
      forall t ensures !Leads(n, names, t) { ResolveLeads(n, names, t); }
    }
  }

  /** The loop of fdt_path_offset. */
  method FollowParts(e: Editor, path: Bytes, ghost root: Node) returns (err: Err, off: nat, ghost h: nat)
    requires path != [] && path[0] == SLASH && e.Holding(root) && e.items != [] && e.items[0].Open?
    ensures err == if Resolve(root, Parts(path)).Some? then Ok else NotFound
    ensures err == Ok ==> e.Addr(off, h) && Opens(e.items, h, root, Resolve(root, Parts(path)).value)
  {
    hide Stream, Named, Off, Image, Decode, Opens, SubTree, Path, Parts, Resolve, ChildIndex, FindSub, PartLen, Strip,
         Flatten, Fits, Editor.Struct, Editor.Strings, Token.Len;
    RootOpens(e, root);
    ghost var t: seq<nat> := [];
    var p := 0;
    off, h := 0, 0;
    assert path[0..] == path;
    RootAt(root, Resolve(root, Parts(path)));
    while p < |path|
      invariant p <= |path| && e.Addr(off, h) && Opens(e.items, h, root, t) && Path(root, t)
      invariant Resolve(root, Parts(path)) == Under(t, Resolve(SubTree(root, t), Parts(path[p..])))
      decreases |path| - p
    {
      if path[p] == SLASH {
        PartsSkip(path, p);
        p := p + 1;
      } else {
        var q := NextSlash(path, p);
        PartsTake(path, p);
        var name := path[p..q];
        Opened(e.items, h, root, t, []);
        e.OpenIsNode(h);
        SubOpens(e.items, h, root, t, Called(name));
        ResolveStep(root, t, Parts(path[p..]));
        var sub;
        err, sub := e.SubnodeOffset(off, name, h);
        if err != Ok { return NotFound, 0, 0; }
        ghost var i := ChildIndex(SubTree(root, t).children, Called(name));
        PathSnoc(root, t, i);
        off, h, t, p := sub, SubOf(e.items, h, Called(name)).index, t + [i], q;
        OpensInside(e.items, h, root, t);
      }
    }
    NoParts(SubTree(root, t), path);
    assert t + [] == t;
    return Ok, off, h;
  }

  /** fdt_path_offset for a path that starts at the root and not with an alias. */
  method PathOffset(e: Editor, path: Bytes, ghost root: Node) returns (err: Err, off: nat, ghost h: nat)
    requires path != [] && path[0] == SLASH && e.Holding(root) && e.items != [] && e.items[0].Open?
    ensures err == if Resolve(root, Parts(path)).Some? then Ok else NotFound
    ensures err == Ok ==> e.Addr(off, h) && Opens(e.items, h, root, Resolve(root, Parts(path)).value)
    ensures err == Ok ==> Leads(root, Parts(path), Resolve(root, Parts(path)).value)
    ensures err == NotFound ==> forall t :: !Leads(root, Parts(path), t)
  {
    hide Parts, Resolve, Leads, Opens, Editor.Holding;
    err, off, h := FollowParts(e, path, root);
    ResolveExactly(root, Parts(path));
  }

  lemma {:induction false} NoParts(n: Node, path: Bytes)
    ensures Resolve(n, Parts(path[|path|..])) == Some([])
  {
  }

  lemma {:induction false} RootAt(root: Node, r: Option<seq<nat>>)
    ensures Path(root, []) && SubTree(root, []) == root && Under([], r) == r
  {
    if r.Some? { assert [] + r.value == r.value; }
  }

  lemma {:induction false} RootOpens(e: Editor, root: Node)
    requires e.Holding(root) && e.items != [] && e.items[0].Open?
    ensures Opens(e.items, 0, root, []) && e.Addr(0, 0)
  {
    hide Stream, Named, Decode, Strip, Flatten;
    e.Means(root);
    NothingAround(root);
    StripEmpty();
    assert e.items[..0] == [];
  }

  // ----- Round trip -----

  /** Every name on the way to t selects the node on the way. */
  predicate Unambiguous(n: Node, t: seq<nat>)
    requires Path(n, t)
    decreases |t|
  {
    t == [] || (ChildIndex(n.children, Called(n.children[t[0]].name)) == t[0] && Unambiguous(n.children[t[0]], t[1..]))
  }

  /** Following the names on the way to a node comes to that node exactly when they are unambiguous. */
  lemma {:induction false} ResolveAlong(n: Node, t: seq<nat>)
    requires Path(n, t)
    ensures Resolve(n, NamesAlong(n, t)[1..]) == Some(t) <==> Unambiguous(n, t)
    decreases |t|
  {
    hide ChildIndex;
    var names := NamesAlong(n, t)[1..];
    if t != [] {
      var c := n.children[t[0]];
      assert names == NamesAlong(c, t[1..]) && names[0] == c.name && names[1..] == NamesAlong(c, t[1..])[1..];
      ResolveAlong(c, t[1..]);
      var i := ChildIndex(n.children, Called(c.name));
      if i == t[0] {
        var r := Resolve(c, names[1..]);
        if r.Some? { assert ([i] + r.value)[1..] == r.value && t == [t[0]] + t[1..]; }
      } else if i < |n.children| {
        var r := Resolve(n.children[i], names[1..]);
        if r.Some? { assert ([i] + r.value)[0] == i; }
      }
    }
  }

  predicate Filled(names: seq<Bytes>) {
    forall i | 0 <= i < |names| :: names[i] != [] && SLASH !in names[i]
  }

  lemma {:induction false} PartLenIs(a: Bytes, b: Bytes)
    requires SLASH !in a && (b == [] || b[0] == SLASH)
    ensures PartLen(a + b) == |a|
  {
    if a == [] {
      assert a + b == b;
    } else {
      assert (a + b)[1..] == a[1..] + b && (a + b)[0] == a[0];
      PartLenIs(a[1..], b);
    }
  }

  /** A slash separates parts, and what has no slash is one part. */
  lemma {:induction false} PartsSplit(a: Bytes, b: Bytes)
    ensures Parts(a + [47] + b) == Parts(a) + Parts(b)
    ensures 47 !in a ==> Parts(a) == if a == [] then [] else [a]
    decreases |a|
  {
    hide PartLen;
    var s := a + [47] + b;
    if a == [] {
      assert s[1..] == b;
    } else if a[0] == SLASH {
      PartsSplit(a[1..], b);
      assert s[1..] == a[1..] + [47] + b;
    } else {
      var n := PartLen(a);
      PartsTake(a, 0);
      assert a[0..] == a && a[n..] + ([47] + b) == s[n..] && a[..n] + s[n..] == s;
      PartLenIs(a[..n], s[n..]);
      PartsSplit(a[n..], b);
      assert s[..n] == a[..n] && s[n..] == a[n..] + [47] + b;
      if 47 !in a { assert n == |a| && a[..n] == a; }
    }
  }

  /** The parts of joined names are the names, with or without the final slash. */
  lemma {:induction false} PartsJoined(names: seq<Bytes>)
    requires Filled(names) && names != []
    ensures Joined(names) != [] && Parts(Joined(names)[..|Joined(names)| - 1]) == names
    decreases names
  {
    var n := names[0];
    if |names| == 1 {
      var none: seq<Bytes> := [];
      assert names[1..] == none && Joined(names) == n + [SLASH] + Joined(none);
      assert Joined(names)[..|n|] == n;
      PartLenIs(n, []);
      assert n + [] == n && n[..|n|] == n && n[|n|..] == [];
      assert names == [n];
    } else {
      var rest := Joined(names[1..]);
      PartsJoined(names[1..]);
      var cut := rest[..|rest| - 1];
      assert Joined(names)[..|Joined(names)| - 1] == n + ([SLASH] + cut);
      PartLenIs(n, [SLASH] + cut);
      var s := n + ([SLASH] + cut);
      assert s[..|n|] == n && s[|n|..] == [SLASH] + cut && ([SLASH] + cut)[1..] == cut;
      assert names == [n] + names[1..];
    }
  }

  /** The path string of a node, parsed and followed, comes to the node exactly when its names are unambiguous. */
  lemma {:induction false} PathRoundTrip(root: Node, t: seq<nat>)
    requires Path(root, t) && root.name == [] && Filled(NamesAlong(root, t)[1..])
    ensures Resolve(root, Parts(PathString(NamesAlong(root, t)))) == Some(t) <==> Unambiguous(root, t)
  {
    hide Parts, Resolve, Unambiguous;
    var names := NamesAlong(root, t);
    ResolveAlong(root, t);
    var rest := names[1..];
    assert names == [names[0]] + rest && Joined(names) == [SLASH] + Joined(rest);
    if rest == [] {
      SlashOnly();
      assert PathString(names) == [SLASH];
    } else {
      PartsJoined(rest);
      var cut := Joined(rest)[..|Joined(rest)| - 1];
      var s := [SLASH] + cut;
      assert PathString(names) == s;
      PartsSkip(s, 0);
      assert s[0..] == s && s[1..] == cut;
    }
  }

  lemma {:induction false} SlashOnly()
    ensures Parts([SLASH]) == [] && Joined([]) == []
  {
    assert [SLASH][1..] == [];
  }

  lemma {:induction false} OpensOnce(s: seq<Item>, h: nat, k: nat, root: Node, t: seq<nat>)
    requires Opens(s, h, root, t) && Opens(s, k, root, t)
    ensures h == k
  {
    hide Strip, Flatten, Before;
    if h < k {
      assert s[..k][..h] == s[..h];
      StripIndex(s[..k], h);
    } else if k < h {
      assert s[..h][..k] == s[..k];
      StripIndex(s[..h], k);
    }
  }

  lemma {:induction false} SplitAt(ns: seq<Node>, i: nat, j: nat)
    requires i < j <= |ns|
    ensures |FlattenAll(ns[..i])| + |Flatten(ns[i])| <= |FlattenAll(ns[..j])|
  {
    hide Flatten, FlattenAll;
    assert ns[..j] == ns[..i] + ([ns[i]] + ns[i + 1..j]);
    FlattenConcat(ns[..i], [ns[i]] + ns[i + 1..j]);
    FlattenConcat([ns[i]], ns[i + 1..j]);
    FlattenAllOne(ns[i]);
  }

  /** A node starts before its tree ends. */
  lemma {:induction false} BeforeInside(n: Node, p: seq<nat>)
    requires Path(n, p)
    ensures |Before(n, p)| < |Flatten(n)|
  {
    hide Flatten, Before, After;
    FlattenAt(n, p);
    FlattenSize(SubTree(n, p));
  }

  /** Different nodes start at different places. */
  lemma {:induction false} BeforeDiffers(n: Node, p: seq<nat>, q: seq<nat>)
    requires Path(n, p) && Path(n, q) && |Before(n, p)| == |Before(n, q)|
    ensures p == q
    decreases |p|
  {
    hide Flatten, FlattenAll, Before, After;
    NothingAround(n);
    if p != [] { BeforeIs(n, p); }
    if q != [] { BeforeIs(n, q); }
    if p != [] && q != [] {
      var i, j := p[0], q[0];
      BeforeInside(n.children[i], p[1..]);
      BeforeInside(n.children[j], q[1..]);
      if i < j { SplitAt(n.children, i, j); }
      if j < i { SplitAt(n.children, j, i); }
      BeforeDiffers(n.children[i], p[1..], q[1..]);
      assert p == [i] + p[1..] && q == [j] + q[1..];
    }
  }

  lemma {:induction false} OnePath(s: seq<Item>, h: nat, root: Node, p: seq<nat>, q: seq<nat>)
    requires Opens(s, h, root, p) && Opens(s, h, root, q)
    ensures p == q
  {
    BeforeDiffers(root, p, q);
  }

  /** fdt_path_offset of fdt_get_path gives the node back exactly when the path fits and is unambiguous. */
  method GetThenFind(e: Editor, o: nat, buf: array<byte>, ghost h: nat, ghost root: Node, ghost path: seq<nat>)
    returns (err: Err, off: nat)
    requires buf != e.buf && e.Holding(root) && e.Addr(o, h) && Opens(e.items, h, root, path) && Path(root, path)
    requires e.items[0].Open? && root.name == [] && PlainNames(e.items) && Filled(NamesAlong(root, path)[1..])
    modifies buf
    ensures err == Ok && off == o <==>
              Unambiguous(root, path) && 2 <= buf.Length && |Joined(NamesAlong(root, path))| <= buf.Length
  {
    hide Stream, Named, Off, Image, Decode, Opens, Path, Joined, Parts, Resolve, Unambiguous, NamesAlong, Strip,
         Flatten;
    off := 0;
    OpensInside(e.items, h, root, path);
    err := GetPath(e, o, buf, h, root, path);
    if err != Ok { return; }
    PathRoundTrip(root, path);
    ghost var s := PathString(NamesAlong(root, path));
    PathText(e, h, root, path);
    FromRoot(root, path);
    var n := StrLen(buf, s);
    assert buf[..n] == s;
    ghost var k;
    err, off, k := PathOffset(e, buf[..n], root);
    if err == Ok {
      ghost var found := Resolve(root, Parts(s)).value;
      if found == path { OpensOnce(e.items, h, k, root, path); }
      if off == o { SamePlace(e, h, k, root, path, found); }
    }
  }

  lemma {:induction false} SamePlace(e: Editor, h: nat, k: nat, root: Node, p: seq<nat>, q: seq<nat>)
    requires e.Valid() && h < |e.tokens| && k <= |e.tokens|
    requires Opens(e.items, h, root, p) && Opens(e.items, k, root, q)
    requires Off(e.tokens + [End], h) == Off(e.tokens + [End], k)
    ensures p == q
  {
    hide Off, Opens;
    if h <= k { SameOffset(e, h, k); } else { SameOffset(e, k, h); }
    OnePath(e.items, h, root, p, q);
  }

  /** strlen of a string that stands in the buffer. */
  method StrLen(buf: array<byte>, ghost s: Bytes) returns (n: nat)
    requires 0 !in s && |s| < buf.Length && buf[..|s| + 1] == s + [0]
    ensures n == |s| && buf[..n] == s
  {
    ghost var b := buf[..|s| + 1];
    assert buf[|s|] == b[|s|] && forall i | 0 <= i < |s| :: buf[i] == b[i] == s[i];
    n := 0;
    while buf[n] != 0
      invariant n <= |s|
      decreases |s| - n
    {
      n := n + 1;
    }
  }

  lemma {:induction false} JoinedText(names: seq<Bytes>)
    requires Without(names, 0)
    ensures 0 !in Joined(names)
  {
    if names != [] { JoinedText(names[1..]); }
  }

  lemma {:induction false} FromRoot(root: Node, path: seq<nat>)
    requires Path(root, path) && root.name == []
    ensures var s := PathString(NamesAlong(root, path)); s != [] && s[0] == SLASH
  {
  }

  lemma {:induction false} PathText(e: Editor, h: nat, root: Node, path: seq<nat>)
    requires e.Valid() && Opens(e.items, h, root, path)
    ensures 0 !in PathString(NamesAlong(root, path))
  {
    hide Stream, Named, Image, Strip, Flatten, Stack, Joined, Before, NamesAlong;
    forall m | 0 <= m < |e.items| && e.items[m].Open? ensures 0 !in e.items[m].name { e.NameHere(m); }
    StackWithout(e.items, h + 1, 0);
    StackOpens(e.items, h, root, path);
    JoinedText(NamesAlong(root, path));
  }
}
