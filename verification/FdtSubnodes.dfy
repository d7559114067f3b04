/**
 Children of a node, seen on the sequence of items: the search for a child, the place where a new
 child goes, and what both mean for the tree.
 */
module FdtSubnodes {
  import opened Basics
  import opened FdtTokens
  import opened FdtTree
  import opened FdtEdit

  const AT: byte := 64

  /** fdt_nodename_eq_: a name without a unit address also matches one with. */
  predicate NameEq(node: Bytes, name: Bytes) {
    |name| <= |node| && node[..|name|] == name && (|node| == |name| || (AT !in name && node[|name|] == AT))
  }

  /** The node is called so, or so and a unit address behind an "@", when the name has none itself. */
  ghost predicate Answers(node: Bytes, name: Bytes) {
    node == name || (64 !in name && exists unit: Bytes :: node == name + [64] + unit)
  }

  lemma {:induction false} NameEqExactly(node: Bytes, name: Bytes)
    ensures NameEq(node, name) <==> Answers(node, name)
  {
    if NameEq(node, name) && node != name {
      assert node == name + [64] + node[|name| + 1..];
    }
  }

  /** Which child is wanted: any, or one of that name. */
  datatype Pattern = Any | Called(name: Bytes)

  predicate Fits(p: Pattern, node: Bytes) {
    p.Any? || NameEq(node, p.name)
  }

  /** The first opening item at depth 0 that fits, before the close at depth 0. */
  function FindSub(s: seq<Item>, d: nat, p: Pattern): (r: Found)
    ensures r.At? ==> r.index < |s| && s[r.index].Open? && Fits(p, s[r.index].name)
  {
    if s == [] then Broken
    else if s[0].Open? && d == 0 && Fits(p, s[0].name) then At(0)
    else if s[0].Close? && d == 0 then Absent
    else Later(FindSub(s[1..], if s[0].Open? then d + 1 else if s[0].Close? then d - 1 else d, p), 1)
  }

  lemma {:induction false} FindSubFirst(s: seq<Item>, d: nat, p: Pattern)
    ensures s == [] ==> FindSub(s, d, p) == Broken
    ensures s != [] && s[0].Open? ==>
              FindSub(s, d, p) == if d == 0 && Fits(p, s[0].name) then At(0) else Later(FindSub(s[1..], d + 1, p), 1)
    ensures s != [] && s[0].Close? ==>
              FindSub(s, d, p) == if d == 0 then Absent else Later(FindSub(s[1..], d - 1, p), 1)
    ensures s != [] && (s[0].Attr? || s[0].Skip?) ==> FindSub(s, d, p) == Later(FindSub(s[1..], d, p), 1)
  {
  }

  /** The number of properties and NOPs at the start of s. */
  function PropRun(s: seq<Item>): (n: nat)
    ensures n <= |s| && forall i | 0 <= i < n :: s[i].Attr? || s[i].Skip?
    ensures n < |s| ==> s[n].Open? || s[n].Close?
  {
    if s != [] && (s[0].Attr? || s[0].Skip?) then 1 + PropRun(s[1..]) else 0
  }

  /** A new child in front of the other children of the node opened at k. */
  function AddSub(s: seq<Item>, k: nat, name: Bytes): seq<Item>
    requires k < |s|
  {
    var q := k + 1 + PropRun(s[k + 1..]);
    Cut(s, q, q, [Open(name), Close])
  }

  // ----- In a tree -----

  /** The first child that fits, or |ns|. */
  function ChildIndex(ns: seq<Node>, p: Pattern): (i: nat)
    ensures i <= |ns|
    ensures i < |ns| ==> Fits(p, ns[i].name)
    ensures forall j | 0 <= j < i :: !Fits(p, ns[j].name)
  {
    if ns == [] || Fits(p, ns[0].name) then 0 else 1 + ChildIndex(ns[1..], p)
  }

  lemma {:induction false} LaterTwice(f: Found, a: nat, b: nat)
    ensures Later(Later(f, a), b) == Later(f, a + b) && Later(f, 0) == f
  {
  }

  lemma {:induction false} FindSubAttrs(ps: seq<Property>, r: seq<Item>, d: nat, p: Pattern)
    ensures FindSub(Attrs(ps) + r, d, p) == Later(FindSub(r, d, p), |ps|)
  {
    hide FindSub;
    var s := Attrs(ps) + r;
    if ps == [] {
      assert s == r;
      LaterTwice(FindSub(r, d, p), 0, 0);
    } else {
      assert s[1..] == Attrs(ps[1..]) + r && s[0].Attr?;
      FindSubFirst(s, d, p);
      FindSubAttrs(ps[1..], r, d, p);
      LaterTwice(FindSub(r, d, p), |ps| - 1, 1);
    }
  }

  lemma {:induction false} InsideShape(n: Node, r: seq<Item>)
    ensures Flatten(n)[1..] + r == Attrs(n.props) + (FlattenAll(n.children) + ([Close] + r))
    ensures |Flatten(n)| == 2 + |n.props| + |FlattenAll(n.children)| && Flatten(n)[0] == Open(n.name)
    ensures (Flatten(n) + r)[1..] == Flatten(n)[1..] + r
  {
    hide FlattenAll, Attrs;
  }

  /** The rest of a node is passed over from inside it. */
  lemma {:induction false} FindSubInside(n: Node, r: seq<Item>, d: nat, p: Pattern)
    ensures FindSub(Flatten(n)[1..] + r, d + 1, p) == Later(FindSub(r, d, p), |Flatten(n)| - 1)
    decreases n, 0
  {
    hide FindSub, Flatten, FlattenAll, Attrs, Later;
    var tail, f, k := [Close] + r, FindSub(r, d, p), |FlattenAll(n.children)|;
    InsideShape(n, r);
    FindSubAttrs(n.props, FlattenAll(n.children) + tail, d + 1, p);
    FindSubAll(n.children, tail, d + 1, p);
    FindSubFirst(tail, d + 1, p);
    assert tail[1..] == r;
    LaterTwice(f, 1, k);
    LaterTwice(f, 1 + k, |n.props|);
  }

  /** A node that does not fit, or lies deeper, is passed over. */
  lemma {:induction false} FindSubOver(n: Node, r: seq<Item>, d: nat, p: Pattern)
    requires d > 0 || !Fits(p, n.name)
    ensures FindSub(Flatten(n) + r, d, p) == Later(FindSub(r, d, p), |Flatten(n)|)
    decreases n, 1
  {
    hide FindSub, Flatten, Later;
    InsideShape(n, r);
    FindSubFirst(Flatten(n) + r, d, p);
    FindSubInside(n, r, d, p);
    LaterTwice(FindSub(r, d, p), |Flatten(n)| - 1, 1);
  }

  lemma {:induction false} FindSubAll(ns: seq<Node>, r: seq<Item>, d: nat, p: Pattern)
    requires d > 0
    ensures FindSub(FlattenAll(ns) + r, d, p) == Later(FindSub(r, d, p), |FlattenAll(ns)|)
    decreases ns, 2
  {
    hide FindSub, Flatten;
    var f := FindSub(r, d, p);
    if ns == [] {
      assert FlattenAll(ns) + r == r;
      LaterTwice(f, 0, 0);
    } else {
      var rest := FlattenAll(ns[1..]) + r;
      assert FlattenAll(ns) + r == Flatten(ns[0]) + rest;
      FindSubOver(ns[0], rest, d, p);
      FindSubAll(ns[1..], r, d, p);
      LaterTwice(f, |FlattenAll(ns[1..])|, |Flatten(ns[0])|);
    }
  }

  /** Among children the search finds the first that fits. */
  lemma {:induction false} FindSubIn(ns: seq<Node>, r: seq<Item>, p: Pattern)
    requires r != [] && r[0].Close?
    ensures var i := ChildIndex(ns, p);
            FindSub(FlattenAll(ns) + r, 0, p) == if i < |ns| then At(|FlattenAll(ns[..i])|) else Absent
  {
    hide FindSub, Flatten;
    var s := FlattenAll(ns) + r;
    FindSubFirst(s, 0, p);
    if ns == [] {
      assert s == r;
    } else {
      var rest := FlattenAll(ns[1..]) + r;
      assert s == Flatten(ns[0]) + rest;
      FlattenSize(ns[0]);
      if Fits(p, ns[0].name) {
        assert FlattenAll(ns[..0]) == [];
      } else {
        FindSubOver(ns[0], rest, 0, p);
        FindSubIn(ns[1..], r, p);
        var i := ChildIndex(ns[1..], p);
        assert ns[..i + 1][1..] == ns[1..][..i] && ns[..i + 1][0] == ns[0];
      }
    }
  }

  // ----- Items with NOPs among them -----

  lemma {:induction false} FindSubStrip(s: seq<Item>, d: nat, p: Pattern)
    ensures match FindSub(s, d, p)
            case At(j) => FindSub(Strip(s), d, p) == At(|Strip(s[..j])|)
            case f => FindSub(Strip(s), d, p) == f
  {
    hide Strip, FindSub;
    FindSubFirst(s, d, p);
    FindSubFirst(Strip(s), d, p);
    StripEmpty();
    if s != [] {
      FindSubStrip(s[1..], if s[0].Open? then d + 1 else if s[0].Close? && d > 0 then d - 1 else d, p);
      StripFirst(s);
      assert if s[0].Skip? then Strip(s) == Strip(s[1..]) else Strip(s)[1..] == Strip(s[1..]) && Strip(s)[0] == s[0];
      var f := FindSub(s, d, p);
      if f.At? && f.index > 0 {
        StripFirst(s[..f.index]);
        assert s[..f.index][1..] == s[1..][..f.index - 1];
      }
      if f.At? && f.index == 0 { assert s[..0] == []; }
    }
  }

  lemma {:induction false} PropRunFirst(s: seq<Item>)
    ensures PropRun(s) == if s != [] && (s[0].Attr? || s[0].Skip?) then 1 + PropRun(s[1..]) else 0
  {
  }

  lemma {:induction false} PropRunStrip(s: seq<Item>)
    ensures PropRun(Strip(s)) == |Strip(s[..PropRun(s)])|
  {
    hide Strip, PropRun;
    PropRunFirst(s);
    PropRunFirst(Strip(s));
    StripEmpty();
    if s != [] {
      PropRunStrip(s[1..]);
      StripFirst(s);
      assert if s[0].Skip? then Strip(s) == Strip(s[1..]) else Strip(s)[1..] == Strip(s[1..]) && Strip(s)[0] == s[0];
      var n := PropRun(s);
      if n > 0 {
        StripFirst(s[..n]);
        assert s[..n][1..] == s[1..][..n - 1];
      } else {
        assert s[..0] == [];
      }
    }
  }

  lemma {:induction false} PropRunIn(ps: seq<Property>, r: seq<Item>)
    requires r != [] && (r[0].Open? || r[0].Close?)
    ensures PropRun(Attrs(ps) + r) == |ps|
  {
    var s := Attrs(ps) + r;
    PropRunFirst(s);
    if ps == [] {
      assert s == r;
    } else {
      assert s[1..] == Attrs(ps[1..]) + r;
      PropRunIn(ps[1..], r);
    }
  }

  // ----- Addresses of children -----

  lemma {:induction false} PathSnoc(root: Node, path: seq<nat>, i: nat)
    requires Path(root, path) && i < |SubTree(root, path).children|
    ensures var n := SubTree(root, path);
            && Path(root, path + [i]) && SubTree(root, path + [i]) == n.children[i]
            && Before(root, path + [i]) == Before(root,
                                                  path) + ([Open(n.name)] + Attrs(n.props)
                                                           + FlattenAll(n.children[..i]))
            && After(root, path + [i]) == (FlattenAll(n.children[i + 1..]) + [Close]) + After(root, path)
    decreases |path|
  {
    hide Flatten, FlattenAll, Attrs, Before, After;
    var q := path + [i];
    NothingAround(SubTree(root, path));
    if path == [] {
      BeforeIs(root, q);
      assert q[1..] == [];
      NothingAround(root.children[i]);
      NothingAround(root);
    } else {
      PathSnoc(root.children[path[0]], path[1..], i);
      assert q[1..] == path[1..] + [i] && q[0] == path[0];
      BeforeIs(root, path);
      BeforeIs(root, q);
    }
  }

  lemma {:induction false} BeforeReplace(n: Node, p: seq<nat>, m: Node, m': Node)
    requires Path(n, p)
    ensures var r := Replace(n, p, m);
            && Path(r, p) && SubTree(r, p) == m && Before(r, p) == Before(n, p)
            && Replace(r, p, m') == Replace(n, p, m')
    decreases |p|
  {
    hide Flatten, FlattenAll, Attrs, Before;
    if p == [] {
      NothingAround(n);
      NothingAround(m);
    } else {
      var i, r := p[0], Replace(n, p, m);
      BeforeReplace(n.children[i], p[1..], m, m');
      BeforeIs(n, p);
      BeforeIs(r, p);
      assert r.children[..i] == n.children[..i];
      var c := Replace(n.children[i], p[1..], m');
      assert r.children[i := c] == n.children[i := c];
    }
  }

  /** Replacing a child of the node at path. */
  lemma {:induction false} ReplaceChild(root: Node, path: seq<nat>, i: nat, m: Node)
    requires Path(root, path) && i < |SubTree(root, path).children|
    ensures var n := SubTree(root, path);
            Path(root, path + [i]) && Replace(root, path + [i], m) == Replace(root, path,
                n.(children := n.children[i := m]))
    decreases |path|
  {
    var q := path + [i];
    if path == [] {
      assert q[1..] == [];
    } else {
      ReplaceChild(root.children[path[0]], path[1..], i, m);
      assert q[1..] == path[1..] + [i] && q[0] == path[0];
    }
  }

  /** The index of the child of the node opened at k. */
  function SubOf(s: seq<Item>, k: nat, p: Pattern): (r: Found)
    requires k < |s|
    ensures r.At? ==> k < r.index < |s| && s[r.index].Open?
  {
    Later(FindSub(s[k + 1..], 0, p), k + 1)
  }

  /** The index of the next sibling of the node opened at k. */
  function NextOf(s: seq<Item>, k: nat): (r: Found)
    requires k < |s|
    ensures r.At? ==> k < r.index < |s| && s[r.index].Open?
  {
    Later(FindSub(s[k + 1..], 1, Any), k + 1)
  }

  /** The first node from item i on, or behind the next close, as fdt_first_subnode and fdt_next_subnode find it. */
  function NextFrom(s: seq<Item>, i: nat, down: bool): (r: Found)
    requires i <= |s|
    ensures r.At? ==> i <= r.index < |s| && s[r.index].Open?
  {
    Later(FindSub(s[i..], if down then 0 else 1, Any), i)
  }

  lemma {:induction false} NextFromNode(s: seq<Item>, k: nat)
    requires k < |s|
    ensures NextFrom(s, k + 1, true) == SubOf(s, k, Any) && NextFrom(s, k + 1, false) == NextOf(s, k)
  {
  }

  lemma {:induction false} FoundOpens(s: seq<Item>, j: nat, root: Node, q: seq<nat>)
    requires Path(root, q) && Strip(s) == Flatten(root) && j < |s| && s[j].Open?
    requires |Strip(s[..j])| == |Before(root, q)|
    ensures Opens(s, j, root, q)
  {
    hide Strip, Flatten, Before, After;
    StripIndex(s, j);
    FlattenAt(root, q);
    assert Flatten(root)[..|Before(root, q)|] == Before(root, q);
  }

  lemma {:induction false} PrefixLen(s: seq<Item>, k: nat, q: nat)
    requires k < q <= |s| && !s[k].Skip?
    ensures |Strip(s[..q])| == |Strip(s[..k])| + 1 + |Strip(s[k + 1..][..q - k - 1])|
  {
    hide Strip;
    StripIndex(s, k);
    StripSplit(s[..q], k + 1);
    assert s[..q][..k + 1] == s[..k + 1] && s[..q][k + 1..] == s[k + 1..][..q - k - 1];
  }

  /** The item that opens a node holds its name. */
  lemma {:induction false} OpenName(s: seq<Item>, k: nat, root: Node, q: seq<nat>)
    requires Opens(s, k, root, q)
    ensures s[k] == Open(SubTree(root, q).name)
  {
    hide Strip, Flatten, FlattenAll, Before, After, Attrs;
    FlattenAt(root, q);
    NodeShape(Before(root, q), SubTree(root, q), After(root, q));
    StripIndex(s, k);
  }

  /** The search for a child finds the first child of the node that fits. */
  lemma {:induction false} SubOpens(s: seq<Item>, k: nat, root: Node, path: seq<nat>, p: Pattern)
    requires Opens(s, k, root, path)
    ensures var ns := SubTree(root, path).children; var i := ChildIndex(ns, p);
            if i < |ns| then SubOf(s, k, p).At? && Opens(s, SubOf(s, k, p).index, root, path + [i])
            else SubOf(s, k, p) == Absent
  {
    hide Strip, Flatten, FlattenAll, Attrs, Before, After, FindSub, ChildIndex, Path, SubTree;
    var n, l, r := SubTree(root, path), Before(root, path), After(root, path);
    var body := FlattenAll(n.children) + ([Close] + r);
    FlattenAt(root, path);
    NodeShape(l, n, r);
    StripIndex(s, k);
    FindSubStrip(s[k + 1..], 0, p);
    assert Strip(s[k + 1..]) == Attrs(n.props) + body;
    FindSubAttrs(n.props, body, 0, p);
    FindSubIn(n.children, [Close] + r, p);
    var i := ChildIndex(n.children, p);
    if i < |n.children| {
      var j := SubOf(s, k, p).index;
      PrefixLen(s, k, j);
      PathSnoc(root, path, i);
      FoundOpens(s, j, root, path + [i]);
    }
  }

  /** i is the first of the nodes that answers to the name. */
  ghost predicate FirstAnswering(ns: seq<Node>, name: Bytes, i: nat) {
    i < |ns| && Answers(ns[i].name, name) && forall j | 0 <= j < i :: !Answers(ns[j].name, name)
  }

  ghost predicate NoneAnswers(ns: seq<Node>, name: Bytes) {
    forall j | 0 <= j < |ns| :: !Answers(ns[j].name, name)
  }

  /** The search gives the first child that answers. */
  lemma {:induction false} ChildAnswers(ns: seq<Node>, name: Bytes)
    ensures var i := ChildIndex(ns, Called(name));
            if i < |ns| then FirstAnswering(ns, name, i) else i == |ns| && NoneAnswers(ns, name)
  {
    hide NameEq, Answers, ChildIndex;
    forall j | 0 <= j < |ns| ensures Fits(Called(name), ns[j].name) <==> Answers(ns[j].name, name) {
      NameEqExactly(ns[j].name, name);
    }
  }

  /** The next sibling of child number i is child number i + 1. */
  lemma {:induction false} NextOpens(s: seq<Item>, k: nat, root: Node, path: seq<nat>, i: nat)
    requires Path(root, path) && i < |SubTree(root, path).children| && Opens(s, k, root, path + [i])
    ensures var ns := SubTree(root, path).children;
            if i + 1 < |ns| then NextOf(s, k).At? && Opens(s, NextOf(s, k).index, root, path + [i + 1])
            else NextOf(s, k) == Absent
  {
    hide Strip, Flatten, FlattenAll, Attrs, Before, After, FindSub, Path, SubTree;
    var n := SubTree(root, path);
    var c, ns, q := n.children[i], n.children[i + 1..], path + [i];
    PathSnoc(root, path, i);
    var l, tail := Before(root, q), [Close] + After(root, path);
    FlattenAt(root, q);
    assert After(root, q) == FlattenAll(ns) + tail;
    StripIndex(s, k);
    FlattenSize(c);
    assert Strip(s[k + 1..]) == Flatten(c)[1..] + (FlattenAll(ns) + tail);
    FindSubStrip(s[k + 1..], 1, Any);
    FindSubInside(c, FlattenAll(ns) + tail, 0, Any);
    FindSubIn(ns, tail, Any);
    FirstAny(ns);
    if i + 1 < |n.children| {
      var j := NextOf(s, k).index;
      PrefixLen(s, k, j);
      PathSnoc(root, path, i + 1);
      FlattenConcat(n.children[..i], [c]);
      FlattenAllOne(c);
      assert n.children[..i] + [c] == n.children[..i + 1];
      FoundOpens(s, j, root, path + [i + 1]);
    }
  }

  lemma {:induction false} FirstAny(ns: seq<Node>)
    ensures ChildIndex(ns, Any) == 0 && FlattenAll(ns[..0]) == []
  {
  }

  // ----- A new child -----

  function WithChild(n: Node, c: Node): Node {
    n.(children := [c] + n.children)
  }

  function Empty(name: Bytes): Node {
    Node(name, [], [])
  }

  lemma {:induction false} EmptyItems(name: Bytes)
    ensures Flatten(Empty(name)) == [Open(name), Close] && Strip([Open(name), Close]) == [Open(name), Close]
  {
    assert Attrs([]) == [] && FlattenAll([]) == [];
    StripConcat([Open(name)], [Close]);
    assert [Open(name)] + [Close] == [Open(name), Close] && Strip([Open(name)]) == [Open(name)]
           && Strip([Close]) == [Close];
  }

  lemma {:induction false} AddSubIn(l: seq<Item>, n: Node, r: seq<Item>, name: Bytes)
    ensures var q := |l| + 1 + |n.props|; var s := l + Flatten(n) + r;
            q <= |s| && Cut(s, q, q, [Open(name), Close]) == l + Flatten(WithChild(n, Empty(name))) + r
  {
    hide Flatten, FlattenAll, Attrs, Cut;
    var head, ps, body := l + [Open(n.name)], Attrs(n.props), FlattenAll(n.children) + ([Close] + r);
    var mid, m := [Open(name), Close], WithChild(n, Empty(name));
    AroundProps(l, n, r);
    AroundProps(l, m, r);
    CutMiddle(head, ps, body, |ps|, |ps|, mid);
    EmptyItems(name);
    FlattenConcat([Empty(name)], n.children);
    FlattenAllOne(Empty(name));
    assert ps[..|ps|] == ps && ps[|ps|..] == [];
    assert head + (ps + mid + []) + body == head + ps + (mid + FlattenAll(n.children) + ([Close] + r));
  }

  /** fdt_add_subnode puts an empty node in front of the children of that node. */
  lemma {:induction false} AddSubTree(s: seq<Item>, k: nat, root: Node, path: seq<nat>, name: Bytes)
    requires Opens(s, k, root, path)
    ensures var q := k + 1 + PropRun(s[k + 1..]);
            var root' := Replace(root, path, WithChild(SubTree(root, path), Empty(name)));
            && Strip(AddSub(s, k, name)) == Flatten(root')
            && Opens(AddSub(s, k, name), k, root', path) && Opens(AddSub(s, k, name), q, root', path + [0])
  {
    hide Strip, Flatten, FlattenAll, Attrs, Before, After, Cut, Path, SubTree, Replace, PropRun;
    var n, l, r := SubTree(root, path), Before(root, path), After(root, path);
    var q, m, s' := k + 1 + PropRun(s[k + 1..]), WithChild(n, Empty(name)), AddSub(s, k, name);
    var root', body := Replace(root, path, m), FlattenAll(n.children) + ([Close] + r);
    FlattenAt(root, path);
    NodeShape(l, n, r);
    StripIndex(s, k);
    PropRunStrip(s[k + 1..]);
    PropRunIn(n.props, body);
    PrefixLen(s, k, q);
    CutStrip(s, q, q, [Open(name), Close]);
    EmptyItems(name);
    AddSubIn(l, n, r, name);
    FlattenReplace(root, path, m);
    BeforeReplace(root, path, m, m);
    CutPrefix(s, q, q, [Open(name), Close], k);
    CutPrefix(s, q, q, [Open(name), Close], q);
    PathSnoc(root', path, 0);
    FirstAny(m.children);
    FoundOpens(s', q, root', path + [0]);
  }

  lemma {:induction false} CutPrefix(s: seq<Item>, q: nat, e: nat, mid: seq<Item>, k: nat)
    requires k <= q <= e <= |s|
    ensures k <= |Cut(s, q, e, mid)| && Cut(s, q, e, mid)[..k] == s[..k]
    ensures k < q ==> Cut(s, q, e, mid)[k] == s[k]
    ensures k == q && mid != [] ==> k < |Cut(s, q, e, mid)| && Cut(s, q, e, mid)[k] == mid[0]
  {
  }

  lemma {:induction false} SetAttrPrefix(s: seq<Item>, k: nat, name: Bytes, value: Bytes)
    requires k < |s|
    ensures var s' := SetAttr(s, k, name, value); k < |s'| && s'[k] == s[k] && s'[..k] == s[..k]
  {
    hide FindAttr;
    match AttrOf(s, k, name) {
      case At(j) => CutPrefix(s, j, j + 1, [Attr(name, value)], k);
      case _ => CutPrefix(s, k + 1, k + 1, [Attr(name, value)], k);
    }
  }
}
