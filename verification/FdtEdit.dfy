/**
 Editing a blob, seen on its sequence of items, and what each edit does to the tree.
 Erasing comes in two forms: cutting the items out, or writing NOPs over them.
 */
module FdtEdit {
  import opened Basics
  import opened FdtTokens
  import opened FdtTree

  // ----- Edits on items -----

  datatype Found = At(index: nat) | Absent | Broken

  /** Look for a property from the start of s, passing over other properties and NOPs. */
  function FindAttr(s: seq<Item>, name: Bytes): (r: Found)
    ensures r.At? ==> r.index < |s| && s[r.index].Attr? && s[r.index].name == name
  {
    if s == [] then Broken
    else if s[0].Attr? && s[0].name == name then At(0)
    else if s[0].Attr? || s[0].Skip? then Later(FindAttr(s[1..], name), 1)
    else Absent
  }

  function Later(f: Found, n: nat): Found {
    if f.At? then At(f.index + n) else f
  }

  /** The index of the property `name` of the node opened at k. */
  function AttrOf(s: seq<Item>, k: nat, name: Bytes): (r: Found)
    requires k < |s|
    ensures r.At? ==> k < r.index < |s| && s[r.index].Attr? && s[r.index].name == name
  {
    Later(FindAttr(s[k + 1..], name), k + 1)
  }

  /** Replace items k to j. */
  function Cut(s: seq<Item>, k: nat, j: nat, mid: seq<Item>): seq<Item>
    requires k <= j <= |s|
  {
    s[..k] + mid + s[j..]
  }

  function Skips(n: nat): (r: seq<Item>)
    ensures |r| == n && forall i | 0 <= i < n :: r[i] == Skip
  {
    seq(n, _ => Skip)
  }

  /** Give the node opened at k the property: in place if it has one, else first of all. */
  function SetAttr(s: seq<Item>, k: nat, name: Bytes, value: Bytes): seq<Item>
    requires k < |s|
  {
    match AttrOf(s, k, name)
    case At(j) => Cut(s, j, j + 1, [Attr(name, value)])
    case _ => Cut(s, k + 1, k + 1, [Attr(name, value)])
  }

  /** The number of items up to the close of the node that s is inside of, `depth` levels up. */
  function Span(s: seq<Item>, depth: nat): (r: Option<nat>)
    ensures r.Some? ==> 0 < r.value <= |s|
  {
    if s == [] then None
    else if s[0].Close? && depth == 0 then Some(1)
    else
      Plus(Span(s[1..], if s[0].Open? then depth + 1 else if s[0].Close? then depth - 1 else depth), 1)
  }

  function Plus(o: Option<nat>, n: nat): Option<nat> {
    if o.Some? then Some(o.value + n) else None
  }

  /** Where the node opened at k ends. */
  function EndOf(s: seq<Item>, k: nat): (r: Option<nat>)
    requires k < |s|
    ensures r.Some? ==> k < r.value <= |s|
  {
    Plus(Span(s[k + 1..], 0), k + 1)
  }

  // ----- Positions in a tree -----

  predicate Path(n: Node, p: seq<nat>) {
    p == [] || (p[0] < |n.children| && Path(n.children[p[0]], p[1..]))
  }

  function SubTree(n: Node, p: seq<nat>): Node
    requires Path(n, p)
    decreases |p|
  {
    if p == [] then n else SubTree(n.children[p[0]], p[1..])
  }

  function Replace(n: Node, p: seq<nat>, m: Node): Node
    requires Path(n, p)
    decreases |p|
  {
    if p == [] then m else n.(children := n.children[p[0] := Replace(n.children[p[0]], p[1..], m)])
  }

  function Remove(n: Node, p: seq<nat>): Node
    requires Path(n, p) && p != []
    decreases |p|
  {
    var i := p[0];
    if |p| == 1 then n.(children := n.children[..i] + n.children[i + 1..])
    else n.(children := n.children[i := Remove(n.children[i], p[1..])])
  }

  /** The items before and after the node at p. */
  function Before(n: Node, p: seq<nat>): seq<Item>
    requires Path(n, p)
    decreases |p|
  {
    if p == [] then []
    else [Open(n.name)] + Attrs(n.props) + FlattenAll(n.children[..p[0]]) + Before(n.children[p[0]], p[1..])
  }

  function After(n: Node, p: seq<nat>): seq<Item>
    requires Path(n, p)
    decreases |p|
  {
    if p == [] then [] else After(n.children[p[0]], p[1..]) + FlattenAll(n.children[p[0] + 1..]) + [Close]
  }

  lemma {:induction false} FlattenAllSplit(ns: seq<Node>, i: nat, m: Node)
    requires i < |ns|
    ensures FlattenAll(ns[i := m]) == FlattenAll(ns[..i]) + Flatten(m) + FlattenAll(ns[i + 1..])
  {
    hide Flatten, FlattenAll;
    assert ns[i := m] == ns[..i] + [m] + ns[i + 1..];
    FlattenConcat(ns[..i] + [m], ns[i + 1..]);
    FlattenConcat(ns[..i], [m]);
    FlattenAllOne(m);
  }

  lemma {:induction false} Regroup(a: seq<Item>, b: seq<Item>, x: seq<Item>, y: seq<Item>, c: seq<Item>, d: seq<Item>)
    ensures a + (b + (x + y) + c) + d == (a + b + x) + (y + c + d)
  {
  }

  lemma {:induction false} RegroupAround(a: seq<Item>, b: seq<Item>, x: seq<Item>, m: seq<Item>, y: seq<Item>,
                                         c: seq<Item>, d: seq<Item>)
    ensures a + (b + (x + m + y) + c) + d == (a + b + x) + m + (y + c + d)
  {
  }

  /** Replacing a subtree replaces its items and nothing around them. */
  lemma {:induction false} FlattenReplace(n: Node, p: seq<nat>, m: Node)
    requires Path(n, p)
    ensures Flatten(Replace(n, p, m)) == Before(n, p) + Flatten(m) + After(n, p)
    decreases |p|
  {
    hide Flatten, FlattenAll, Before, After, Attrs;
    if p == [] {
      NothingAround(n);
      assert Flatten(m) == [] + Flatten(m) + [];
    } else {
      var i := p[0];
      var c, head := n.children[i], [Open(n.name)] + Attrs(n.props);
      FlattenReplace(c, p[1..], m);
      var c' := Replace(c, p[1..], m);
      FlattenAllSplit(n.children, i, c');
      FlattenIs(n.name, n.props, n.children[i := c']);
      BeforeIs(n, p);
      RegroupAround(head, FlattenAll(n.children[..i]), Before(c, p[1..]), Flatten(m), After(c, p[1..]),
                    FlattenAll(n.children[i + 1..]), [Close]);
    }
  }

  lemma {:induction false} NothingAround(n: Node)
    ensures Before(n, []) == [] && After(n, []) == []
  {
  }

  lemma {:induction false} FlattenIs(name: Bytes, props: seq<Property>, children: seq<Node>)
    ensures Flatten(Node(name, props, children)) == [Open(name)] + Attrs(props) + FlattenAll(children) + [Close]
  {
  }

  lemma {:induction false} BeforeIs(n: Node, p: seq<nat>)
    requires Path(n, p) && p != []
    ensures Before(n, p) == [Open(n.name)] + Attrs(n.props) + FlattenAll(n.children[..p[0]]) + Before(n.children[p[0]],
        p[1..])
    ensures After(n, p) == After(n.children[p[0]], p[1..]) + FlattenAll(n.children[p[0] + 1..]) + [Close]
  {
  }

  lemma {:induction false} ReplaceSame(n: Node, p: seq<nat>)
    requires Path(n, p)
    ensures Replace(n, p, SubTree(n, p)) == n
    decreases |p|
  {
    if p != [] {
      ReplaceSame(n.children[p[0]], p[1..]);
      assert n.children[p[0] := n.children[p[0]]] == n.children;
    }
  }

  lemma {:induction false} FlattenAt(n: Node, p: seq<nat>)
    requires Path(n, p)
    ensures Flatten(n) == Before(n, p) + Flatten(SubTree(n, p)) + After(n, p)
  {
    ReplaceSame(n, p);
    FlattenReplace(n, p, SubTree(n, p));
  }

  /** Removing a subtree removes its items and nothing around them. */
  lemma {:induction false} FlattenRemove(n: Node, p: seq<nat>)
    requires Path(n, p) && p != []
    ensures Flatten(Remove(n, p)) == Before(n, p) + After(n, p)
    decreases |p|
  {
    hide Flatten, FlattenAll, Before, After, Attrs;
    var i := p[0];
    var c, head := n.children[i], [Open(n.name)] + Attrs(n.props);
    var l, r := FlattenAll(n.children[..i]), FlattenAll(n.children[i + 1..]);
    BeforeIs(n, p);
    if |p| == 1 {
      FlattenConcat(n.children[..i], n.children[i + 1..]);
      FlattenIs(n.name, n.props, n.children[..i] + n.children[i + 1..]);
      NothingAround(c);
      Regroup(head, l, [], [], r, [Close]);
      assert p[1..] == [] && l + ([] + []) + r == l + r;
    } else {
      FlattenRemove(c, p[1..]);
      var c' := Remove(c, p[1..]);
      FlattenAllSplit(n.children, i, c');
      FlattenIs(n.name, n.props, n.children[i := c']);
      Regroup(head, l, Before(c, p[1..]), After(c, p[1..]), r, [Close]);
    }
  }

  // ----- Properties of one node -----

  /** The first property of that name, or |ps|. */
  function PropIndex(ps: seq<Property>, name: Bytes): (i: nat)
    ensures i <= |ps|
    ensures i < |ps| ==> ps[i].name == name
    ensures forall j | 0 <= j < i :: ps[j].name != name
  {
    if ps == [] || ps[0].name == name then 0 else 1 + PropIndex(ps[1..], name)
  }

  function GetProp(n: Node, name: Bytes): Option<Bytes> {
    var i := PropIndex(n.props, name);
    if i < |n.props| then Some(n.props[i].value) else None
  }

  function WithProp(n: Node, name: Bytes, value: Bytes): Node {
    var i := PropIndex(n.props, name);
    if i < |n.props| then n.(props := n.props[i := Property(name, value)])
    else n.(props := [Property(name, value)] + n.props)
  }

  function WithoutProp(n: Node, name: Bytes): Node {
    var i := PropIndex(n.props, name);
    if i < |n.props| then n.(props := n.props[..i] + n.props[i + 1..]) else n
  }

  lemma {:induction false} PropIndexIs(ps: seq<Property>, name: Bytes, i: nat)
    requires i <= |ps| && (i < |ps| ==> ps[i].name == name) && forall j | 0 <= j < i :: ps[j].name != name
    ensures PropIndex(ps, name) == i
  {
  }

  /** Setting a property sets that one and no other. */
  lemma {:induction false} SetThenGet(n: Node, name: Bytes, value: Bytes, other: Bytes)
    ensures GetProp(WithProp(n, name, value), name) == Some(value)
    ensures other != name ==> GetProp(WithProp(n, name, value), other) == GetProp(n, other)
  {
    var i, j, m := PropIndex(n.props, name), PropIndex(n.props, other), WithProp(n, name, value);
    if i < |n.props| {
      PropIndexIs(m.props, name, i);
      if other != name { PropIndexIs(m.props, other, j); }
    } else {
      PropIndexIs(m.props, name, 0);
      if other != name { PropIndexIs(m.props, other, j + 1); }
    }
  }

  lemma {:induction false} FindAttrIn(ps: seq<Property>, r: seq<Item>, name: Bytes)
    requires r != [] && (r[0].Open? || r[0].Close?)
    ensures var i := PropIndex(ps, name);
            FindAttr(Attrs(ps) + r, name) == if i < |ps| then At(i) else Absent
  {
    if ps == [] {
      assert Attrs(ps) + r == r;
    } else {
      var s := Attrs(ps) + r;
      assert s[0] == Attr(ps[0].name, ps[0].value) && s[1..] == Attrs(ps[1..]) + r;
      FindAttrIn(ps[1..], r, name);
    }
  }

  lemma {:induction false} AttrsUpdate(ps: seq<Property>, i: nat, q: Property)
    requires i < |ps|
    ensures Attrs(ps[i := q]) == Attrs(ps)[i := Attr(q.name, q.value)]
    ensures Attrs(ps[..i] + ps[i + 1..]) == Attrs(ps)[..i] + Attrs(ps)[i + 1..]
  {
    var ps' := ps[..i] + ps[i + 1..];
    assert forall j | 0 <= j < |ps'| :: Attrs(ps')[j] == (Attrs(ps)[..i] + Attrs(ps)[i + 1..])[j];
  }

  /** The items of a node that lies between l and r. */
  lemma {:induction false} NodeShape(l: seq<Item>, n: Node, r: seq<Item>)
    ensures var s := l + Flatten(n) + r; var body := FlattenAll(n.children) + ([Close] + r);
            && |l| < |s| && s[|l|] == Open(n.name)
            && s[..|l| + 1] == l + [Open(n.name)] && s[|l| + 1..] == Attrs(n.props) + body
            && s == l + [Open(n.name)] + (Attrs(n.props) + body)
            && body != [] && (body[0].Open? || body[0].Close?)
  {
    var s := l + Flatten(n) + r;
    var body := FlattenAll(n.children) + ([Close] + r);
    FlattenAllStart(n.children);
    FlattenShape(n.name, n.props, n.children, r);
    hide Flatten, FlattenAll, Attrs;
    assert s == l + ([Open(n.name)] + (Attrs(n.props) + body));
    assert s[|l| + 1..] == Attrs(n.props) + body;
    assert s[..|l| + 1] == l + [Open(n.name)];
  }

  lemma {:induction false} AttrOfIn(l: seq<Item>, n: Node, r: seq<Item>, name: Bytes)
    ensures var s := l + Flatten(n) + r; var i := PropIndex(n.props, name);
            |l| < |s| && AttrOf(s, |l|, name) == if i < |n.props| then At(|l| + 1 + i) else Absent
  {
    hide Flatten, FlattenAll, Attrs, FindAttr, PropIndex;
    NodeShape(l, n, r);
    FindAttrIn(n.props, FlattenAll(n.children) + ([Close] + r), name);
  }

  lemma {:induction false} CutMiddle(l: seq<Item>, a: seq<Item>, r: seq<Item>, i: nat, j: nat, mid: seq<Item>)
    requires i <= j <= |a|
    ensures Cut(l + a + r, |l| + i, |l| + j, mid) == l + (a[..i] + mid + a[j..]) + r
  {
    var s := l + a + r;
    assert s[..|l| + i] == l + a[..i] && s[|l| + j..] == a[j..] + r;
  }

  /** The same items, around the properties. */
  lemma {:induction false} AroundProps(l: seq<Item>, n: Node, r: seq<Item>)
    ensures l + Flatten(n) + r == (l + [Open(n.name)]) + Attrs(n.props) + (FlattenAll(n.children) + ([Close] + r))
  {
    hide Flatten, FlattenAll, Attrs;
    FlattenIs(n.name, n.props, n.children);
  }

  /** Setting a property of the node between l and r. */
  lemma {:induction false} SetAttrIn(l: seq<Item>, n: Node, r: seq<Item>, name: Bytes, value: Bytes)
    ensures |l| < |l + Flatten(n) + r|
    ensures SetAttr(l + Flatten(n) + r, |l|, name, value) == l + Flatten(WithProp(n, name, value)) + r
  {
    hide Flatten, FlattenAll, Attrs, FindAttr, AttrOf, PropIndex, Cut;
    var head, body, i := l + [Open(n.name)], FlattenAll(n.children) + ([Close] + r), PropIndex(n.props, name);
    var m := WithProp(n, name, value);
    AttrOfIn(l, n, r, name);
    AroundProps(l, n, r);
    AroundProps(l, m, r);
    if i < |n.props| {
      CutMiddle(head, Attrs(n.props), body, i, i + 1, [Attr(name, value)]);
      AttrsUpdate(n.props, i, Property(name, value));
      UpdateIs(Attrs(n.props), i, Attr(name, value));
    } else {
      CutMiddle(head, Attrs(n.props), body, 0, 0, [Attr(name, value)]);
      AttrsCons(Property(name, value), n.props);
    }
  }

  lemma {:induction false} UpdateIs(s: seq<Item>, i: nat, x: Item)
    requires i < |s|
    ensures s[i := x] == s[..i] + [x] + s[i + 1..]
  {
  }

  lemma {:induction false} AttrsCons(q: Property, ps: seq<Property>)
    ensures Attrs([q] + ps) == Attrs(ps)[..0] + [Attr(q.name, q.value)] + Attrs(ps)[0..]
  {
    var all, s := Attrs([q] + ps), Attrs(ps);
    hide Attrs;
    assert forall i | 0 < i < |all| :: all[i] == s[i - 1];
  }

  /** Cutting out the property that was found. */
  lemma {:induction false} CutAttrIn(l: seq<Item>, n: Node, r: seq<Item>, name: Bytes)
    requires PropIndex(n.props, name) < |n.props|
    ensures var j := |l| + 1 + PropIndex(n.props, name); var s := l + Flatten(n) + r;
            && j < |s| && s[j] == Attr(name, n.props[PropIndex(n.props, name)].value)
            && Cut(s, j, j + 1, []) == l + Flatten(WithoutProp(n, name)) + r
  {
    hide Flatten, FlattenAll, FindAttr, AttrOf, PropIndex, Cut;
    var head, body, i := l + [Open(n.name)], FlattenAll(n.children) + ([Close] + r), PropIndex(n.props, name);
    var m := WithoutProp(n, name);
    AroundProps(l, n, r);
    AroundProps(l, m, r);
    CutMiddle(head, Attrs(n.props), body, i, i + 1, []);
    AttrsUpdate(n.props, i, Property(name, []));
    assert Attrs(n.props)[..i] + [] == Attrs(n.props)[..i];
    assert (head + Attrs(n.props) + body)[|head| + i] == Attrs(n.props)[i];
  }

  // ----- The end of a node -----

  lemma {:induction false} SpanAttrs(ps: seq<Property>, r: seq<Item>, d: nat)
    ensures Span(Attrs(ps) + r, d) == Plus(Span(r, d), |ps|)
  {
    if ps == [] {
      assert Attrs(ps) + r == r;
    } else {
      assert (Attrs(ps) + r)[1..] == Attrs(ps[1..]) + r;
      SpanAttrs(ps[1..], r, d);
    }
  }

  lemma {:induction false} SpanOpen(i: Item, r: seq<Item>, d: nat)
    ensures i.Open? ==> Span([i] + r, d) == Plus(Span(r, d + 1), 1)
    ensures i.Close? && d > 0 ==> Span([i] + r, d) == Plus(Span(r, d - 1), 1)
    ensures i.Close? && d == 0 ==> Span([i] + r, d) == Some(1)
  {
    assert ([i] + r)[1..] == r;
  }

  /** A whole node is passed over. */
  lemma {:induction false} SpanNode(n: Node, r: seq<Item>, d: nat)
    ensures Span(Flatten(n) + r, d) == Plus(Span(r, d), |Flatten(n)|)
    ensures Span(Flatten(n)[1..] + r, d) == Plus(Span([Close] + r, d), |Flatten(n)| - 2)
    decreases n, 0
  {
    hide Span, Flatten, FlattenAll, Attrs;
    SpanNodes(n.children, [Close] + r, d + 1);
    SpanNodes(n.children, [Close] + r, d);
    FlattenShape(n.name, n.props, n.children, r);
    FlattenSize(n);
    var body := FlattenAll(n.children) + ([Close] + r);
    SpanAttrs(n.props, body, d + 1);
    SpanAttrs(n.props, body, d);
    SpanOpen(Open(n.name), Attrs(n.props) + body, d);
    SpanOpen(Close, r, d + 1);
    assert Flatten(n)[1..] + r == (Flatten(n) + r)[1..];
  }

  lemma {:induction false} FlattenSize(n: Node)
    ensures |Flatten(n)| == 2 + |n.props| + |FlattenAll(n.children)| && Flatten(n)[0] == Open(n.name)
  {
  }

  lemma {:induction false} SpanNodes(ns: seq<Node>, r: seq<Item>, d: nat)
    ensures Span(FlattenAll(ns) + r, d) == Plus(Span(r, d), |FlattenAll(ns)|)
    decreases ns, 1
  {
    if ns == [] {
      assert FlattenAll(ns) + r == r;
    } else {
      var rest := FlattenAll(ns[1..]) + r;
      assert FlattenAll(ns) + r == Flatten(ns[0]) + rest;
      SpanNode(ns[0], rest, d);
      SpanNodes(ns[1..], r, d);
    }
  }

  /** The end of the node between l and r is where r starts. */
  lemma {:induction false} EndOfIn(l: seq<Item>, n: Node, r: seq<Item>)
    ensures var s := l + Flatten(n) + r; |l| < |s| && EndOf(s, |l|) == Some(|l| + |Flatten(n)|)
  {
    hide Span, Flatten;
    var s := l + Flatten(n) + r;
    FlattenSize(n);
    assert s[|l| + 1..] == Flatten(n)[1..] + r;
    SpanNode(n, r, 0);
    SpanOpen(Close, r, 0);
  }

  // ----- Every node has an address -----

  /** The child that item m of the children lies in. */
  lemma {:induction false} ChildAt(ns: seq<Node>, m: nat) returns (i: nat, k: nat)
    requires m < |FlattenAll(ns)|
    ensures i < |ns| && k < |Flatten(ns[i])| && Flatten(ns[i])[k] == FlattenAll(ns)[m]
    ensures FlattenAll(ns)[..m] == FlattenAll(ns[..i]) + Flatten(ns[i])[..k]
  {
    hide Flatten;
    var n := |Flatten(ns[0])|;
    if m < n {
      i, k := 0, m;
      assert FlattenAll(ns[..0]) == [];
      assert FlattenAll(ns)[..m] == [] + Flatten(ns[0])[..m];
    } else {
      i, k := ChildAt(ns[1..], m - n);
      assert FlattenAll(ns)[..m] == Flatten(ns[0]) + FlattenAll(ns[1..])[..m - n];
      assert ns[..i + 1][1..] == ns[1..][..i];
      i := i + 1;
      hide FlattenAll;
      FlattenFirst(ns[..i]);
    }
  }

  /** Every opening item of a flattened tree is the start of a node of the tree. */
  lemma {:induction false} PathTo(n: Node, k: nat) returns (p: seq<nat>)
    requires k < |Flatten(n)| && Flatten(n)[k].Open?
    ensures Path(n, p) && Before(n, p) == Flatten(n)[..k]
    decreases n
  {
    hide Flatten, FlattenAll, Before, Attrs;
    FlattenIs(n.name, n.props, n.children);
    var head := [Open(n.name)] + Attrs(n.props);
    if k == 0 {
      p := [];
      NothingAround(n);
    } else {
      var all := FlattenAll(n.children);
      assert Flatten(n) == head + all + [Close] && Flatten(n)[|head| + |all|] == Close;
      assert forall i | 0 < i < |head| :: Flatten(n)[i] == Attrs(n.props)[i - 1];
      assert |head| <= k < |head| + |all| && Flatten(n)[k] == all[k - |head|];
      var i, j := ChildAt(n.children, k - |head|);
      var q := PathTo(n.children[i], j);
      p := [i] + q;
      assert p[1..] == q;
      BeforeIs(n, p);
      assert Flatten(n)[..k] == head + all[..k - |head|];
      assert head + (FlattenAll(n.children[..i]) + Flatten(n.children[i])[..j])
          == head + FlattenAll(n.children[..i]) + Flatten(n.children[i])[..j];
    }
  }

  // ----- Items with NOPs among them -----

  lemma {:induction false} StripSplit(s: seq<Item>, k: nat)
    requires k <= |s|
    ensures Strip(s) == Strip(s[..k]) + Strip(s[k..])
  {
    hide Strip;
    assert s == s[..k] + s[k..];
    StripConcat(s[..k], s[k..]);
  }

  /** Item k of s, which is not a NOP, is item |Strip(s[..k])| of the stripped sequence. */
  lemma {:induction false} StripIndex(s: seq<Item>, k: nat)
    requires k < |s| && !s[k].Skip?
    ensures var i := |Strip(s[..k])|;
            && i < |Strip(s)| && Strip(s)[i] == s[k] && Strip(s)[..i] == Strip(s[..k])
            && Strip(s)[i + 1..] == Strip(s[k + 1..]) && |Strip(s[..k + 1])| == i + 1
  {
    hide Strip;
    StripSplit(s, k);
    StripFirst(s[k..]);
    assert s[k..][1..] == s[k + 1..];
    StripSplit(s[..k + 1], k);
    assert s[..k + 1][..k] == s[..k] && s[..k + 1][k..] == [s[k]];
    StripFirst([s[k]]);
    assert [s[k]][1..] == [];
    StripEmpty();
  }

  lemma {:induction false} CutStrip(s: seq<Item>, k: nat, j: nat, mid: seq<Item>)
    requires k <= j <= |s|
    ensures |Strip(s[..k])| <= |Strip(s[..j])| <= |Strip(s)|
    ensures Strip(Cut(s, k, j, mid)) == Cut(Strip(s), |Strip(s[..k])|, |Strip(s[..j])|, Strip(mid))
  {
    hide Strip;
    StripSplit(s, k);
    StripSplit(s, j);
    StripSplit(s[..j], k);
    assert s[..j][..k] == s[..k];
    StripConcat(s[..k] + mid, s[j..]);
    StripConcat(s[..k], mid);
    assert Strip(s)[..|Strip(s[..k])|] == Strip(s[..k]);
    assert Strip(s)[|Strip(s[..j])|..] == Strip(s[j..]);
  }

  lemma {:induction false} SkipsStrip(n: nat)
    ensures Strip(Skips(n)) == []
  {
    if n > 0 {
      SkipsStrip(n - 1);
      assert Skips(n)[1..] == Skips(n - 1);
    }
  }

  lemma {:induction false} FindAttrFirst(s: seq<Item>, name: Bytes)
    ensures s == [] ==> FindAttr(s, name) == Broken
    ensures s != [] && s[0].Attr? && s[0].name == name ==> FindAttr(s, name) == At(0)
    ensures s != [] && (s[0].Skip? || (s[0].Attr? && s[0].name != name)) ==>
              FindAttr(s, name) == Later(FindAttr(s[1..], name), 1)
    ensures s != [] && (s[0].Open? || s[0].Close?) ==> FindAttr(s, name) == Absent
  {
  }

  lemma {:induction false} FindAttrStrip(s: seq<Item>, name: Bytes)
    ensures match FindAttr(s, name)
            case At(j) => FindAttr(Strip(s), name) == At(|Strip(s[..j])|)
            case f => FindAttr(Strip(s), name) == f
  {
    hide Strip, FindAttr;
    FindAttrFirst(s, name);
    FindAttrFirst(Strip(s), name);
    StripEmpty();
    if s != [] {
      FindAttrStrip(s[1..], name);
      StripFirst(s);
      assert if s[0].Skip? then Strip(s) == Strip(s[1..]) else Strip(s)[1..] == Strip(s[1..]) && Strip(s)[0] == s[0];
      var f := FindAttr(s, name);
      if f.At? && f.index > 0 {
        StripFirst(s[..f.index]);
        assert s[..f.index][1..] == s[1..][..f.index - 1];
      }
      if f.At? && f.index == 0 { assert s[..0] == []; }
    }
  }

  lemma {:induction false} SpanFirst(s: seq<Item>, d: nat)
    ensures s == [] ==> Span(s, d) == None
    ensures s != [] && s[0].Close? ==> Span(s, d) == if d == 0 then Some(1) else Plus(Span(s[1..], d - 1), 1)
    ensures s != [] && s[0].Open? ==> Span(s, d) == Plus(Span(s[1..], d + 1), 1)
    ensures s != [] && (s[0].Attr? || s[0].Skip?) ==> Span(s, d) == Plus(Span(s[1..], d), 1)
  {
  }

  lemma {:induction false} SpanStrip(s: seq<Item>, d: nat)
    ensures match Span(s, d)
            case Some(e) => Span(Strip(s), d) == Some(|Strip(s[..e])|)
            case None => Span(Strip(s), d) == None
  {
    hide Strip, Span;
    SpanFirst(s, d);
    SpanFirst(Strip(s), d);
    StripEmpty();
    if s != [] {
      var d' := if s[0].Open? then d + 1 else if s[0].Close? && d > 0 then d - 1 else d;
      SpanStrip(s[1..], d');
      StripFirst(s);
      assert if s[0].Skip? then Strip(s) == Strip(s[1..]) else Strip(s)[1..] == Strip(s[1..]) && Strip(s)[0] == s[0];
      var f := Span(s, d);
      if f.Some? {
        StripFirst(s[..f.value]);
        assert s[..f.value][1..] == s[1..][..f.value - 1];
      }
    }
  }

  lemma {:induction false} AttrOfStrip(s: seq<Item>, k: nat, name: Bytes)
    requires k < |s| && !s[k].Skip?
    ensures |Strip(s[..k])| < |Strip(s)|
    ensures match AttrOf(s, k, name)
            case At(j) => AttrOf(Strip(s), |Strip(s[..k])|, name) == At(|Strip(s[..j])|)
            case f => AttrOf(Strip(s), |Strip(s[..k])|, name) == f
  {
    hide Strip, FindAttr;
    StripIndex(s, k);
    FindAttrStrip(s[k + 1..], name);
    var f := AttrOf(s, k, name);
    if f.At? {
      StripSplit(s[..f.index], k + 1);
      assert s[..f.index][..k + 1] == s[..k + 1] && s[..f.index][k + 1..] == s[k + 1..][..f.index - k - 1];
    }
  }

  lemma {:induction false} EndOfStrip(s: seq<Item>, k: nat)
    requires k < |s| && !s[k].Skip?
    ensures |Strip(s[..k])| < |Strip(s)|
    ensures match EndOf(s, k)
            case Some(e) => EndOf(Strip(s), |Strip(s[..k])|) == Some(|Strip(s[..e])|)
            case None => EndOf(Strip(s), |Strip(s[..k])|) == None
  {
    hide Strip, Span;
    StripIndex(s, k);
    SpanStrip(s[k + 1..], 0);
    var f := EndOf(s, k);
    if f.Some? {
      StripSplit(s[..f.value], k + 1);
      assert s[..f.value][..k + 1] == s[..k + 1] && s[..f.value][k + 1..] == s[k + 1..][..f.value - k - 1];
    }
  }

  // ----- What the edits do to the tree -----

  /** Item k of s opens the node at p of the tree that s stands for. */
  predicate Opens(s: seq<Item>, k: nat, root: Node, p: seq<nat>) {
    && k < |s| && s[k].Open? && Path(root, p)
    && Strip(s) == Flatten(root) && Strip(s[..k]) == Before(root, p)
  }

  /** Every opening item opens some node. */
  lemma {:induction false} OpensSome(s: seq<Item>, k: nat, root: Node) returns (p: seq<nat>)
    requires k < |s| && s[k].Open? && Strip(s) == Flatten(root)
    ensures Opens(s, k, root, p)
  {
    hide Strip, Flatten, Before;
    StripIndex(s, k);
    p := PathTo(root, |Strip(s[..k])|);
  }

  /** fdt_setprop changes one property of one node of the tree. */
  lemma {:induction false} SetAttrTree(s: seq<Item>, k: nat, root: Node, p: seq<nat>, name: Bytes, value: Bytes)
    requires Opens(s, k, root, p)
    ensures Strip(SetAttr(s, k, name, value)) == Flatten(Replace(root, p, WithProp(SubTree(root, p), name, value)))
  {
    hide Strip, Flatten, Before, After, AttrOf, FindAttr, Cut, Replace, SubTree, WithProp;
    var n, l, r, t := SubTree(root, p), Before(root, p), After(root, p), Strip(s);
    FlattenAt(root, p);
    StripOne(name, value);
    AttrOfStrip(s, k, name);
    StripIndex(s, k);
    match AttrOf(s, k, name) {
      case At(j) =>
        CutStrip(s, j, j + 1, [Attr(name, value)]);
        StripIndex(s, j);
      case _ =>
        CutStrip(s, k + 1, k + 1, [Attr(name, value)]);
    }
    assert Strip(SetAttr(s, k, name, value)) == SetAttr(t, |l|, name, value);
    SetAttrIn(l, n, r, name, value);
    FlattenReplace(root, p, WithProp(n, name, value));
  }

  lemma {:induction false} StripOne(name: Bytes, value: Bytes)
    ensures Strip([Attr(name, value)]) == [Attr(name, value)]
  {
  }

  /** Erasing a property, by cutting it out or by NOPs, takes that property from that node. */
  lemma {:induction false} EraseAttrTree(s: seq<Item>, k: nat, root: Node, p: seq<nat>, name: Bytes, nops: nat)
    requires Opens(s, k, root, p)
    ensures AttrOf(s, k, name).At? <==> GetProp(SubTree(root, p), name).Some?
    ensures AttrOf(s, k, name).At? ==>
              var j := AttrOf(s, k, name).index;
              && s[j].value == GetProp(SubTree(root, p), name).value
              && Strip(Cut(s, j, j + 1, Skips(nops))) == Flatten(Replace(root, p, WithoutProp(SubTree(root, p), name)))
  {
    hide Strip, Flatten, Before, After, AttrOf, FindAttr, Cut, Replace, SubTree, WithoutProp, PropIndex;
    var n, l, r, t := SubTree(root, p), Before(root, p), After(root, p), Strip(s);
    FlattenAt(root, p);
    AttrOfStrip(s, k, name);
    AttrOfIn(l, n, r, name);
    var i := PropIndex(n.props, name);
    if i < |n.props| {
      var j := AttrOf(s, k, name).index;
      StripIndex(s, j);
      CutStrip(s, j, j + 1, Skips(nops));
      SkipsStrip(nops);
      CutAttrIn(l, n, r, name);
      FlattenReplace(root, p, WithoutProp(n, name));
    }
  }

  /** Erasing a node, by cutting it out or by NOPs, takes that subtree from the tree. */
  lemma {:induction false} EraseNodeTree(s: seq<Item>, k: nat, root: Node, p: seq<nat>, nops: nat)
    requires Opens(s, k, root, p) && p != []
    ensures EndOf(s, k).Some?
    ensures Strip(Cut(s, k, EndOf(s, k).value, Skips(nops))) == Flatten(Remove(root, p))
  {
    hide Strip, Flatten, Before, After, EndOf, Span, Cut, Remove, SubTree;
    var n, l, r, t := SubTree(root, p), Before(root, p), After(root, p), Strip(s);
    FlattenAt(root, p);
    EndOfStrip(s, k);
    EndOfIn(l, n, r);
    var e := EndOf(s, k).value;
    CutStrip(s, k, e, Skips(nops));
    SkipsStrip(nops);
    CutWhole(l, Flatten(n), r);
    FlattenRemove(root, p);
  }

  lemma {:induction false} CutWhole(l: seq<Item>, a: seq<Item>, r: seq<Item>)
    ensures Cut(l + a + r, |l|, |l| + |a|, []) == l + r
  {
    assert (l + a + r)[..|l|] == l && (l + a + r)[|l| + |a|..] == r;
  }
}
