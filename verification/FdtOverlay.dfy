/**
 overlay_apply_node: merging a node of an overlay blob into a node of a base blob by
 fdt_setprop and fdt_add_subnode. Offsets saved across the splices stay right, because every
 splice is behind the header of the node that the offset names.
 */
module FdtOverlay {
  import opened Basics
  import opened FdtTokens
  import opened FdtTree
  import opened FdtEdit
  import opened FdtSubnodes
  import opened FdtMerge
  import opened FdtEditor

  // ----- Walking the properties of a node -----

  /** The next property, passing over NOPs. */
  function FirstAttr(s: seq<Item>): (r: Found)
    ensures r.At? ==> r.index < |s| && s[r.index].Attr?
  {
    if s == [] then Broken
    else if s[0].Attr? then At(0)
    else if s[0].Skip? then Later(FirstAttr(s[1..]), 1)
    else Absent
  }

  lemma {:induction false} FirstAttrFirst(s: seq<Item>)
    ensures s == [] ==> FirstAttr(s) == Broken
    ensures s != [] && s[0].Attr? ==> FirstAttr(s) == At(0)
    ensures s != [] && s[0].Skip? ==> FirstAttr(s) == Later(FirstAttr(s[1..]), 1)
    ensures s != [] && (s[0].Open? || s[0].Close?) ==> FirstAttr(s) == Absent
  {
  }

  lemma {:induction false} FirstAttrStrip(s: seq<Item>)
    ensures match FirstAttr(s)
            case At(j) => Strip(s[..j]) == [] && Strip(s) != [] && Strip(s)[0] == s[j]
            case Absent => Strip(s) != [] && !Strip(s)[0].Attr?
            case Broken => Strip(s) == []
  {
    hide Strip, FirstAttr;
    FirstAttrFirst(s);
    StripEmpty();
    if s != [] {
      StripFirst(s);
      FirstAttrStrip(s[1..]);
      assert if s[0].Skip? then Strip(s) == Strip(s[1..]) else Strip(s)[0] == s[0];
      var f := FirstAttr(s);
      if f.At? && f.index > 0 {
        StripFirst(s[..f.index]);
        assert s[..f.index][1..] == s[1..][..f.index - 1];
      }
      if f.At? && f.index == 0 { assert s[..0] == []; }
    }
  }

  /** Position i of s is behind the first d properties of the node at q. */
  predicate InProps(s: seq<Item>, i: nat, root: Node, q: seq<nat>, d: nat) {
    && Path(root, q) && i <= |s| && Strip(s) == Flatten(root)
    && var n := SubTree(root, q);
         && d <= |n.props|
         && Strip(s[..i]) == Before(root, q) + [Open(n.name)] + Attrs(n.props[..d])
  }

  lemma {:induction false} FirstInProps(s: seq<Item>, k: nat, root: Node, q: seq<nat>)
    requires Opens(s, k, root, q)
    ensures InProps(s, k + 1, root, q, 0)
  {
    hide Strip, Flatten, FlattenAll, Before, After;
    var n, l, r := SubTree(root, q), Before(root, q), After(root, q);
    FlattenAt(root, q);
    NodeShape(l, n, r);
    StripIndex(s, k);
    StripFirst([s[k]]);
    StripEmpty();
    StripSplit(s[..k + 1], k);
    assert s[..k + 1][..k] == s[..k] && s[..k + 1][k..] == [s[k]] && [s[k]][1..] == [];
    assert Attrs(n.props[..0]) == [];
  }

  lemma {:induction false} DropHead(a: seq<Item>, b: seq<Item>, c: seq<Item>)
    requires a + b == a + c
    ensures b == c
  {
    assert (a + b)[|a|..] == b && (a + c)[|a|..] == c;
  }

  /** What follows the first d properties. */
  lemma {:induction false} RestOfProps(s: seq<Item>, i: nat, root: Node, q: seq<nat>, d: nat)
    requires InProps(s, i, root, q, d)
    ensures var n := SubTree(root, q); var body := FlattenAll(n.children) + ([Close] + After(root, q));
            Strip(s[i..]) == Attrs(n.props[d..]) + body && (body[0].Open? || body[0].Close?)
  {
    hide Strip, Flatten, FlattenAll, Before, After, SubTree, Path, Attrs;
    var n, l, r := SubTree(root, q), Before(root, q), After(root, q);
    var ps, body := n.props, FlattenAll(n.children) + ([Close] + r);
    FlattenAt(root, q);
    NodeShape(l, n, r);
    AttrsSplit(ps, d);
    StripSplit(s, i);
    assert l + [Open(n.name)] + ((Attrs(ps[..d]) + Attrs(ps[d..])) + body) == (l + [Open(n.name)] + Attrs(ps[..d]))
           + (Attrs(ps[d..]) + body);
    DropHead(l + [Open(n.name)] + Attrs(ps[..d]), Strip(s[i..]), Attrs(ps[d..]) + body);
  }

  lemma {:induction false} StripOneMore(s: seq<Item>, i: nat, e: nat)
    requires i + e < |s| && Strip(s[i..][..e]) == [] && !s[i + e].Skip?
    ensures Strip(s[..i + e + 1]) == Strip(s[..i]) + [s[i + e]]
  {
    hide Strip;
    var j := i + e;
    StripSplit(s[..j + 1], i);
    assert s[..j + 1][..i] == s[..i] && s[..j + 1][i..] == s[i..][..e + 1];
    StripSplit(s[i..][..e + 1], e);
    assert s[i..][..e + 1][..e] == s[i..][..e] && s[i..][..e + 1][e..] == [s[j]];
    StripFirst([s[j]]);
    StripEmpty();
    assert [s[j]][1..] == [];
  }

  lemma {:induction false} AttrsMore(ps: seq<Property>, d: nat)
    requires d < |ps|
    ensures Attrs(ps[..d + 1]) == Attrs(ps[..d]) + [Attr(ps[d].name, ps[d].value)]
    ensures Attrs(ps[d..]) != [] && Attrs(ps[d..])[0] == Attr(ps[d].name, ps[d].value)
  {
    hide Attrs;
    AttrsSnoc(ps, d);
  }

  /** The next property is property number d, if there is one. */
  lemma {:induction false} NextInProps(s: seq<Item>, i: nat, root: Node, q: seq<nat>, d: nat)
    requires InProps(s, i, root, q, d)
    ensures var ps := SubTree(root, q).props; var f := FirstAttr(s[i..]);
            if d < |ps| then f.At? && s[i + f.index] == Attr(ps[d].name, ps[d].value)
                && InProps(s, i + f.index + 1, root, q, d + 1)
            else f == Absent
  {
    hide Strip, Flatten, FlattenAll, Before, After, FirstAttr, SubTree, Path, Attrs;
    var n, f := SubTree(root, q), FirstAttr(s[i..]);
    RestOfProps(s, i, root, q, d);
    FirstAttrStrip(s[i..]);
    if d < |n.props| {
      AttrsMore(n.props, d);
      StripOneMore(s, i, f.index);
    } else {
      assert Attrs(n.props[d..]) == [];
    }
  }

  lemma {:induction false} AttrsSplit(ps: seq<Property>, d: nat)
    requires d <= |ps|
    ensures Attrs(ps) == Attrs(ps[..d]) + Attrs(ps[d..])
  {
    var a, b := Attrs(ps), Attrs(ps[..d]) + Attrs(ps[d..]);
    hide Attrs;
    assert forall i | 0 <= i < |a| :: a[i] == b[i];
  }

  // ----- Blobs -----

  /** nextprop_ on the overlay. */
  method NextProperty(e: Editor, o: nat, ghost i: nat) returns (err: Err, p: nat)
    requires e.Valid() && i <= |e.tokens| && o == Off(e.tokens + [End], i)
    ensures match FirstAttr(e.items[i..])
            case At(j) => err == Ok && p == Off(e.tokens + [End], i + j)
            case Absent => err == NotFound
            case Broken => err == BadStructure
  {
    hide Stream, Named, Off, NextTag, Image, FirstAttr;
    p := o;
    ghost var j := i;
    while true
      invariant i <= j <= |e.tokens| && p == Off(e.tokens + [End], j)
      invariant FirstAttr(e.items[i..]) == Later(FirstAttr(e.items[j..]), j - i)
      decreases |e.tokens| - j
    {
      var n := NextTag(e.Struct(), p);
      e.Step(j);
      FirstAttrFirst(e.items[j..]);
      if j < |e.items| { TailOf(e.items, j); }
      if n.tag == FDT_END { return BadStructure, 0; }
      if n.tag == FDT_PROP { return Ok, p; }
      if n.tag != FDT_NOP { return NotFound, 0; }
      p, j := n.offset, j + 1;
    }
  }

  /** What stands behind another token is short enough for the base. */
  /** Between the first token and the end, a token has what the rest of the block leaves. */
  lemma {:induction false} RoomHere(e: Editor, k: nat)
    requires e.Valid() && 0 < k < |e.tokens|
    ensures e.tokens[k].Len() + 8 <= INT_MAX
  {
    hide Stream, Named, Off, NextTag, Image, Holds, ItemOf, Token.Len, Token.Used, Token.Tag;
    var all := e.tokens + [End];
    e.TokenHere(0);
    e.TokenHere(k);
    e.TokenHere(|e.tokens|);
    OffMonotone(all, 1, k);
    OffMonotone(all, k + 1, |e.tokens|);
    UsedBound(all[0]);
    UsedBound(End);
    OffZero(all);
  }

  lemma {:induction false} SizesHere(e: Editor, k: nat)
    requires e.Valid() && 0 < k < |e.tokens|
    ensures e.items[k].Attr? ==> |e.items[k].value| <= MAX_VALUE
    ensures e.items[k].Open? ==> |e.items[k].name| <= MAX_NAME
  {
    hide Stream, Named, Off, NextTag, Image, Holds, ItemOf, GetString, U32, Nul;
    RoomHere(e, k);
    UsedBound(e.tokens[k]);
    if e.items[k].Attr? { e.PropFieldsHere(k); }
    if e.items[k].Open? { e.NameHere(k); }
  }

  lemma {:induction false} OffZero(ts: seq<Token>)
    ensures Off(ts, 0) == 0
  {
  }

  /** An offset is still that of the node when nothing up to the node has changed. */
  lemma {:induction false} AddrKept(e: Editor, was: seq<Token>, ones: seq<Item>, o: int, k: nat)
    requires e.KeptUpTo(was, ones, k) && o == Off(was + [End], k)
    ensures e.Addr(o, k)
  {
    hide Off;
    assert (was + [End])[..k] == was[..k + 1][..k] && (e.tokens + [End])[..k] == e.tokens[..k + 1][..k];
    OffAgree(was + [End], e.tokens + [End], k);
  }

  /** A node that was there is still there when only its subtree has been replaced. */
  lemma {:induction false} StillOpens(s: seq<Item>, s': seq<Item>, k: nat, root: Node, p: seq<nat>, m: Node)
    requires Opens(s, k, root, p) && k < |s'| && s'[..k + 1] == s[..k + 1] && Strip(s') == Flatten(Replace(root, p, m))
    ensures Opens(s', k, Replace(root, p, m), p)
  {
    hide Strip, Flatten, Before, Path, SubTree, Replace;
    BeforeReplace(root, p, m, m);
    assert s'[..k] == s'[..k + 1][..k] && s[..k] == s[..k + 1][..k] && s'[k] == s'[..k + 1][k] && s[k] == s[..k + 1][k];
  }

  // ----- Merging -----

  /** o is the offset of the node at p of the tree root, which the blob e stands for. */
  ghost predicate Names(e: Editor, o: int, k: nat, root: Node, p: seq<nat>)
    reads e, e.buf
  {
    e.Holding(root) && e.Addr(o, k) && Opens(e.items, k, root, p)
  }

  /** After an edit of the subtree at p the offset still names the node. */
  lemma {:induction false} NamesKept(e: Editor, was: seq<Token>, ones: seq<Item>, o: int, k: nat, root: Node,
                                     p: seq<nat>, m: Node)
    requires Opens(ones, k, root, p) && e.KeptUpTo(was, ones, k) && o == Off(was + [End], k)
    requires Path(root, p) && e.Holding(Replace(root, p, m))
    ensures Names(e, o, k, Replace(root, p, m), p)
  {
    hide Opens, Off, Strip, Flatten, Replace, Path, Editor.Valid, Decode;
    AddrKept(e, was, ones, o, k);
    e.Means(Replace(root, p, m));
    StillOpens(ones, e.items, k, root, p, m);
  }

  lemma {:induction false} MergeStep(n: Node, ps: seq<Property>, d: nat)
    requires d < |ps|
    ensures MergeProps(n, ps[d..]) == MergeProps(WithProp(n, ps[d].name, ps[d].value), ps[d + 1..])
  {
    assert ps[d..][1..] == ps[d + 1..];
  }

  // ----- What an overlay may cost -----

  /** Bytes that a property adds at most: its token, padded, and its name. */
  function PropCost(name: Bytes, value: Bytes): nat {
    12 + Align4(|value|) + |name| + 1
  }

  function PropsCost(ps: seq<Property>): nat {
    if ps == [] then 0 else PropCost(ps[0].name, ps[0].value) + PropsCost(ps[1..])
  }

  /** Bytes that merging o into a node adds at most. */
  function Cost(o: Node): nat
    decreases o, 0
  {
    PropsCost(o.props) + ChildrenCost(o.children)
  }

  function ChildCost(c: Node): nat
    decreases c, 1
  {
    8 + Align4(|c.name| + 1) + Cost(c)
  }

  function ChildrenCost(cs: seq<Node>): nat
    decreases cs, 2
  {
    if cs == [] then 0 else ChildCost(cs[0]) + ChildrenCost(cs[1..])
  }

  lemma {:induction false} PropsCostStep(ps: seq<Property>, d: nat)
    requires d < |ps|
    ensures PropsCost(ps[d..]) == PropCost(ps[d].name, ps[d].value) + PropsCost(ps[d + 1..])
  {
    assert ps[d..][1..] == ps[d + 1..];
  }

  lemma {:induction false} ChildrenCostStep(cs: seq<Node>, d: nat)
    requires d < |cs|
    ensures ChildrenCost(cs[d..]) == ChildCost(cs[d]) + ChildrenCost(cs[d + 1..])
  {
    assert cs[d..][1..] == cs[d + 1..];
  }

  /** The blob has grown by at most cost since it had this size, and if so much was free there is no error. */
  ghost predicate Took(e: Editor, size: nat, cost: nat, err: Err)
    reads e
  {
    e.DataSize() <= size + cost && (size + cost <= e.totalSize ==> err == Ok)
  }

  /** One property of the overlay, at p in its structure block, set on the node of the base. */
  method ApplyProp(base: Editor, target: int, ov: Editor, p: nat, ghost k: nat, ghost root: Node, ghost path: seq<nat>,
                   ghost j: nat)
    returns (err: Err)
    requires base != ov && base.buf != ov.buf && Names(base, target, k, root, path)
    requires ov.Valid() && 0 < j < |ov.tokens| && p == Off(ov.tokens + [End], j) && ov.items[j].Attr?
    modifies base`sizeStrings, base`sizeStruct, base`offStrings, base`tokens, base`items, base.buf
    ensures Path(root, path) && base.Valid() && base.Head() == old(base.Head())
    ensures base.KeptUpTo(old(base.tokens), old(base.items), k) && (err == Ok || err == NoSpace)
    ensures err == Ok ==> base.Holding(Replace(root, path,
                                               WithProp(SubTree(root, path), ov.items[j].name, ov.items[j].value)))
    ensures Took(base, old(base.DataSize()), PropCost(ov.items[j].name, ov.items[j].value), err)
  {
    hide Stream, Named, Off, Image, Decode, Opens, U32, GetString, Replace, SubTree, WithProp;
    ov.PropFieldsHere(j);
    SizesHere(ov, j);
    Opened(base.items, k, root, path, []);
    var st := ov.Struct();
    var len := U32(st, p + 4);
    var name := GetString(ov.Strings(), U32(st, p + 8)).value;
    err := base.SetPropAt(target, name, st[p + 12..p + 12 + len], k, root, path);
  }

  /** The same on a base whose node has already become cur. */
  method ApplyPropTo(base: Editor, target: int, ov: Editor, p: nat, ghost k: nat, ghost root: Node,
                     ghost path: seq<nat>, ghost cur: Node, ghost j: nat, ghost was: seq<Token>, ghost ones: seq<Item>)
                       returns (err: Err)
    requires base != ov && base.buf != ov.buf && Opens(ones, k, root, path) && Path(root, path)
    requires base.Holding(Replace(root, path, cur)) && base.KeptUpTo(was, ones, k) && target == Off(was + [End], k)
    requires ov.Valid() && 0 < j < |ov.tokens| && p == Off(ov.tokens + [End], j) && ov.items[j].Attr?
    modifies base`sizeStrings, base`sizeStruct, base`offStrings, base`tokens, base`items, base.buf
    ensures base.Valid() && base.Head() == old(base.Head()) && base.KeptUpTo(was, ones, k)
    ensures (err == Ok || err == NoSpace)
    ensures err == Ok ==> base.Holding(Replace(root, path, WithProp(cur, ov.items[j].name, ov.items[j].value)))
    ensures Took(base, old(base.DataSize()), PropCost(ov.items[j].name, ov.items[j].value), err)
  {
    hide Stream, Named, Off, Image, Decode, Opens, Replace, SubTree, WithProp;
    NamesKept(base, was, ones, target, k, root, path, cur);
    BeforeReplace(root, path, cur, WithProp(cur, ov.items[j].name, ov.items[j].value));
    ghost var mid, mids := base.tokens, base.items;
    err := ApplyProp(base, target, ov, p, k, Replace(root, path, cur), path, j);
    KeptTwice(base, was, ones, mid, mids, k);
  }

  /** p is the offset of the next property at or after item i. */
  ghost predicate AtProperty(ov: Editor, p: nat, i: nat)
    reads ov
  {
    && i <= |ov.items| == |ov.tokens| && FirstAttr(ov.items[i..]).At?
    && p == Off(ov.tokens + [End], i + FirstAttr(ov.items[i..]).index)
  }

  lemma {:induction false} AtPropertyHas(ov: Editor, p: nat, i: nat, oroot: Node, q: seq<nat>, d: nat) returns (h: nat)
    requires AtProperty(ov, p, i) && InProps(ov.items, i, oroot, q, d) && Path(oroot, q)
    requires d < |SubTree(oroot, q).props|
    ensures i <= h < |ov.items| && p == Off(ov.tokens + [End], h) && InProps(ov.items, h + 1, oroot, q, d + 1)
    ensures var x := SubTree(oroot, q).props[d]; ov.items[h] == Attr(x.name, x.value)
  {
    hide Off, SubTree, InProps, FirstAttr;
    NextInProps(ov.items, i, oroot, q, d);
    h := i + FirstAttr(ov.items[i..]).index;
  }

  /** fdt_first_property_offset. */
  method FirstProperty(ov: Editor, node: int, ghost j: nat, ghost oroot: Node, ghost q: seq<nat>)
    returns (e: Err, p: nat)
    requires Names(ov, node, j, oroot, q)
    ensures InProps(ov.items, j + 1, oroot, q, 0)
    ensures var ps := SubTree(oroot, q).props;
            e == (if 0 < |ps| then Ok else NotFound) && (0 < |ps| ==> AtProperty(ov, p, j + 1))
  {
    hide Stream, Named, Off, Image, Decode, Opens, SubTree, FirstAttr, InProps, Strip, Flatten;
    Opened(ov.items, j, oroot, q, []);
    ov.OpenIsNode(j);
    FirstInProps(ov.items, j, oroot, q);
    NextInProps(ov.items, j + 1, oroot, q, 0);
    PropsPath(ov.items, j + 1, oroot, q, 0);
    var next := ov.CheckNodeOffset(node, j);
    e, p := NextProperty(ov, next, j + 1);
  }

  /** fdt_next_property_offset at property number d, which is item h. */
  method FollowingProperty(ov: Editor, at: nat, ghost h: nat, ghost oroot: Node, ghost q: seq<nat>, ghost d: nat)
    returns (e: Err, p: nat)
    requires ov.Valid() && h < |ov.items| && ov.items[h].Attr? && at == Off(ov.tokens + [End], h)
    requires InProps(ov.items, h + 1, oroot, q, d)
    ensures Path(oroot, q)
    ensures var ps := SubTree(oroot, q).props;
            e == (if d < |ps| then Ok else NotFound) && (d < |ps| ==> AtProperty(ov, p, h + 1))
  {
    hide Stream, Named, Off, Image, SubTree, FirstAttr, InProps, NextTag;
    NextInProps(ov.items, h + 1, oroot, q, d);
    PropsPath(ov.items, h + 1, oroot, q, d);
    ov.Step(h);
    var n := NextTag(ov.Struct(), at);
    e, p := NextProperty(ov, n.offset, h + 1);
  }

  lemma {:induction false} PropsPath(s: seq<Item>, i: nat, root: Node, q: seq<nat>, d: nat)
    requires InProps(s, i, root, q, d)
    ensures Path(root, q) && d <= |SubTree(root, q).props| && i <= |s|
  {
  }

  /** The first loop of overlay_apply_node. */
  method ApplyProps(base: Editor, target: int, ov: Editor, node: int, ghost k: nat, ghost root: Node,
                    ghost path: seq<nat>, ghost j: nat, ghost oroot: Node, ghost q: seq<nat>) returns (err: Err)
    requires base != ov && base.buf != ov.buf && Names(base, target, k, root, path) && Names(ov, node, j, oroot, q)
    modifies base`sizeStrings, base`sizeStruct, base`offStrings, base`tokens, base`items, base.buf
    ensures Path(root, path) && Path(oroot, q) && base.Valid() && base.Head() == old(base.Head())
    ensures base.KeptUpTo(old(base.tokens), old(base.items), k) && (err == Ok || err == NoSpace)
    ensures err == Ok ==> base.Holding(Replace(root, path, MergeProps(SubTree(root, path), SubTree(oroot, q).props)))
    ensures Took(base, old(base.DataSize()), PropsCost(SubTree(oroot, q).props), err)
  {
    hide Stream, Named, Off, Image, Decode, Opens, Replace, SubTree, WithProp, MergeProps, InProps, Path, AtProperty,
         Editor.Holding, Editor.KeptUpTo;
    base.HoldingValid(root);
    ov.HoldingValid(oroot);
    Opened(base.items, k, root, path, []);
    Opened(ov.items, j, oroot, q, []);
    base.KeptSelf(k);
    ReplaceSame(root, path);
    ghost var ps, cur, d, i := SubTree(oroot, q).props, SubTree(root, path), 0, j + 1;
    assert ps[0..] == ps;
    var e, p := FirstProperty(ov, node, j, oroot, q);
    while e == Ok
      invariant base.Holding(Replace(root, path, cur)) && base.Valid()
      invariant base.KeptUpTo(old(base.tokens), old(base.items), k) && base.Head() == old(base.Head())
      invariant d <= |ps| && j < i <= |ov.items| && InProps(ov.items, i, oroot, q, d)
      invariant MergeProps(SubTree(root, path), ps) == MergeProps(cur, ps[d..])
      invariant base.DataSize() + PropsCost(ps[d..]) <= old(base.DataSize()) + PropsCost(ps)
      invariant e == (if d < |ps| then Ok else NotFound) && (d < |ps| ==> AtProperty(ov, p, i))
      decreases |ps| - d
    {
      MergeStep(cur, ps, d);
      PropsCostStep(ps, d);
      ghost var h := AtPropertyHas(ov, p, i, oroot, q, d);
      err := ApplyPropTo(base, target, ov, p, k, root, path, cur, h, old(base.tokens), old(base.items));
      if err != Ok { return; }
      cur, d, i := WithProp(cur, ps[d].name, ps[d].value), d + 1, h + 1;
      e, p := FollowingProperty(ov, p, h, oroot, q, d);
    }
    assert ps[d..] == [];
    NoMoreProps(cur);
    return Ok;
  }

  /** Find or make the child of the base that the name of the overlay child selects. */
  method PlaceChild(base: Editor, target: int, name: Bytes, ghost k: nat, ghost root: Node, ghost path: seq<nat>)
    returns (err: Err, off: nat, ghost h: nat, ghost root': Node, ghost i: nat)
    requires Names(base, target, k, root, path) && 0 !in name && |name| <= MAX_NAME
    modifies base`sizeStruct, base`offStrings, base`tokens, base`items, base.buf
    ensures Path(root, path) && base.Valid() && base.Head() == old(base.Head())
    ensures base.KeptUpTo(old(base.tokens), old(base.items), k) && (err == Ok || err == NoSpace)
    ensures err == Ok ==>
              && k < h && Path(root', path) && i < |SubTree(root', path).children|
              && Names(base, off, h, root', path + [i])
    ensures err == Ok ==>
              var n := SubTree(root, path); var c := ChildIndex(n.children, Called(name));
              if c < |n.children| then root' == root && i == c
              else root' == Replace(root, path, WithChild(n, Empty(name))) && i == 0
    ensures Took(base, old(base.DataSize()), 8 + Align4(|name| + 1), err)
  {
    hide Stream, Named, Off, Image, Decode, Opens, Replace, SubTree, ChildIndex, FindSub, SubOf, Path;
    Opened(base.items, k, root, path, []);
    base.OpenIsNode(k);
    SubOpens(base.items, k, root, path, Called(name));
    ghost var n := SubTree(root, path);
    h, root', i := k, root, ChildIndex(n.children, Called(name));
    err, off, h := base.AddSubnodeAt(target, name, k, root, path);
    if err == Exists {
      err, off := base.SubnodeOffset(target, name, k);
      h := SubOf(base.items, k, Called(name)).index;
      FoundAt(base.items, k, Called(name));
    } else if err == Ok {
      BeforeReplace(root, path, WithChild(n, Empty(name)), n);
      root', i := Replace(root, path, WithChild(n, Empty(name))), 0;
    }
  }

  lemma {:induction false} FoundAt(s: seq<Item>, k: nat, p: Pattern)
    requires k < |s| && SubOf(s, k, p).At?
    ensures k < SubOf(s, k, p).index < |s|
  {
  }

  lemma {:induction false} NoMoreProps(n: Node)
    ensures MergeProps(n, []) == n
  {
  }

  lemma {:induction false} KeptTwice(e: Editor, was: seq<Token>, ones: seq<Item>, mid: seq<Token>, mids: seq<Item>,
                                     k: nat)
    requires e.KeptUpTo(mid, mids, k) && k < |was| && k < |ones| && mid[..k + 1] == was[..k + 1]
    requires mids[..k + 1] == ones[..k + 1]
    ensures e.KeptUpTo(was, ones, k)
  {
  }

  lemma {:induction false} KeptDeeper(e: Editor, mid: seq<Token>, mids: seq<Item>, h: nat, k: nat)
    requires e.KeptUpTo(mid, mids, h) && k <= h
    ensures e.KeptUpTo(mid, mids, k)
  {
    assert e.tokens[..k + 1] == e.tokens[..h + 1][..k + 1] && mid[..k + 1] == mid[..h + 1][..k + 1];
    assert e.items[..k + 1] == e.items[..h + 1][..k + 1] && mids[..k + 1] == mids[..h + 1][..k + 1];
  }

  /** Merging into the child that was placed is merging that child into the node. */
  lemma {:induction false} PlacedMerge(root: Node, path: seq<nat>, root': Node, i: nat, c: Node)
    requires Path(root, path) && Path(root', path) && i < |SubTree(root', path).children|
    requires var n := SubTree(root, path); var x := ChildIndex(n.children, Called(c.name));
             if x < |n.children| then root' == root && i == x
             else root' == Replace(root, path, WithChild(n, Empty(c.name))) && i == 0
    ensures Path(root', path + [i])
    ensures Replace(root', path + [i], Merge(SubTree(root', path + [i]), c)) == Replace(root, path,
        MergeChild(SubTree(root, path), c))
  {
    hide Merge, Replace, SubTree, Path, ChildIndex, Before, After;
    var n := SubTree(root, path);
    PathSnoc(root', path, i);
    var m := Merge(SubTree(root', path + [i]), c);
    ReplaceChild(root', path, i, m);
    if ChildIndex(n.children, Called(c.name)) >= |n.children| {
      var n' := WithChild(n, Empty(c.name));
      BeforeReplace(root, path, n', n'.(children := n'.children[0 := m]));
      assert n'.children[0 := m] == [m] + n.children;
    }
  }

  /**
   One child of the overlay node: overlay_apply_node on the child that fdt_add_subnode or
   fdt_subnode_offset gives.
   */
  method ApplyChild(base: Editor, target: int, ov: Editor, sub: nat, ghost k: nat, ghost root: Node,
                    ghost path: seq<nat>, ghost j: nat, ghost oroot: Node, ghost q: seq<nat>, ghost o: Node)
                      returns (err: Err)
    requires base != ov && base.buf != ov.buf && Names(base, target, k, root, path) && Names(ov, sub, j, oroot, q)
    requires 0 < j && Path(oroot, q) && o == SubTree(oroot, q)
    modifies base`sizeStrings, base`sizeStruct, base`offStrings, base`tokens, base`items, base.buf
    ensures Path(root, path) && base.Valid() && base.Head() == old(base.Head())
    ensures base.KeptUpTo(old(base.tokens), old(base.items), k) && (err == Ok || err == NoSpace)
    ensures err == Ok ==> base.Holding(Replace(root, path, MergeChild(SubTree(root, path), o)))
    ensures Took(base, old(base.DataSize()), ChildCost(o), err)
    decreases o, 3
  {
    hide Stream, Named, Off, Image, Decode, Opens, Replace, SubTree, Path, Merge, MergeChild, ChildIndex, Nul, Align4,
         Cost, ChildrenCost;
    Opened(ov.items, j, oroot, q, []);
    OpenName(ov.items, j, oroot, q);
    ov.NameHere(j);
    SizesHere(ov, j);
    var st := ov.Struct();
    var name := st[sub + 4..Nul(st, sub + 4)];
    var off;
    ghost var h, root', i;
    err, off, h, root', i := PlaceChild(base, target, name, k, root, path);
    if err != Ok { return; }
    PlacedMerge(root, path, root', i, o);
    ghost var mid, mids := base.tokens, base.items;
    err := ApplyNode(base, off, ov, sub, h, root', path + [i], j, oroot, q, o);
    KeptDeeper(base, mid, mids, h, k);
    KeptTwice(base, old(base.tokens), old(base.items), mid, mids, k);
  }

  /** overlay_apply_node: the base becomes the recursive merge. */
  method ApplyNode(base: Editor, target: int, ov: Editor, node: nat, ghost k: nat, ghost root: Node,
                   ghost path: seq<nat>, ghost j: nat, ghost oroot: Node, ghost q: seq<nat>, ghost o: Node)
                     returns (err: Err)
    requires base != ov && base.buf != ov.buf && Names(base, target, k, root, path) && Names(ov, node, j, oroot, q)
    requires Path(oroot, q) && o == SubTree(oroot, q)
    modifies base`sizeStrings, base`sizeStruct, base`offStrings, base`tokens, base`items, base.buf
    ensures Path(root, path) && base.Valid() && base.Head() == old(base.Head())
    ensures base.KeptUpTo(old(base.tokens), old(base.items), k) && (err == Ok || err == NoSpace)
    ensures err == Ok ==> base.Holding(Replace(root, path, Merge(SubTree(root, path), o)))
    ensures Took(base, old(base.DataSize()), Cost(o), err)
    decreases o, 2
  {
    hide Stream, Named, Off, Image, Decode, Opens, Replace, SubTree, Path, MergeProps, MergeChildren, Editor.Holding,
         Editor.KeptUpTo;
    err := ApplyProps(base, target, ov, node, k, root, path, j, oroot, q);
    if err != Ok { return; }
    err := ApplyChildren(base, target, ov, node, k, root, path, MergeProps(SubTree(root, path), o.props), j, oroot, q,
                         o, old(base.tokens), old(base.items));
  }

  /** The second loop of overlay_apply_node, on a base whose node has become n. */
  method ApplyChildren(base: Editor, target: int, ov: Editor, node: nat, ghost k: nat, ghost root: Node,
                       ghost path: seq<nat>, ghost n: Node, ghost j: nat, ghost oroot: Node, ghost q: seq<nat>,
                       ghost o: Node, ghost was: seq<Token>, ghost ones: seq<Item>)
    returns (err: Err)
    requires base != ov && base.buf != ov.buf && Opens(ones, k, root, path) && Path(root, path)
    requires Names(ov, node, j, oroot, q)
    requires base.Holding(Replace(root, path, n)) && base.KeptUpTo(was, ones, k) && target == Off(was + [End], k)
    requires Path(oroot, q) && o == SubTree(oroot, q)
    modifies base`sizeStrings, base`sizeStruct, base`offStrings, base`tokens, base`items, base.buf
    ensures base.Valid() && base.Head() == old(base.Head()) && base.KeptUpTo(was, ones, k)
    ensures (err == Ok || err == NoSpace)
    ensures err == Ok ==> base.Holding(Replace(root, path, MergeChildren(n, o.children)))
    ensures Took(base, old(base.DataSize()), ChildrenCost(o.children), err)
    decreases o, 1
  {
    hide Stream, Named, Off, Image, Decode, Opens, Replace, SubTree, Path, Merge, MergeChild, MergeChildren, Names,
         Editor.Holding, Editor.KeptUpTo, ChildrenCost, ChildCost, Editor.Valid, Editor.Head;
    base.HoldingValid(Replace(root, path, n));
    base.LayoutHere();
    ghost var cs, cur, d := o.children, n, 0;
    assert cs[0..] == cs;
    ghost var h;
    var e, sub;
    e, sub, h := FirstChild(ov, node, j, oroot, q);
    while e == Ok
      invariant base.Holding(Replace(root, path, cur)) && base.Valid() && base.Layout()
      invariant base.Head() == old(base.Head())
      invariant base.KeptUpTo(was, ones, k)
      invariant d <= |cs| && e == if d < |cs| then Ok else NotFound
      invariant d < |cs| ==> j < h && Names(ov, sub, h, oroot, q + [d])
      invariant MergeChildren(n, cs) == MergeChildren(cur, cs[d..])
      invariant base.DataSize() + ChildrenCost(cs[d..]) <= old(base.DataSize()) + ChildrenCost(cs)
      decreases |cs| - d
    {
      MergeChildStep(cur, cs, d);
      ChildrenCostStep(cs, d);
      PathSnoc(oroot, q, d);
      err := ApplyChildTo(base, target, ov, sub, k, root, path, cur, h, oroot, q + [d], cs[d], was, ones);
      base.LayoutHere();
      if err != Ok { return; }
      e, sub, h := NextChild(ov, sub, h, oroot, q, d);
      cur, d := MergeChild(cur, cs[d]), d + 1;
    }
    assert cs[d..] == [];
    NoMoreChildren(cur);
    return Ok;
  }

  lemma {:induction false} MergeChildStep(n: Node, cs: seq<Node>, d: nat)
    requires d < |cs|
    ensures MergeChildren(n, cs[d..]) == MergeChildren(MergeChild(n, cs[d]), cs[d + 1..])
  {
    assert cs[d..][1..] == cs[d + 1..];
  }

  lemma {:induction false} NoMoreChildren(n: Node)
    ensures MergeChildren(n, []) == n
  {
  }

  /** fdt_first_subnode. */
  method FirstChild(ov: Editor, node: nat, ghost j: nat, ghost oroot: Node, ghost q: seq<nat>)
    returns (e: Err, sub: nat, ghost h: nat)
    requires Names(ov, node, j, oroot, q) && Path(oroot, q)
    ensures e == if 0 < |SubTree(oroot, q).children| then Ok else NotFound
    ensures e == Ok ==> j < h && Names(ov, sub, h, oroot, q + [0])
  {
    hide Stream, Named, Off, Image, Decode, Opens, SubTree, Path, SubOf, NextOf;
    Opened(ov.items, j, oroot, q, []);
    ov.OpenIsNode(j);
    SubOpens(ov.items, j, oroot, q, Any);
    FirstAny(SubTree(oroot, q).children);
    NextFromNode(ov.items, j);
    e, sub := ov.NextSubnode(node, true, j);
    h := if e == Ok then SubOf(ov.items, j, Any).index else 0;
    if e == Ok { FoundAt(ov.items, j, Any); }
  }

  /** fdt_next_subnode at child number d. */
  method NextChild(ov: Editor, at: nat, ghost j: nat, ghost oroot: Node, ghost q: seq<nat>, ghost d: nat)
    returns (e: Err, sub: nat, ghost h: nat)
    requires Path(oroot, q) && d < |SubTree(oroot, q).children| && Names(ov, at, j, oroot, q + [d])
    ensures e == if d + 1 < |SubTree(oroot, q).children| then Ok else NotFound
    ensures e == Ok ==> j < h && Names(ov, sub, h, oroot, q + [d + 1])
  {
    hide Stream, Named, Off, Image, Decode, Opens, SubTree, Path, SubOf, NextOf;
    Opened(ov.items, j, oroot, q + [d], []);
    ov.OpenIsNode(j);
    NextOpens(ov.items, j, oroot, q, d);
    NextFromNode(ov.items, j);
    e, sub := ov.NextSubnode(at, false, j);
    h := if e == Ok then NextOf(ov.items, j).index else 0;
    if e == Ok { NextFoundAt(ov.items, j); }
  }

  lemma {:induction false} NextFoundAt(s: seq<Item>, k: nat)
    requires k < |s| && NextOf(s, k).At?
    ensures k < NextOf(s, k).index < |s|
  {
  }

  /** ApplyChild on a base whose node has already become cur. */
  method ApplyChildTo(base: Editor, target: int, ov: Editor, sub: nat, ghost k: nat, ghost root: Node,
                      ghost path: seq<nat>, ghost cur: Node, ghost j: nat, ghost oroot: Node, ghost q: seq<nat>,
                      ghost o: Node, ghost was: seq<Token>, ghost ones: seq<Item>)
    returns (err: Err)
    requires base != ov && base.buf != ov.buf && Opens(ones, k, root, path) && Path(root, path)
    requires base.Holding(Replace(root, path, cur)) && base.KeptUpTo(was, ones, k) && target == Off(was + [End], k)
    requires Names(ov, sub, j, oroot, q) && 0 < j && Path(oroot, q) && o == SubTree(oroot, q)
    modifies base`sizeStrings, base`sizeStruct, base`offStrings, base`tokens, base`items, base.buf
    ensures base.Valid() && base.Head() == old(base.Head()) && base.KeptUpTo(was, ones, k)
    ensures (err == Ok || err == NoSpace)
    ensures err == Ok ==> base.Holding(Replace(root, path, MergeChild(cur, o)))
    ensures Took(base, old(base.DataSize()), ChildCost(o), err)
    decreases o, 4
  {
    hide Stream, Named, Off, Image, Decode, Opens, Replace, SubTree, MergeChild, Path;
    NamesKept(base, was, ones, target, k, root, path, cur);
    BeforeReplace(root, path, cur, MergeChild(cur, o));
    ghost var mid, mids := base.tokens, base.items;
    err := ApplyChild(base, target, ov, sub, k, Replace(root, path, cur), path, j, oroot, q, o);
    KeptTwice(base, was, ones, mid, mids, k);
  }
}
