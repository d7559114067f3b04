/**
 Renumbering an overlay before it is merged: fdt_overlay_apply adds the largest phandle of
 the base to every phandle of the overlay, and to every reference that its local fixups
 list.  All edits are made in place, so no offset moves.
 */
module FdtRenumber {
  import opened Basics
  import opened FdtTokens
  import opened FdtBuffer
  import opened FdtTree
  import opened FdtEdit
  import opened FdtSubnodes
  import opened FdtEditor
  import opened FdtOverlay
  import opened FdtPhandles
  import opened FdtFixups

  // ----- Edits in place -----

  predicate Alike(i: Item, j: Item) {
    match i
    case Attr(name, value) => j.Attr? && j.name == name && |j.value| == |value|
    case _ => i == j
  }

  predicate AllAlike(s: seq<Item>, t: seq<Item>) {
    |s| == |t| && forall k | 0 <= k < |s| :: Alike(s[k], t[k])
  }

  predicate SameLengths(ts: seq<Token>, us: seq<Token>) {
    |ts| == |us| && forall k | 0 <= k < |ts| :: ts[k].Len() == us[k].Len()
  }

  /** Only bytes of property values differ. */
  predicate Matches(was: seq<Token>, ones: seq<Item>, ts: seq<Token>, items: seq<Item>) {
    SameLengths(was, ts) && AllAlike(ones, items)
  }

  /** Since then only bytes of property values have changed. */
  ghost predicate InPlace(e: Editor, was: seq<Token>, ones: seq<Item>)
    reads e
  {
    Matches(was, ones, e.tokens, e.items)
  }

  lemma {:induction false} InPlaceSelf(e: Editor)
    ensures InPlace(e, e.tokens, e.items)
  {
  }

  lemma {:induction false} InPlaceOver(e: Editor, was: seq<Token>, ones: seq<Item>, mid: seq<Token>, mids: seq<Item>)
    requires Matches(was, ones, mid, mids) && InPlace(e, mid, mids)
    ensures InPlace(e, was, ones)
  {
    forall k | 0 <= k < |was| ensures was[k].Len() == e.tokens[k].Len() { assert mid[k].Len() == e.tokens[k].Len(); }
    forall k | 0 <= k < |ones| ensures Alike(ones[k], e.items[k]) {
      assert Alike(ones[k], mids[k]) && Alike(mids[k], e.items[k]);
    }
  }

  lemma {:induction false} SameOffsets(ts: seq<Token>, us: seq<Token>, k: nat)
    requires SameLengths(ts, us) && k <= |ts|
    ensures Off(ts, k) == Off(us, k)
  {
    if k > 0 {
      assert ts[0].Len() == us[0].Len();
      assert SameLengths(ts[1..], us[1..]) by {
        forall i | 0 <= i < |ts[1..]| ensures ts[1..][i].Len() == us[1..][i].Len() {
          assert ts[i + 1].Len() == us[i + 1].Len();
        }
      }
      SameOffsets(ts[1..], us[1..], k - 1);
    }
  }

  lemma {:induction false} AlikeStrip(s: seq<Item>, t: seq<Item>)
    requires AllAlike(s, t)
    ensures |Strip(s)| == |Strip(t)|
  {
    if s != [] {
      assert Alike(s[0], t[0]);
      assert AllAlike(s[1..], t[1..]) by {
        forall i | 0 <= i < |s[1..]| ensures Alike(s[1..][i], t[1..][i]) { assert Alike(s[i + 1], t[i + 1]); }
      }
      AlikeStrip(s[1..], t[1..]);
    }
  }

  /** An offset names the same node as before, in the new tree. */
  lemma {:induction false} NamesInPlace(e: Editor, was: seq<Token>, ones: seq<Item>, o: int, k: nat, root: Node,
                                        p: seq<nat>, root': Node)
    requires InPlace(e, was, ones) && Opens(ones, k, root, p) && k <= |was| && o == Off(was + [End], k)
    requires e.Holding(root') && SameShape(root, root')
    ensures Names(e, o, k, root', p)
  {
    hide Off, Strip, Flatten, Before, Path, Editor.Valid, Decode, SameShape;
    e.Means(root');
    ShapePath(root, root', p);
    assert SameLengths(was + [End], e.tokens + [End]) by {
      forall i | 0 <= i <= |was| ensures (was + [End])[i].Len() == (e.tokens + [End])[i].Len() {
        assert i < |was| ==> was[i].Len() == e.tokens[i].Len();
      }
    }
    SameOffsets(was + [End], e.tokens + [End], k);
    assert Alike(ones[k], e.items[k]);
    assert AllAlike(ones[..k], e.items[..k]) by {
      forall i | 0 <= i < k ensures Alike(ones[..k][i], e.items[..k][i]) { assert Alike(ones[i], e.items[i]); }
    }
    AlikeStrip(ones[..k], e.items[..k]);
    FoundOpens(e.items, k, root', p);
  }

  /** The same, from an offset that named a node. */
  lemma {:induction false} NamedThen(e: Editor, o: int, k: nat, root: Node, p: seq<nat>)
    requires Names(e, o, k, root, p)
    ensures e.Valid() && Opens(e.items, k, root, p) && k < |e.tokens| == |e.items| && o == Off(e.tokens + [End], k)
    ensures Path(root, p)
    ensures e.IsNode(k) && Strip(e.items) == Flatten(root)
  {
    hide Off, Strip, Flatten, Before, Path, Decode;
    e.Means(root);
    e.OpenIsNode(k);
  }

  /** The property `name` of the node at p, among the items. */
  lemma {:induction false} PropertyAt(s: seq<Item>, k: nat, root: Node, p: seq<nat>, name: Bytes)
    requires Opens(s, k, root, p)
    ensures Path(root, p)
    ensures var v := GetProp(SubTree(root, p), name);
            match AttrOf(s, k, name)
            case At(j) => v == Some(s[j].value)
            case Absent => v.None?
            case Broken => false
  {
    Opened(s, k, root, p, name);
    EraseAttrTree(s, k, root, p, name, 0);
  }

  lemma {:induction false} ValueSet(s: seq<Item>, k: nat, root: Node, p: seq<nat>, name: Bytes, v: Bytes)
    requires Opens(s, k, root, p) && AttrOf(s, k, name).At?
    ensures var j := AttrOf(s, k, name).index;
            Path(root, p) && Strip(s[j := Attr(name, v)]) == Flatten(Replace(root, p,
                WithProp(SubTree(root, p), name, v)))
  {
    hide Strip, Flatten, Before, WithProp, SubTree, Replace, FindAttr;
    var j := AttrOf(s, k, name).index;
    SetAttrTree(s, k, root, p, name, v);
    assert SetAttr(s, k, name, v) == Cut(s, j, j + 1, [Attr(name, v)]);
    UpdateIs(s, j, Attr(name, v));
  }

  /** fdt_setprop_inplace_namelen_partial for one cell. */
  method SetCell(e: Editor, o: int, name: Bytes, idx: nat, cell: Bytes, ghost k: nat, ghost root: Node,
                 ghost path: seq<nat>)
    returns (err: Err)
    requires Names(e, o, k, root, path) && |cell| == 4 && idx < WORD
    modifies e`tokens, e`items, e.buf
    ensures Path(root, path) && e.Valid() && e.Head() == old(e.Head()) && e.Strings() == old(e.Strings())
    ensures InPlace(e, old(e.tokens), old(e.items))
    ensures var v := GetProp(SubTree(root, path), name);
            && err == (if v.None? then NotFound else if CellErr(|v.value|, idx) == BadOverlay then NoSpace
                       else CellErr(|v.value|, idx))
            && (err != Ok ==> e.Holding(root))
            && (err == Ok ==> e.Holding(Replace(root, path,
                                                WithProp(SubTree(root, path), name, Overwrite(v.value, idx, cell)))))
  {
    hide Stream, Named, Off, Image, Decode, Opens, WithProp, SubTree, Replace, FindAttr, Strip, Flatten, AttrOf,
         GetProp, Overwrite, Path, Matches, U32, GetString, Token.Len;
    NamedThen(e, o, k, root, path);
    PropertyAt(e.items, k, root, path, name);
    InPlaceSelf(e);
    var p, len;
    err, p, len := e.GetProperty(o, name, k);
    if err != Ok { return; }
    ghost var j := AttrOf(e.items, k, name).index;
    e.PropFieldsHere(j);
    if len < (4 + idx) % WORD { return NoSpace; }
    if len < 4 + idx { return Stray; }
    ghost var v := Overwrite(e.items[j].value, idx, cell);
    ValueSet(e.items, k, root, path, name, v);
    OneChanged(e.tokens, e.items, j, v);
    e.Patch(p, idx, cell, j);
    e.Means(Replace(root, path, WithProp(SubTree(root, path), name, v)));
  }

  lemma {:induction false} OneChanged(ts: seq<Token>, s: seq<Item>, j: nat, v: Bytes)
    requires j < |ts| == |s| && ts[j].Prop? && s[j].Attr? && |v| == |ts[j].value| == |s[j].value|
    ensures Matches(ts, s, ts[j := Prop(ts[j].nameoff, v)], s[j := Attr(s[j].name, v)])
  {
  }

  /** fdt_getprop with the value as a sequence. */
  method GetValue(e: Editor, o: int, name: Bytes, ghost k: nat, ghost root: Node, ghost path: seq<nat>)
    returns (err: Err, v: Bytes)
    requires Names(e, o, k, root, path)
    ensures Path(root, path)
    ensures var w := GetProp(SubTree(root, path), name); if w.Some? then err == Ok && v == w.value else err == NotFound
  {
    hide Stream, Named, Off, Image, Decode, Opens, SubTree, FindAttr, Strip, Flatten, AttrOf, GetProp, Path;
    NamedThen(e, o, k, root, path);
    PropertyAt(e.items, k, root, path, name);
    var p, len;
    err, p, len := e.GetProperty(o, name, k);
    if err != Ok { return err, []; }
    e.PropFieldsHere(AttrOf(e.items, k, name).index);
    v := e.Struct()[p + 12..p + 12 + len];
  }

  // ----- Numbers -----

  /** fdt_get_phandle. */
  method GetPhandle(e: Editor, o: int, ghost k: nat, ghost root: Node, ghost path: seq<nat>) returns (x: nat)
    requires Names(e, o, k, root, path)
    ensures Path(root, path) && x == PhandleOf(SubTree(root, path))
  {
    hide Names, GetProp, SubTree;
    var err, v := GetValue(e, o, PHANDLE, k, root, path);
    if err != Ok || |v| != 4 {
      err, v := GetValue(e, o, LINUX_PHANDLE, k, root, path);
      if err != Ok || |v| != 4 { return 0; }
    }
    x := U32(v, 0);
  }

  /** overlay_phandle_add_offset, with its sums in 32 bits. */
  method AddOffset(e: Editor, o: int, name: Bytes, delta: nat, ghost k: nat, ghost root: Node, ghost path: seq<nat>)
    returns (err: Err)
    requires Names(e, o, k, root, path) && delta < WORD
    modifies e`tokens, e`items, e.buf
    ensures Path(root, path) && e.Head() == old(e.Head()) && InPlace(e, old(e.tokens), old(e.items)) && e.Layout()
    ensures var n := SubTree(root, path);
            && err == (if GetProp(n, name).None? then NotFound else BumpErr(n, name, delta))
            && e.Holding(Replace(root, path, Bump(n, name, delta)))
  {
    hide Names, GetProp, SubTree, Path, WithProp, Replace, Matches, Decode, Image, Editor.Holding, Bump, BumpErr, U32,
         BE32;
    KnowPath(e, o, k, root, path);
    ReplaceSame(root, path);
    InPlaceSelf(e);
    var v;
    err, v := GetValue(e, o, name, k, root, path);
    BumpCases(SubTree(root, path), name, delta);
    if err != Ok { return; }
    if |v| != 4 { return BadPhandle; }
    var x := U32(v, 0);
    BumpWraps(SubTree(root, path), name, delta, v);
    if (x + delta) % WORD < x { return NoPhandles; }
    if (x + delta) % WORD == WORD - 1 { return NoPhandles; }
    WholeValue(v, BE32(x + delta));
    err := SetCell(e, o, name, 0, BE32(x + delta), k, root, path);
  }

  lemma {:induction false} BumpCases(n: Node, name: Bytes, delta: nat)
    ensures GetProp(n, name).None? ==> Bump(n, name, delta) == n
    ensures GetProp(n, name).Some? && |GetProp(n, name).value| != 4 ==>
              && Bump(n, name, delta) == n
              && BumpErr(n, name, delta) == BadPhandle
  {
  }

  /** The two tests of the wrapped sum. */
  lemma {:induction false} BumpWraps(n: Node, name: Bytes, delta: nat, v: Bytes)
    requires GetProp(n, name) == Some(v) && |v| == 4 && delta < WORD
    ensures var x := U32(v, 0); var y := (x + delta) % WORD;
            if y < x || y == WORD - 1 then Bump(n, name, delta) == n && BumpErr(n, name, delta) == NoPhandles
            else
              && x + delta < WORD && BumpErr(n, name, delta) == Ok
              && Bump(n, name, delta) == WithProp(n, name, BE32(x + delta))
  {
    hide GetProp, WithProp, BE32;
  }

  lemma {:induction false} WholeValue(v: Bytes, cell: Bytes)
    requires |v| == |cell| == 4
    ensures Overwrite(v, 0, cell) == cell && CellErr(4, 0) == Ok
  {
  }

  lemma {:induction false} KnowPath(e: Editor, o: int, k: nat, root: Node, path: seq<nat>)
    requires Names(e, o, k, root, path)
    ensures Path(root, path) && e.Holding(root) && e.Valid() && k < |e.tokens| == |e.items|
    ensures Opens(e.items, k, root, path) && o == Off(e.tokens + [End], k)
  {
    NamedThen(e, o, k, root, path);
  }

  /** overlay_adjust_node_phandles on the node n at path. */
  method AdjustNode(e: Editor, o: nat, delta: nat, ghost k: nat, ghost root: Node, ghost path: seq<nat>, ghost n: Node)
    returns (err: Err, ghost root': Node)
    requires Names(e, o, k, root, path) && delta < WORD && Path(root, path) && SubTree(root, path) == n
    modifies e`tokens, e`items, e.buf
    ensures e.Layout() && e.Head() == old(e.Head()) && InPlace(e, old(e.tokens), old(e.items))
    ensures e.Holding(root') && SameShape(root, root')
    ensures err == Trouble(n, delta)
    ensures err == Ok ==> root' == Replace(root, path, Shift(n, delta))
    decreases n, 1
  {
    hide Names, SubTree, Path, Replace, Matches, Decode, Bump, BumpErr, Image, Shift, SameShape, Off, Opens;
    ghost var was, ones := e.tokens, e.items;
    KnowPath(e, o, k, root, path);
    ghost var n1 := Bump(n, PHANDLE, delta);
    ghost var n2 := Bump(n1, LINUX_PHANDLE, delta);
    BumpKeeps(n, delta);
    err := AddOffset(e, o, PHANDLE, delta, k, root, path);
    root' := Replace(root, path, n1);
    ShapeReplace(root, path, n1);
    if err != Ok && err != NotFound { return; }
    NamesInPlace(e, was, ones, o, k, root, path, root');
    BeforeReplace(root, path, n1, n2);
    ghost var mid, mids := e.tokens, e.items;
    err := AddOffset(e, o, LINUX_PHANDLE, delta, k, root', path);
    InPlaceOver(e, was, ones, mid, mids);
    root' := Replace(root, path, n2);
    ShapeReplace(root, path, n2);
    if err != Ok && err != NotFound { return; }
    err, root' := AdjustChildren(e, o, delta, k, root, path, n, was, ones);
  }

  lemma {:induction false} BumpKeeps(n: Node, delta: nat)
    ensures var n1 := Bump(n, PHANDLE, delta);
            && SameShape(n, n1) && SameShape(n, BumpBoth(n, delta))
            && (BumpErr(n, PHANDLE, delta) != Ok ==> n1 == n)
            && BumpErr(n1, LINUX_PHANDLE, delta) == BumpErr(n, LINUX_PHANDLE, delta)
            && BumpErr(n, PHANDLE, delta) != NotFound && BumpErr(n, LINUX_PHANDLE, delta) != NotFound
            && (GetProp(n, PHANDLE).None? ==> BumpErr(n, PHANDLE, delta) == Ok)
            && (GetProp(n1, LINUX_PHANDLE).None? ==> BumpErr(n1, LINUX_PHANDLE, delta) == Ok)
  {
    hide GetProp, Bump, SameShape;
    NamesDiffer();
    var n1 := Bump(n, PHANDLE, delta);
    BumpGet(n, PHANDLE, delta, LINUX_PHANDLE);
    BumpGet(n1, LINUX_PHANDLE, delta, PHANDLE);
    ShapeTrans(n, n1, BumpBoth(n, delta));
    BumpStays(n, PHANDLE, delta);
  }

  lemma {:induction false} BumpStays(n: Node, name: Bytes, delta: nat)
    ensures BumpErr(n, name, delta) != Ok ==> Bump(n, name, delta) == n
  {
  }

  /** n with its own numbers shifted and the first d children done. */
  function Partly(n: Node, delta: nat, d: nat): Node
    requires d <= |n.children|
  {
    Node(n.name, BumpBoth(n, delta).props, ShiftAll(n.children[..d], delta) + n.children[d..])
  }

  lemma {:induction false} PartlyEnds(n: Node, delta: nat)
    ensures Partly(n, delta, 0) == BumpBoth(n, delta) && Partly(n, delta, |n.children|) == Shift(n, delta)
  {
    BumpChildren(n, PHANDLE, delta);
    BumpChildren(Bump(n, PHANDLE, delta), LINUX_PHANDLE, delta);
    assert n.children[..|n.children|] == n.children && n.children[0..] == n.children;
  }

  lemma {:induction false} BumpChildren(n: Node, name: Bytes, delta: nat)
    ensures Bump(n, name, delta).children == n.children && Bump(n, name, delta).name == n.name
  {
  }

  lemma {:induction false} PartlyStep(n: Node, delta: nat, d: nat)
    requires d < |n.children|
    ensures var m := Partly(n, delta, d);
            |m.children| == |n.children| && m.children[d] == n.children[d] &&
            m.(children := m.children[d := Shift(n.children[d], delta)]) == Partly(n, delta, d + 1)
  {
    hide Shift, BumpBoth;
    var cs := n.children;
    var a, b := ShiftAll(cs[..d], delta) + cs[d..], ShiftAll(cs[..d + 1], delta) + cs[d + 1..];
    assert a[d := Shift(cs[d], delta)] == b;
  }

  lemma {:induction false} PartlyShape(n: Node, delta: nat, d: nat)
    requires d <= |n.children|
    ensures SameShape(n, Partly(n, delta, d))
  {
    hide Bump, Shift;
    BumpKeeps(n, delta);
    forall i | 0 <= i < |n.children| ensures SameShape(n.children[i], Partly(n, delta, d).children[i]) {
      ShapeSelf(n.children[i]);
      ShiftShape(n.children[i], delta);
    }
  }

  /** In root' the first d children of the node n at path are done. */
  ghost predicate Doing(root: Node, root': Node, path: seq<nat>, n: Node, delta: nat, d: nat) {
    && Path(root, path) && d <= |n.children| && root' == Replace(root, path, Partly(n, delta, d))
    && SameShape(root, root')
    && Path(root', path) && SubTree(root', path) == Partly(n, delta, d)
  }

  lemma {:induction false} DoingStart(root: Node, path: seq<nat>, n: Node, delta: nat)
    requires Path(root, path) && SubTree(root, path) == n
    ensures Doing(root, Replace(root, path, BumpBoth(n, delta)), path, n, delta, 0)
  {
    hide Path, SubTree, Replace, Partly, BumpBoth, SameShape;
    var m := BumpBoth(n, delta);
    PartlyEnds(n, delta);
    PartlyShape(n, delta, 0);
    ShapeReplace(root, path, m);
    BeforeReplace(root, path, m, m);
  }

  lemma {:induction false} DoingNow(root: Node, root': Node, path: seq<nat>, n: Node, delta: nat, d: nat)
    requires Doing(root, root', path, n, delta, d)
    ensures Path(root', path) && |SubTree(root', path).children| == |n.children| && SameShape(root, root')
    ensures d < |n.children| ==> Path(root', path + [d]) && SubTree(root', path + [d]) == n.children[d]
    ensures d == |n.children| ==> root' == Replace(root, path, Shift(n, delta))
  {
    hide Path, SubTree, Replace, Partly, SameShape, Before, After;
    PartlyCount(n, delta, d);
    PartlyEnds(n, delta);
    if d < |n.children| {
      PathSnoc(root', path, d);
      PartlyStep(n, delta, d);
    }
  }

  lemma {:induction false} DoingNext(root: Node, root': Node, path: seq<nat>, n: Node, delta: nat, d: nat)
    requires Doing(root, root', path, n, delta, d) && d < |n.children| && Path(root', path + [d])
    ensures Doing(root, Replace(root', path + [d], Shift(n.children[d], delta)), path, n, delta, d + 1)
  {
    hide Path, SubTree, Replace, Partly, SameShape, Before, Shift;
    var m, m' := Partly(n, delta, d), Partly(n, delta, d + 1);
    PartlyCount(n, delta, d);
    PartlyStep(n, delta, d);
    PathSnoc(root', path, d);
    ReplaceChild(root', path, d, Shift(n.children[d], delta));
    BeforeReplace(root, path, m, m');
    BeforeReplace(root, path, m', m');
    PartlyShape(n, delta, d + 1);
    PartlyShape(n, delta, d);
    ShapeSym(n, m);
    ShapeTrans(m, n, m');
    ReplaceShape(root, root', path, m, m');
  }

  lemma {:induction false} ReplaceShape(root: Node, root': Node, path: seq<nat>, m: Node, m': Node)
    requires Path(root, path) && Path(root', path) && SubTree(root', path) == m && SameShape(root, root')
    requires SameShape(m, m')
    requires root' == Replace(root, path, m)
    ensures SameShape(root, Replace(root, path, m'))
  {
    hide Path, SubTree, Replace, SameShape;
    ShapeReplace(root', path, m');
    BeforeReplace(root, path, m, m');
    ShapeTrans(root, root', Replace(root, path, m'));
  }

  /** The loop over the children of n. */
  method AdjustChildren(e: Editor, o: nat, delta: nat, ghost k: nat, ghost root: Node, ghost path: seq<nat>,
                        ghost n: Node, ghost was: seq<Token>, ghost ones: seq<Item>)
    returns (err: Err, ghost root': Node)
    requires Opens(ones, k, root, path) && k <= |was| && o == Off(was + [End], k) && InPlace(e, was, ones)
    requires delta < WORD
    requires Path(root, path) && SubTree(root, path) == n && e.Holding(Replace(root, path, BumpBoth(n, delta)))
    modifies e`tokens, e`items, e.buf
    ensures e.Layout() && e.Head() == old(e.Head()) && InPlace(e, was, ones)
    ensures e.Holding(root') && SameShape(root, root')
    ensures err == TroubleAmong(n.children, delta)
    ensures err == Ok ==> root' == Replace(root, path, Shift(n, delta))
    decreases n, 0
  {
    hide Names, SubTree, Path, Replace, Matches, Decode, Image, Shift, SameShape, Off, Opens, Doing, Trouble,
         TroubleAmong, Editor.Holding;
    ghost var cs, d := n.children, 0;
    root' := Replace(root, path, BumpBoth(n, delta));
    e.HoldingValid(root');
    DoingStart(root, path, n, delta);
    DoingNow(root, root', path, n, delta, 0);
    NamesInPlace(e, was, ones, o, k, root, path, root');
    assert cs[0..] == cs;
    ghost var h;
    var sub, s;
    s, sub, h := FirstChild(e, o, k, root', path);
    while s == Ok
      invariant d <= |cs| && Doing(root, root', path, n, delta, d)
      invariant e.Holding(root') && e.Valid() && e.Head() == old(e.Head()) && InPlace(e, was, ones)
      invariant s == if d < |cs| then Ok else NotFound
      invariant d < |cs| ==> Names(e, sub, h, root', path + [d])
      invariant TroubleAmong(cs, delta) == TroubleAmong(cs[d..], delta)
      decreases |cs| - d
    {
      ghost var mid, mids, before := e.tokens, e.items, root';
      DoingNow(root, before, path, n, delta, d);
      KnowPath(e, sub, h, before, path + [d]);
      TroubleStep(cs, d, delta);
      err, root' := AdjustNode(e, sub, delta, h, before, path + [d], cs[d]);
      InPlaceOver(e, was, ones, mid, mids);
      e.HoldingValid(root');
      ShapeTrans(root, before, root');
      if err != Ok { return; }
      DoingNext(root, before, path, n, delta, d);
      DoingNow(root, root', path, n, delta, d + 1);
      NamesInPlace(e, mid, mids, sub, h, before, path + [d], root');
      s, sub, h := NextChild(e, sub, h, root', path, d);
      d := d + 1;
    }
    assert cs[d..] == [];
    TroubleDone(delta);
    DoingNow(root, root', path, n, delta, d);
    err := Ok;
  }

  lemma {:induction false} PartlyCount(n: Node, delta: nat, d: nat)
    requires d <= |n.children|
    ensures |Partly(n, delta, d).children| == |n.children|
  {
  }

  lemma {:induction false} TroubleDone(delta: nat)
    ensures TroubleAmong([], delta) == Ok
  {
  }

  lemma {:induction false} TroubleStep(ns: seq<Node>, d: nat, delta: nat)
    requires d < |ns|
    ensures TroubleAmong(ns[d..], delta) ==
            if Trouble(ns[d], delta) != Ok then Trouble(ns[d], delta) else TroubleAmong(ns[d + 1..], delta)
  {
    assert ns[d..][0] == ns[d] && ns[d..][1..] == ns[d + 1..];
  }

  // ----- The largest number -----

  /** fdt_next_node without a depth, from the node k or, for k == -1, from the start. */
  method NextAnyNode(e: Editor, o: int, ghost k: int) returns (next: int, ghost k': nat)
    requires e.Valid() && -1 <= k && if k < 0 then o < 0 else e.Addr(o, k) && e.IsNode(k) && 0 <= o
    ensures next < 0 ==> forall i | k < i < |e.items| :: !e.items[i].Open?
    ensures 0 <= next ==> k < k' < |e.items| && e.items[k'].Open? && e.Addr(next, k') && forall i | k < i < k' ::
            !e.items[i].Open?
  {
    hide Stream, Named, Off, NextTag, Image;
    next := 0;
    k' := k + 1;
    OffZero(e.tokens + [End]);
    if o >= 0 { next := e.CheckNodeOffset(o, k); }
    while true
      invariant k < k' <= |e.tokens| && next == Off(e.tokens + [End], k')
      invariant forall i | k < i < k' :: !e.items[i].Open?
      decreases |e.tokens| - k'
    {
      var here := next;
      var n := NextTag(e.Struct(), here);
      e.Step(k');
      e.NodeTag(k');
      if n.tag == FDT_END { return -1, k'; }
      if n.tag == FDT_BEGIN_NODE { return here, k'; }
      next, k' := n.offset, k' + 1;
    }
  }

  lemma {:induction false} StripPosition(s: seq<Item>, i: nat) returns (k: nat)
    requires i < |Strip(s)|
    ensures k < |s| && |Strip(s[..k])| == i && s[k] == Strip(s)[i]
  {
    if s[0].Skip? {
      k := StripPosition(s[1..], i);
      assert s[..k + 1][1..] == s[1..][..k];
      k := k + 1;
    } else if i == 0 {
      k := 0;
    } else {
      k := StripPosition(s[1..], i - 1);
      assert s[..k + 1][1..] == s[1..][..k];
      k := k + 1;
    }
  }

  /** Every node of the tree is opened somewhere. */
  lemma {:induction false} PathPosition(s: seq<Item>, root: Node, p: seq<nat>) returns (k: nat)
    requires Strip(s) == Flatten(root) && Path(root, p)
    ensures Opens(s, k, root, p)
  {
    hide Strip, Flatten, Before, After;
    FlattenAt(root, p);
    FlattenSize(SubTree(root, p));
    var i := |Before(root, p)|;
    assert Flatten(root)[i] == Flatten(SubTree(root, p))[0];
    k := StripPosition(s, i);
    FoundOpens(s, k, root, p);
  }

  lemma {:induction false} OnePhandle(s: seq<Item>, k: nat, root: Node, p: seq<nat>, q: seq<nat>)
    requires Opens(s, k, root, p) && Opens(s, k, root, q)
    ensures Path(root, p) && Path(root, q) && PhandleOf(SubTree(root, p)) == PhandleOf(SubTree(root, q))
  {
    hide Opens, GetProp, SubTree, AttrOf, Path;
    PropertyAt(s, k, root, p, PHANDLE);
    PropertyAt(s, k, root, q, PHANDLE);
    PropertyAt(s, k, root, p, LINUX_PHANDLE);
    PropertyAt(s, k, root, q, LINUX_PHANDLE);
  }

  /** No node opened up to item k has a number above max. */
  ghost predicate BoundedTo(s: seq<Item>, k: int, root: Node, max: nat) {
    forall j: nat, p | j <= k && Opens(s, j, root, p) :: Path(root, p) && PhandleOf(SubTree(root, p)) <= max
  }

  ghost predicate Attained(root: Node, max: nat) {
    exists p :: Path(root, p) && PhandleOf(SubTree(root, p)) == max
  }

  lemma {:induction false} BoundedMore(s: seq<Item>, k: int, k': nat, root: Node, max: nat, p: seq<nat>, max': nat)
    requires -1 <= k < k' <= |s| && BoundedTo(s, k, root, max) && (forall i | k < i < k' :: !s[i].Open?)
    requires Opens(s, k', root, p)
    requires Path(root, p) && max <= max' && PhandleOf(SubTree(root, p)) <= max'
    ensures BoundedTo(s, k', root, max')
  {
    forall j: nat, q | j <= k' && Opens(s, j, root, q) ensures Path(root, q) && PhandleOf(SubTree(root, q)) <= max' {
      if j == k' { OnePhandle(s, k', root, p, q); }
    }
  }

  lemma {:induction false} BoundedAll(s: seq<Item>, k: int, root: Node, max: nat)
    requires -1 <= k && BoundedTo(s, k, root, max) && Strip(s) == Flatten(root)
    requires (forall i | k < i < |s| :: !s[i].Open?)
    requires 0 <= k ==> Attained(root, max)
    ensures IsMaxPhandle(root, max)
  {
    hide Flatten, Strip;
    forall p | Path(root, p) ensures 0 <= k && PhandleOf(SubTree(root, p)) <= max {
      var j := PathPosition(s, root, p);
      assert Opens(s, j, root, p);
    }
    var here: seq<nat> := [];
    assert Path(root, here);
  }

  /** fdt_find_max_phandle. */
  method FindMaxPhandle(e: Editor, ghost root: Node) returns (max: nat)
    requires e.Holding(root)
    ensures IsMaxPhandle(root, max) && max < WORD
  {
    hide Stream, Named, Off, Image, Decode, Opens, BoundedTo, PhandleOf, SubTree, Path, IsMaxPhandle, Attained, Strip,
         Flatten;
    max := 0;
    e.Means(root);
    ghost var k := -1;
    NoneYet(e.items, root);
    var o := -1;
    while true
      invariant -1 <= k && (k < 0 ==> o < 0 && max == 0)
      invariant 0 <= k ==> e.Addr(o, k) && e.IsNode(k) && 0 <= o && Attained(root, max)
      invariant BoundedTo(e.items, k, root, max) && max < WORD && k < |e.items|
      decreases |e.items| - k
    {
      ghost var was := k;
      var next;
      next, k := NextAnyNode(e, o, k);
      if next < 0 {
        BoundedAll(e.items, was, root, max);
        return;
      }
      ghost var p := OpensSome(e.items, k, root);
      e.OpenIsNode(k);
      var value := GetPhandle(e, next, k, root, p);
      PhandleWord(SubTree(root, p));
      BoundedMore(e.items, was, k, root, max, p, if value > max then value else max);
      if value > max || was < 0 { AttainedAt(root, p); }
      if value > max { max := value; }
      o := next;
    }
  }

  lemma {:induction false} NoneYet(s: seq<Item>, root: Node)
    ensures BoundedTo(s, -1, root, 0)
  {
  }

  lemma {:induction false} PhandleWord(n: Node)
    ensures PhandleOf(n) < WORD
  {
  }

  lemma {:induction false} AttainedAt(root: Node, p: seq<nat>)
    requires Path(root, p)
    ensures Attained(root, PhandleOf(SubTree(root, p)))
  {
  }

  // ----- Local fixups -----

  lemma {:induction false} InPropsFound(s: seq<Item>, i: nat, root: Node, q: seq<nat>, d: nat)
    requires Path(root, q) && i <= |s| && Strip(s) == Flatten(root) && d <= |SubTree(root, q).props|
    requires |Strip(s[..i])| == |Before(root, q)| + 1 + d
    ensures InProps(s, i, root, q, d)
  {
    hide Strip, Flatten, FlattenAll, Before, After, SubTree, Path, Attrs;
    var n, l, r := SubTree(root, q), Before(root, q), After(root, q);
    var ps, body := n.props, FlattenAll(n.children) + ([Close] + r);
    FlattenAt(root, q);
    NodeShape(l, n, r);
    AttrsSplit(ps, d);
    StripSplit(s, i);
    var pre, post := l + [Open(n.name)] + Attrs(ps[..d]), Attrs(ps[d..]) + body;
    assert l + [Open(n.name)] + ((Attrs(ps[..d]) + Attrs(ps[d..])) + body) == pre + post;
    assert (Strip(s[..i]) + Strip(s[i..]))[..|pre|] == Strip(s[..i]) && (pre + post)[..|pre|] == pre;
  }

  /** fp is the offset of property d of the node at f. */
  ghost predicate AtList(e: Editor, fp: nat, h: nat, root: Node, f: seq<nat>, d: nat)
    reads e
  {
    && h < |e.items| == |e.tokens| && e.items[h].Attr? && fp == Off(e.tokens + [End], h)
    && InProps(e.items, h + 1, root, f, d + 1)
  }

  lemma {:induction false} AtListKnows(e: Editor, fp: nat, h: nat, root: Node, f: seq<nat>, d: nat)
    requires AtList(e, fp, h, root, f, d)
    ensures h < |e.items| == |e.tokens| && e.items[h].Attr? && fp == Off(e.tokens + [End], h)
    ensures InProps(e.items, h + 1, root, f, d + 1) && Path(root, f) && d < |SubTree(root, f).props|
    ensures var x := SubTree(root, f).props[d]; e.items[h] == Attr(x.name, x.value)
  {
    hide Off, Strip, Before, SubTree, Path, Attrs;
    var s, n := e.items, SubTree(root, f);
    StripIndex(s, h);
    StripSplit(s[..h + 1], h);
    assert s[..h + 1][..h] == s[..h] && s[..h + 1][h..] == [s[h]];
    StripOne(s[h].name, s[h].value);
    AttrsSnoc(n.props, d);
    var x := Attr(n.props[d].name, n.props[d].value);
    var all := Before(root, f) + [Open(n.name)] + Attrs(n.props[..d]);
    assert Before(root, f) + [Open(n.name)] + (Attrs(n.props[..d]) + [x]) == all + [x];
    assert (Strip(s[..h]) + [s[h]])[|Strip(s[..h])|] == s[h] && (all + [x])[|all|] == x;
  }

  lemma {:induction false} AtListInPlace(e: Editor, was: seq<Token>, ones: seq<Item>, fp: nat, h: nat, root: Node,
                                         f: seq<nat>, d: nat, root': Node)
    requires InPlace(e, was, ones) && e.Holding(root') && SameShape(root, root')
    requires h < |ones| == |was| && ones[h].Attr? && fp == Off(was + [End], h) && InProps(ones, h + 1, root, f, d + 1)
    ensures AtList(e, fp, h, root', f, d)
  {
    hide Off, Strip, Flatten, Before, Path, Editor.Valid, Decode, SameShape, SubTree, Attrs;
    e.Means(root');
    ShapePath(root, root', f);
    ShapeTop(SubTree(root, f), SubTree(root', f));
    assert SameLengths(was + [End], e.tokens + [End]) by {
      forall i | 0 <= i <= |was| ensures (was + [End])[i].Len() == (e.tokens + [End])[i].Len() {
        assert i < |was| ==> was[i].Len() == e.tokens[i].Len();
      }
    }
    SameOffsets(was + [End], e.tokens + [End], h);
    assert Alike(ones[h], e.items[h]);
    var m := h + 1;
    assert AllAlike(ones[..m], e.items[..m]) by {
      forall i | 0 <= i < m ensures Alike(ones[..m][i], e.items[..m][i]) { assert Alike(ones[i], e.items[i]); }
    }
    AlikeStrip(ones[..m], e.items[..m]);
    InPropsFound(e.items, h + 1, root', f, d + 1);
  }

  /** fdt_getprop_by_offset. */
  method ReadList(e: Editor, fp: nat, ghost h: nat, ghost root: Node, ghost f: seq<nat>, ghost d: nat)
    returns (name: Bytes, v: Bytes)
    requires e.Valid() && AtList(e, fp, h, root, f, d)
    ensures Path(root, f) && d < |SubTree(root, f).props| && SubTree(root, f).props[d] == Property(name, v)
  {
    hide Stream, Named, Off, Image, SubTree, InProps, U32, GetString;
    AtListKnows(e, fp, h, root, f, d);
    e.PropFieldsHere(h);
    var st := e.Struct();
    name := GetString(e.Strings(), U32(st, fp + 8)).value;
    v := st[fp + 12..fp + 12 + U32(st, fp + 4)];
  }

  /**
   One entry of a list.  The program reads the cell before anything has compared its place
   with the length of the value: the read is inside the value exactly when CellErr is Ok.
   */
  method FixOne(e: Editor, tree: int, name: Bytes, off: nat, delta: nat, ghost k: nat, ghost root: Node,
                ghost t: seq<nat>)
    returns (err: Err, ghost root': Node)
    requires Names(e, tree, k, root, t) && off < WORD && Path(root, t) && GetProp(SubTree(root, t), name).Some?
    modifies e`tokens, e`items, e.buf
    ensures e.Valid() && e.Head() == old(e.Head()) && InPlace(e, old(e.tokens), old(e.items))
    ensures Fixing(root', err) == FixCell(root, t, name, off, delta) && e.Holding(root')
  {
    hide Names, SubTree, Path, Replace, Matches, Decode, Image, GetProp, WithProp, Overwrite;
    var v;
    err, v := GetValue(e, tree, name, k, root, t);
    var cell := if off + 4 <= |v| then BE32((U32(v, off) + delta) % WORD) else BE32(0);
    root' := FixCell(root, t, name, off, delta).root;
    err := SetCell(e, tree, name, off, cell, k, root, t);
    if err == NoSpace { err := BadOverlay; }
  }

  /** The entries of one list. */
  method FixList(e: Editor, tree: int, fp: nat, delta: nat, ghost k: nat, ghost h: nat, ghost root: Node,
                 ghost t: seq<nat>, ghost f: seq<nat>, ghost d: nat)
    returns (err: Err, ghost root': Node)
    requires Names(e, tree, k, root, t) && AtList(e, fp, h, root, f, d) && Listing(root, t, f, d)
    modifies e`tokens, e`items, e.buf
    ensures e.Valid() && e.Head() == old(e.Head()) && InPlace(e, old(e.tokens), old(e.items))
    ensures Fixing(root', err) == FixCells(root, t, f, d, 0, delta) && e.Holding(root')
  {
    hide Names, SubTree, Path, Replace, Matches, Decode, Image, GetProp, AtList, FixCell, FixCells, SameShape, Off,
         Opens, InProps, U32, Editor.Holding;
    ghost var was, ones := e.tokens, e.items;
    KnowPath(e, tree, k, root, t);
    AtListKnows(e, fp, h, root, f, d);
    InPlaceSelf(e);
    ShapeSelf(root);
    root' := root;
    var name, v := ReadList(e, fp, h, root, f, d);
    var i := 0;
    while i < |v| / 4
      invariant i <= |v| / 4 && e.Holding(root') && e.Head() == old(e.Head()) && InPlace(e, was, ones)
      invariant SameShape(root, root')
      invariant Listing(root', t, f, d) && |SubTree(root', f).props[d].value| == |v|
      invariant SubTree(root', f).props[d].name == name
      invariant FixCells(root, t, f, d, 0, delta) == FixCells(root', t, f, d, i, delta)
    {
      ghost var mid, mids, before := e.tokens, e.items, root';
      e.HoldingValid(before);
      NamesInPlace(e, was, ones, tree, k, root, t, before);
      AtListInPlace(e, was, ones, fp, h, root, f, d, before);
      var same, now := ReadList(e, fp, h, before, f, d);
      FixCellsStep(before, t, f, d, i, delta);
      err, root' := FixOne(e, tree, name, U32(now, 4 * i), delta, k, before, t);
      InPlaceOver(e, was, ones, mid, mids);
      if err != Ok { return; }
      ListingKept(before, root', t, f, d);
      ListName(before, root', f, d);
      ShapeTrans(root, before, root');
      i := i + 1;
    }
    FixCellsEnd(root', t, f, d, i, delta);
    e.HoldingValid(root');
    err := Ok;
  }

  lemma {:induction false} ListName(root: Node, root': Node, f: seq<nat>, d: nat)
    requires SameShape(root, root') && Path(root, f) && d < |SubTree(root, f).props|
    ensures Path(root', f) && d < |SubTree(root', f).props|
    ensures SubTree(root', f).props[d].name == SubTree(root, f).props[d].name
  {
    ShapePath(root, root', f);
  }

  lemma {:induction false} FixCellsStep(root: Node, t: seq<nat>, f: seq<nat>, d: nat, i: nat, delta: nat)
    requires Listing(root, t, f, d) && 4 * i + 4 <= |SubTree(root, f).props[d].value|
    ensures var p := SubTree(root, f).props[d]; var r := FixCell(root, t, p.name, U32(p.value, 4 * i), delta);
            && SameShape(root, r.root) && (r.err == Ok ==> Listing(r.root, t, f, d))
            && FixCells(root, t, f, d, i, delta) == if r.err != Ok then r else FixCells(r.root, t, f, d, i + 1, delta)
  {
    hide SubTree, Path, GetProp, FixCell;
    var p := SubTree(root, f).props[d];
    ListingKept(root, FixCell(root, t, p.name, U32(p.value, 4 * i), delta).root, t, f, d);
  }

  lemma {:induction false} FixCellsEnd(root: Node, t: seq<nat>, f: seq<nat>, d: nat, i: nat, delta: nat)
    requires Listing(root, t, f, d) && |SubTree(root, f).props[d].value| < 4 * i + 4
    ensures FixCells(root, t, f, d, i, delta) == Fixing(root, Ok)
  {
  }

  lemma {:induction false} FixPropsStep(root: Node, t: seq<nat>, f: seq<nat>, d: nat, delta: nat)
    requires Path(root, t) && Path(root, f) && d < |SubTree(root, f).props|
    ensures var x := SubTree(root, f).props[d];
            && (Listing(root, t, f, d) <==> GetProp(SubTree(root, t), x.name).Some?)
            && (|x.value| % 4 != 0 || !Listing(root, t, f, d) ==>
                FixProps(root, t, f, d, delta) == Fixing(root, BadOverlay))
            && (|x.value| % 4 == 0 && Listing(root, t, f, d) ==>
                  var r := FixCells(root, t, f, d, 0, delta);
                  && SameShape(root, r.root) && Path(r.root, t) && Path(r.root, f)
                  && FixProps(root, t, f, d, delta) == if r.err != Ok then r else FixProps(r.root, t, f, d + 1, delta))
  {
    hide SubTree, Path, GetProp, FixCells, SameShape;
    var x := SubTree(root, f).props[d];
    if |x.value| % 4 == 0 && Listing(root, t, f, d) {
      ShapePath(root, FixCells(root, t, f, d, 0, delta).root, t);
      ShapePath(root, FixCells(root, t, f, d, 0, delta).root, f);
    }
  }

  lemma {:induction false} FixPropsEnd(root: Node, t: seq<nat>, f: seq<nat>, delta: nat)
    requires Path(root, t) && Path(root, f)
    ensures FixProps(root, t, f, |SubTree(root, f).props|, delta) == Fixing(root, Ok)
  {
  }

  lemma {:induction false} PropsCount(root: Node, root': Node, f: seq<nat>)
    requires SameShape(root, root') && Path(root, f)
    ensures Path(root', f) && |SubTree(root', f).props| == |SubTree(root, f).props|
  {
    ShapePath(root, root', f);
  }

  /** The list at p, which is item h. */
  method FixListAt(e: Editor, tree: int, p: nat, delta: nat, ghost k: nat, ghost h: nat, ghost root: Node,
                   ghost t: seq<nat>, ghost f: seq<nat>, ghost d: nat)
    returns (err: Err, ghost root': Node)
    requires Names(e, tree, k, root, t) && AtList(e, p, h, root, f, d) && Path(root, t) && Path(root, f)
    modifies e`tokens, e`items, e.buf
    ensures d < |SubTree(root, f).props| && SameShape(root, root') && Path(root', t) && Path(root', f)
    ensures e.Valid() && e.Head() == old(e.Head()) && InPlace(e, old(e.tokens), old(e.items)) && e.Holding(root')
    ensures FixProps(root, t, f, d, delta) ==
            if err != Ok then Fixing(root', err) else FixProps(root', t, f, d + 1, delta)
    ensures AtList(e, p, h, root', f, d)
  {
    hide Names, SubTree, Path, Replace, Matches, Decode, Image, GetProp, AtList, FixCells, FixProps, SameShape, Off,
         Opens, InProps, Listing;
    ghost var was, ones := e.tokens, e.items;
    KnowPath(e, tree, k, root, t);
    AtListKnows(e, p, h, root, f, d);
    InPlaceSelf(e);
    ShapeSelf(root);
    root' := root;
    FixPropsStep(root, t, f, d, delta);
    var name, v := ReadList(e, p, h, root, f, d);
    if |v| % 4 != 0 { return BadOverlay, root; }
    var value;
    err, value := GetValue(e, tree, name, k, root, t);
    if err != Ok { return BadOverlay, root; }
    err, root' := FixList(e, tree, p, delta, k, h, root, t, f, d);
    AtListInPlace(e, was, ones, p, h, root, f, d, root');
  }

  /** The first loop of overlay_update_local_node_references. */
  method FixLists(e: Editor, tree: int, fix: int, delta: nat, ghost k: nat, ghost j: nat, ghost root: Node,
                  ghost t: seq<nat>, ghost f: seq<nat>)
    returns (err: Err, ghost root': Node)
    requires Names(e, tree, k, root, t) && Names(e, fix, j, root, f) && Path(root, t) && Path(root, f)
    modifies e`tokens, e`items, e.buf
    ensures e.Valid() && e.Head() == old(e.Head()) && InPlace(e, old(e.tokens), old(e.items))
    ensures Fixing(root', err) == FixProps(root, t, f, 0, delta) && e.Holding(root')
  {
    hide Names, SubTree, Path, Replace, Matches, Decode, Image, AtList, FixProps, SameShape, Off, Opens, InProps,
         AtProperty, Editor.Holding;
    ghost var was, ones := e.tokens, e.items;
    KnowPath(e, tree, k, root, t);
    InPlaceSelf(e);
    ShapeSelf(root);
    root' := root;
    ghost var d: nat, i: nat, n := 0, j + 1, |SubTree(root, f).props|;
    var s, p := FirstProperty(e, fix, j, root, f);
    while s == Ok
      invariant d <= n && e.Holding(root') && e.Head() == old(e.Head()) && InPlace(e, was, ones)
      invariant SameShape(root, root')
      invariant Path(root', t) && Path(root', f) && |SubTree(root', f).props| == n && InProps(e.items, i, root', f, d)
      invariant s == (if d < n then Ok else NotFound) && (d < n ==> AtProperty(e, p, i))
      invariant FixProps(root, t, f, 0, delta) == FixProps(root', t, f, d, delta)
      decreases n - d
    {
      ghost var mid, mids, before := e.tokens, e.items, root';
      e.HoldingValid(before);
      ghost var h := AtPropertyHas(e, p, i, before, f, d);
      IsAtList(e, p, h, before, f, d);
      NamesInPlace(e, was, ones, tree, k, root, t, before);
      err, root' := FixListAt(e, tree, p, delta, k, h, before, t, f, d);
      InPlaceOver(e, was, ones, mid, mids);
      if err != Ok { return; }
      ShapeTrans(root, before, root');
      PropsCount(before, root', f);
      AtListKnows(e, p, h, root', f, d);
      d, i := d + 1, h + 1;
      s, p := FollowingProperty(e, p, h, root', f, d);
    }
    FixPropsEnd(root', t, f, delta);
    e.HoldingValid(root');
    err := Ok;
  }

  lemma {:induction false} IsAtList(e: Editor, p: nat, h: nat, root: Node, f: seq<nat>, d: nat)
    requires h < |e.items| == |e.tokens| && e.items[h].Attr? && p == Off(e.tokens + [End], h)
    requires InProps(e.items, h + 1, root, f, d + 1)
    ensures AtList(e, p, h, root, f, d)
  {
  }

  /** overlay_update_local_node_references on the node at t and the fixup node at f. */
  method FixNodeAt(e: Editor, tree: nat, fix: nat, delta: nat, ghost k: nat, ghost j: nat, ghost root: Node,
                   ghost t: seq<nat>, ghost f: seq<nat>, ghost g: Node)
    returns (err: Err, ghost root': Node)
    requires Names(e, tree, k, root, t) && Names(e, fix, j, root, f) && Path(root, t) && Path(root, f)
    requires SameShape(SubTree(root, f), g)
    modifies e`tokens, e`items, e.buf
    ensures e.Valid() && e.Head() == old(e.Head()) && InPlace(e, old(e.tokens), old(e.items))
    ensures Fixing(root', err) == FixNode(root, t, f, g, delta) && e.Holding(root')
    decreases g, 1
  {
    hide Names, SubTree, Path, Replace, Matches, Decode, Image, FixProps, FixChildren, SameShape, Off, Opens;
    ghost var was, ones := e.tokens, e.items;
    KnowPath(e, tree, k, root, t);
    KnowPath(e, fix, j, root, f);
    err, root' := FixLists(e, tree, fix, delta, k, j, root, t, f);
    if err != Ok { return; }
    ghost var mid, mids, before := e.tokens, e.items, root';
    KeptBelow(root, root', t, f, g);
    NamesInPlace(e, was, ones, tree, k, root, t, root');
    NamesInPlace(e, was, ones, fix, j, root, f, root');
    err, root' := FixChildrenAt(e, tree, fix, delta, k, j, before, t, f, g);
    InPlaceOver(e, was, ones, mid, mids);
  }

  /** The second loop. */
  method FixChildrenAt(e: Editor, tree: nat, fix: nat, delta: nat, ghost k: nat, ghost j: nat, ghost root: Node,
                       ghost t: seq<nat>, ghost f: seq<nat>, ghost g: Node)
    returns (err: Err, ghost root': Node)
    requires Names(e, tree, k, root, t) && Names(e, fix, j, root, f) && Path(root, t) && Path(root, f)
    requires SameShape(SubTree(root, f), g)
    modifies e`tokens, e`items, e.buf
    ensures e.Valid() && e.Head() == old(e.Head()) && InPlace(e, old(e.tokens), old(e.items))
    ensures Fixing(root', err) == FixChildren(root, t, f, g, 0, delta) && e.Holding(root')
    decreases g, 0
  {
    hide Names, SubTree, Path, Replace, Matches, Decode, Image, FixNode, FixChildren, SameShape, Off, Opens,
         Editor.Holding;
    ghost var was, ones, cs, d := e.tokens, e.items, g.children, 0;
    KnowPath(e, tree, k, root, t);
    InPlaceSelf(e);
    ShapeSelf(root);
    ShapeChildren(SubTree(root, f), g);
    root' := root;
    ghost var h;
    var s, sub;
    s, sub, h := FirstChild(e, fix, j, root, f);
    while s == Ok
      invariant d <= |cs| && e.Holding(root') && e.Valid() && e.Head() == old(e.Head()) && InPlace(e, was, ones)
      invariant SameShape(root, root')
      invariant Path(root', t) && Path(root', f) && SameShape(SubTree(root', f), g)
      invariant s == (if d < |cs| then Ok else NotFound) && (d < |cs| ==> Names(e, sub, h, root', f + [d]))
      invariant FixChildren(root, t, f, g, 0, delta) == FixChildren(root', t, f, g, d, delta)
      decreases |cs| - d
    {
      ghost var mid, mids, before := e.tokens, e.items, root';
      NamesInPlace(e, was, ones, tree, k, root, t, before);
      KnowPath(e, sub, h, before, f + [d]);
      err, root' := FixChildAt(e, tree, sub, delta, k, h, before, t, f, g, d);
      InPlaceOver(e, was, ones, mid, mids);
      if err != Ok { return; }
      ShapeTrans(root, before, root');
      KeptBelow(before, root', t, f, g);
      ShapeChildren(SubTree(root', f), g);
      NamesInPlace(e, mid, mids, sub, h, before, f + [d], root');
      s, sub, h := NextChild(e, sub, h, root', f, d);
      d := d + 1;
    }
    FixChildrenEnd(root', t, f, g, delta);
    err := Ok;
  }

  lemma {:induction false} ShapeChildren(a: Node, b: Node)
    requires SameShape(a, b)
    ensures |a.children| == |b.children| && forall i | 0 <= i < |a.children| :: a.children[i].name == b.children[i].name
  {
  }

  /** Fixup child number d, at the offset sub. */
  method FixChildAt(e: Editor, tree: nat, sub: nat, delta: nat, ghost k: nat, ghost h: nat, ghost root: Node,
                    ghost t: seq<nat>, ghost f: seq<nat>, ghost g: Node, ghost d: nat)
    returns (err: Err, ghost root': Node)
    requires Names(e, tree, k, root, t) && Path(root, t) && Path(root, f) && SameShape(SubTree(root, f), g)
    requires d < |g.children| && Names(e, sub, h, root, f + [d])
    modifies e`tokens, e`items, e.buf
    ensures e.Valid() && e.Head() == old(e.Head()) && InPlace(e, old(e.tokens), old(e.items)) && e.Holding(root')
    ensures SameShape(root, root') && Path(root', t) && Path(root', f) && SameShape(SubTree(root', f), g)
    ensures FixChildren(root, t, f, g, d, delta) ==
            if err != Ok then Fixing(root', err) else FixChildren(root', t, f, g, d + 1, delta)
    decreases g.children[d], 2
  {
    hide Names, SubTree, Path, Replace, Matches, Decode, Image, FixNode, FixChildren, SameShape, Off, Opens, Before,
         After, SubOf, Editor.Holding;
    KnowPath(e, tree, k, root, t);
    KnowPath(e, sub, h, root, f + [d]);
    InPlaceSelf(e);
    ShapeSelf(root);
    ShapeChildren(SubTree(root, f), g);
    PathSnoc(root, f, d);
    OpenName(e.items, h, root, f + [d]);
    e.NameHere(h);
    e.OpenIsNode(k);
    var st := e.Struct();
    var name := st[sub + 4..Nul(st, sub + 4)];
    FixChildrenStep(root, t, f, g, d, delta);
    SubOpens(e.items, k, root, t, Called(name));
    ghost var i := ChildIndex(SubTree(root, t).children, Called(name));
    var off;
    err, off := e.SubnodeOffset(tree, name, k);
    if err != Ok { return BadOverlay, root; }
    ghost var q := SubOf(e.items, k, Called(name)).index;
    IsNames(e, off, q, root, t + [i]);
    err, root' := FixNodeAt(e, off, sub, delta, q, h, root, t + [i], f + [d], g.children[d]);
  }

  lemma {:induction false} IsNames(e: Editor, o: int, k: nat, root: Node, p: seq<nat>)
    requires e.Holding(root) && k <= |e.tokens| && o == Off(e.tokens + [End], k) && Opens(e.items, k, root, p)
    ensures Names(e, o, k, root, p)
  {
  }

  // ----- The first steps of fdt_overlay_apply -----

  lemma {:induction false} RootNamed(e: Editor, root: Node)
    requires e.Holding(root)
    ensures e.Addr(0, 0) && Path(root, []) && SubTree(root, []) == root
    ensures e.IsNode(0) ==> Names(e, 0, 0, root, [])
  {
    hide Stream, Named, Decode, Strip, Flatten, Off;
    OffZero(e.tokens + [End]);
    e.Means(root);
    if e.IsNode(0) {
      e.NodeTag(0);
      NothingAround(root);
      StripEmpty();
      assert e.items[..0] == [];
    }
  }

  /** overlay_adjust_local_phandles. */
  method AdjustLocalPhandles(e: Editor, delta: nat, ghost root: Node) returns (err: Err, ghost root': Node)
    requires e.Holding(root) && delta < WORD
    modifies e`tokens, e`items, e.buf
    ensures e.Valid() && e.Head() == old(e.Head()) && InPlace(e, old(e.tokens), old(e.items))
    ensures e.Holding(root') && SameShape(root, root')
    ensures err == if old(e.IsNode(0)) then Trouble(root, delta) else BadOffset
    ensures err == Ok ==> root' == Shift(root, delta)
  {
    hide Names, Matches, Decode, Image, Shift, SameShape, Off, Trouble;
    RootNamed(e, root);
    InPlaceSelf(e);
    ShapeSelf(root);
    var next := e.CheckNodeOffset(0, 0);
    if next < 0 { return BadOffset, root; }
    err, root' := AdjustNode(e, 0, delta, 0, root, [], root);
  }

  /** overlay_update_local_references. */
  method UpdateLocalReferences(e: Editor, delta: nat, ghost root: Node) returns (err: Err, ghost root': Node)
    requires e.Holding(root)
    modifies e`tokens, e`items, e.buf
    ensures e.Valid() && e.Head() == old(e.Head()) && InPlace(e, old(e.tokens), old(e.items)) && e.Holding(root')
    ensures Fixing(root', err) == if old(e.IsNode(0)) then FixTree(root, delta) else Fixing(root, BadOffset)
  {
    hide Names, Matches, Decode, Image, SameShape, Off, FixNode, SubOf;
    RootNamed(e, root);
    InPlaceSelf(e);
    ghost var i := ChildIndex(root.children, Called(LOCAL_FIXUPS));
    if e.IsNode(0) { RootFinds(e, root, i); }
    var fix;
    err, fix := e.SubnodeOffset(0, LOCAL_FIXUPS, 0);
    if err == BadOffset { return err, root; }
    if err != Ok { return Ok, root; }
    ghost var h := SubOf(e.items, 0, Called(LOCAL_FIXUPS)).index;
    ShapeSelf(root.children[i]);
    IsNames(e, fix, h, root, [i]);
    err, root' := FixNodeAt(e, 0, fix, delta, 0, h, root, [], [i], root.children[i]);
  }

  lemma {:induction false} RootFinds(e: Editor, root: Node, i: nat)
    requires e.Holding(root) && e.IsNode(0) && i == ChildIndex(root.children, Called(LOCAL_FIXUPS))
    ensures var f := SubOf(e.items, 0, Called(LOCAL_FIXUPS));
            if i < |root.children| then f.At? && Opens(e.items, f.index, root, [i]) && Path(root, [i])
                && SubTree(root, [i]) == root.children[i]
            else f == Absent
  {
    hide Decode, Strip, Flatten, Off, SubOf, Before, After;
    RootNamed(e, root);
    SubOpens(e.items, 0, root, [], Called(LOCAL_FIXUPS));
    assert [] + [i] == [i];
    if i < |root.children| { PathSnoc(root, [], i); }
  }

  /** What the renumbering makes of the overlay: its error, or the tree with numbers and references shifted. */
  function Renumbered(ov: Node, delta: nat): Fixing {
    if Trouble(ov, delta) != Ok then Fixing(ov, Trouble(ov, delta)) else FixTree(Shift(ov, delta), delta)
  }

  /** After both steps a reference that was listed once has moved by delta, and so have the numbers it names. */
  lemma {:induction false} RenumberedReference(ov: Node, delta: nat, q: seq<nat>, name: Bytes, o: nat, target: seq<nat>)
    requires Renumbered(ov, delta).err == Ok && !ListsItself(Shift(ov, delta))
    requires name != PHANDLE && name != LINUX_PHANDLE
    requires Path(ov, q) && Path(ov, target) && GetProp(SubTree(ov, q), name).Some?
    requires o + 4 <= |GetProp(SubTree(ov, q), name).value|
    requires var offs := Offs(Plan(Shift(ov, delta)), q, name); Clean(offs, o) && Times(offs, o) == 1
    requires U32(GetProp(SubTree(ov, q), name).value, o) == PhandleOf(SubTree(ov, target)) != 0
    ensures var c, r := PhandleOf(SubTree(ov, target)), Renumbered(ov, delta).root;
            && Path(r, q) && GetProp(SubTree(r, q), name).Some? && o + 4 <= |GetProp(SubTree(r, q), name).value|
            && U32(GetProp(SubTree(r, q), name).value, o) == c + delta
            && forall p | Path(ov, p) :: Path(r, p)
                 && (PhandleOf(SubTree(ov, p)) == c <==> PhandleOf(SubTree(r, p)) == c + delta)
  {
    hide Shift, FixTree, Plan, PhandleOf, Trouble, ListsItself, SubTree, Path, GetProp, Offs, U32, AllFit;
    FixTreePlan(Shift(ov, delta), delta);
    LocalReferenceKept(ov, delta, q, name, o, target);
  }

  /**
   The renumbered overlay shares no number with the base, unless a node of the overlay
   carries the number 0 and the base has numbers at all.
   */
  lemma {:induction false} RenumberedApart(base: Node, ov: Node, delta: nat)
    requires IsMaxPhandle(base, delta) && Renumbered(ov, delta).err == Ok
    requires !ListsItself(Shift(ov, delta))
    ensures Clash(base, Renumbered(ov, delta).root) <==>
              delta != 0 && exists q :: Path(ov, q) && Numbered(SubTree(ov, q)) && PhandleOf(SubTree(ov, q)) == 0
  {
    hide Shift, FixTree, Plan, ApplyAll, PhandleOf, IsMaxPhandle, Trouble, SameShape, Numbered, ListsItself,
         NoNumbersListed;
    var ov', es := Shift(ov, delta), Plan(Shift(ov, delta));
    var r := FixTree(ov', delta).root;
    FixTreePlan(ov', delta);
    if delta > 0 { NoNumbersInPlan(ov, delta); }
    ClashExactly(base, ov, delta);
    ShapeSym(ov', r);
    forall q ensures Path(ov', q) <==> Path(r, q) {
      if Path(ov', q) { ShapePath(ov', r, q); }
      if Path(r, q) { ShapePath(r, ov', q); }
    }
    forall q | Path(ov', q) ensures PhandleOf(SubTree(r, q)) == PhandleOf(SubTree(ov', q)) {
      NumbersKept(ov', es, delta, q);
    }
  }

  /** A base with the number 1 and an overlay with the number 0: both end up with 1. */
  lemma {:induction false} ZeroCollides()
    ensures var base, ov := Node([], [Property(PHANDLE, BE32(1))], []), Node([], [Property(PHANDLE, BE32(0))], []);
            IsMaxPhandle(base, 1) && Renumbered(ov, 1).err == Ok && Clash(base, Renumbered(ov, 1).root)
  {
    var base, ov := Node([], [Property(PHANDLE, BE32(1))], []), Node([], [Property(PHANDLE, BE32(0))], []);
    var here: seq<nat> := [];
    assert Path(base, here) && SubTree(base, here) == base && Path(ov, here) && SubTree(ov, here) == ov;
    Cell(0);
    Cell(1);
    assert PhandleOf(base) == 1;
    assert Numbered(ov) && PhandleOf(ov) == 0;
    assert Numbered(SubTree(ov, here)) && PhandleOf(SubTree(ov, here)) == 0;
    ClashExactly(base, ov, 1);
    assert Clash(base, Shift(ov, 1));
    assert Renumbered(ov, 1).root == Shift(ov, 1);
  }

  /** fdt_overlay_apply up to the local references. */
  method Renumber(base: Editor, ov: Editor, ghost b: Node, ghost o: Node) returns (err: Err, delta: nat)
    requires base.Holding(b) && ov.Holding(o)
    modifies ov`tokens, ov`items, ov.buf
    ensures IsMaxPhandle(b, delta)
    ensures ov.Valid() && ov.Head() == old(ov.Head()) && InPlace(ov, old(ov.tokens), old(ov.items))
    ensures err == if old(ov.IsNode(0)) then Renumbered(o, delta).err else BadOffset
    ensures err == Ok ==> ov.Holding(Renumbered(o, delta).root)
  {
    hide Matches, Decode, Image, SameShape, Off, Trouble, Shift, FixTree, IsMaxPhandle;
    ghost var was, ones := ov.tokens, ov.items;
    ov.NodeTag(0);
    delta := FindMaxPhandle(base, b);
    ghost var o';
    err, o' := AdjustLocalPhandles(ov, delta, o);
    if err != Ok { return; }
    ghost var mid, mids := ov.tokens, ov.items;
    StillRooted(ov, was, ones);
    err, o' := UpdateLocalReferences(ov, delta, o');
    InPlaceOver(ov, was, ones, mid, mids);
  }

  lemma {:induction false} StillRooted(e: Editor, was: seq<Token>, ones: seq<Item>)
    requires e.Valid() && InPlace(e, was, ones) && was != [] && ones != [] && ones[0].Open?
    ensures e.IsNode(0)
  {
    assert Alike(ones[0], e.items[0]);
    e.OpenIsNode(0);
  }
}
