/**
 The local fixups of an overlay: a tree of lists beside the tree, each entry the place of a
 phandle inside a property value.  The walk reads the lists from the blob it is changing,
 so the reference below carries the whole tree from step to step.
 */
module FdtFixups {
  import opened Basics
  import opened FdtTokens
  import opened FdtBuffer
  import opened FdtTree
  import opened FdtEdit
  import opened FdtSubnodes
  import opened FdtEditor
  import opened FdtPhandles

  /** "__local_fixups__" */
  const LOCAL_FIXUPS: Bytes := [95, 95, 108, 111, 99, 97, 108, 95, 102, 105, 120, 117, 112, 115, 95, 95]

  datatype Fixing = Fixing(root: Node, err: Err)

  function AddAt(v: Bytes, off: nat, delta: nat): (r: Bytes)
    requires off + 4 <= |v|
    ensures |r| == |v|
  {
    Overwrite(v, off, BE32((U32(v, off) + delta) % WORD))
  }

  /**
   What the write of a cell at off of a value of len bytes reports.  The sum off + 4 is taken
   in 32 bits, so for the last four offsets the bounds test passes and the write goes astray.
   */
  function CellErr(len: nat, off: nat): Err {
    if off + 4 <= len then Ok
    else if WORD <= off + 4 && off + 4 - WORD <= len then Stray
    else BadOverlay
  }

  /** The write is inside the value, passes the 32-bit test and goes astray, or is refused. */
  lemma {:induction false} CellExactly(len: nat, off: nat)
    requires off < 0x1_0000_0000 && len < 0x1_0000_0000
    ensures CellErr(len, off) == Ok <==> off + 4 <= len
    ensures CellErr(len, off) == BadOverlay <==> len < (off + 4) % 0x1_0000_0000
    ensures CellErr(len, off) in {Ok, Stray, BadOverlay}
  {
  }

  // ----- The walk -----

  function FixCell(root: Node, t: seq<nat>, name: Bytes, off: nat, delta: nat): (r: Fixing)
    requires Path(root, t) && GetProp(SubTree(root, t), name).Some?
    ensures SameShape(root, r.root)
  {
    var n := SubTree(root, t);
    var v := GetProp(n, name).value;
    ShapeSelf(root);
    if CellErr(|v|, off) != Ok then Fixing(root, CellErr(|v|, off))
    else
      var n' := WithProp(n, name, AddAt(v, off, delta));
      ShapeWithProp(n, name, AddAt(v, off, delta));
      ShapeReplace(root, t, n');
      Fixing(Replace(root, t, n'), Ok)
  }

  /** Property d of the fixup node at f lists cells of a property of the node at t. */
  predicate Listing(root: Node, t: seq<nat>, f: seq<nat>, d: nat) {
    && Path(root, t) && Path(root, f) && d < |SubTree(root, f).props|
    && GetProp(SubTree(root, t), SubTree(root, f).props[d].name).Some?
  }

  lemma {:induction false} ListingKept(root: Node, root': Node, t: seq<nat>, f: seq<nat>, d: nat)
    requires SameShape(root, root') && Listing(root, t, f, d)
    ensures Listing(root', t, f, d) && |SubTree(root', f).props[d].value| == |SubTree(root, f).props[d].value|
  {
    ShapePath(root, root', t);
    ShapePath(root, root', f);
    ShapeIndex(SubTree(root, t).props, SubTree(root', t).props, SubTree(root, f).props[d].name);
  }

  /** The entries of one list, from number i on. */
  function FixCells(root: Node, t: seq<nat>, f: seq<nat>, d: nat, i: nat, delta: nat): (r: Fixing)
    requires Listing(root, t, f, d)
    ensures SameShape(root, r.root)
    decreases |SubTree(root, f).props[d].value| - i
  {
    var p := SubTree(root, f).props[d];
    if |p.value| < 4 * i + 4 then ShapeSelf(root); Fixing(root, Ok)
    else
      var r := FixCell(root, t, p.name, U32(p.value, 4 * i), delta);
      if r.err != Ok then r
      else
        ListingKept(root, r.root, t, f, d);
        var r' := FixCells(r.root, t, f, d, i + 1, delta);
        ShapeTrans(root, r.root, r'.root);
        r'
  }

  /** The lists of one fixup node, from number d on. */
  function FixProps(root: Node, t: seq<nat>, f: seq<nat>, d: nat, delta: nat): (r: Fixing)
    requires Path(root, t) && Path(root, f)
    ensures SameShape(root, r.root)
    decreases |SubTree(root, f).props| - d
  {
    ShapeSelf(root);
    if |SubTree(root, f).props| <= d then Fixing(root, Ok)
    else if |SubTree(root, f).props[d].value| % 4 != 0 || !Listing(root, t, f, d) then Fixing(root, BadOverlay)
    else
      var r := FixCells(root, t, f, d, 0, delta);
      if r.err != Ok then r
      else
        ShapePath(root, r.root, t);
        ShapePath(root, r.root, f);
        var r' := FixProps(r.root, t, f, d + 1, delta);
        ShapeTrans(root, r.root, r'.root);
        r'
  }

  /** overlay_update_local_node_references; g has the shape of the fixup node at f. */
  function FixNode(root: Node, t: seq<nat>, f: seq<nat>, g: Node, delta: nat): (r: Fixing)
    requires Path(root, t) && Path(root, f) && SameShape(SubTree(root, f), g)
    ensures SameShape(root, r.root)
    decreases g, 1, 0
  {
    var r := FixProps(root, t, f, 0, delta);
    if r.err != Ok then r
    else
      KeptBelow(root, r.root, t, f, g);
      var r' := FixChildren(r.root, t, f, g, 0, delta);
      ShapeTrans(root, r.root, r'.root);
      r'
  }

  function FixChildren(root: Node, t: seq<nat>, f: seq<nat>, g: Node, c: nat, delta: nat): (r: Fixing)
    requires Path(root, t) && Path(root, f) && SameShape(SubTree(root, f), g) && c <= |g.children|
    ensures SameShape(root, r.root)
    decreases g, 0, |g.children| - c
  {
    ShapeSelf(root);
    var ns := SubTree(root, t).children;
    if c == |g.children| then Fixing(root, Ok)
    else
      var i := ChildIndex(ns, Called(g.children[c].name));
      if i == |ns| then Fixing(root, BadOverlay)
      else
        PathSnoc(root, t, i);
        PathSnoc(root, f, c);
        var r := FixNode(root, t + [i], f + [c], g.children[c], delta);
        if r.err != Ok then r
        else
          KeptBelow(root, r.root, t, f, g);
          var r' := FixChildren(r.root, t, f, g, c + 1, delta);
          ShapeTrans(root, r.root, r'.root);
          r'
  }

  lemma {:induction false} KeptBelow(root: Node, root': Node, t: seq<nat>, f: seq<nat>, g: Node)
    requires SameShape(root, root') && Path(root, t) && Path(root, f) && SameShape(SubTree(root, f), g)
    ensures Path(root', t) && Path(root', f) && SameShape(SubTree(root', f), g)
  {
    ShapePath(root, root', t);
    ShapePath(root, root', f);
    ShapeSym(SubTree(root, f), SubTree(root', f));
    ShapeTrans(SubTree(root', f), SubTree(root, f), g);
  }

  /** overlay_update_local_references. */
  function FixTree(root: Node, delta: nat): (r: Fixing)
    ensures SameShape(root, r.root)
  {
    var i := ChildIndex(root.children, Called(LOCAL_FIXUPS));
    ShapeSelf(root);
    if i == |root.children| then Fixing(root, Ok)
    else
      ShapeSelf(root.children[i]);
      FixNode(root, [], [i], root.children[i], delta)
  }

  // ----- The edits that the lists ask for -----

  datatype Edit = Edit(path: seq<nat>, name: Bytes, off: nat)

  function PlanCells(t: seq<nat>, p: Property, i: nat): seq<Edit>
    decreases |p.value| - i
  {
    if |p.value| < 4 * i + 4 then [] else [Edit(t, p.name, U32(p.value, 4 * i))] + PlanCells(t, p, i + 1)
  }

  function PlanProps(t: seq<nat>, ps: seq<Property>): seq<Edit> {
    if ps == [] then [] else PlanCells(t, ps[0], 0) + PlanProps(t, ps[1..])
  }

  /** The edits for the node n at t, whose fixups are g, in the order of the walk. */
  function PlanNode(n: Node, t: seq<nat>, g: Node): seq<Edit>
    decreases g
  {
    PlanProps(t, g.props) + PlanChildren(n, t, g.children)
  }

  function PlanChildren(n: Node, t: seq<nat>, gs: seq<Node>): seq<Edit>
    decreases gs
  {
    if gs == [] then []
    else
      var i := ChildIndex(n.children, Called(gs[0].name));
      (if i < |n.children| then PlanNode(n.children[i], t + [i], gs[0]) else []) + PlanChildren(n, t, gs[1..])
  }

  /** Every entry lies inside the property it belongs to, and every fixup node has its node. */
  predicate CellsFit(n: Node, p: Property, i: nat)
    decreases |p.value| - i
  {
    |p.value| < 4 * i + 4 ||
    (GetProp(n, p.name).Some? && CellErr(|GetProp(n, p.name).value|, U32(p.value, 4 * i)) == Ok
     && CellsFit(n, p, i + 1))
  }

  predicate PropsFit(n: Node, ps: seq<Property>) {
    forall d | 0 <= d < |ps| :: |ps[d].value| % 4 == 0 && GetProp(n, ps[d].name).Some? && CellsFit(n, ps[d], 0)
  }

  predicate ListsFit(n: Node, g: Node) {
    && PropsFit(n, g.props)
    && forall c | 0 <= c < |g.children| ::
         var i := ChildIndex(n.children, Called(g.children[c].name));
         i < |n.children| && ListsFit(n.children[i], g.children[c])
  }

  function Apply(root: Node, e: Edit, delta: nat): Node {
    if Path(root, e.path) && GetProp(SubTree(root, e.path), e.name).Some?
    then FixCell(root, e.path, e.name, e.off, delta).root else root
  }

  function ApplyAll(root: Node, es: seq<Edit>, delta: nat): Node
    decreases |es|
  {
    if es == [] then root else ApplyAll(Apply(root, es[0], delta), es[1..], delta)
  }

  lemma {:induction false} ApplyConcat(root: Node, es: seq<Edit>, fs: seq<Edit>, delta: nat)
    ensures ApplyAll(root, es + fs, delta) == ApplyAll(ApplyAll(root, es, delta), fs, delta)
    decreases |es|
  {
    if es == [] {
      assert es + fs == fs;
    } else {
      assert (es + fs)[1..] == es[1..] + fs;
      ApplyConcat(Apply(root, es[0], delta), es[1..], fs, delta);
    }
  }

  lemma {:induction false} ApplyNone(root: Node, delta: nat)
    ensures ApplyAll(root, [], delta) == root
  {
  }

  lemma {:induction false} ApplyShape(root: Node, es: seq<Edit>, delta: nat)
    ensures SameShape(root, ApplyAll(root, es, delta))
    decreases |es|
  {
    ShapeSelf(root);
    if es != [] {
      var root' := Apply(root, es[0], delta);
      ApplyShape(root', es[1..], delta);
      ShapeTrans(root, root', ApplyAll(root, es, delta));
    }
  }

  // ----- Lists that the walk does not change -----

  /** Changing properties of the node at t leaves the subtree at f, unless t is in it. */
  lemma {:induction false} ReplaceElsewhere(root: Node, t: seq<nat>, m: Node, f: nat)
    requires Path(root, t) && m.children == SubTree(root, t).children && f < |root.children| && (t == [] || t[0] != f)
    ensures var r := Replace(root, t, m); f < |r.children| && r.children[f] == root.children[f]
  {
  }

  lemma {:induction false} CellElsewhere(root: Node, t: seq<nat>, name: Bytes, off: nat, delta: nat, f: nat)
    requires Path(root, t) && GetProp(SubTree(root, t), name).Some? && f < |root.children| && (t == [] || t[0] != f)
    ensures var r := FixCell(root, t, name, off, delta).root; f < |r.children| && r.children[f] == root.children[f]
  {
    var n := SubTree(root, t);
    var v := GetProp(n, name).value;
    if CellErr(|v|, off) == Ok { ReplaceElsewhere(root, t, WithProp(n, name, AddAt(v, off, delta)), f); }
  }

  /** The fixup node at f is in child number top of the root, and the walk is elsewhere. */
  predicate Away(root: Node, t: seq<nat>, f: seq<nat>, g: Node, top: nat) {
    && Path(root, t) && Path(root, f) && SubTree(root, f) == g && f != [] && f[0] == top && top < |root.children|
    && (t == [] || t[0] != top)
  }

  /** The walk has changed root into root' and left the lists. */
  predicate Left(root: Node, root': Node, top: nat) {
    SameShape(root, root') && top < |root.children| && top < |root'.children|
        && root'.children[top] == root.children[top]
  }

  lemma {:induction false} AwayKept(root: Node, root': Node, t: seq<nat>, f: seq<nat>, g: Node, top: nat)
    requires Away(root, t, f, g, top) && Left(root, root', top)
    ensures Away(root', t, f, g, top) && SameShape(SubTree(root, t), SubTree(root', t))
  {
    ShapePath(root, root', t);
    assert SubTree(root', f) == SubTree(root, f);
  }

  lemma {:induction false} LeftTwice(a: Node, b: Node, c: Node, top: nat)
    requires Left(a, b, top) && Left(b, c, top)
    ensures Left(a, c, top)
  {
    ShapeTrans(a, b, c);
  }

  lemma {:induction false} CellsFitKept(n: Node, m: Node, p: Property, i: nat)
    requires SameShape(n, m)
    ensures CellsFit(n, p, i) <==> CellsFit(m, p, i)
    decreases |p.value| - i
  {
    ShapeIndex(n.props, m.props, p.name);
    if 4 * i + 4 <= |p.value| { CellsFitKept(n, m, p, i + 1); }
  }

  lemma {:induction false} PropsFitKept(n: Node, m: Node, ps: seq<Property>)
    requires SameShape(n, m)
    ensures PropsFit(n, ps) <==> PropsFit(m, ps)
  {
    forall d | 0 <= d < |ps| ensures CellsFit(n, ps[d], 0) <==> CellsFit(m, ps[d], 0) { CellsFitKept(n, m, ps[d], 0); }
    forall d | 0 <= d < |ps| ensures GetProp(n, ps[d].name).Some? <==> GetProp(m, ps[d].name).Some? {
      ShapeIndex(n.props, m.props, ps[d].name);
    }
  }

  lemma {:induction false} ChildIndexKept(ns: seq<Node>, ms: seq<Node>, p: Pattern)
    requires |ns| == |ms| && forall i | 0 <= i < |ns| :: ns[i].name == ms[i].name
    ensures ChildIndex(ns, p) == ChildIndex(ms, p)
  {
    var i, j := ChildIndex(ns, p), ChildIndex(ms, p);
    assert i < |ns| ==> ns[i].name == ms[i].name;
    assert j < |ns| ==> ns[j].name == ms[j].name;
  }

  lemma {:induction false} ListsFitKept(n: Node, m: Node, g: Node)
    requires SameShape(n, m)
    ensures ListsFit(n, g) <==> ListsFit(m, g)
    decreases g
  {
    hide PropsFit;
    PropsFitKept(n, m, g.props);
    forall c | 0 <= c < |g.children|
      ensures var p := Called(g.children[c].name); var i := ChildIndex(n.children, p);
              ChildIndex(m.children, p) == i && (i < |n.children| ==>
                                                 (ListsFit(n.children[i], g.children[c]) <==>
                                                  ListsFit(m.children[i], g.children[c])))
    {
      var p := Called(g.children[c].name);
      ChildIndexKept(n.children, m.children, p);
      var i := ChildIndex(n.children, p);
      if i < |n.children| { ListsFitKept(n.children[i], m.children[i], g.children[c]); }
    }
  }

  lemma {:induction false} PlanKept(n: Node, m: Node, t: seq<nat>, g: Node)
    requires SameShape(n, m)
    ensures PlanNode(n, t, g) == PlanNode(m, t, g)
    decreases g
  {
    PlanChildrenKept(n, m, t, g.children);
  }

  lemma {:induction false} PlanChildrenKept(n: Node, m: Node, t: seq<nat>, gs: seq<Node>)
    requires SameShape(n, m)
    ensures PlanChildren(n, t, gs) == PlanChildren(m, t, gs)
    decreases gs
  {
    hide PlanNode;
    if gs != [] {
      ChildIndexKept(n.children, m.children, Called(gs[0].name));
      var i := ChildIndex(n.children, Called(gs[0].name));
      if i < |n.children| { PlanKept(n.children[i], m.children[i], t + [i], gs[0]); }
      PlanChildrenKept(n, m, t, gs[1..]);
    }
  }

  // ----- The walk carries out the plan -----

  lemma {:induction false} FixCellsPlan(root: Node, t: seq<nat>, f: seq<nat>, g: Node, top: nat, d: nat, i: nat,
                                        delta: nat)
    requires Away(root, t, f, g, top) && Listing(root, t, f, d)
    ensures var r := FixCells(root, t, f, d, i, delta); var p := g.props[d];
            && Left(root, r.root, top)
            && (r.err == Ok <==> CellsFit(SubTree(root, t), p, i))
            && (r.err == Ok ==> r.root == ApplyAll(root, PlanCells(t, p, i), delta))
    decreases |g.props[d].value| - i
  {
    hide SubTree, GetProp, FixCell, Path;
    var p := g.props[d];
    if 4 * i + 4 <= |p.value| {
      var off := U32(p.value, 4 * i);
      var r := FixCell(root, t, p.name, off, delta);
      CellElsewhere(root, t, p.name, off, delta, top);
      FixCellErr(root, t, p.name, off, delta);
      if r.err == Ok {
        AwayKept(root, r.root, t, f, g, top);
        ListingKept(root, r.root, t, f, d);
        FixCellsPlan(r.root, t, f, g, top, d, i + 1, delta);
        CellsFitKept(SubTree(root, t), SubTree(r.root, t), p, i + 1);
        LeftTwice(root, r.root, FixCells(r.root, t, f, d, i + 1, delta).root, top);
        assert PlanCells(t, p, i)[1..] == PlanCells(t, p, i + 1);
        assert Apply(root, PlanCells(t, p, i)[0], delta) == r.root;
      }
    }
  }

  lemma {:induction false} FixCellErr(root: Node, t: seq<nat>, name: Bytes, off: nat, delta: nat)
    requires Path(root, t) && GetProp(SubTree(root, t), name).Some?
    ensures FixCell(root, t, name, off, delta).err == CellErr(|GetProp(SubTree(root, t), name).value|, off)
  {
  }

  lemma {:induction false} FixPropsPlan(root: Node, t: seq<nat>, f: seq<nat>, g: Node, top: nat, d: nat, delta: nat)
    requires Away(root, t, f, g, top) && d <= |g.props|
    ensures var r := FixProps(root, t, f, d, delta);
            && Left(root, r.root, top)
            && (r.err == Ok <==> PropsFit(SubTree(root, t), g.props[d..]))
            && (r.err == Ok ==> r.root == ApplyAll(root, PlanProps(t, g.props[d..]), delta))
    decreases |g.props| - d
  {
    hide SubTree, GetProp, FixCells, Path, CellsFit, PropsFit;
    ShapeSelf(root);
    PropsFitFirst(SubTree(root, t), g.props[d..]);
    if d < |g.props| {
      var p := g.props[d];
      assert g.props[d..][0] == p && g.props[d..][1..] == g.props[d + 1..];
      if |p.value| % 4 == 0 && Listing(root, t, f, d) {
        var r := FixCells(root, t, f, d, 0, delta);
        FixCellsPlan(root, t, f, g, top, d, 0, delta);
        if r.err == Ok {
          AwayKept(root, r.root, t, f, g, top);
          FixPropsPlan(r.root, t, f, g, top, d + 1, delta);
          PropsFitKept(SubTree(root, t), SubTree(r.root, t), g.props[d + 1..]);
          LeftTwice(root, r.root, FixProps(r.root, t, f, d + 1, delta).root, top);
          ApplyConcat(root, PlanCells(t, p, 0), PlanProps(t, g.props[d + 1..]), delta);
        }
      }
    }
  }

  lemma {:induction false} PropsFitFirst(n: Node, ps: seq<Property>)
    ensures PropsFit(n, ps) <==>
              ps == [] || (|ps[0].value| % 4 == 0 && GetProp(n, ps[0].name).Some? && CellsFit(n, ps[0], 0)
                           && PropsFit(n, ps[1..]))
  {
    if ps != [] { assert forall d | 0 < d < |ps| :: ps[d] == ps[1..][d - 1]; }
  }

  /** No child of the fixup node stands for the fixup node itself. */
  predicate Outside(n: Node, t: seq<nat>, gs: seq<Node>, top: nat) {
    t == [] ==> forall c | 0 <= c < |gs| :: ChildIndex(n.children, Called(gs[c].name)) != top
  }

  predicate ChildrenFit(n: Node, gs: seq<Node>) {
    forall c | 0 <= c < |gs| ::
      var i := ChildIndex(n.children, Called(gs[c].name));
      i < |n.children| && ListsFit(n.children[i], gs[c])
  }

  lemma {:induction false} ChildrenFitFirst(n: Node, gs: seq<Node>, c: nat)
    requires c < |gs|
    ensures var i := ChildIndex(n.children, Called(gs[c].name));
            ChildrenFit(n, gs[c..]) <==>
              && i < |n.children| && ListsFit(n.children[i], gs[c])
              && ChildrenFit(n, gs[c + 1..])
  {
    hide ListsFit;
    var a, b := gs[c..], gs[c + 1..];
    assert a[0] == gs[c] && forall d | 0 < d < |a| :: a[d] == b[d - 1];
  }

  lemma {:induction false} ChildrenFitKept(n: Node, m: Node, gs: seq<Node>)
    requires SameShape(n, m)
    ensures ChildrenFit(n, gs) <==> ChildrenFit(m, gs)
  {
    hide ListsFit;
    forall c | 0 <= c < |gs|
      ensures var p := Called(gs[c].name); var i := ChildIndex(n.children, p);
              ChildIndex(m.children, p) == i && (i < |n.children| ==>
                                                 (ListsFit(n.children[i], gs[c]) <==> ListsFit(m.children[i], gs[c])))
    {
      var p := Called(gs[c].name);
      ChildIndexKept(n.children, m.children, p);
      var i := ChildIndex(n.children, p);
      if i < |n.children| { ListsFitKept(n.children[i], m.children[i], gs[c]); }
    }
  }

  lemma {:induction false} OutsideKept(n: Node, m: Node, t: seq<nat>, gs: seq<Node>, top: nat)
    requires SameShape(n, m) && Outside(n, t, gs, top)
    ensures Outside(m, t, gs, top)
  {
    forall c | 0 <= c < |gs|
      ensures ChildIndex(m.children, Called(gs[c].name)) == ChildIndex(n.children, Called(gs[c].name))
    {
      ChildIndexKept(n.children, m.children, Called(gs[c].name));
    }
  }

  /**
   The whole walk, when it does not enter its own lists: it succeeds exactly when all entries fit,
   and carries out the plan.
   */
  lemma {:induction false} FixNodePlan(root: Node, t: seq<nat>, f: seq<nat>, g: Node, top: nat, delta: nat)
    requires Away(root, t, f, g, top) && Outside(SubTree(root, t), t, g.children, top) && SameShape(g, g)
    ensures var r := FixNode(root, t, f, g, delta);
            && Left(root, r.root, top)
            && (r.err == Ok <==> ListsFit(SubTree(root, t), g))
            && (r.err == Ok ==> r.root == ApplyAll(root, PlanNode(SubTree(root, t), t, g), delta))
    decreases g, 1, 0
  {
    hide SubTree, Path, PropsFit, FixProps, PlanChildren, PlanProps, ApplyAll, FixChildren, SameShape, Outside;
    var n := SubTree(root, t);
    FixPropsPlan(root, t, f, g, top, 0, delta);
    assert g.props[0..] == g.props && g.children[0..] == g.children;
    var r := FixProps(root, t, f, 0, delta);
    if r.err == Ok {
      AwayKept(root, r.root, t, f, g, top);
      KeptBelow(root, r.root, t, f, g);
      OutsideKept(n, SubTree(r.root, t), t, g.children, top);
      FixChildrenPlan(r.root, t, f, g, top, 0, delta);
      ChildrenFitKept(n, SubTree(r.root, t), g.children);
      PlanChildrenKept(n, SubTree(r.root, t), t, g.children);
      LeftTwice(root, r.root, FixChildren(r.root, t, f, g, 0, delta).root, top);
      ApplyConcat(root, PlanProps(t, g.props), PlanChildren(n, t, g.children), delta);
    }
  }

  lemma {:induction false} PlanChildrenFirst(n: Node, t: seq<nat>, gs: seq<Node>, c: nat)
    requires c < |gs| && ChildIndex(n.children, Called(gs[c].name)) < |n.children|
    ensures var i := ChildIndex(n.children, Called(gs[c].name));
            PlanChildren(n, t, gs[c..]) == PlanNode(n.children[i], t + [i], gs[c]) + PlanChildren(n, t, gs[c + 1..])
  {
    hide PlanNode, ChildIndex;
    assert gs[c..][0] == gs[c] && gs[c..][1..] == gs[c + 1..];
  }

  lemma {:induction false} NoChildrenLeft(n: Node, t: seq<nat>, gs: seq<Node>)
    ensures ChildrenFit(n, gs[|gs|..]) && PlanChildren(n, t, gs[|gs|..]) == []
  {
  }

  lemma {:induction false} LeftSelf(root: Node, top: nat)
    requires top < |root.children|
    ensures Left(root, root, top)
  {
    ShapeSelf(root);
  }

  /** A child of the node and the child of the fixup node that stands for it. */
  lemma {:induction false} ChildAway(root: Node, t: seq<nat>, f: seq<nat>, g: Node, top: nat, c: nat)
    requires Away(root, t, f, g, top) && Outside(SubTree(root, t), t, g.children, top) && SameShape(g, g)
    requires c < |g.children|
    requires ChildIndex(SubTree(root, t).children, Called(g.children[c].name)) < |SubTree(root, t).children|
    ensures var i := ChildIndex(SubTree(root, t).children, Called(g.children[c].name));
            && Away(root, t + [i], f + [c], g.children[c], top)
            && Outside(SubTree(root, t + [i]), t + [i], g.children[c].children, top)
            && SameShape(g.children[c], g.children[c])
  {
    hide SubTree, Path, ChildIndex;
    var i := ChildIndex(SubTree(root, t).children, Called(g.children[c].name));
    PathSnoc(root, t, i);
    PathSnoc(root, f, c);
    ShapeSelf(g.children[c]);
  }

  lemma {:induction false} FixChildrenStep(root: Node, t: seq<nat>, f: seq<nat>, g: Node, c: nat, delta: nat)
    requires Path(root, t) && Path(root, f) && SameShape(SubTree(root, f), g) && c < |g.children|
    ensures var ns := SubTree(root, t).children; var i := ChildIndex(ns, Called(g.children[c].name));
            && (i == |ns| ==> FixChildren(root, t, f, g, c, delta) == Fixing(root, BadOverlay))
            && (i < |ns| ==>
                  && Path(root, t + [i]) && Path(root, f + [c]) && SameShape(SubTree(root, f + [c]), g.children[c])
                  && var r := FixNode(root, t + [i], f + [c], g.children[c], delta);
                     && Path(r.root, t) && Path(r.root, f) && SameShape(SubTree(r.root, f), g)
                     && FixChildren(root, t, f, g, c, delta) ==
                     if r.err != Ok then r else FixChildren(r.root, t, f, g, c + 1, delta))
  {
    hide SubTree, Path, FixNode, Before, After;
    var ns := SubTree(root, t).children;
    var i := ChildIndex(ns, Called(g.children[c].name));
    if i < |ns| {
      PathSnoc(root, t, i);
      PathSnoc(root, f, c);
      KeptBelow(root, FixNode(root, t + [i], f + [c], g.children[c], delta).root, t, f, g);
    }
  }

  lemma {:induction false} FixChildrenEnd(root: Node, t: seq<nat>, f: seq<nat>, g: Node, delta: nat)
    requires Path(root, t) && Path(root, f) && SameShape(SubTree(root, f), g)
    ensures FixChildren(root, t, f, g, |g.children|, delta) == Fixing(root, Ok)
  {
  }

  lemma {:induction false} FixChildrenPlan(root: Node, t: seq<nat>, f: seq<nat>, g: Node, top: nat, c: nat, delta: nat)
    requires Away(root, t, f, g, top) && Outside(SubTree(root, t), t, g.children, top) && SameShape(g, g)
    requires c <= |g.children|
    ensures var r := FixChildren(root, t, f, g, c, delta);
            && Left(root, r.root, top)
            && (r.err == Ok <==> ChildrenFit(SubTree(root, t), g.children[c..]))
            && (r.err == Ok ==> r.root == ApplyAll(root, PlanChildren(SubTree(root, t), t, g.children[c..]), delta))
    decreases g, 0, |g.children| - c
  {
    hide SubTree, Path, FixNode, FixChildren, ApplyAll, PlanNode, PlanChildren, ListsFit, ChildrenFit, Before, After,
         Left, Outside, ChildIndex;
    ShapeSelf(root);
    LeftSelf(root, top);
    var n, gs := SubTree(root, t), g.children;
    if c == |gs| {
      FixChildrenEnd(root, t, f, g, delta);
      NoChildrenLeft(n, t, gs);
      ApplyNone(root, delta);
    } else {
      var gc, i := gs[c], ChildIndex(n.children, Called(gs[c].name));
      FixChildrenStep(root, t, f, g, c, delta);
      ChildrenFitFirst(n, gs, c);
      if i < |n.children| {
        ChildAway(root, t, f, g, top, c);
        PathSnoc(root, t, i);
        FixNodePlan(root, t + [i], f + [c], gc, top, delta);
        var r := FixNode(root, t + [i], f + [c], gc, delta);
        if r.err == Ok {
          AwayKept(root, r.root, t, f, g, top);
          OutsideKept(n, SubTree(r.root, t), t, gs, top);
          FixChildrenPlan(r.root, t, f, g, top, c + 1, delta);
          ChildrenFitKept(n, SubTree(r.root, t), gs[c + 1..]);
          PlanChildrenKept(n, SubTree(r.root, t), t, gs[c + 1..]);
          LeftTwice(root, r.root, FixChildren(r.root, t, f, g, c + 1, delta).root, top);
          PlanChildrenFirst(n, t, gs, c);
          ApplyConcat(root, PlanNode(n.children[i], t + [i], gc), PlanChildren(n, t, gs[c + 1..]), delta);
        }
      }
    }
  }

  /** The edits of overlay_update_local_references; none without a fixup node. */
  function Plan(root: Node): seq<Edit> {
    var i := ChildIndex(root.children, Called(LOCAL_FIXUPS));
    if i == |root.children| then [] else PlanNode(root, [], root.children[i])
  }

  predicate AllFit(root: Node) {
    var i := ChildIndex(root.children, Called(LOCAL_FIXUPS));
    i == |root.children| || ListsFit(root, root.children[i])
  }

  /** The fixup node lists cells of itself: one of its children has a name that selects it. */
  predicate ListsItself(root: Node) {
    var i := ChildIndex(root.children, Called(LOCAL_FIXUPS));
    i < |root.children| && !Outside(root, [], root.children[i].children, i)
  }

  /** The walk over the tree succeeds exactly when every entry fits, and then carries out the plan. */
  lemma {:induction false} FixTreePlan(root: Node, delta: nat)
    requires !ListsItself(root)
    ensures FixTree(root, delta).err == Ok <==> AllFit(root)
    ensures AllFit(root) ==> FixTree(root, delta).root == ApplyAll(root, Plan(root), delta)
  {
    hide FixNode, PlanNode, ListsFit, ApplyAll;
    var i := ChildIndex(root.children, Called(LOCAL_FIXUPS));
    if i < |root.children| {
      var g := root.children[i];
      ShapeSelf(g);
      assert Path(root, [i]) && SubTree(root, [i]) == g by { assert [i][1..] == []; }
      FixNodePlan(root, [], [i], g, i, delta);
    } else {
      ApplyNone(root, delta);
    }
  }

  // ----- What the plan lists -----

  /** One of the properties is called name and has the number off among its cells. */
  ghost predicate ListsCell(ps: seq<Property>, name: Bytes, off: nat) {
    exists d: nat, k: nat :: d < |ps| && ps[d].name == name && HasWord(ps[d].value, k, off)
  }

  predicate HasWord(v: Bytes, k: nat, off: nat) {
    4 * k + 4 <= |v| && U32(v, 4 * k) == off
  }

  /**
   The fixups g of the node n list the cell off of a property of the node at t below n: at each
   level a fixup node stands for the first child that answers to its name.
   */
  ghost predicate Lists(n: Node, g: Node, t: seq<nat>, name: Bytes, off: nat)
    decreases |t|
  {
    if t == [] then ListsCell(g.props, name, off)
    else exists c :: 0 <= c < |g.children| && FirstAnswering(n.children, g.children[c].name, t[0])
                  && Lists(n.children[t[0]], g.children[c], t[1..], name, off)
  }

  lemma {:induction false} CellsListed(t: seq<nat>, p: Property, i: nat, e: Edit)
    ensures e in PlanCells(t, p, i) <==>
            e.path == t && e.name == p.name && exists k: nat :: i <= k && HasWord(p.value, k, e.off)
    decreases |p.value| - i
  {
    if 4 * i + 4 <= |p.value| {
      CellsListed(t, p, i + 1, e);
      assert HasWord(p.value, i, U32(p.value, 4 * i));
    }
  }

  lemma {:induction false} PropsListed(t: seq<nat>, ps: seq<Property>, e: Edit)
    ensures e in PlanProps(t, ps) <==> e.path == t && ListsCell(ps, e.name, e.off)
  {
    hide PlanCells, HasWord;
    if ps != [] {
      CellsListed(t, ps[0], 0, e);
      PropsListed(t, ps[1..], e);
      if d: nat, k: nat :| d < |ps| && ps[d].name == e.name && HasWord(ps[d].value, k, e.off) {
        if d > 0 { assert ps[1..][d - 1] == ps[d]; }
      }
      if d: nat, k: nat :| d < |ps[1..]| && ps[1..][d].name == e.name && HasWord(ps[1..][d].value, k, e.off) {
        assert ps[d + 1] == ps[1..][d];
      }
    }
  }

  /** The edits that the walk plans are exactly the cells that are listed. */
  lemma {:induction false} PlanListed(n: Node, t: seq<nat>, g: Node, e: Edit)
    ensures e in PlanNode(n, t, g) <==> t <= e.path && Lists(n, g, e.path[|t|..], e.name, e.off)
    decreases g, 1
  {
    hide PlanProps, PlanChildren, ListsCell;
    PropsListed(t, g.props, e);
    ChildrenListed(n, t, g.children, e);
    if e.path == t { assert e.path[|t|..] == []; }
  }

  lemma {:induction false} ChildrenListed(n: Node, t: seq<nat>, gs: seq<Node>, e: Edit)
    ensures e in PlanChildren(n, t, gs) <==>
            && t < e.path
            && exists c :: 0 <= c < |gs| && FirstAnswering(n.children, gs[c].name, e.path[|t|])
                        && Lists(n.children[e.path[|t|]], gs[c], e.path[|t| + 1..], e.name, e.off)
    decreases gs, 0
  {
    hide PlanNode, FirstAnswering, Lists, ChildIndex;
    if gs != [] {
      ChildrenListed(n, t, gs[1..], e);
      ChildListed(n, t, gs[0], e);
      assert forall c | 0 <= c < |gs| - 1 :: gs[1..][c] == gs[c + 1];
    }
  }

  lemma {:induction false} ChildListed(n: Node, t: seq<nat>, g: Node, e: Edit)
    ensures var i := ChildIndex(n.children, Called(g.name));
            i < |n.children| && e in PlanNode(n.children[i], t + [i], g) <==>
            && t < e.path && FirstAnswering(n.children, g.name, e.path[|t|])
            && Lists(n.children[e.path[|t|]], g, e.path[|t| + 1..], e.name, e.off)
    decreases g, 2
  {
    hide PlanNode, Lists, ChildIndex, Answers;
    ChildAnswers(n.children, g.name);
    var i := ChildIndex(n.children, Called(g.name));
    if i < |n.children| {
      PlanListed(n.children[i], t + [i], g, e);
      assert t + [i] <= e.path <==> t < e.path && e.path[|t|] == i;
    }
  }

  /** Over the whole overlay: the lists stand below the first child that answers to "__local_fixups__". */
  lemma {:induction false} PlanExactly(root: Node, e: Edit)
    ensures e in Plan(root) <==>
            exists i: nat :: FirstAnswering(root.children, LOCAL_FIXUPS, i)
                          && Lists(root, root.children[i], e.path, e.name, e.off)
  {
    hide PlanNode, Lists, ChildIndex, Answers;
    ChildAnswers(root.children, LOCAL_FIXUPS);
    var i := ChildIndex(root.children, Called(LOCAL_FIXUPS));
    if i < |root.children| {
      PlanListed(root, [], root.children[i], e);
      assert e.path[0..] == e.path;
    }
  }

  /** All lists consist of whole cells. */
  predicate WholeCells(g: Node) {
    && (forall d | 0 <= d < |g.props| :: |g.props[d].value| % 4 == 0)
    && (forall c | 0 <= c < |g.children| :: WholeCells(g.children[c]))
  }

  /** When all fits, the lists consist of whole cells, and every listed cell lies in a value of its node. */
  lemma {:induction false} FitMeans(n: Node, t: seq<nat>, g: Node, e: Edit)
    requires ListsFit(n, g)
    ensures WholeCells(g)
    ensures e in PlanNode(n, t, g) ==> t <= e.path && CellInside(n, e.path[|t|..], e.name, e.off)
    decreases g
  {
    hide PlanProps, PlanChildren, ListsCell, Answers, ChildIndex, GetProp;
    PropsListed(t, g.props, e);
    ChildrenListed(n, t, g.children, e);
    if e in PlanProps(t, g.props) {
      var d: nat, k: nat := ListedCell(g.props, e.name, e.off);
      CellFits(n, g.props[d], 0, k);
      assert e.path[|t|..] == [];
    }
    forall c | 0 <= c < |g.children|
      ensures WholeCells(g.children[c])
      ensures t < e.path && FirstAnswering(n.children, g.children[c].name, e.path[|t|])
              && Lists(n.children[e.path[|t|]], g.children[c], e.path[|t| + 1..], e.name, e.off) ==>
                CellInside(n, e.path[|t|..], e.name, e.off)
    {
      ChildAnswers(n.children, g.children[c].name);
      var i := ChildIndex(n.children, Called(g.children[c].name));
      FitMeans(n.children[i], t + [i], g.children[c], e);
      PlanListed(n.children[i], t + [i], g.children[c], e);
      if t < e.path && FirstAnswering(n.children, g.children[c].name, e.path[|t|]) {
        FirstIs(n.children, g.children[c].name, i, e.path[|t|]);
        assert e.path[|t|..][1..] == e.path[|t| + 1..] && e.path[|t| + 1..] == e.path[|t + [i]|..];
      }
    }
  }

  lemma {:induction false} FirstIs(ns: seq<Node>, name: Bytes, i: nat, j: nat)
    requires FirstAnswering(ns, name, i) && FirstAnswering(ns, name, j)
    ensures i == j
  {
    hide Answers;
  }

  /** The cell at off of a property of the node at p below n is inside the value. */
  predicate CellInside(n: Node, p: seq<nat>, name: Bytes, off: nat) {
    Path(n, p) && GetProp(SubTree(n, p), name).Some? && off + 4 <= |GetProp(SubTree(n, p), name).value|
  }

  lemma {:induction false} ListedCell(ps: seq<Property>, name: Bytes, off: nat) returns (d: nat, k: nat)
    requires ListsCell(ps, name, off)
    ensures d < |ps| && ps[d].name == name && HasWord(ps[d].value, k, off)
  {
    d, k :| d < |ps| && ps[d].name == name && HasWord(ps[d].value, k, off);
  }

  lemma {:induction false} CellFits(n: Node, p: Property, i: nat, k: nat)
    requires CellsFit(n, p, i) && i <= k && 4 * k + 4 <= |p.value|
    ensures GetProp(n, p.name).Some? && U32(p.value, 4 * k) + 4 <= |GetProp(n, p.name).value|
    decreases k - i
  {
    hide GetProp, U32;
    if i < k { CellFits(n, p, i + 1, k); }
  }

  // ----- What the plan does to a value -----

  /** The places of one property that the edits name, in order. */
  function Offs(es: seq<Edit>, q: seq<nat>, name: Bytes): seq<nat> {
    if es == [] then []
    else (if es[0].path == q && es[0].name == name then [es[0].off] else []) + Offs(es[1..], q, name)
  }

  function AddAll(v: Bytes, offs: seq<nat>, delta: nat): (r: Bytes)
    ensures |r| == |v|
    decreases |offs|
  {
    if offs == [] then v
    else AddAll(if CellErr(|v|, offs[0]) == Ok then AddAt(v, offs[0], delta) else v, offs[1..], delta)
  }

  /** Values elsewhere in the tree do not move. */
  lemma {:induction false} ReplaceGet(root: Node, t: seq<nat>, m: Node, q: seq<nat>)
    requires Path(root, t) && Path(root, q) && m.children == SubTree(root, t).children
    ensures var r := Replace(root, t, m);
            Path(r, q) && SubTree(r, q).props == if q == t then m.props else SubTree(root, q).props
    decreases |t| + |q|
  {
    if t != [] && q != [] && t[0] == q[0] {
      ReplaceGet(root.children[t[0]], t[1..], m, q[1..]);
      assert t == [t[0]] + t[1..] && q == [q[0]] + q[1..];
    }
  }

  lemma {:induction false} ApplyGet(root: Node, e: Edit, delta: nat, q: seq<nat>, name: Bytes)
    requires Path(root, q) && GetProp(SubTree(root, q), name).Some?
    ensures var r := Apply(root, e, delta); var v := GetProp(SubTree(root, q), name).value;
            && Path(r, q)
            && GetProp(SubTree(r, q), name) ==
               Some(if e.path == q && e.name == name && CellErr(|v|, e.off) == Ok then AddAt(v, e.off, delta) else v)
  {
    if Path(root, e.path) && GetProp(SubTree(root, e.path), e.name).Some? {
      var n := SubTree(root, e.path);
      var w := GetProp(n, e.name).value;
      if CellErr(|w|, e.off) == Ok {
        hide GetProp, WithProp, AddAt, Path, SubTree, Replace;
        var m := WithProp(n, e.name, AddAt(w, e.off, delta));
        WithPropChildren(n, e.name, AddAt(w, e.off, delta));
        ReplaceGet(root, e.path, m, q);
        SetThenGet(n, e.name, AddAt(w, e.off, delta), name);
        var r := Replace(root, e.path, m);
        SameTopProps(SubTree(r, q), if q == e.path then m else SubTree(root, q), name);
      }
    }
  }

  lemma {:induction false} WithPropChildren(n: Node, name: Bytes, v: Bytes)
    ensures WithProp(n, name, v).children == n.children
  {
  }

  /** A value after the edits: its own listed cells have moved, and nothing else has touched it. */
  lemma {:induction false} ApplyAllGet(root: Node, es: seq<Edit>, delta: nat, q: seq<nat>, name: Bytes)
    requires Path(root, q) && GetProp(SubTree(root, q), name).Some?
    ensures var r := ApplyAll(root, es, delta);
            && Path(r, q)
            && GetProp(SubTree(r, q), name) == Some(AddAll(GetProp(SubTree(root, q), name).value, Offs(es, q, name),
                                                           delta))
    decreases |es|
  {
    hide GetProp, Apply, AddAt, Path, SubTree, CellErr;
    if es != [] {
      ApplyGet(root, es[0], delta, q, name);
      ApplyAllGet(Apply(root, es[0], delta), es[1..], delta, q, name);
      var rest := Offs(es[1..], q, name);
      assert ([es[0].off] + rest)[1..] == rest && [] + rest == rest;
    }
  }

  lemma {:induction false} AddAtWord(v: Bytes, off: nat, delta: nat, o: nat)
    requires off + 4 <= |v| && o + 4 <= |v| && (o == off || o + 4 <= off || off + 4 <= o)
    ensures U32(AddAt(v, off, delta), o) == if o == off then (U32(v, off) + delta) % WORD else U32(v, o)
  {
    var x := (U32(v, off) + delta) % WORD;
    var r := AddAt(v, off, delta);
    if o == off {
      assert r[off..off + 4] == BE32(x);
      WordRoundTrip(r, off, x);
    } else {
      assert r[o..o + 4] == v[o..o + 4];
      WordSame(r, o, v, o);
    }
  }

  /** How often a place is listed. */
  function Times(offs: seq<nat>, o: nat): nat {
    if offs == [] then 0 else (if offs[0] == o then 1 else 0) + Times(offs[1..], o)
  }

  /** No other entry overlaps the cell at o. */
  predicate Clean(offs: seq<nat>, o: nat) {
    forall i | 0 <= i < |offs| :: offs[i] == o || offs[i] + 4 <= o || o + 4 <= offs[i]
  }

  /** A cell that nothing overlaps moves by delta for every time it is listed. */
  lemma {:induction false} AddAllWord(v: Bytes, offs: seq<nat>, delta: nat, o: nat)
    requires o + 4 <= |v| && Clean(offs, o)
    ensures U32(AddAll(v, offs, delta), o) == (U32(v, o) + Times(offs, o) * delta) % WORD
    decreases |offs|
  {
    hide AddAt, U32;
    if offs != [] {
      var v' := if CellErr(|v|, offs[0]) == Ok then AddAt(v, offs[0], delta) else v;
      if CellErr(|v|, offs[0]) == Ok { AddAtWord(v, offs[0], delta, o); }
      AddAllWord(v', offs[1..], delta, o);
      var m := Times(offs[1..], o) * delta;
      if offs[0] == o {
        WrapTwice(U32(v, o) + delta, m);
        assert (1 + Times(offs[1..], o)) * delta == delta + m;
      }
    }
  }

  lemma {:induction false} WrapTwice(x: nat, m: nat)
    ensures (x % WORD + m) % WORD == (x + m) % WORD
  {
    var a := x / WORD;
    assert x + m == (x % WORD + m) + a * WORD;
    AddMultiple(x % WORD + m, a);
  }

  lemma {:induction false} AddMultiple(y: nat, a: nat)
    ensures (y + a * WORD) % WORD == y % WORD
  {
    if a > 0 {
      AddMultiple(y, a - 1);
      assert y + a * WORD == (y + (a - 1) * WORD) + WORD;
    }
  }

  // ----- References after both steps -----

  /** The lists name no phandle property. */
  predicate NoNumbersListed(es: seq<Edit>) {
    forall i | 0 <= i < |es| :: es[i].name != PHANDLE && es[i].name != LINUX_PHANDLE
  }

  predicate NumberName(name: Bytes) {
    name == PHANDLE || name == LINUX_PHANDLE
  }

  /**
   A list for a number is itself named like a number, so its entry has been shifted with the
   numbers and lies outside the one cell it is for.
   */
  lemma {:induction false} NoNumberLists(n: Node, g: Node, delta: nat)
    requires 0 < delta && Shiftable(n, delta) && Shiftable(g, delta) && PropsFit(Shift(n, delta), Shift(g, delta).props)
    ensures var ps := Shift(g, delta).props; forall d | 0 <= d < |ps| :: !NumberName(ps[d].name)
  {
    hide Shift, BumpErr, CellsFit;
    var n', g' := Shift(n, delta), Shift(g, delta);
    forall d | 0 <= d < |g'.props| ensures !NumberName(g'.props[d].name) {
      var name := g'.props[d].name;
      if NumberName(name) {
        var i := PropIndex(g'.props, name);
        assert CellsFit(n', g'.props[i], 0) && GetProp(n', name).Some?;
        NumberListed(n, g, delta, name);
      }
    }
  }

  lemma {:induction false} NumberListed(n: Node, g: Node, delta: nat, name: Bytes)
    requires 0 < delta && Shiftable(n, delta) && Shiftable(g, delta) && NumberName(name)
    requires GetProp(Shift(n, delta), name).Some? && GetProp(Shift(g, delta), name).Some?
    ensures !CellsFit(Shift(n, delta), Property(name, GetProp(Shift(g, delta), name).value), 0)
  {
    hide Shift, GetProp;
    ShiftGet(g, delta, name);
    ShiftGet(n, delta, name);
    Cell(U32(GetProp(g, name).value, 0) + delta);
  }

  lemma {:induction false} NoNumbersInProps(t: seq<nat>, ps: seq<Property>)
    requires forall d | 0 <= d < |ps| :: !NumberName(ps[d].name)
    ensures NoNumbersListed(PlanProps(t, ps))
  {
    if ps != [] {
      NoNumbersInCells(t, ps[0], 0);
      NoNumbersInProps(t, ps[1..]);
    }
  }

  lemma {:induction false} NoNumbersInCells(t: seq<nat>, p: Property, i: nat)
    requires !NumberName(p.name)
    ensures NoNumbersListed(PlanCells(t, p, i))
    decreases |p.value| - i
  {
    if 4 * i + 4 <= |p.value| { NoNumbersInCells(t, p, i + 1); }
  }

  lemma {:induction false} NoNumbersBelow(n: Node, g: Node, delta: nat, t: seq<nat>)
    requires 0 < delta && Trouble(n, delta) == Ok && Trouble(g, delta) == Ok
    requires ListsFit(Shift(n, delta), Shift(g, delta))
    ensures NoNumbersListed(PlanNode(Shift(n, delta), t, Shift(g, delta)))
    decreases g, 1
  {
    hide ListsFit, PropsFit, ChildrenFit, PlanNode, PlanProps, PlanChildren, Shift, ShiftAll, Trouble, Shiftable;
    TroubleHere(n, delta);
    TroubleHere(g, delta);
    ListsFitIs(Shift(n, delta), Shift(g, delta));
    PlanNodeIs(Shift(n, delta), t, Shift(g, delta));
    ShiftIs(g, delta);
    NoNumberLists(n, g, delta);
    NoNumbersInProps(t, Shift(g, delta).props);
    NoNumbersAmong(n, g.children, delta, t);
  }

  lemma {:induction false} ListsFitIs(n: Node, g: Node)
    ensures ListsFit(n, g) <==> PropsFit(n, g.props) && ChildrenFit(n, g.children)
  {
  }

  lemma {:induction false} PlanNodeIs(n: Node, t: seq<nat>, g: Node)
    ensures PlanNode(n, t, g) == PlanProps(t, g.props) + PlanChildren(n, t, g.children)
  {
  }

  lemma {:induction false} ShiftIs(n: Node, delta: nat)
    ensures Shift(n, delta).children == ShiftAll(n.children, delta)
  {
  }

  lemma {:induction false} NoNumbersAmong(n: Node, gs: seq<Node>, delta: nat, t: seq<nat>)
    requires 0 < delta && Trouble(n, delta) == Ok && (forall c | 0 <= c < |gs| :: Trouble(gs[c], delta) == Ok)
    requires ChildrenFit(Shift(n, delta), ShiftAll(gs, delta))
    ensures NoNumbersListed(PlanChildren(Shift(n, delta), t, ShiftAll(gs, delta)))
    decreases gs, 0
  {
    hide Trouble, ListsFit, PlanNode, Shift, ChildrenFit, Shiftable;
    if gs != [] {
      var n', cs := Shift(n, delta), ShiftAll(gs, delta);
      assert cs[0] == Shift(gs[0], delta) && cs[1..] == ShiftAll(gs[1..], delta);
      ChildrenFitFirst(n', cs, 0);
      assert cs[0..] == cs;
      var i := ChildIndex(n'.children, Called(cs[0].name));
      TroubleHere(n, delta);
      ShiftIs(n, delta);
      NoNumbersBelow(n.children[i], gs[0], delta, t + [i]);
      NoNumbersAmong(n, gs[1..], delta, t);
    }
  }

  /** In a renumbered overlay whose lists fit, no list names a number. */
  lemma {:induction false} NoNumbersInPlan(ov: Node, delta: nat)
    requires 0 < delta && Trouble(ov, delta) == Ok && AllFit(Shift(ov, delta))
    ensures NoNumbersListed(Plan(Shift(ov, delta)))
  {
    hide BumpErr, Trouble, ListsFit, PlanNode;
    var ov' := Shift(ov, delta);
    var i := ChildIndex(ov'.children, Called(LOCAL_FIXUPS));
    TroubleHere(ov, delta);
    if i < |ov'.children| { NoNumbersBelow(ov, ov.children[i], delta, []); }
  }

  /** Adding nothing changes nothing. */
  lemma {:induction false} ApplyZero(root: Node, es: seq<Edit>)
    ensures ApplyAll(root, es, 0) == root
    decreases |es|
  {
    hide Apply;
    if es != [] {
      ApplyZeroOnce(root, es[0]);
      ApplyZero(root, es[1..]);
    }
  }

  lemma {:induction false} ApplyZeroOnce(root: Node, e: Edit)
    ensures Apply(root, e, 0) == root
  {
    if Path(root, e.path) && GetProp(SubTree(root, e.path), e.name).Some? {
      var n := SubTree(root, e.path);
      var v := GetProp(n, e.name).value;
      if CellErr(|v|, e.off) == Ok {
        AddZero(v, e.off);
        assert WithProp(n, e.name, v) == n;
        ReplaceSame(root, e.path);
      }
    }
  }

  lemma {:induction false} AddZero(v: Bytes, off: nat)
    requires off + 4 <= |v|
    ensures AddAt(v, off, 0) == v
  {
    hide BE32, U32;
    SameWord(v, off);
    assert (U32(v, off) + 0) % WORD == U32(v, off);
  }

  lemma {:induction false} SameWord(v: Bytes, off: nat)
    requires off + 4 <= |v|
    ensures BE32(U32(v, off)) == v[off..off + 4]
  {
    Digits(v[off], v[off + 1], v[off + 2], v[off + 3]);
  }

  lemma {:induction false} Digits(a: nat, b: nat, c: nat, d: nat)
    requires a < 256 && b < 256 && c < 256 && d < 256
    ensures var x := a * 0x100_0000 + b * 0x1_0000 + c * 256 + d;
            && x / 0x100_0000 == a && x / 0x1_0000 == a * 256 + b && x / 0x1_0000 % 256 == b
            && x / 256 == a * 0x1_0000 + b * 256 + c && x / 256 % 256 == c && x % 256 == d
  {
  }

  lemma {:induction false} NoOffs(es: seq<Edit>, q: seq<nat>, name: Bytes)
    requires NoNumbersListed(es) && (name == PHANDLE || name == LINUX_PHANDLE)
    ensures Offs(es, q, name) == []
  {
    if es != [] { NoOffs(es[1..], q, name); }
  }

  /** Then the edits leave every number; and so do edits that add nothing. */
  lemma {:induction false} NumbersKept(root: Node, es: seq<Edit>, delta: nat, q: seq<nat>)
    requires (delta == 0 || NoNumbersListed(es)) && Path(root, q)
    ensures var r := ApplyAll(root, es, delta); Path(r, q) && PhandleOf(SubTree(r, q)) == PhandleOf(SubTree(root, q))
  {
    hide SubTree, ApplyAll, Path, SameShape, PropIndex, NoNumbersListed;
    var r := ApplyAll(root, es, delta);
    if delta == 0 {
      ApplyZero(root, es);
      return;
    }
    ApplyShape(root, es, delta);
    ShapePath(root, r, q);
    ShapeTop(SubTree(root, q), SubTree(r, q));
    forall name | name == PHANDLE || name == LINUX_PHANDLE
      ensures GetProp(SubTree(r, q), name) == GetProp(SubTree(root, q), name)
    {
      NoOffs(es, q, name);
      ShapeIndex(SubTree(root, q).props, SubTree(r, q).props, name);
      if GetProp(SubTree(root, q), name).Some? { ApplyAllGet(root, es, delta, q, name); }
    }
  }

  lemma {:induction false} ShapeTop(a: Node, b: Node)
    requires SameShape(a, b)
    ensures PropShapes(a.props, b.props)
  {
  }

  /**
   A reference to a node of the overlay, listed once, after the renumbering and the local
   fixups: it has moved by delta and names the nodes that it named.
   */
  lemma {:induction false} LocalReferenceKept(ov: Node, delta: nat, q: seq<nat>, name: Bytes, o: nat, target: seq<nat>)
    requires Trouble(ov, delta) == Ok && Path(ov, q) && Path(ov, target) && name != PHANDLE && name != LINUX_PHANDLE
    requires !ListsItself(Shift(ov, delta)) && AllFit(Shift(ov, delta))
    requires GetProp(SubTree(ov, q), name).Some? && o + 4 <= |GetProp(SubTree(ov, q), name).value|
    requires var offs := Offs(Plan(Shift(ov, delta)), q, name); Clean(offs, o) && Times(offs, o) == 1
    requires U32(GetProp(SubTree(ov, q), name).value, o) == PhandleOf(SubTree(ov, target)) != 0
    ensures var c, r := U32(GetProp(SubTree(ov, q), name).value, o), FixTree(Shift(ov, delta), delta).root;
            && Path(r, q) && GetProp(SubTree(r, q), name).Some? && o + 4 <= |GetProp(SubTree(r, q), name).value|
            && U32(GetProp(SubTree(r, q), name).value, o) == c + delta
            && forall p | Path(ov, p) :: Path(r, p)
                 && (PhandleOf(SubTree(ov, p)) == c <==> PhandleOf(SubTree(r, p)) == c + delta)
  {
    hide SubTree, ApplyAll, Path, GetProp, PhandleOf, Shift, Plan, AllFit, ListsItself, FixTree, Offs, AddAll,
         NoNumbersListed, Shiftable, Numbered, Trouble, U32;
    var c, ov', v := PhandleOf(SubTree(ov, target)), Shift(ov, delta), GetProp(SubTree(ov, q), name).value;
    var es := Plan(ov');
    FixTreePlan(ov', delta);
    if delta > 0 { NoNumbersInPlan(ov, delta); }
    ShiftedAt(ov, delta, q, name);
    ApplyAllGet(ov', es, delta, q, name);
    AddAllWord(v, Offs(es, q, name), delta, o);
    ShiftedPhandle(ov, delta, target);
    NumberFits(ov, delta, target);
    forall p | Path(ov, p) ensures var r := FixTree(ov', delta).root;
                                   Path(r, p) && (PhandleOf(SubTree(ov, p)) == c <==>
                                                  PhandleOf(SubTree(r, p)) == c + delta)
    {
      ReferenceKept(ov, delta, c, p);
      NumbersKept(ov', es, delta, p);
    }
  }

  lemma {:induction false} ShiftedAt(ov: Node, delta: nat, q: seq<nat>, name: Bytes)
    requires Trouble(ov, delta) == Ok && Path(ov, q) && name != PHANDLE && name != LINUX_PHANDLE
    ensures Path(Shift(ov, delta), q) && GetProp(SubTree(Shift(ov, delta), q), name) == GetProp(SubTree(ov, q), name)
  {
    TroubleFree(ov, delta);
    ShiftAt(ov, delta, q);
    ShiftGet(SubTree(ov, q), delta, name);
  }

  lemma {:induction false} NumberFits(ov: Node, delta: nat, p: seq<nat>)
    requires Trouble(ov, delta) == Ok && Path(ov, p) && PhandleOf(SubTree(ov, p)) != 0
    ensures PhandleOf(SubTree(ov, p)) + delta < WORD
  {
    hide GetProp;
    TroubleFree(ov, delta);
    assert Shiftable(SubTree(ov, p), delta);
  }
}
