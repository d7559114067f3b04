/**
 An overlay whose local fixups list a cell of the lists themselves.  Every entry fits, and
 still the walk fails: it has moved an entry before it comes to it.
 */
module FixupCases {
  import opened Basics
  import opened FdtTokens
  import opened FdtTree
  import opened FdtEdit
  import opened FdtSubnodes
  import opened FdtEditor
  import opened FdtPhandles
  import opened FdtFixups
  import opened FdtRenumber

  /** A node x with one cell a == v. */
  function Leafy(v: nat): Node
    requires v < WORD
  {
    Node([120], [Property([97], BE32(v))], [])
  }

  /** The fixup node; its first child stands for the fixup node itself and lists the cell of the second. */
  function Lists(v: nat): Node
    requires v < WORD
  {
    Node(LOCAL_FIXUPS, [], [Node(LOCAL_FIXUPS, [], [Leafy(0)]), Leafy(v)])
  }

  function Whole(v: nat): Node
    requires v < WORD
  {
    Node([], [], [Lists(v), Leafy(0)])
  }

  lemma {:induction false} Names()
    ensures ChildIndex([Lists(0), Leafy(0)], Called(LOCAL_FIXUPS)) == 0
    ensures forall v: nat | v < WORD :: ChildIndex([Lists(v), Leafy(0)], Called([120])) == 1
    ensures forall v: nat | v < WORD :: ChildIndex([Node(LOCAL_FIXUPS, [], [Leafy(0)]), Leafy(v)], Called([120])) == 1
  {
    assert LOCAL_FIXUPS[..16] == LOCAL_FIXUPS;
    assert LOCAL_FIXUPS[..1] == [95];
    assert [120][..1] == [120];
  }

  lemma {:induction false} Places(v: nat)
    requires v < WORD
    ensures var w := Whole(v);
            && Path(w, []) && SubTree(w, []) == w
            && Path(w, [0]) && SubTree(w, [0]) == Lists(v)
            && Path(w, [1]) && SubTree(w, [1]) == Leafy(0)
            && Path(w, [0, 0]) && SubTree(w, [0, 0]) == Node(LOCAL_FIXUPS, [], [Leafy(0)])
            && Path(w, [0, 1]) && SubTree(w, [0, 1]) == Leafy(v)
            && Path(w, [0, 0, 0]) && SubTree(w, [0, 0, 0]) == Leafy(0)
  {
    assert [0][1..] == [] && [1][1..] == [] && [0, 0][1..] == [0] && [0, 1][1..] == [1] && [0, 0, 0][1..] == [0, 0];
  }

  lemma {:induction false} Value(v: nat)
    requires v < WORD
    ensures GetProp(Leafy(v), [97]) == Some(BE32(v)) && U32(BE32(v), 0) == v
  {
    Cell(v);
  }

  /** The first entry moves the second list. */
  lemma {:induction false} Edits()
    ensures Path(Whole(0), [0, 1]) && GetProp(SubTree(Whole(0), [0, 1]), [97]).Some?
    ensures FixCell(Whole(0), [0, 1], [97], 0, 4) == Fixing(Whole(4), Ok)
  {
    Places(0);
    Value(0);
    var m := WithProp(Leafy(0), [97], AddAt(BE32(0), 0, 4));
    assert AddAt(BE32(0), 0, 4) == BE32(4);
    assert m == Leafy(4);
    assert Replace(Lists(0), [1], m) == Lists(4) by { assert [1][1..] == []; }
    assert Replace(Whole(0), [0, 1], m) == Whole(4) by { assert [0, 1][1..] == [1]; }
  }

  /** A list of one entry, and no children. */
  lemma {:induction false} OneEntry(root: Node, t: seq<nat>, f: seq<nat>, v: nat, r: Fixing)
    requires v < WORD && Path(root, t) && Path(root, f) && SubTree(root, f) == Leafy(v) && SameShape(Leafy(v), Leafy(0))
    requires GetProp(SubTree(root, t), [97]).Some? && FixCell(root, t, [97], v, 4) == r
    ensures FixNode(root, t, f, Leafy(0), 4) == r
  {
    hide FixCells, FixProps, FixCell, GetProp, SubTree, Path;
    Value(v);
    FixPropsStep(root, t, f, 0, 4);
    FixCellsStep(root, t, f, 0, 0, 4);
    if r.err == Ok {
      KeptBelow(root, r.root, t, f, Leafy(0));
      ListingKept(root, r.root, t, f, 0);
      FixCellsEnd(r.root, t, f, 0, 1, 4);
      PropsCount(root, r.root, f);
      FixPropsEnd(r.root, t, f, 4);
      FixChildrenEnd(r.root, t, f, Leafy(0), 4);
    }
  }

  /** The child of the fixup node that stands for the fixup node. */
  function Self(): Node {
    Node(LOCAL_FIXUPS, [], [Leafy(0)])
  }

  lemma {:induction false} First()
    ensures Path(Whole(0), [0]) && Path(Whole(0), [0, 0]) && SameShape(SubTree(Whole(0), [0, 0]), Self())
    ensures FixNode(Whole(0), [0], [0, 0], Self(), 4) == Fixing(Whole(4), Ok)
  {
    hide FixCell, FixNode, FixChildren, GetProp, SubTree, Path, ChildIndex, SameShape;
    Names();
    Places(0);
    Places(4);
    ShapeSelf(Self());
    ShapeSelf(Leafy(0));
    Edits();
    OneEntry(Whole(0), [0, 1], [0, 0, 0], 0, Fixing(Whole(4), Ok));
    FixChildrenStep(Whole(0), [0], [0, 0], Self(), 0, 4);
    assert [0] + [1] == [0, 1] && [0, 0] + [0] == [0, 0, 0];
    FixChildrenEnd(Whole(4), [0], [0, 0], Self(), 4);
    NoLists(Whole(0), [0], [0, 0], Self());
  }

  /** The second entry has moved, and no longer fits. */
  lemma {:induction false} Last()
    ensures Path(Whole(4), []) && Path(Whole(4), [0]) && SameShape(SubTree(Whole(4), [0]), Lists(0))
    ensures FixChildren(Whole(4), [], [0], Lists(0), 1, 4) == Fixing(Whole(4), BadOverlay)
  {
    hide FixCell, FixNode, FixChildren, GetProp, SubTree, Path, ChildIndex;
    Names();
    Places(4);
    Second();
    assert [] + [1] == [1] && [0] + [1] == [0, 1];
    FixChildrenStep(Whole(4), [], [0], Lists(0), 1, 4);
  }

  /** The overlay lists itself; every entry fits; the walk reports an error all the same. */
  lemma {:induction false} ListsMove()
    ensures ListsItself(Whole(0)) && AllFit(Whole(0)) && FixTree(Whole(0), 4).err == BadOverlay
  {
    hide FixCell, FixNode, FixChildren, GetProp, SubTree, Path, ChildIndex, SameShape, AllFit, ListsItself;
    Names();
    Fit();
    Places(0);
    ShapeSelf(Lists(0));
    First();
    Last();
    assert [] + [0] == [0] && [0] + [0] == [0, 0];
    FixChildrenStep(Whole(0), [], [0], Lists(0), 0, 4);
    NoLists(Whole(0), [], [0], Lists(0));
  }

  lemma {:induction false} NoLists(root: Node, t: seq<nat>, f: seq<nat>, g: Node)
    requires Path(root, t) && Path(root, f) && SubTree(root, f) == g && g.props == [] && SameShape(g, g)
    ensures FixNode(root, t, f, g, 4) == FixChildren(root, t, f, g, 0, 4)
  {
    hide FixChildren;
    FixPropsEnd(root, t, f, 4);
  }

  lemma {:induction false} Second()
    ensures Path(Whole(4), [1]) && Path(Whole(4), [0, 1]) && SameShape(SubTree(Whole(4), [0, 1]), Leafy(0))
    ensures FixNode(Whole(4), [1], [0, 1], Leafy(0), 4) == Fixing(Whole(4), BadOverlay)
  {
    hide FixNode, GetProp, SubTree, Path;
    Places(4);
    Value(0);
    OneEntry(Whole(4), [1], [0, 1], 4, Fixing(Whole(4), BadOverlay));
  }

  lemma {:induction false} Fit()
    ensures AllFit(Whole(0)) && ListsItself(Whole(0))
  {
    Names();
    Value(0);
    var w, g := Whole(0), Lists(0);
    var l := g.children[0];
    assert CellsFit(Leafy(0), Property([97], BE32(0)), 1);
    assert CellsFit(Leafy(0), Property([97], BE32(0)), 0);
    assert PropsFit(Leafy(0), Leafy(0).props);
    assert ListsFit(Leafy(0), Leafy(0));
    assert ListsFit(g, l);
    assert ListsFit(w, g);
  }
}
