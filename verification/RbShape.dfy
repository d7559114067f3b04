/**
 Red-black trees as values: shapes over nodes, one-hole contexts, in-order sequences, the
 colour rules, and what erasing a node does to a shape.
 */
module RbShape {

  /** struct rb_node inside an augmented entry: val is the entry's own value, aug the stored maximum. */
  class RbNode {
    var left: RbNode?
    var right: RbNode?
    var parent: RbNode?
    var black: bool
    var aug: int
    const val: int
    const key: int
  }

  datatype Shape = Leaf | Branch(left: Shape, node: RbNode, black: bool, right: Shape)

  /** A tree with a hole, from the hole outwards. */
  datatype Ctx = Hole
    | Left(up: Ctx, node: RbNode, black: bool, right: Shape)
    | Right(left: Shape, node: RbNode, black: bool, up: Ctx)

  function Top(t: Shape): RbNode? {
    if t.Leaf? then null else t.node
  }

  function Wrap(c: Ctx, t: Shape): Shape
    requires !c.Hole?
  {
    if c.Left? then Branch(t, c.node, c.black, c.right) else Branch(c.left, c.node, c.black, t)
  }

  function Plug(c: Ctx, t: Shape): Shape {
    if c.Hole? then t else Plug(c.up, Wrap(c, t))
  }

  /** The parent of what fills the hole; base is the parent of the whole tree. */
  function HoleParent(c: Ctx, base: RbNode?): RbNode? {
    if c.Hole? then base else c.node
  }

  /** The root of the tree when top fills the hole. */
  function Outer(c: Ctx, top: RbNode?): RbNode? {
    if c.Hole? then top else Outer(c.up, c.node)
  }

  function Join(inner: Ctx, outer: Ctx): Ctx {
    match inner
    case Hole => outer
    case Left(up, n, b, r) => Left(Join(up, outer), n, b, r)
    case Right(l, n, b, up) => Right(l, n, b, Join(up, outer))
  }

  lemma {:induction false} PlugJoin(inner: Ctx, outer: Ctx, t: Shape)
    ensures Plug(Join(inner, outer), t) == Plug(outer, Plug(inner, t))
    decreases inner
  {
    if !inner.Hole? { PlugJoin(inner.up, outer, Wrap(inner, t)); }
  }

  lemma {:induction false} JoinHole(c: Ctx)
    ensures Join(c, Hole) == c
  {
    if !c.Hole? { JoinHole(c.up); }
  }

  lemma {:induction false} JoinAssoc(a: Ctx, b: Ctx, c: Ctx)
    ensures Join(Join(a, b), c) == Join(a, Join(b, c))
  {
    if !a.Hole? { JoinAssoc(a.up, b, c); }
  }

  lemma {:induction false} JoinParent(inner: Ctx, outer: Ctx, base: RbNode?)
    ensures HoleParent(Join(inner, outer), base) == HoleParent(inner, HoleParent(outer, base))
  {
  }

  lemma {:induction false} PlugTop(c: Ctx, t: Shape)
    ensures Top(Plug(c, t)) == Outer(c, Top(t))
    decreases c
  {
    if !c.Hole? { PlugTop(c.up, Wrap(c, t)); }
  }

  // ----- Nodes -----

  function Nodes(t: Shape): set<RbNode> {
    if t.Leaf? then {} else Nodes(t.left) + {t.node} + Nodes(t.right)
  }

  function Side(c: Ctx): Shape
    requires !c.Hole?
  {
    if c.Left? then c.right else c.left
  }

  function CtxNodes(c: Ctx): set<RbNode> {
    if c.Hole? then {} else {c.node} + Nodes(Side(c)) + CtxNodes(c.up)
  }

  predicate Distinct(t: Shape) {
    t.Branch? ==>
    && t.node !in Nodes(t.left) && t.node !in Nodes(t.right) && Nodes(t.left) !! Nodes(t.right)
    && Distinct(t.left) && Distinct(t.right)
  }

  predicate CtxDistinct(c: Ctx) {
    !c.Hole? ==>
    && c.node !in Nodes(Side(c)) && c.node !in CtxNodes(c.up) && Nodes(Side(c)) !! CtxNodes(c.up)
    && Distinct(Side(c)) && CtxDistinct(c.up)
  }

  lemma {:induction false} PlugNodes(c: Ctx, t: Shape)
    ensures Nodes(Plug(c, t)) == CtxNodes(c) + Nodes(t)
    decreases c
  {
    if !c.Hole? { PlugNodes(c.up, Wrap(c, t)); }
  }

  lemma {:induction false} PlugDistinct(c: Ctx, t: Shape)
    ensures Distinct(Plug(c, t)) <==> Distinct(t) && CtxDistinct(c) && Nodes(t) !! CtxNodes(c)
    decreases c
  {
    if !c.Hole? { PlugDistinct(c.up, Wrap(c, t)); }
  }

  lemma {:induction false} JoinNodes(inner: Ctx, outer: Ctx)
    ensures CtxNodes(Join(inner, outer)) == CtxNodes(inner) + CtxNodes(outer)
  {
    if !inner.Hole? { JoinNodes(inner.up, outer); }
  }

  lemma {:induction false} JoinDistinct(inner: Ctx, outer: Ctx)
    ensures CtxDistinct(Join(inner, outer)) <==>
            CtxDistinct(inner) && CtxDistinct(outer) && CtxNodes(inner) !! CtxNodes(outer)
  {
    if !inner.Hole? {
      JoinDistinct(inner.up, outer);
      JoinNodes(inner.up, outer);
    }
  }

  // ----- In-order sequence -----

  function Inorder(t: Shape): seq<RbNode> {
    if t.Leaf? then [] else Inorder(t.left) + [t.node] + Inorder(t.right)
  }

  function Before(c: Ctx): seq<RbNode> {
    match c
    case Hole => []
    case Left(up, _, _, _) => Before(up)
    case Right(l, n, _, up) => Before(up) + Inorder(l) + [n]
  }

  function After(c: Ctx): seq<RbNode> {
    match c
    case Hole => []
    case Left(up, n, _, r) => [n] + Inorder(r) + After(up)
    case Right(_, _, _, up) => After(up)
  }

  lemma {:induction false} PlugInorder(c: Ctx, t: Shape)
    ensures Inorder(Plug(c, t)) == Before(c) + Inorder(t) + After(c)
    decreases c
  {
    if !c.Hole? { PlugInorder(c.up, Wrap(c, t)); }
  }

  lemma {:induction false} JoinInorder(inner: Ctx, outer: Ctx)
    ensures Before(Join(inner, outer)) == Before(outer) + Before(inner)
    ensures After(Join(inner, outer)) == After(inner) + After(outer)
  {
    if !inner.Hole? { JoinInorder(inner.up, outer); }
  }

  // ----- Colours -----

  function Weight(black: bool): nat {
    if black then 1 else 0
  }

  /** t has h black nodes on every path, no red node has a red child, and under `red` its root is not red. */
  predicate Rb(t: Shape, h: int, red: bool) {
    if t.Leaf? then h == 0
    else
      && (red ==> t.black)
      && Rb(t.left, h - Weight(t.black), !t.black) && Rb(t.right, h - Weight(t.black), !t.black)
  }

  /** A red-black tree: its root is black. */
  ghost predicate RbTree(t: Shape) {
    exists h :: Rb(t, h, true)
  }

  // The textbook definition, over all ways from the root to a leaf.

  /** The way p, true for left, ends at a leaf. */
  predicate Ends(t: Shape, p: seq<bool>) {
    if t.Leaf? then p == [] else p != [] && Ends(if p[0] then t.left else t.right, p[1..])
  }

  function BlacksOn(t: Shape, p: seq<bool>): nat
    requires Ends(t, p)
  {
    if t.Leaf? then 0 else Weight(t.black) + BlacksOn(if p[0] then t.left else t.right, p[1..])
  }

  predicate RedTop(t: Shape) {
    t.Branch? && !t.black
  }

  predicate RedsApart(t: Shape) {
    t.Branch? ==>
      && (!t.black ==> !RedTop(t.left) && !RedTop(t.right)) && RedsApart(t.left) && RedsApart(t.right)
  }

  /** Every way has h black nodes. */
  ghost predicate AllBlacks(t: Shape, h: int) {
    forall p | Ends(t, p) :: BlacksOn(t, p) == h
  }

  lemma {:induction false} AllBlacksDown(t: Shape, h: int)
    requires t.Branch?
    ensures AllBlacks(t, h) <==> AllBlacks(t.left, h - Weight(t.black)) && AllBlacks(t.right, h - Weight(t.black))
  {
    if AllBlacks(t, h) {
      forall p | Ends(t.left, p) ensures BlacksOn(t.left, p) == h - Weight(t.black) {
        assert ([true] + p)[1..] == p && Ends(t, [true] + p);
      }
      forall p | Ends(t.right, p) ensures BlacksOn(t.right, p) == h - Weight(t.black) {
        assert ([false] + p)[1..] == p && Ends(t, [false] + p);
      }
    }
    if AllBlacks(t.left, h - Weight(t.black)) && AllBlacks(t.right, h - Weight(t.black)) {
      forall p | Ends(t, p) ensures BlacksOn(t, p) == h {
        assert Ends(if p[0] then t.left else t.right, p[1..]);
      }
    }
  }

  lemma {:induction false} RbIs(t: Shape, h: int, red: bool)
    ensures Rb(t, h, red) <==> (red ==> !RedTop(t)) && RedsApart(t) && AllBlacks(t, h)
  {
    hide AllBlacks;
    if t.Leaf? {
      LeafBlacks(h);
    } else {
      AllBlacksDown(t, h);
      RbIs(t.left, h - Weight(t.black), !t.black);
      RbIs(t.right, h - Weight(t.black), !t.black);
    }
  }

  lemma {:induction false} LeafBlacks(h: int)
    ensures AllBlacks(Leaf, h) <==> h == 0
  {
    assert Ends(Leaf, []) && BlacksOn(Leaf, []) == 0;
  }

  lemma {:induction false} SomeEnd(t: Shape) returns (p: seq<bool>)
    ensures Ends(t, p)
  {
    p := [];
    if t.Branch? {
      var q := SomeEnd(t.left);
      p := [true] + q;
      assert p[1..] == q;
    }
  }

  /** All ways have as many black nodes. */
  ghost predicate EvenBlacks(t: Shape) {
    forall p, q | Ends(t, p) && Ends(t, q) :: BlacksOn(t, p) == BlacksOn(t, q)
  }

  /** A red-black tree: the root is black, no red node has a red child, and all ways have as many black nodes. */
  lemma {:induction false} RbExactly(t: Shape)
    ensures RbTree(t) <==> !RedTop(t) && RedsApart(t) && EvenBlacks(t)
  {
    hide Rb, RedsApart, RedTop;
    var p := SomeEnd(t);
    var n := BlacksOn(t, p);
    RbIs(t, n, true);
    if EvenBlacks(t) { assert AllBlacks(t, n); }
    if RbTree(t) {
      var h :| Rb(t, h, true);
      RbIs(t, h, true);
    }
  }

  /** What fills the hole must not have a red root. */
  predicate HoleRed(c: Ctx) {
    c.Hole? || !c.black
  }

  /** The context is a red-black tree around a hole that wants h black nodes. */
  predicate CtxRb(c: Ctx, h: int) {
    !c.Hole? ==>
    && (HoleRed(c.up) ==> c.black) && Rb(Side(c), h, !c.black) && CtxRb(c.up, h + Weight(c.black))
  }

  function Blacks(c: Ctx): nat {
    if c.Hole? then 0 else Weight(c.black) + Blacks(c.up)
  }

  /** A tree is red-black exactly when context and filling are. */
  lemma {:induction false} PlugRb(c: Ctx, t: Shape, h: int)
    ensures Rb(Plug(c, t), h + Blacks(c), true) <==> CtxRb(c, h) && Rb(t, h, HoleRed(c))
    decreases c
  {
    if !c.Hole? { PlugRb(c.up, Wrap(c, t), h + Weight(c.black)); }
  }

  lemma {:induction false} RbHeight(t: Shape, h: int, red: bool)
    requires Rb(t, h, red)
    ensures 0 <= h && (h == 0 && t.Branch? ==> !t.black && t.left.Leaf? && t.right.Leaf?)
  {
    if t.Branch? {
      RbHeight(t.left, h - Weight(t.black), !t.black);
      RbHeight(t.right, h - Weight(t.black), !t.black);
    }
  }

  function Depth(t: Shape): nat {
    if t.Leaf? then 0
    else if Depth(t.left) < Depth(t.right) then Depth(t.right) + 1
    else Depth(t.left) + 1
  }

  function Pow2(n: int): nat {
    if n <= 0 then 1 else 2 * Pow2(n - 1)
  }

  /** A path has at most as many red nodes as black ones, and there are enough nodes for h levels of black. */
  lemma {:induction false} Balanced(t: Shape, h: int, red: bool)
    requires Rb(t, h, red)
    ensures Depth(t) <= 2 * h + 1 && (red ==> Depth(t) <= 2 * h) && Pow2(h) <= |Inorder(t)| + 1
  {
    RbHeight(t, h, red);
    if t.Branch? {
      Balanced(t.left, h - Weight(t.black), !t.black);
      Balanced(t.right, h - Weight(t.black), !t.black);
    }
  }

  /** The depth of a red-black tree is at most twice the logarithm of its number of nodes plus one. */
  lemma {:induction false} RbDepth(t: Shape)
    requires RbTree(t)
    ensures exists h :: Depth(t) <= 2 * h && Pow2(h) <= |Inorder(t)| + 1
  {
    var h :| Rb(t, h, true);
    Balanced(t, h, true);
  }

  // ----- Erasing -----

  /** The path to the leftmost node of t, and the subtree there. */
  function Spine(t: Shape): Ctx {
    if t.Leaf? || t.left.Leaf? then Hole else Join(Spine(t.left), Left(Hole, t.node, t.black, t.right))
  }

  function Least(t: Shape): (m: Shape)
    requires t.Branch?
    ensures m.Branch? && m.left.Leaf?
  {
    if t.left.Leaf? then t else Least(t.left)
  }

  lemma {:induction false} SpineLeast(t: Shape)
    requires t.Branch?
    ensures Plug(Spine(t), Least(t)) == t
  {
    if t.left.Branch? {
      SpineLeast(t.left);
      PlugJoin(Spine(t.left), Left(Hole, t.node, t.black, t.right), Least(t.left));
    }
  }

  function Paint(t: Shape, black: bool): Shape {
    if t.Leaf? then t else t.(black := black)
  }

  /** Where the tree loses a node when n with subtrees l and r goes, and what is left there. */
  function EraseCtx(c: Ctx, l: Shape, b: bool, r: Shape): Ctx {
    if l.Leaf? || r.Leaf? then c else Join(Spine(r), Right(l, Least(r).node, b, c))
  }

  function EraseFill(l: Shape, b: bool, r: Shape): Shape {
    if l.Leaf? then Paint(r, b) else if r.Leaf? then Paint(l, b) else Paint(Least(r).right, true)
  }

  /** The colour that is lost there. */
  function LostBlack(l: Shape, b: bool, r: Shape): bool {
    if l.Leaf? || r.Leaf? then b else Least(r).black
  }

  function Erased(c: Ctx, l: Shape, b: bool, r: Shape): Shape {
    Plug(EraseCtx(c, l, b, r), EraseFill(l, b, r))
  }

  lemma {:induction false} PaintInorder(t: Shape, black: bool)
    ensures Inorder(Paint(t, black)) == Inorder(t)
  {
  }

  lemma {:induction false} BranchInorder(l: Shape, n: RbNode, b: bool, r: Shape)
    ensures Inorder(Branch(l, n, b, r)) == Inorder(l) + [n] + Inorder(r)
  {
  }

  lemma {:induction false} LeafInorder(t: Shape)
    ensures t.Leaf? ==> Inorder(t) == []
  {
  }

  lemma {:induction false} RightInorder(l: Shape, n: RbNode, b: bool, c: Ctx)
    ensures Before(Right(l, n, b, c)) == Before(c) + Inorder(l) + [n] && After(Right(l, n, b, c)) == After(c)
  {
  }

  /** The leftmost node comes first. */
  lemma {:induction false} LeastFirst(t: Shape)
    requires t.Branch?
    ensures Inorder(t) == [Least(t).node] + Inorder(Least(t).right) + After(Spine(t))
  {
    hide Inorder, Before, After, Plug, Spine, Least;
    var m := Least(t);
    SpineLeast(t);
    PlugInorder(Spine(t), m);
    SpineBefore(t);
    BranchInorder(m.left, m.node, m.black, m.right);
    LeafInorder(m.left);
  }

  /** Erasing takes one node out of the in-order sequence. */
  lemma {:induction false} EraseInorder(c: Ctx, l: Shape, n: RbNode, b: bool, r: Shape)
    ensures Inorder(Plug(c, Branch(l, n, b, r))) == Before(c) + Inorder(l) + [n] + Inorder(r) + After(c)
    ensures Inorder(Erased(c, l, b, r)) == Before(c) + Inorder(l) + Inorder(r) + After(c)
  {
    hide Inorder, Before, After, Plug, Spine, Least, Paint;
    PlugInorder(c, Branch(l, n, b, r));
    BranchInorder(l, n, b, r);
    PlugInorder(EraseCtx(c, l, b, r), EraseFill(l, b, r));
    LeafInorder(l);
    LeafInorder(r);
    PaintInorder(l, b);
    PaintInorder(r, b);
    if l.Branch? && r.Branch? {
      var m, sp := Least(r), Spine(r);
      LeastFirst(r);
      SpineBefore(r);
      JoinInorder(sp, Right(l, m.node, b, c));
      RightInorder(l, m.node, b, c);
      PaintInorder(m.right, true);
    }
  }

  lemma {:induction false} SpineBefore(t: Shape)
    ensures Before(Spine(t)) == []
  {
    if t.Branch? && t.left.Branch? {
      SpineBefore(t.left);
      JoinInorder(Spine(t.left), Left(Hole, t.node, t.black, t.right));
    }
  }

  /** The colour rules of a context do not depend on which node stands where. */
  lemma {:induction false} CtxRbRename(sp: Ctx, l: Shape, n: RbNode, m: RbNode, b: bool, c: Ctx, h: int)
    ensures CtxRb(Join(sp, Right(l, n, b, c)), h) <==> CtxRb(Join(sp, Right(l, m, b, c)), h)
    ensures HoleRed(Join(sp, Right(l, n, b, c))) == HoleRed(Join(sp, Right(l, m, b, c)))
  {
    if !sp.Hole? { CtxRbRename(sp.up, l, n, m, b, c, h + Weight(sp.black)); }
  }

  /** Replacing a node that has at most one child by that child. */
  lemma {:induction false} LoseNode(c: Ctx, h: int, m: Shape, rest: Shape)
    requires m.Branch? && Rb(m, h, HoleRed(c)) && CtxRb(c, h)
    requires (m.left.Leaf? && rest == m.right) || (m.right.Leaf? && rest == m.left)
    ensures rest.Branch? ==> m.black && RbTree(Plug(c, Paint(rest, true)))
    ensures rest.Leaf? && !m.black ==> RbTree(Plug(c, Leaf))
    ensures rest.Leaf? && m.black ==> CtxRb(c, 1)
  {
    var h' := h - Weight(m.black);
    assert h' == 0 by {
      if m.left.Leaf? { assert Rb(m.left, h', !m.black); } else { assert Rb(m.right, h', !m.black); }
    }
    RbHeight(rest, h', !m.black);
    if rest.Branch? {
      PlugRb(c, Paint(rest, true), h);
    } else if !m.black {
      PlugRb(c, Leaf, h);
    }
  }

  /**
   From a red-black tree, erasing leaves a red-black tree, or one whose only fault is that one
   black node is missing at an empty place: any black tree of height one there would mend it.
   */
  lemma {:induction false} EraseRb(c: Ctx, l: Shape, n: RbNode, b: bool, r: Shape)
    requires RbTree(Plug(c, Branch(l, n, b, r)))
    ensures var c', t, lost := EraseCtx(c, l, b, r), EraseFill(l, b, r), LostBlack(l, b, r);
            if t.Leaf? && lost then CtxRb(c', 1) else RbTree(Plug(c', t))
  {
    var t := Branch(l, n, b, r);
    var h' :| Rb(Plug(c, t), h', true);
    var h := h' - Blacks(c);
    PlugRb(c, t, h);
    if l.Leaf? {
      LoseNode(c, h, t, r);
    } else if r.Leaf? {
      LoseNode(c, h, t, l);
    } else {
      var m, sp := Least(r), Spine(r);
      var full, moved := Join(sp, Right(l, n, b, c)), Join(sp, Right(l, m.node, b, c));
      SpineLeast(r);
      PlugJoin(sp, Right(l, n, b, c), m);
      var hm := h' - Blacks(full);
      PlugRb(full, m, hm);
      CtxRbRename(sp, l, n, m.node, b, c, hm);
      LoseNode(moved, hm, m, m.right);
    }
  }

  /** The fault at a hole is mended by every black tree of height one. */
  lemma {:induction false} Mend(c: Ctx, t: Shape)
    requires CtxRb(c, 1) && Rb(t, 1, true)
    ensures RbTree(Plug(c, t))
  {
    assert Rb(t, 1, HoleRed(c)) by { RbWeaken(t, 1); }
    PlugRb(c, t, 1);
  }

  lemma {:induction false} RbWeaken(t: Shape, h: int)
    requires Rb(t, h, true)
    ensures Rb(t, h, false)
  {
  }
}
