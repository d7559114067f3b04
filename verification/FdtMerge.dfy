/**
 The merge of an overlay node into a base node, and what it keeps and changes.
 */
module FdtMerge {
  import opened Basics
  import opened FdtTokens
  import opened FdtTree
  import opened FdtEdit
  import opened FdtSubnodes

  function MergeProps(n: Node, ps: seq<Property>): Node
    decreases ps
  {
    if ps == [] then n else MergeProps(WithProp(n, ps[0].name, ps[0].value), ps[1..])
  }

  /** overlay_apply_node on trees. */
  function Merge(n: Node, o: Node): Node
    decreases o, 0
  {
    MergeChildren(MergeProps(n, o.props), o.children)
  }

  function MergeChildren(n: Node, cs: seq<Node>): Node
    decreases cs, 2
  {
    if cs == [] then n else MergeChildren(MergeChild(n, cs[0]), cs[1..])
  }

  /** Merge c into the first child that its name selects, or into a new first child. */
  function MergeChild(n: Node, c: Node): Node
    decreases c, 1
  {
    var i := ChildIndex(n.children, Called(c.name));
    if i < |n.children| then n.(children := n.children[i := Merge(n.children[i], c)])
    else n.(children := [Merge(Empty(c.name), c)] + n.children)
  }

  /** The value that the last property of that name gives. */
  function LastValue(ps: seq<Property>, name: Bytes): Option<Bytes> {
    if ps == [] then None
    else
      var later := LastValue(ps[1..], name);
      if later.Some? then later else if ps[0].name == name then Some(ps[0].value) else None
  }

  lemma {:induction false} MergePropsGet(n: Node, ps: seq<Property>, name: Bytes)
    ensures var m, v := MergeProps(n, ps), LastValue(ps, name);
            && m.name == n.name && m.children == n.children
            && GetProp(m, name) == if v.Some? then v else GetProp(n, name)
    decreases ps
  {
    if ps != [] {
      hide GetProp;
      SetThenGet(n, ps[0].name, ps[0].value, name);
      MergePropsGet(WithProp(n, ps[0].name, ps[0].value), ps[1..], name);
    }
  }

  lemma {:induction false} MergeChildrenProps(n: Node, cs: seq<Node>)
    ensures MergeChildren(n, cs).name == n.name && MergeChildren(n, cs).props == n.props
    decreases cs
  {
    if cs != [] { MergeChildrenProps(MergeChild(n, cs[0]), cs[1..]); }
  }

  /** Overlay properties win and all others keep their values. */
  lemma {:induction false} MergeGet(n: Node, o: Node, name: Bytes)
    ensures var v := LastValue(o.props, name);
            GetProp(Merge(n, o), name) == if v.Some? then v else GetProp(n, name)
  {
    hide MergeChildren, MergeProps, LastValue;
    MergePropsGet(n, o.props, name);
    MergeChildrenProps(MergeProps(n, o.props), o.children);
  }

  /** m has all that b has: its property names, and its children in order behind any new ones. */
  ghost predicate Extends(b: Node, m: Node)
    decreases b
  {
    && m.name == b.name && |b.children| <= |m.children|
    && (forall name :: GetProp(b, name).Some? ==> GetProp(m, name).Some?)
    && var d := |m.children| - |b.children|;
       forall j | 0 <= j < |b.children| :: Extends(b.children[j], m.children[d + j])
  }

  lemma {:induction false} ExtendsSelf(b: Node)
    ensures Extends(b, b)
  {
    forall j | 0 <= j < |b.children| ensures Extends(b.children[j], b.children[j]) {
      ExtendsSelf(b.children[j]);
    }
  }

  lemma {:induction false} ExtendsTrans(a: Node, b: Node, c: Node)
    requires Extends(a, b) && Extends(b, c)
    ensures Extends(a, c)
    decreases a
  {
    hide GetProp;
    var d, e := |b.children| - |a.children|, |c.children| - |b.children|;
    forall j | 0 <= j < |a.children| ensures Extends(a.children[j], c.children[d + e + j]) {
      assert Extends(b.children[d + j], c.children[e + (d + j)]);
      ExtendsTrans(a.children[j], b.children[d + j], c.children[d + e + j]);
    }
  }

  lemma {:induction false} ExtendsProps(n: Node, ps: seq<Property>)
    ensures Extends(n, MergeProps(n, ps))
  {
    hide GetProp, LastValue;
    var m := MergeProps(n, ps);
    MergePropsGet(n, ps, n.name);
    forall name ensures GetProp(n, name).Some? ==> GetProp(m, name).Some? { MergePropsGet(n, ps, name); }
    forall j | 0 <= j < |n.children| ensures Extends(n.children[j], m.children[j]) { ExtendsSelf(n.children[j]); }
  }

  /** Nothing of the base is lost: every node of it is still there, with every property name. */
  lemma {:induction false} MergeExtends(n: Node, o: Node)
    ensures Extends(n, Merge(n, o))
    decreases o, 0
  {
    hide Extends, MergeProps, MergeChildren;
    ExtendsProps(n, o.props);
    ChildrenExtend(MergeProps(n, o.props), o.children);
    ExtendsTrans(n, MergeProps(n, o.props), Merge(n, o));
  }

  lemma {:induction false} ChildrenExtend(n: Node, cs: seq<Node>)
    ensures Extends(n, MergeChildren(n, cs))
    decreases cs, 2
  {
    hide Extends;
    if cs == [] {
      ExtendsSelf(n);
    } else {
      ChildExtends(n, cs[0]);
      ChildrenExtend(MergeChild(n, cs[0]), cs[1..]);
      ExtendsTrans(n, MergeChild(n, cs[0]), MergeChildren(n, cs));
    }
  }

  lemma {:induction false} ChildExtends(n: Node, c: Node)
    ensures Extends(n, MergeChild(n, c))
    decreases c, 1
  {
    hide Merge, GetProp, ChildIndex, Empty;
    var i, m := ChildIndex(n.children, Called(c.name)), MergeChild(n, c);
    if i < |n.children| { MergeExtends(n.children[i], c); }
    var d := |m.children| - |n.children|;
    forall j | 0 <= j < |n.children| ensures Extends(n.children[j], m.children[d + j]) {
      if d > 0 || j != i { ExtendsSelf(n.children[j]); }
    }
    SameProps(n, m);
  }

  lemma {:induction false} SameProps(n: Node, m: Node)
    requires m.props == n.props
    ensures forall name :: GetProp(n, name) == GetProp(m, name)
  {
  }

  // ----- Every node of the base, at any depth -----

  /** Several overlay nodes merged into one node, in order. */
  function MergeAll(n: Node, os: seq<Node>): Node
    decreases |os|
  {
    if os == [] then n else MergeAll(Merge(n, os[0]), os[1..])
  }

  /** The children among cs that are merged into child j of n. */
  function Selected(n: Node, cs: seq<Node>, j: nat): seq<Node>
    decreases |cs|
  {
    if cs == [] then []
    else
      var i := ChildIndex(n.children, Called(cs[0].name));
      (if i == j then [cs[0]] else []) + Selected(MergeChild(n, cs[0]), cs[1..], if i < |n.children| then j else j + 1)
  }

  /** The nodes below os that are merged into child j of n, when os are merged into n. */
  function SelectedBy(n: Node, os: seq<Node>, j: nat): seq<Node>
    decreases |os|
  {
    if os == [] then []
    else
      var m := Merge(n, os[0]);
      Selected(MergeProps(n, os[0].props), os[0].children, j) + SelectedBy(m, os[1..],
          if |n.children| <= |m.children| then j + |m.children| - |n.children| else j)
  }

  /** The overlay nodes that are merged into the node at p. */
  function Into(n: Node, os: seq<Node>, p: seq<nat>): seq<Node>
    requires Path(n, p)
    decreases |p|
  {
    if p == [] then os else Into(n.children[p[0]], SelectedBy(n, os, p[0]), p[1..])
  }

  /** The path of that node afterwards: new children stand in front of old ones. */
  function MovedPath(n: Node, os: seq<Node>, p: seq<nat>): seq<int>
    requires Path(n, p)
    decreases |p|
  {
    if p == [] then []
    else [p[0] + |MergeAll(n, os).children| - |n.children|] + MovedPath(n.children[p[0]], SelectedBy(n, os, p[0]),
        p[1..])
  }

  lemma {:induction false} MergeAllConcat(n: Node, os: seq<Node>, us: seq<Node>)
    ensures MergeAll(n, os + us) == MergeAll(MergeAll(n, os), us)
    decreases |os|
  {
    hide Merge;
    if os == [] {
      assert os + us == us;
    } else {
      assert (os + us)[1..] == os[1..] + us;
      MergeAllConcat(Merge(n, os[0]), os[1..], us);
    }
  }

  lemma {:induction false} MergeAllOne(n: Node, o: Node)
    ensures MergeAll(n, [o]) == Merge(n, o) && MergeAll(n, []) == n
  {
    assert [o][1..] == [];
  }

  /** Where child j stands after one overlay child, and what it has become. */
  lemma {:induction false} ChildStep(n: Node, c: Node, j: nat)
    requires j < |n.children|
    ensures var i, m := ChildIndex(n.children, Called(c.name)), MergeChild(n, c);
            var j' := if i < |n.children| then j else j + 1;
            && j' < |m.children| && j' - j == |m.children| - |n.children|
            && m.children[j'] == if i == j then Merge(n.children[j], c) else n.children[j]
  {
    hide Merge, ChildIndex;
  }

  lemma {:induction false} SelectedFirst(n: Node, cs: seq<Node>, j: nat)
    requires cs != []
    ensures var i := ChildIndex(n.children, Called(cs[0].name));
            var rest := Selected(MergeChild(n, cs[0]), cs[1..], if i < |n.children| then j else j + 1);
            Selected(n, cs, j) == if i == j then [cs[0]] + rest else rest
  {
    hide MergeChild, ChildIndex;
  }

  lemma {:induction false} MergeChildrenFirst(n: Node, cs: seq<Node>)
    ensures MergeChildren(n, cs) == if cs == [] then n else MergeChildren(MergeChild(n, cs[0]), cs[1..])
    ensures cs == [] ==> forall j :: Selected(n, cs, j) == []
  {
  }

  /** A child of the base becomes the merge with the overlay children that select it. */
  lemma {:induction false} ChildBecomes(n: Node, cs: seq<Node>, j: nat)
    requires j < |n.children|
    ensures var m := MergeChildren(n, cs); var d := |m.children| - |n.children|;
            0 <= d && m.children[d + j] == MergeAll(n.children[j], Selected(n, cs, j))
    decreases |cs|
  {
    hide Merge, MergeChild, MergeChildren, MergeAll, Selected, ChildIndex;
    MergeChildrenFirst(n, cs);
    if cs == [] {
      MergeAllOne(n.children[j], n);
    } else {
      var i := ChildIndex(n.children, Called(cs[0].name));
      var n', j' := MergeChild(n, cs[0]), if i < |n.children| then j else j + 1;
      ChildStep(n, cs[0], j);
      ChildBecomes(n', cs[1..], j');
      SelectedFirst(n, cs, j);
      if i == j {
        MergeAllConcat(n.children[j], [cs[0]], Selected(n', cs[1..], j'));
        MergeAllOne(n.children[j], cs[0]);
      }
    }
  }

  lemma {:induction false} ChildBecomesAll(n: Node, os: seq<Node>, j: nat)
    requires j < |n.children|
    ensures var m := MergeAll(n, os); var d := |m.children| - |n.children|;
            0 <= d && m.children[d + j] == MergeAll(n.children[j], SelectedBy(n, os, j))
    decreases |os|
  {
    hide MergeChildren, MergeProps, Selected;
    if os != [] {
      var k, m := MergeProps(n, os[0].props), Merge(n, os[0]);
      MergePropsGet(n, os[0].props, []);
      ChildBecomes(k, os[0].children, j);
      var j' := j + |m.children| - |n.children|;
      ChildBecomesAll(m, os[1..], j');
      MergeAllConcat(n.children[j], Selected(k, os[0].children, j), SelectedBy(m, os[1..], j'));
    }
  }

  /** Every node of the base is still there, merged with exactly the overlay nodes that reach it. */
  lemma {:induction false} MergedAt(n: Node, os: seq<Node>, p: seq<nat>)
    requires Path(n, p)
    ensures var q := MovedPath(n, os, p);
            && (forall i | 0 <= i < |q| :: 0 <= q[i])
            && Path(MergeAll(n, os), q) && SubTree(MergeAll(n, os), q) == MergeAll(SubTree(n, p), Into(n, os, p))
    decreases |p|
  {
    if p != [] {
      hide SelectedBy, MergeAll;
      ChildBecomesAll(n, os, p[0]);
      MergedAt(n.children[p[0]], SelectedBy(n, os, p[0]), p[1..]);
      var q := MovedPath(n, os, p);
      assert q[1..] == MovedPath(n.children[p[0]], SelectedBy(n, os, p[0]), p[1..]);
    }
  }

  /** The value that the last of the nodes gives. */
  function LastGiven(os: seq<Node>, name: Bytes): Option<Bytes> {
    if os == [] then None
    else
      var later := LastGiven(os[1..], name);
      if later.Some? then later else LastValue(os[0].props, name)
  }

  lemma {:induction false} MergeAllGet(n: Node, os: seq<Node>, name: Bytes)
    ensures var v := LastGiven(os, name); GetProp(MergeAll(n, os), name) == if v.Some? then v else GetProp(n, name)
    decreases |os|
  {
    hide Merge, GetProp, LastValue;
    if os != [] {
      MergeGet(n, os[0], name);
      MergeAllGet(Merge(n, os[0]), os[1..], name);
    }
  }

  /** Values at any depth: the last one an overlay node gives, or the old one; a node that none reaches is unchanged. */
  lemma {:induction false} MergedValue(n: Node, o: Node, p: seq<nat>, name: Bytes)
    requires Path(n, p)
    ensures var q, os := MovedPath(n, [o], p), Into(n, [o], p);
            && (forall i | 0 <= i < |q| :: 0 <= q[i]) && Path(Merge(n, o), q)
            && var m, v := SubTree(Merge(n, o), q), LastGiven(os, name);
               && GetProp(m, name) == (if v.Some? then v else GetProp(SubTree(n, p), name))
               && (os == [] ==> m == SubTree(n, p))
  {
    hide Merge, GetProp, Into, MovedPath, LastGiven, Path;
    MergedAt(n, [o], p);
    MergeAllOne(n, o);
    MergeAllGet(SubTree(n, p), Into(n, [o], p), name);
  }
}
