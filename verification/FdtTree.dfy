/**
 The devicetree that a blob stands for: nodes with properties and children, their
 flattening into a sequence of items, and the reading of items from bytes.
 */
module FdtTree {
  import opened Basics
  import opened FdtTokens

  datatype Property = Property(name: Bytes, value: Bytes)

  datatype Node = Node(name: Bytes, props: seq<Property>, children: seq<Node>)

  /** A token with its property name looked up. */
  datatype Item = Open(name: Bytes) | Attr(name: Bytes, value: Bytes) | Close | Skip

  // ----- Flattening and parsing -----

  function Attrs(ps: seq<Property>): (r: seq<Item>)
    ensures |r| == |ps| && forall i | 0 <= i < |ps| :: r[i] == Attr(ps[i].name, ps[i].value)
  {
    if ps == [] then [] else [Attr(ps[0].name, ps[0].value)] + Attrs(ps[1..])
  }

  function Flatten(n: Node): seq<Item> {
    [Open(n.name)] + Attrs(n.props) + FlattenAll(n.children) + [Close]
  }

  function FlattenAll(ns: seq<Node>): seq<Item> {
    if ns == [] then [] else Flatten(ns[0]) + FlattenAll(ns[1..])
  }

  /** The leading properties of s. */
  function TakeProps(s: seq<Item>): (r: (seq<Property>, seq<Item>))
    ensures |r.1| <= |s|
    ensures s == Attrs(r.0) + r.1 && (r.1 == [] || !r.1[0].Attr?)
  {
    if s == [] || !s[0].Attr? then ([], s)
    else
      var r := TakeProps(s[1..]);
      ([Property(s[0].name, s[0].value)] + r.0, r.1)
  }

  function ParseNode(s: seq<Item>): (r: Option<(Node, seq<Item>)>)
    ensures r.Some? ==> |r.value.1| < |s|
    decreases |s|, 0
  {
    if s == [] || !s[0].Open? then None
    else
      var (ps, rest) := TakeProps(s[1..]);
      match ParseNodes(rest)
      case None => None
      case Some((cs, rest')) =>
        if rest' != [] && rest'[0].Close? then Some((Node(s[0].name, ps, cs), rest'[1..])) else None
  }

  function ParseNodes(s: seq<Item>): (r: Option<(seq<Node>, seq<Item>)>)
    ensures r.Some? ==> |r.value.1| <= |s|
    decreases |s|, 1
  {
    if s == [] || !s[0].Open? then Some(([], s))
    else
      match ParseNode(s)
      case None => None
      case Some((n, rest)) =>
        match ParseNodes(rest)
        case None => None
        case Some((ns, rest')) => Some(([n] + ns, rest'))
  }

  lemma {:induction false} TakePropsNone(r: seq<Item>)
    requires r == [] || !r[0].Attr?
    ensures Attrs([]) + r == r && TakeProps(r) == ([], r)
  {
  }

  lemma {:induction false} TakePropsFirst(p: Property, s: seq<Item>)
    ensures TakeProps([Attr(p.name, p.value)] + s) == ([p] + TakeProps(s).0, TakeProps(s).1)
  {
    assert ([Attr(p.name, p.value)] + s)[1..] == s;
  }

  lemma {:induction false} TakePropsOf(ps: seq<Property>, r: seq<Item>)
    requires r == [] || !r[0].Attr?
    ensures TakeProps(Attrs(ps) + r) == (ps, r)
  {
    if ps == [] {
      TakePropsNone(r);
    } else {
      assert Attrs(ps) + r == [Attr(ps[0].name, ps[0].value)] + (Attrs(ps[1..]) + r);
      hide TakeProps, Attrs;
      TakePropsOf(ps[1..], r);
      TakePropsFirst(ps[0], Attrs(ps[1..]) + r);
      assert [ps[0]] + ps[1..] == ps;
    }
  }

  /** Parsing undoes flattening. */
  lemma {:induction false} ParseFlatten(n: Node, r: seq<Item>)
    ensures ParseNode(Flatten(n) + r) == Some((n, r))
    decreases n, 0
  {
    var s := Flatten(n) + r;
    var body := FlattenAll(n.children) + ([Close] + r);
    assert s[1..] == Attrs(n.props) + body;
    FlattenAllStart(n.children);
    TakePropsOf(n.props, body);
    ParseFlattenAll(n.children, [Close] + r);
    assert ([Close] + r)[1..] == r;
  }

  lemma {:induction false} FlattenAllStart(ns: seq<Node>)
    ensures FlattenAll(ns) != [] ==> FlattenAll(ns)[0].Open?
  {
  }

  lemma {:induction false} ParseFlattenAll(ns: seq<Node>, r: seq<Item>)
    requires r == [] || !r[0].Open?
    ensures ParseNodes(FlattenAll(ns) + r) == Some((ns, r))
    decreases ns, 1
  {
    if ns == [] {
      assert FlattenAll(ns) + r == r;
    } else {
      var s, rest := FlattenAll(ns) + r, FlattenAll(ns[1..]) + r;
      assert s == Flatten(ns[0]) + rest;
      ParseFlatten(ns[0], rest);
      ParseFlattenAll(ns[1..], r);
      assert s[0].Open?;
      hide ParseNode, Flatten, FlattenAll;
      assert [ns[0]] + ns[1..] == ns;
    }
  }

  lemma {:induction false} AttrsSnoc(ps: seq<Property>, i: nat)
    requires i < |ps|
    ensures Attrs(ps[..i + 1]) == Attrs(ps[..i]) + [Attr(ps[i].name, ps[i].value)]
  {
    hide Attrs;
  }

  lemma {:induction false} FlattenFirst(ns: seq<Node>)
    requires ns != []
    ensures FlattenAll(ns) == Flatten(ns[0]) + FlattenAll(ns[1..])
  {
  }

  lemma {:induction false} FlattenConcat(ns: seq<Node>, ms: seq<Node>)
    ensures FlattenAll(ns + ms) == FlattenAll(ns) + FlattenAll(ms)
    decreases |ns|
  {
    hide FlattenAll, Flatten;
    if ns == [] {
      FlattenNone();
      assert ns + ms == ms;
    } else {
      FlattenConcat(ns[1..], ms);
      FlattenConcatStep(ns, ms);
    }
  }

  lemma {:induction false} FlattenNone()
    ensures FlattenAll([]) == []
  {
  }

  lemma {:induction false} FlattenConcatStep(ns: seq<Node>, ms: seq<Node>)
    requires ns != [] && FlattenAll(ns[1..] + ms) == FlattenAll(ns[1..]) + FlattenAll(ms)
    ensures FlattenAll(ns + ms) == FlattenAll(ns) + FlattenAll(ms)
  {
    hide FlattenAll, Flatten;
    FlattenFirst(ns);
    FlattenFirst(ns + ms);
    assert (ns + ms)[1..] == ns[1..] + ms && (ns + ms)[0] == ns[0];
    var a, b, c := Flatten(ns[0]), FlattenAll(ns[1..]), FlattenAll(ms);
    assert a + (b + c) == (a + b) + c;
  }

  lemma {:induction false} FlattenAllOne(n: Node)
    ensures FlattenAll([n]) == Flatten(n)
  {
    assert FlattenAll([n][1..]) == [];
  }

  lemma {:induction false} FlattenShape(name: Bytes, ps: seq<Property>, cs: seq<Node>, r: seq<Item>)
    ensures Flatten(Node(name, ps, cs)) + r == [Open(name)] + (Attrs(ps) + (FlattenAll(cs) + ([Close] + r)))
  {
  }

  /** What parses is the flattening of the result. */
  lemma {:induction false} FlattenParse(s: seq<Item>)
    ensures ParseNode(s).Some? ==> s == Flatten(ParseNode(s).value.0) + ParseNode(s).value.1
    decreases |s|, 0
  {
    hide Flatten, FlattenAll, Attrs, TakeProps, ParseNodes;
    if ParseNode(s).Some? {
      var (ps, rest) := TakeProps(s[1..]);
      FlattenParseAll(rest);
      var (cs, rest') := ParseNodes(rest).value;
      assert rest' == [Close] + rest'[1..];
      FlattenShape(s[0].name, ps, cs, rest'[1..]);
      assert s == [s[0]] + s[1..];
    }
  }

  lemma {:induction false} FlattenParseAll(s: seq<Item>)
    ensures ParseNodes(s).Some? ==> s == FlattenAll(ParseNodes(s).value.0) + ParseNodes(s).value.1
    decreases |s|, 1
  {
    if s == [] || !s[0].Open? {
    } else if ParseNodes(s).Some? {
      FlattenParse(s);
      var (n, rest) := ParseNode(s).value;
      FlattenParseAll(rest);
      var (ns, rest') := ParseNodes(rest).value;
      assert ([n] + ns)[1..] == ns;
    }
  }

  /** A sequence of items stands for a tree exactly when it is the tree's flattening. */
  lemma {:induction false} ParseExact(s: seq<Item>, n: Node)
    ensures ParseNode(s) == Some((n, [])) <==> s == Flatten(n)
  {
    FlattenParse(s);
    ParseFlatten(n, []);
    assert Flatten(n) + [] == Flatten(n);
  }

  // ----- Reading items from bytes -----

  /** fdt_get_string on a strings block. */
  function GetString(strings: Bytes, off: nat): Option<Bytes> {
    if off < |strings| && Nul(strings, off) < |strings| then Some(strings[off..Nul(strings, off)]) else None
  }

  function ItemOf(t: Token, strings: Bytes): Option<Item> {
    match t
    case Begin(name) => Some(Open(name))
    case Prop(nameoff, value) =>
      (match GetString(strings, nameoff)
       case Some(name) => Some(Attr(name, value))
       case None => None)
    case EndNode => Some(Close)
    case Nop => Some(Skip)
    case End => None
  }

  /** The token that fdt_next_tag has just stepped over. */
  function TokenOf(b: Bytes, o: nat): Option<Token>
    requires |b| <= INT_MAX
  {
    var n := NextTag(b, o);
    if n.offset <= o then None
    else if n.tag == FDT_BEGIN_NODE then Some(Begin(b[o + 4..Nul(b, o + 4)]))
    else if n.tag == FDT_PROP then
      var len := U32(b, o + 4);
      if o + 12 + len <= |b| then Some(Prop(U32(b, o + 8), b[o + 12..o + 12 + len])) else None
    else if n.tag == FDT_END_NODE then Some(EndNode)
    else if n.tag == FDT_NOP then Some(Nop)
    else Some(End)
  }

  /** Walk the structure block with fdt_next_tag up to its end tag. */
  function ReadItems(b: Bytes, strings: Bytes, o: nat): Option<seq<Item>>
    requires |b| <= INT_MAX && o % 4 == 0
    decreases |b| + 4 - o
  {
    match TokenOf(b, o)
    case None => None
    case Some(End) => Some([])
    case Some(t) =>
      if NextTag(b, o).offset > |b| then None
      else
      match ItemOf(t, strings)
      case None => None
      case Some(i) =>
        match ReadItems(b, strings, NextTag(b, o).offset)
        case None => None
        case Some(r) => Some([i] + r)
  }

  function Strip(s: seq<Item>): seq<Item> {
    if s == [] then [] else (if s[0].Skip? then [] else [s[0]]) + Strip(s[1..])
  }

  /** The tree that a structure block and a strings block stand for. */
  function Decode(b: Bytes, strings: Bytes): Option<Node>
    requires |b| <= INT_MAX
  {
    match ReadItems(b, strings, 0)
    case None => None
    case Some(items) =>
      match ParseNode(Strip(items))
      case Some((n, rest)) => if rest == [] then Some(n) else None
      case None => None
  }

  /** The items of tokens whose property names resolve. */
  predicate Named(ts: seq<Token>, strings: Bytes, items: seq<Item>) {
    |ts| == |items| && forall k | 0 <= k < |ts| :: ItemOf(ts[k], strings) == Some(items[k])
  }

  lemma {:induction false} TokenOfHeld(b: Bytes, o: nat, t: Token)
    requires o % 4 == 0 && o + t.Len() <= |b| <= INT_MAX && Holds(b[o..o + t.Len()], t)
    ensures TokenOf(b, o) == Some(t) && NextTag(b, o).offset == o + t.Len()
  {
    hide NextTag, Holds;
    NextTagReads(b, o, t);
    HeldFields(b, o, t);
  }

  /** Reading a stream from token k on gives the items from k on. */
  lemma {:induction false} ReadStream(b: Bytes, ts: seq<Token>, strings: Bytes, items: seq<Item>, k: nat)
    requires Stream(b, ts + [End]) && |b| <= INT_MAX && Named(ts, strings, items) && k <= |ts|
    ensures ReadItems(b, strings, Off(ts + [End], k)) == Some(items[k..])
    decreases |ts| - k
  {
    hide Holds, TokenOf, ItemOf, NextTag, ReadItems, Stream, Off, Token.Len;
    var all := ts + [End];
    TokenAt(b, all, k);
    TokenOfHeld(b, Off(all, k), all[k]);
    OffStep(all, k);
    UsedBound(all[k]);
    if k < |ts| {
      ReadStream(b, ts, strings, items, k + 1);
      TokenAt(b, all, k + 1);
      ReadStep(b, strings, Off(all, k), ts[k], items[k], items[k + 1..]);
      assert [items[k]] + items[k + 1..] == items[k..];
    } else {
      assert items[k..] == [];
      ReadEnd(b, strings, Off(all, k));
    }
  }

  lemma {:induction false} ReadStep(b: Bytes, strings: Bytes, o: nat, t: Token, i: Item, r: seq<Item>)
    requires |b| <= INT_MAX && o % 4 == 0 && TokenOf(b, o) == Some(t) && ItemOf(t, strings) == Some(i)
    requires o < NextTag(b, o).offset <= |b| && NextTag(b, o).offset % 4 == 0
    requires ReadItems(b, strings, NextTag(b, o).offset) == Some(r)
    ensures ReadItems(b, strings, o) == Some([i] + r)
  {
    NotEnd(t, strings);
  }

  lemma {:induction false} ReadEnd(b: Bytes, strings: Bytes, o: nat)
    requires |b| <= INT_MAX && o % 4 == 0 && TokenOf(b, o) == Some(End)
    ensures ReadItems(b, strings, o) == Some([])
  {
  }

  lemma {:induction false} NotEnd(t: Token, strings: Bytes)
    ensures ItemOf(t, strings).Some? ==> !t.End?
  {
  }

  /** A stream of the tokens of a flattened tree decodes to the tree. */
  lemma {:induction false} DecodeStream(b: Bytes, ts: seq<Token>, strings: Bytes, n: Node)
    requires Stream(b, ts + [End]) && |b| <= INT_MAX && Named(ts, strings, Flatten(n))
    ensures Decode(b, strings) == Some(n)
  {
    ReadStream(b, ts, strings, Flatten(n), 0);
    StripNothing(n);
    ParseExact(Flatten(n), n);
    assert Flatten(n)[0..] == Flatten(n);
  }

  lemma {:induction false} StripFirst(s: seq<Item>)
    requires s != []
    ensures Strip(s) == (if s[0].Skip? then [] else [s[0]]) + Strip(s[1..])
  {
  }

  lemma {:induction false} StripEmpty()
    ensures Strip([]) == []
  {
  }

  lemma {:induction false} StripConcat(s: seq<Item>, t: seq<Item>)
    ensures Strip(s + t) == Strip(s) + Strip(t)
  {
    hide Strip;
    if s == [] {
      StripEmpty();
      assert s + t == t;
    } else {
      StripConcat(s[1..], t);
      assert (s + t)[1..] == s[1..] + t;
      StripFirst(s);
      StripFirst(s + t);
    }
  }

  lemma {:induction false} StripAttrs(ps: seq<Property>)
    ensures Strip(Attrs(ps)) == Attrs(ps)
  {
    if ps != [] { StripAttrs(ps[1..]); }
  }

  /** Flattened trees hold no NOPs. */
  lemma {:induction false} StripNothing(n: Node)
    ensures Strip(Flatten(n)) == Flatten(n)
    decreases n, 0
  {
    StripAll(n.children);
    StripAttrs(n.props);
    StripConcat([Open(n.name)], Attrs(n.props));
    StripConcat([Open(n.name)] + Attrs(n.props), FlattenAll(n.children));
    StripConcat([Open(n.name)] + Attrs(n.props) + FlattenAll(n.children), [Close]);
    assert Strip([Close]) == [Close] && Strip([Open(n.name)]) == [Open(n.name)];
  }

  lemma {:induction false} StripAll(ns: seq<Node>)
    ensures Strip(FlattenAll(ns)) == FlattenAll(ns)
    decreases ns, 1
  {
    if ns != [] {
      StripNothing(ns[0]);
      StripAll(ns[1..]);
      StripConcat(Flatten(ns[0]), FlattenAll(ns[1..]));
    }
  }
}
