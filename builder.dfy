/**
 * The graph builder (aibolit/utils/ast.py:128-132, 258-311): turns the parser's
 * tree into a store. A node takes handle `len(tree) + 1` when it is added. Its
 * children are handled in order, and the edge to a child is added once that
 * child's whole subtree has been numbered.
 *
 * `ConvertNode` and its companions say, as pure functions, which tree the
 * builder lays out (or which error it raises). The methods below make the
 * same changes to a `Graph` that the source makes to its graph, step by step.
 */
module Builder {
  import opened Wrappers
  import opened Taxonomy
  import opened ParseTree
  import opened Arena

  /** The two ways a build aborts: a parser class the lookup table lacks, and a set element that is not a text. */
  datatype BuildError = UnknownType(className: string) | UnexpectedCollectionItem

  /** The marker `_handle_javalang_ast_node` returns for a slot that adds no node. */
  const NodeSkipped: int := -1

  /** The synthetic leaf the builder makes for a text. */
  function Leaf(s: string): Tree {
    Tree(Attrs(STRING, None, Some(s)), [])
  }

  function CollectionAttrs(): Attrs {
    Attrs(COLLECTION, None, None)
  }

  // ---------------------------------------------------------------------------
  // What the builder produces

  /** The attributes stored for a parser node: its kind, and its line when the position has one. */
  function NodeAttributes(n: JNode): Result<Attrs, BuildError> {
    match TypesMap(n.jtype)
    case None => Failure(UnknownType(n.jtype.className))
    case Some(k) => Success(Attrs(k, n.line, None))
  }

  function ConvertNode(n: JNode): Result<Tree, BuildError>
    decreases n, 2
  {
    match NodeAttributes(n)
    case Failure(e) => Failure(e)
    case Success(a) =>
      match ConvertChildren(n.children)
      case Failure(e) => Failure(e)
      case Success(kids) => Success(Tree(a, kids))
  }

  /** The trees a list of child slots contributes, nested lists flattened in place. */
  function ConvertChildren(cs: seq<Child>): Result<seq<Tree>, BuildError>
    decreases cs, 1
  {
    if cs == [] then Success([])
    else
      match ConvertChildren(cs[..|cs| - 1])
      case Failure(e) => Failure(e)
      case Success(pre) =>
        match ConvertChildrenPiece(cs[|cs| - 1])
        case Failure(e) => Failure(e)
        case Success(last) => Success(pre + last)
  }

  /** What one slot of a children list contributes: a nested list is flattened, any other slot is handled alone. */
  function ConvertChildrenPiece(c: Child): Result<seq<Tree>, BuildError>
    decreases c, 1
  {
    if c.Nested? then ConvertChildren(c.elems)
    else
      match ConvertSlot(c)
      case Failure(e) => Failure(e)
      case Success(o) => Success(if o.Some? then [o.value] else [])
  }

  /** The node one non-list slot becomes, or `None` when it is skipped. */
  function ConvertSlot(c: Child): Result<Option<Tree>, BuildError>
    decreases c, 0
  {
    match c
    case Sub(n) =>
      (match ConvertNode(n)
       case Failure(e) => Failure(e)
       case Success(t) => Success(Some(t)))
    case TextSet(items) =>
      (match ConvertItems(items)
       case Failure(e) => Failure(e)
       case Success(leaves) => Success(Some(Tree(CollectionAttrs(), leaves))))
    case Text(s) => Success(Some(Leaf(s)))
    case _ => Success(None)
  }

  /** The texts of a set's elements, in iteration order. */
  function Texts(items: seq<Item>): seq<string> {
    if items == [] then []
    else Texts(items[..|items| - 1]) + (if items[|items| - 1].TextItem? then [items[|items| - 1].text] else [])
  }

  /**
   * The STRING leaves of a COLLECTION node: one per text element, `None`
   * elements skipped, and a failure on any other element.
   */
  function ConvertItems(items: seq<Item>): (r: Result<seq<Tree>, BuildError>)
    ensures r.Success? <==> forall j :: 0 <= j < |items| ==> !items[j].OtherItem?
    ensures r.Failure? ==> r.error == UnexpectedCollectionItem
    ensures r.Success? ==> |r.value| == |Texts(items)|
    ensures r.Success? ==> forall j :: 0 <= j < |r.value| ==> r.value[j] == Leaf(Texts(items)[j])
  {
    if items == [] then Success([])
    else
      var last := items[|items| - 1];
      match ConvertItems(items[..|items| - 1])
      case Failure(e) => Failure(e)
      case Success(pre) =>
        if last.TextItem? then Success(pre + [Leaf(last.text)])
        else if last.NoneItem? then Success(pre)
        else Failure(UnexpectedCollectionItem)
  }

  /** The store the builder returns for a parser tree, or the error it raises. */
  function Build(n: JNode): Result<Ast, BuildError> {
    match ConvertNode(n)
    case Failure(e) => Failure(e)
    case Success(t) => Success(AstOf(t))
  }

  // ---------------------------------------------------------------------------
  // The graph the builder mutates

  /** The directed graph the builder fills: node attributes and ordered successor lists, by handle. */
  class Graph {
    var nodes: seq<Attrs>
    var succ: seq<seq<int>>

    /** One successor list per node, and every edge ends at an existing node. */
    ghost predicate Valid()
      reads this
    {
      && |nodes| == |succ|
      && forall i, c :: 0 <= i < |succ| && c in succ[i] ==> 1 <= c <= |nodes|
    }

    constructor ()
      ensures Valid() && nodes == [] && succ == []
    {
      nodes, succ := [], [];
    }

    /** Adds a node with handle `len(tree) + 1` and no edges. */
    method AddNode(a: Attrs) returns (index: nat)
      requires Valid()
      modifies this
      ensures Valid()
      ensures index == |old(nodes)| + 1
      ensures nodes == old(nodes) + [a] && succ == old(succ) + [[]]
    {
      index := |nodes| + 1;
      nodes, succ := nodes + [a], succ + [[]];
    }

    /** Adds the edge u -> v after the existing successors of u; an edge that is already there is kept once. */
    method AddEdge(u: nat, v: nat)
      requires Valid() && 1 <= u <= |nodes| && 1 <= v <= |nodes|
      modifies this
      ensures Valid() && nodes == old(nodes)
      ensures succ == old(succ)[u - 1 := if v in old(succ)[u - 1] then old(succ)[u - 1] else old(succ)[u - 1] + [v]]
    {
      if v !in succ[u - 1] {
        succ := succ[u - 1 := succ[u - 1] + [v]];
      }
    }
  }

  // ---------------------------------------------------------------------------
  // The builder

  /** `build_from_javalang`: builds a fresh store from the parser's root node; the root gets handle 1. */
  method BuildFromJavalang(javalangRoot: JNode) returns (r: Result<Ast, BuildError>)
    ensures r == Build(javalangRoot)
    ensures r.Success? ==> Valid(r.value)
  {
    var g := new Graph();
    var root := BuildNode(g, javalangRoot);
    if root.Failure? {
      return Failure(root.error);
    }
    ghost var t := ConvertNode(javalangRoot).value;
    assert g.nodes == Nodes(t) && g.succ == Succs(t, 0) by {
      assert [] + Nodes(t) == Nodes(t);
      assert [] + Succs(t, 0) == Succs(t, 0);
    }
    ConvertTexts(javalangRoot);
    AstOfValid(t);
    r := Success(Ast(g.nodes, g.succ, root.value));
  }

  /** `_build_from_javalang`: numbers a parser node and then its children; returns the node's handle. */
  method BuildNode(g: Graph, n: JNode) returns (r: Result<nat, BuildError>)
    requires g.Valid()
    modifies g
    decreases n, 2
    ensures g.Valid()
    ensures r.Success? <==> ConvertNode(n).Success?
    ensures r.Failure? ==> r.error == ConvertNode(n).error
    ensures r.Success? ==>
      && r.value == |old(g.nodes)| + 1
      && g.nodes == old(g.nodes) + Nodes(ConvertNode(n).value)
      && g.succ == old(g.succ) + Succs(ConvertNode(n).value, |old(g.nodes)|)
  {
    ghost var nodes0, succ0 := g.nodes, g.succ;
    ConvertNodeParts(n);
    var attrs := NodeAttributes(n);
    if attrs.Failure? {
      return Failure(attrs.error);
    }
    var index := g.AddNode(attrs.value);
    var added := IterateOverChildrenList(g, n.children, index);
    if added.Failure? {
      return Failure(added.error);
    }
    LayoutNode(nodes0, succ0, attrs.value, ConvertChildren(n.children).value);
    r := Success(index);
  }

  /** `ConvertNode` in terms of its two parts: the node's own attributes, then its children. */
  lemma ConvertNodeParts(n: JNode)
    ensures NodeAttributes(n).Failure? ==> ConvertNode(n) == Failure(NodeAttributes(n).error)
    ensures NodeAttributes(n).Success? && ConvertChildren(n.children).Failure? ==>
      ConvertNode(n) == Failure(ConvertChildren(n.children).error)
    ensures NodeAttributes(n).Success? && ConvertChildren(n.children).Success? ==>
      ConvertNode(n) == Success(Tree(NodeAttributes(n).value, ConvertChildren(n.children).value))
  {
  }

  /** The successor lists `succ` with `extra` put after the successors of handle `parent`. */
  function Attach(succ: seq<seq<int>>, parent: nat, extra: seq<int>): seq<seq<int>>
    requires 1 <= parent <= |succ|
  {
    succ[parent - 1 := succ[parent - 1] + extra]
  }

  lemma AttachTwice(succ0: seq<seq<int>>, more1: seq<seq<int>>, more2: seq<seq<int>>, parent: nat, x: seq<int>, y: seq<int>)
    requires 1 <= parent <= |succ0|
    ensures Attach(Attach(succ0 + more1, parent, x) + more2, parent, y) == Attach(succ0 + more1 + more2, parent, x + y)
  {
    var l := Attach(Attach(succ0 + more1, parent, x) + more2, parent, y);
    var r := Attach(succ0 + more1 + more2, parent, x + y);
    assert succ0[parent - 1] + x + y == succ0[parent - 1] + (x + y);
    assert |l| == |r|;
    forall k | 0 <= k < |l|
      ensures l[k] == r[k]
    {
    }
  }

  /** Attaching successors to a node just added at the end of a store. */
  lemma AttachFresh(succ0: seq<seq<int>>, more: seq<seq<int>>, extra: seq<int>)
    ensures Attach(succ0 + [[]] + more, |succ0| + 1, extra) == succ0 + ([extra] + more)
  {
    var l := Attach(succ0 + [[]] + more, |succ0| + 1, extra);
    var r := succ0 + ([extra] + more);
    assert [] + extra == extra;
    assert |l| == |r|;
    forall k | 0 <= k < |l|
      ensures l[k] == r[k]
    {
      if k < |succ0| {
        assert l[k] == succ0[k] == r[k];
      } else if k > |succ0| {
        assert l[k] == more[k - |succ0| - 1] == r[k];
      }
    }
  }

  /** Laying out a node: its own (empty) successor list, then its children's, with the roots of the children attached to it. */
  lemma LayoutNode(nodes0: seq<Attrs>, succ0: seq<seq<int>>, a: Attrs, kids: seq<Tree>)
    ensures nodes0 + [a] + NodesList(kids) == nodes0 + Nodes(Tree(a, kids))
    ensures Attach(succ0 + [[]] + SuccsList(kids, |succ0| + 1), |succ0| + 1, Roots(kids, |succ0| + 1))
            == succ0 + Succs(Tree(a, kids), |succ0|)
  {
    LayoutNodeNodes(nodes0, a, kids);
    LayoutNodeSuccs(succ0, a, kids, |succ0| + 1);
  }

  lemma LayoutNodeNodes(nodes0: seq<Attrs>, a: Attrs, kids: seq<Tree>)
    ensures nodes0 + [a] + NodesList(kids) == nodes0 + Nodes(Tree(a, kids))
  {
    assert Nodes(Tree(a, kids)) == [a] + NodesList(kids);
  }

  lemma LayoutNodeSuccs(succ0: seq<seq<int>>, a: Attrs, kids: seq<Tree>, b: nat)
    requires b == |succ0| + 1
    ensures Attach(succ0 + [[]] + SuccsList(kids, b), b, Roots(kids, b)) == succ0 + Succs(Tree(a, kids), |succ0|)
  {
    assert Succs(Tree(a, kids), |succ0|) == [Roots(kids, b)] + SuccsList(kids, b);
    AttachFresh(succ0, SuccsList(kids, b), Roots(kids, b));
  }

  /**
   * `_iterate_over_children_list`: handles the child slots in order under
   * `parent`; a nested list is handled in place, with the same parent.
   */
  method IterateOverChildrenList(g: Graph, cs: seq<Child>, parent: nat) returns (r: Result<(), BuildError>)
    requires g.Valid() && 1 <= parent <= |g.nodes|
    modifies g
    decreases cs, 1
    ensures g.Valid()
    ensures r.Success? <==> ConvertChildren(cs).Success?
    ensures r.Failure? ==> r.error == ConvertChildren(cs).error
    ensures r.Success? ==>
      && g.nodes == old(g.nodes) + NodesList(ConvertChildren(cs).value)
      && g.succ == Attach(old(g.succ) + SuccsList(ConvertChildren(cs).value, |old(g.nodes)|),
                          parent, Roots(ConvertChildren(cs).value, |old(g.nodes)|))
  {
    ghost var nodes0, succ0, base := g.nodes, g.succ, |g.nodes|;
    assert cs[..0] == [];
    assert Attach(succ0 + SuccsList([], base), parent, Roots([], base)) == succ0 by {
      assert succ0[parent - 1] + [] == succ0[parent - 1];
      assert succ0 + [] == succ0;
    }
    assert nodes0 + NodesList([]) == nodes0;
    var i := 0;
    ghost var done: seq<Tree> := [];
    while i < |cs|
      invariant 0 <= i <= |cs|
      invariant g.Valid()
      invariant ConvertChildren(cs[..i]) == Success(done)
      invariant g.nodes == nodes0 + NodesList(done)
      invariant g.succ == Attach(succ0 + SuccsList(done, base), parent, Roots(done, base))
    {
      ghost var mid := |g.nodes|;
      NodesListLength(done);
      var child := cs[i];
      ConvertChildrenSnoc(cs, i);
      var added;
      if child.Nested? {
        added := IterateOverChildrenList(g, child.elems, parent);
      } else {
        added := AddChild(g, child, parent);
      }
      if added.Failure? {
        ConvertChildrenPrefixFails(cs, i + 1);
        return Failure(added.error);
      }
      ghost var more := ConvertChildrenPiece(child).value;
      ChildrenStep(nodes0, succ0, done, more, parent, mid);
      done := done + more;
      i := i + 1;
    }
    assert cs[..|cs|] == cs;
    r := Success(());
  }

  /**
   * One turn of the loop in `_iterate_over_children_list` for a slot that is
   * not a list: handle the slot, then add the edge from `parent` to the node
   * it made, if any.
   */
  method AddChild(g: Graph, child: Child, parent: nat) returns (r: Result<(), BuildError>)
    requires g.Valid() && 1 <= parent <= |g.nodes| && !child.Nested?
    modifies g
    decreases child, 1
    ensures g.Valid()
    ensures r.Success? <==> ConvertChildrenPiece(child).Success?
    ensures r.Failure? ==> r.error == ConvertChildrenPiece(child).error
    ensures r.Success? ==>
      && g.nodes == old(g.nodes) + NodesList(ConvertChildrenPiece(child).value)
      && g.succ == Attach(old(g.succ) + SuccsList(ConvertChildrenPiece(child).value, |old(g.nodes)|),
                          parent, Roots(ConvertChildrenPiece(child).value, |old(g.nodes)|))
  {
    ghost var nodes1, succ1, mid := g.nodes, g.succ, |g.nodes|;
    var index := HandleJavalangAstNode(g, child);
    if index.Failure? {
      return Failure(index.error);
    }
    if index.value != NodeSkipped {
      ghost var t := ConvertSlot(child).value.value;
      assert succ1[parent - 1] == g.succ[parent - 1];
      assert index.value !in g.succ[parent - 1];
      g.AddEdge(parent, index.value);
      assert g.succ == Attach(succ1 + Succs(t, mid), parent, [mid + 1]);
      ChildStep(succ1, t, parent, mid);
      assert NodesList([t]) == Nodes(t) + NodesList([]);
    } else {
      assert Attach(succ1 + SuccsList([], mid), parent, Roots([], mid)) == succ1 by {
        assert succ1[parent - 1] + [] == succ1[parent - 1];
        assert succ1 + [] == succ1;
      }
      assert nodes1 + NodesList([]) == nodes1;
    }
    r := Success(());
  }

  /** The slots up to `i + 1` contribute what the slots up to `i` do, then what slot `i` does. */
  lemma ConvertChildrenSnoc(cs: seq<Child>, i: nat)
    requires i < |cs| && ConvertChildren(cs[..i]).Success?
    ensures ConvertChildrenPiece(cs[i]).Failure? ==>
      ConvertChildren(cs[..i + 1]) == Failure(ConvertChildrenPiece(cs[i]).error)
    ensures ConvertChildrenPiece(cs[i]).Success? ==>
      ConvertChildren(cs[..i + 1]) == Success(ConvertChildren(cs[..i]).value + ConvertChildrenPiece(cs[i]).value)
  {
    assert cs[..i + 1][..i] == cs[..i];
    assert cs[..i + 1][i] == cs[i];
  }

  /** The layout after a run of children, then another run under the same parent; `mid` is the store size between the two. */
  lemma ChildrenStep(nodes0: seq<Attrs>, succ0: seq<seq<int>>, done: seq<Tree>, more: seq<Tree>, parent: nat, mid: nat)
    requires 1 <= parent <= |succ0| == |nodes0|
    requires mid == |nodes0| + SizeList(done)
    ensures nodes0 + NodesList(done) + NodesList(more) == nodes0 + NodesList(done + more)
    ensures Attach(Attach(succ0 + SuccsList(done, |nodes0|), parent, Roots(done, |nodes0|))
                   + SuccsList(more, mid), parent, Roots(more, mid))
            == Attach(succ0 + SuccsList(done + more, |nodes0|), parent, Roots(done + more, |nodes0|))
  {
    NodesListAppend(done, more);
    ChildrenSuccsStep(succ0, done, more, parent, |nodes0|, mid);
  }

  lemma ChildrenSuccsStep(succ0: seq<seq<int>>, done: seq<Tree>, more: seq<Tree>, parent: nat, base: nat, mid: nat)
    requires 1 <= parent <= |succ0|
    requires mid == base + SizeList(done)
    ensures Attach(Attach(succ0 + SuccsList(done, base), parent, Roots(done, base))
                   + SuccsList(more, mid), parent, Roots(more, mid))
            == Attach(succ0 + SuccsList(done + more, base), parent, Roots(done + more, base))
  {
    LayoutSplit(done, more, base, mid);
    AttachTwice(succ0, SuccsList(done, base), SuccsList(more, mid), parent, Roots(done, base), Roots(more, mid));
  }

  /** A single child laid out at the end of a store and then attached to its parent. */
  lemma ChildStep(succ1: seq<seq<int>>, t: Tree, parent: nat, mid: nat)
    requires 1 <= parent <= |succ1|
    ensures Attach(succ1 + Succs(t, mid), parent, [mid + 1]) == Attach(succ1 + SuccsList([t], mid), parent, Roots([t], mid))
  {
    assert SuccsList([t], mid) == Succs(t, mid) + SuccsList([], mid + Size(t));
    assert Succs(t, mid) + [] == Succs(t, mid);
    assert Roots([t], mid) == [mid + 1];
  }

  /** Once a prefix of the slots fails, so does the whole list, with the same error. */
  lemma {:induction false} ConvertChildrenPrefixFails(cs: seq<Child>, i: nat)
    requires i <= |cs| && ConvertChildren(cs[..i]).Failure?
    ensures ConvertChildren(cs).Failure? && ConvertChildren(cs).error == ConvertChildren(cs[..i]).error
  {
    if i < |cs| {
      assert cs[..|cs| - 1][..i] == cs[..i];
      ConvertChildrenPrefixFails(cs[..|cs| - 1], i);
    } else {
      assert cs[..i] == cs;
    }
  }

  /** `_handle_javalang_ast_node`: a parser node, set or text adds a node; anything else is skipped. */
  method HandleJavalangAstNode(g: Graph, c: Child) returns (r: Result<int, BuildError>)
    requires g.Valid()
    modifies g
    decreases c, 0
    ensures g.Valid()
    ensures r.Success? <==> ConvertSlot(c).Success?
    ensures r.Failure? ==> r.error == ConvertSlot(c).error
    ensures r.Success? && ConvertSlot(c).value.None? ==>
      r.value == NodeSkipped && g.nodes == old(g.nodes) && g.succ == old(g.succ)
    ensures r.Success? && ConvertSlot(c).value.Some? ==>
      && r.value == |old(g.nodes)| + 1
      && g.nodes == old(g.nodes) + Nodes(ConvertSlot(c).value.value)
      && g.succ == old(g.succ) + Succs(ConvertSlot(c).value.value, |old(g.nodes)|)
  {
    match c {
      case Sub(n) =>
        var index := BuildNode(g, n);
        if index.Failure? {
          return Failure(index.error);
        }
        r := Success(index.value);
      case TextSet(items) =>
        var index := HandleCollectionNode(g, items);
        if index.Failure? {
          return Failure(index.error);
        }
        r := Success(index.value);
      case Text(s) =>
        var index := HandleStringNode(g, s);
        LeafLayout(s, |old(g.nodes)|);
        r := Success(index);
      case _ =>
        r := Success(NodeSkipped);
    }
  }

  /** `_handle_javalang_string_node`: a STRING leaf carrying the text. */
  method HandleStringNode(g: Graph, s: string) returns (index: nat)
    requires g.Valid()
    modifies g
    ensures g.Valid()
    ensures index == |old(g.nodes)| + 1
    ensures g.nodes == old(g.nodes) + [Leaf(s).attrs] && g.succ == old(g.succ) + [[]]
  {
    index := g.AddNode(Attrs(STRING, None, Some(s)));
  }

  /** A leaf lays out as one node with no successors. */
  lemma LeafLayout(s: string, base: nat)
    ensures Nodes(Leaf(s)) == [Leaf(s).attrs] && Succs(Leaf(s), base) == [[]]
  {
    assert Nodes(Leaf(s)) == [Leaf(s).attrs] + NodesList([]);
    assert Succs(Leaf(s), base) == [Roots([], base + 1)] + SuccsList([], base + 1);
  }

  /**
   * `_handle_javalang_collection_node`: a COLLECTION node, then one STRING
   * child per text element; `None` elements are skipped, any other element fails.
   */
  method HandleCollectionNode(g: Graph, items: seq<Item>) returns (r: Result<nat, BuildError>)
    requires g.Valid()
    modifies g
    ensures g.Valid()
    ensures r.Success? <==> ConvertItems(items).Success?
    ensures r.Failure? ==> r.error == UnexpectedCollectionItem
    ensures r.Success? ==>
      && r.value == |old(g.nodes)| + 1
      && g.nodes == old(g.nodes) + Nodes(Tree(CollectionAttrs(), ConvertItems(items).value))
      && g.succ == old(g.succ) + Succs(Tree(CollectionAttrs(), ConvertItems(items).value), |old(g.nodes)|)
  {
    ghost var nodes0, succ0, base := g.nodes, g.succ, |g.nodes|;
    var index := g.AddNode(CollectionAttrs());
    var i := 0;
    while i < |items|
      invariant 0 <= i <= |items|
      invariant g.Valid()
      invariant ConvertItems(items[..i]).Success?
      invariant g.nodes == nodes0 + Nodes(Tree(CollectionAttrs(), ConvertItems(items[..i]).value))
      invariant g.succ == succ0 + Succs(Tree(CollectionAttrs(), ConvertItems(items[..i]).value), base)
    {
      ghost var leaves := ConvertItems(items[..i]).value;
      assert items[..i + 1][..i] == items[..i];
      assert items[..i + 1][i] == items[i];
      NodesLength(Tree(CollectionAttrs(), leaves));
      SuccsLength(Tree(CollectionAttrs(), leaves), base);
      var item := items[i];
      if item.TextItem? {
        ghost var succ1 := g.succ;
        var leaf := HandleStringNode(g, item.text);
        assert g.succ[index - 1] == succ1[index - 1];
        assert leaf !in g.succ[index - 1];
        g.AddEdge(index, leaf);
        CollectionStep(nodes0, succ0, leaves, item.text, leaf);
      } else if item.OtherItem? {
        assert !ConvertItems(items).Success?;
        return Failure(UnexpectedCollectionItem);
      }
      i := i + 1;
    }
    assert items[..|items|] == items;
    r := Success(index);
  }

  /** Attaching a new last node under the first node of a block laid out at the end of a store. */
  lemma AttachLast(succ0: seq<seq<int>>, first: seq<int>, more: seq<seq<int>>, v: nat)
    ensures Attach(succ0 + ([first] + more) + [[]], |succ0| + 1, [v]) == succ0 + ([first + [v]] + (more + [[]]))
  {
    var l := Attach(succ0 + ([first] + more) + [[]], |succ0| + 1, [v]);
    var r := succ0 + ([first + [v]] + (more + [[]]));
    assert |l| == |r|;
    forall k | 0 <= k < |l|
      ensures l[k] == r[k]
    {
      if k < |succ0| {
        assert l[k] == succ0[k] == r[k];
      } else if k > |succ0| + |more| {
        assert l[k] == [] == r[k];
      } else if k > |succ0| {
        assert l[k] == more[k - |succ0| - 1] == r[k];
      }
    }
  }

  /** Appending one STRING leaf, with handle `leaf`, to a COLLECTION node laid out at the end of a store. */
  lemma CollectionStep(nodes0: seq<Attrs>, succ0: seq<seq<int>>, leaves: seq<Tree>, s: string, leaf: nat)
    requires leaf == |succ0| + 1 + Size(Tree(CollectionAttrs(), leaves))
    ensures nodes0 + Nodes(Tree(CollectionAttrs(), leaves)) + [Leaf(s).attrs]
            == nodes0 + Nodes(Tree(CollectionAttrs(), leaves + [Leaf(s)]))
    ensures Attach(succ0 + Succs(Tree(CollectionAttrs(), leaves), |succ0|) + [[]], |succ0| + 1, [leaf])
            == succ0 + Succs(Tree(CollectionAttrs(), leaves + [Leaf(s)]), |succ0|)
  {
    var base := |succ0|;
    NodesListAppend(leaves, [Leaf(s)]);
    assert NodesList([Leaf(s)]) == [Leaf(s).attrs] + NodesList([]);
    assert Nodes(Tree(CollectionAttrs(), leaves)) == [CollectionAttrs()] + NodesList(leaves);
    assert Nodes(Tree(CollectionAttrs(), leaves + [Leaf(s)])) == [CollectionAttrs()] + NodesList(leaves + [Leaf(s)]);
    var roots, succs := Roots(leaves, base + 1), SuccsList(leaves, base + 1);
    assert Succs(Tree(CollectionAttrs(), leaves), base) == [roots] + succs;
    CollectionSnocLayout(leaves, s, base, leaf);
    AttachLast(succ0, roots, succs, leaf);
  }

  /** The successor lists of a COLLECTION node after one more leaf, which gets handle `leaf`. */
  lemma CollectionSnocLayout(leaves: seq<Tree>, s: string, base: nat, leaf: nat)
    requires leaf == base + 2 + SizeList(leaves)
    ensures Succs(Tree(CollectionAttrs(), leaves + [Leaf(s)]), base)
      == [Roots(leaves, base + 1) + [leaf]] + (SuccsList(leaves, base + 1) + [[]])
  {
    var kids := leaves + [Leaf(s)];
    assert Succs(Tree(CollectionAttrs(), kids), base) == [Roots(kids, base + 1)] + SuccsList(kids, base + 1);
    RootsSnoc(leaves, Leaf(s), base + 1);
    SuccsListSnoc(leaves, Leaf(s), base + 1);
    assert Succs(Leaf(s), base + 1 + SizeList(leaves)) == [[]];
  }

  // ---------------------------------------------------------------------------
  // What the builder accepts, and how many nodes it makes

  /** A parser tree the builder accepts: every class is listed, and every set holds only texts and `None`. */
  predicate Buildable(n: JNode) {
    && TypesMap(n.jtype).Some?
    && forall i :: 0 <= i < |n.children| ==> BuildableSlot(n.children[i])
  }

  predicate BuildableSlot(c: Child) {
    match c
    case Sub(n) => Buildable(n)
    case TextSet(items) => forall j :: 0 <= j < |items| ==> !items[j].OtherItem?
    case Nested(es) => forall i :: 0 <= i < |es| ==> BuildableSlot(es[i])
    case _ => true
  }

  /** The number of nodes a parser tree yields: one per parser node, text, set and text element of a set. */
  function NodeCount(n: JNode): nat {
    1 + SlotsCount(n.children)
  }

  function SlotsCount(cs: seq<Child>): nat {
    if cs == [] then 0 else SlotsCount(cs[..|cs| - 1]) + SlotCount(cs[|cs| - 1])
  }

  function SlotCount(c: Child): nat {
    match c
    case Sub(n) => NodeCount(n)
    case TextSet(items) => 1 + |Texts(items)|
    case Text(_) => 1
    case Nested(es) => SlotsCount(es)
    case _ => 0
  }

  /** The build fails exactly when some class is unlisted or some set holds a non-text element. */
  lemma {:induction false} ConvertSucceeds(n: JNode)
    ensures ConvertNode(n).Success? <==> Buildable(n)
    decreases n, 2
  {
    ConvertChildrenSucceeds(n.children);
  }

  lemma {:induction false} ConvertChildrenSucceeds(cs: seq<Child>)
    ensures ConvertChildren(cs).Success? <==> forall i :: 0 <= i < |cs| ==> BuildableSlot(cs[i])
    decreases cs, 1
  {
    if cs != [] {
      var pre, last := cs[..|cs| - 1], cs[|cs| - 1];
      ConvertChildrenSucceeds(pre);
      ConvertPieceSucceeds(last);
      assert forall i :: 0 <= i < |pre| ==> pre[i] == cs[i];
      assert cs == pre + [last];
    }
  }

  lemma {:induction false} ConvertPieceSucceeds(c: Child)
    ensures ConvertChildrenPiece(c).Success? <==> BuildableSlot(c)
    decreases c, 0
  {
    match c {
      case Sub(n) => ConvertSucceeds(n);
      case Nested(es) => ConvertChildrenSucceeds(es);
      case _ =>
    }
  }

  /** A successful build has exactly as many nodes as the parser tree has nodes, texts, sets and set texts. */
  lemma {:induction false} ConvertSize(n: JNode)
    requires ConvertNode(n).Success?
    ensures Size(ConvertNode(n).value) == NodeCount(n)
    decreases n, 2
  {
    ConvertChildrenSize(n.children);
  }

  lemma {:induction false} ConvertChildrenSize(cs: seq<Child>)
    requires ConvertChildren(cs).Success?
    ensures SizeList(ConvertChildren(cs).value) == SlotsCount(cs)
    decreases cs, 1
  {
    if cs != [] {
      var pre, last := cs[..|cs| - 1], cs[|cs| - 1];
      ConvertChildrenSize(pre);
      ConvertPieceSize(last);
      SizeListAppend(ConvertChildren(pre).value, ConvertChildrenPiece(last).value);
    }
  }

  lemma {:induction false} ConvertPieceSize(c: Child)
    requires ConvertChildrenPiece(c).Success?
    ensures SizeList(ConvertChildrenPiece(c).value) == SlotCount(c)
    decreases c, 0
  {
    match c {
      case Sub(n) =>
        ConvertSize(n);
        assert ConvertChildrenPiece(c).value == [ConvertNode(n).value];
      case Nested(es) => ConvertChildrenSize(es);
      case TextSet(items) =>
        var leaves := ConvertItems(items).value;
        LeavesSize(leaves);
        assert ConvertChildrenPiece(c).value == [Tree(CollectionAttrs(), leaves)];
      case Text(s) =>
        assert ConvertChildrenPiece(c).value == [Leaf(s)];
      case _ =>
    }
  }

  lemma {:induction false} LeavesSize(ts: seq<Tree>)
    requires forall j :: 0 <= j < |ts| ==> ts[j].kids == []
    ensures SizeList(ts) == |ts|
  {
    if ts != [] {
      assert Size(ts[0]) == 1 + SizeList([]);
      LeavesSize(ts[1..]);
    }
  }

  /** A successful build puts a text on every STRING node. */
  lemma {:induction false} ConvertTexts(n: JNode)
    requires ConvertNode(n).Success?
    ensures TextsPresent(ConvertNode(n).value)
    decreases n, 2
  {
    ConvertChildrenTexts(n.children);
  }

  lemma {:induction false} ConvertChildrenTexts(cs: seq<Child>)
    requires ConvertChildren(cs).Success?
    ensures forall j :: 0 <= j < |ConvertChildren(cs).value| ==> TextsPresent(ConvertChildren(cs).value[j])
    decreases cs, 1
  {
    if cs != [] {
      var pre, last := cs[..|cs| - 1], cs[|cs| - 1];
      ConvertChildrenTexts(pre);
      ConvertPieceTexts(last);
    }
  }

  lemma {:induction false} ConvertPieceTexts(c: Child)
    requires ConvertChildrenPiece(c).Success?
    ensures forall j :: 0 <= j < |ConvertChildrenPiece(c).value| ==> TextsPresent(ConvertChildrenPiece(c).value[j])
    decreases c, 0
  {
    match c {
      case Sub(n) => ConvertTexts(n);
      case Nested(es) => ConvertChildrenTexts(es);
      case _ =>
    }
  }

  /** The children of two consecutive runs of slots are the children of the first run, then those of the second. */
  lemma {:induction false} ConvertChildrenAppend(a: seq<Child>, b: seq<Child>)
    requires ConvertChildren(a).Success? && ConvertChildren(b).Success?
    ensures ConvertChildren(a + b) == Success(ConvertChildren(a).value + ConvertChildren(b).value)
  {
    if b == [] {
      assert a + b == a;
      assert ConvertChildren(a).value + [] == ConvertChildren(a).value;
    } else {
      var ab := a + b;
      var pre, last := b[..|b| - 1], b[|b| - 1];
      assert ab[..|ab| - 1] == a + pre;
      assert ab[|ab| - 1] == last;
      ConvertChildrenLast(b);
      assert ConvertChildren(pre).Success? && ConvertChildrenPiece(last).Success?;
      ConvertChildrenAppend(a, pre);
      ConvertChildrenLast(ab);
      var A, P, L := ConvertChildren(a).value, ConvertChildren(pre).value, ConvertChildrenPiece(last).value;
      assert ConvertChildren(a + pre) == Success(A + P);
      assert ConvertChildren(b).value == P + L;
      assert ConvertChildren(ab).value == (A + P) + L;
      assert (A + P) + L == A + (P + L);
    }
  }

  /** One step of `ConvertChildren`, stated for a non-empty list. */
  lemma ConvertChildrenLast(cs: seq<Child>)
    requires cs != []
    ensures ConvertChildren(cs).Success? <==>
      ConvertChildren(cs[..|cs| - 1]).Success? && ConvertChildrenPiece(cs[|cs| - 1]).Success?
    ensures ConvertChildren(cs).Success? ==>
      ConvertChildren(cs).value == ConvertChildren(cs[..|cs| - 1]).value + ConvertChildrenPiece(cs[|cs| - 1]).value
  {
  }

  /** A nested list contributes its elements' nodes in place, under the same parent. */
  lemma FlattenNested(a: seq<Child>, es: seq<Child>, b: seq<Child>)
    requires ConvertChildren(a).Success? && ConvertChildren(es).Success? && ConvertChildren(b).Success?
    ensures ConvertChildren(a + [Nested(es)] + b) == ConvertChildren(a + es + b)
  {
    var n := [Nested(es)];
    assert n[..0] == [];
    var A, E, B := ConvertChildren(a).value, ConvertChildren(es).value, ConvertChildren(b).value;
    ConvertChildrenLast(n);
    assert ConvertChildrenPiece(n[0]) == ConvertChildren(es);
    assert [] + E == E;
    assert ConvertChildren(n) == ConvertChildren(es);
    ConvertChildrenAppend(a, n);
    assert ConvertChildren(a + n) == Success(A + E);
    ConvertChildrenAppend(a + n, b);
    ConvertChildrenAppend(a, es);
    ConvertChildrenAppend(a + es, b);
  }

  lemma SkippedAlone(c: Child)
    requires c.NoneChild? || c.Scalar?
    ensures ConvertChildren([c]) == Success([])
  {
    assert [c][..0] == [];
    ConvertChildrenLast([c]);
  }

  /** A null slot, or a scalar slot, adds no node and no edge. */
  lemma SkippedSlot(a: seq<Child>, c: Child, b: seq<Child>)
    requires c.NoneChild? || c.Scalar?
    requires ConvertChildren(a).Success? && ConvertChildren(b).Success?
    ensures ConvertChildren(a + [c] + b) == ConvertChildren(a + b)
  {
    var A, B := ConvertChildren(a).value, ConvertChildren(b).value;
    SkippedAlone(c);
    ConvertChildrenAppend(a, [c]);
    assert A + [] == A;
    assert ConvertChildren(a + [c]) == Success(A);
    ConvertChildrenAppend(a + [c], b);
    ConvertChildrenAppend(a, b);
  }

  /**
   * The build succeeds exactly on the trees it accepts, and then returns a
   * valid store whose handles 1..N number every node it made.
   */
  lemma BuildShape(n: JNode)
    ensures Build(n).Success? <==> Buildable(n)
    ensures Build(n).Failure? ==> Build(n).error == ConvertNode(n).error
    ensures Build(n).Success? ==> Valid(Build(n).value) && |Build(n).value.nodes| == NodeCount(n)
  {
    ConvertSucceeds(n);
    if ConvertNode(n).Success? {
      ConvertSize(n);
      ConvertTexts(n);
      AstOfValid(ConvertNode(n).value);
    }
  }
}
