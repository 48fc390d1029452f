/**
 * The graph store of an AST (aibolit/utils/ast.py:121-132, 259-311): an arena
 * of node records addressed by the handles 1..N, each with its ordered list of
 * child handles, and the abstract tree that such a store lays out.
 */
module Arena {
  import opened Wrappers
  import opened Taxonomy

  /** The attribute bag of one node: `type`, `source_code_line` when present, `string` when present. */
  datatype Attrs = Attrs(kind: Kind, line: Option<int>, text: Option<string>)

  /**
   * A built AST: `nodes[h - 1]` and `succ[h - 1]` hold the attributes and the
   * ordered successors of handle `h`.
   */
  datatype Ast = Ast(nodes: seq<Attrs>, succ: seq<seq<int>>, root: nat)

  /** The abstract value a store lays out: a node's attributes and its children, in edge order. */
  datatype Tree = Tree(attrs: Attrs, kids: seq<Tree>)

  /** The handles lo, lo + 1, ..., hi - 1. */
  function Range(lo: nat, hi: nat): (r: seq<int>)
    requires lo <= hi
    ensures |r| == hi - lo
    ensures forall i :: 0 <= i < |r| ==> r[i] == lo + i
  {
    seq(hi - lo, i requires 0 <= i < hi - lo => lo + i)
  }

  lemma RangeConcat(lo: nat, mid: nat, hi: nat)
    requires lo <= mid <= hi
    ensures Range(lo, mid) + Range(mid, hi) == Range(lo, hi)
  {
  }

  function Size(t: Tree): (n: nat)
    ensures n >= 1
  {
    1 + SizeList(t.kids)
  }

  function SizeList(ts: seq<Tree>): nat {
    if ts == [] then 0 else Size(ts[0]) + SizeList(ts[1..])
  }

  /** The attributes of the nodes of `t`, in preorder: the order the builder allocates handles. */
  function Nodes(t: Tree): seq<Attrs> {
    [t.attrs] + NodesList(t.kids)
  }

  function NodesList(ts: seq<Tree>): seq<Attrs> {
    if ts == [] then [] else Nodes(ts[0]) + NodesList(ts[1..])
  }

  /** The handles of the roots of `ts` when they are laid out one after another after handle `base`. */
  function Roots(ts: seq<Tree>, base: nat): seq<int> {
    if ts == [] then [] else [base + 1] + Roots(ts[1..], base + Size(ts[0]))
  }

  /** The successor lists of the nodes of `t`, in preorder, when `t` gets handle `base + 1`. */
  function Succs(t: Tree, base: nat): seq<seq<int>> {
    [Roots(t.kids, base + 1)] + SuccsList(t.kids, base + 1)
  }

  function SuccsList(ts: seq<Tree>, base: nat): seq<seq<int>> {
    if ts == [] then [] else Succs(ts[0], base) + SuccsList(ts[1..], base + Size(ts[0]))
  }

  /** The store that holds `t` alone, with its root at handle 1. */
  function AstOf(t: Tree): Ast {
    Ast(Nodes(t), Succs(t, 0), 1)
  }

  /** Handle `h` names a node of `ast`. */
  predicate IsHandle(ast: Ast, h: int) {
    1 <= h <= |ast.nodes|
  }

  /**
   * Every edge of `succ` (the lists of handles base + 1, base + 2, ...) points
   * forward, to a handle no larger than `top`.
   */
  predicate Forward(succ: seq<seq<int>>, base: nat, top: nat) {
    forall i, c :: 0 <= i < |succ| && c in succ[i] ==> base + i + 1 < c <= top
  }

  /** The lists of `r`, one after the other. */
  function Flatten(r: seq<seq<int>>): seq<int> {
    if r == [] then [] else r[0] + Flatten(r[1..])
  }

  /**
   * The edges of `succ` make a rooted tree over the handles 1..n: the root,
   * handle 1, is nobody's child, and every other handle is the child of
   * exactly one node, exactly once.
   */
  predicate OneParent(succ: seq<seq<int>>, n: nat) {
    forall h :: 1 <= h <= n ==> multiset(Flatten(succ))[h] == if h == 1 then 0 else 1
  }

  /**
   * The invariants every built store keeps: one successor list per node, the
   * root at handle 1, every edge from a smaller to a larger handle (so the
   * store is acyclic), one parent for every node but the root, and a text on
   * every STRING node.
   */
  predicate Valid(ast: Ast) {
    && |ast.nodes| == |ast.succ|
    && ast.root == 1 && |ast.nodes| >= 1
    && Forward(ast.succ, 0, |ast.nodes|)
    && OneParent(ast.succ, |ast.nodes|)
    && forall i :: 0 <= i < |ast.nodes| && ast.nodes[i].kind == STRING ==> ast.nodes[i].text.Some?
  }

  /** Every STRING node of the tree carries a text. */
  predicate TextsPresent(t: Tree) {
    && (t.attrs.kind == STRING ==> t.attrs.text.Some?)
    && forall i :: 0 <= i < |t.kids| ==> TextsPresent(t.kids[i])
  }

  // ---------------------------------------------------------------------------
  // Lengths and concatenation

  lemma {:induction false} NodesLength(t: Tree)
    ensures |Nodes(t)| == Size(t)
  {
    NodesListLength(t.kids);
  }

  lemma {:induction false} NodesListLength(ts: seq<Tree>)
    ensures |NodesList(ts)| == SizeList(ts)
  {
    if ts != [] {
      NodesLength(ts[0]);
      NodesListLength(ts[1..]);
    }
  }

  lemma {:induction false} SuccsLength(t: Tree, base: nat)
    ensures |Succs(t, base)| == Size(t)
  {
    SuccsListLength(t.kids, base + 1);
  }

  lemma {:induction false} SuccsListLength(ts: seq<Tree>, base: nat)
    ensures |SuccsList(ts, base)| == SizeList(ts)
  {
    if ts != [] {
      SuccsLength(ts[0], base);
      SuccsListLength(ts[1..], base + Size(ts[0]));
    }
  }

  lemma {:induction false} RootsLength(ts: seq<Tree>, base: nat)
    ensures |Roots(ts, base)| == |ts|
  {
    if ts != [] {
      RootsLength(ts[1..], base + Size(ts[0]));
    }
  }

  lemma {:induction false} SizeListAppend(a: seq<Tree>, b: seq<Tree>)
    ensures SizeList(a + b) == SizeList(a) + SizeList(b)
  {
    if a != [] {
      assert (a + b)[1..] == a[1..] + b;
      SizeListAppend(a[1..], b);
    } else {
      assert a + b == b;
    }
  }

  lemma {:induction false} NodesListAppend(a: seq<Tree>, b: seq<Tree>)
    ensures NodesList(a + b) == NodesList(a) + NodesList(b)
  {
    if a != [] {
      assert (a + b)[1..] == a[1..] + b;
      NodesListAppend(a[1..], b);
    } else {
      assert a + b == b;
    }
  }

  lemma {:induction false} SuccsListAppend(a: seq<Tree>, b: seq<Tree>, base: nat)
    ensures SuccsList(a + b, base) == SuccsList(a, base) + SuccsList(b, base + SizeList(a))
  {
    if a != [] {
      var rest, mid := a[1..], base + Size(a[0]);
      var top := mid + SizeList(rest);
      assert (a + b)[0] == a[0] && (a + b)[1..] == rest + b;
      SuccsListAppend(rest, b, mid);
      var x, y, z := Succs(a[0], base), SuccsList(rest, mid), SuccsList(b, top);
      assert SuccsList(a + b, base) == x + (y + z);
      assert SuccsList(a, base) == x + y;
      assert base + SizeList(a) == top;
      assert x + (y + z) == (x + y) + z;
    } else {
      assert a + b == b;
    }
  }

  lemma {:induction false} RootsAppend(a: seq<Tree>, b: seq<Tree>, base: nat)
    ensures Roots(a + b, base) == Roots(a, base) + Roots(b, base + SizeList(a))
  {
    if a != [] {
      assert (a + b)[1..] == a[1..] + b;
      RootsAppend(a[1..], b, base + Size(a[0]));
    } else {
      assert a + b == b;
    }
  }

  /** `RootsAppend` and `SuccsListAppend` with the handle offset of the second run named `mid`. */
  lemma LayoutSplit(a: seq<Tree>, b: seq<Tree>, base: nat, mid: nat)
    requires mid == base + SizeList(a)
    ensures Roots(a + b, base) == Roots(a, base) + Roots(b, mid)
    ensures SuccsList(a + b, base) == SuccsList(a, base) + SuccsList(b, mid)
  {
    RootsAppend(a, b, base);
    SuccsListAppend(a, b, base);
  }

  /** One more tree after a run of trees: its root is the next free handle. */
  lemma RootsSnoc(ts: seq<Tree>, t: Tree, base: nat)
    ensures Roots(ts + [t], base) == Roots(ts, base) + [base + SizeList(ts) + 1]
  {
    RootsAppend(ts, [t], base);
    assert Roots([t], base + SizeList(ts)) == [base + SizeList(ts) + 1];
  }

  lemma SuccsListSnoc(ts: seq<Tree>, t: Tree, base: nat)
    ensures SuccsList(ts + [t], base) == SuccsList(ts, base) + Succs(t, base + SizeList(ts))
  {
    SuccsListAppend(ts, [t], base);
    assert SuccsList([t], base + SizeList(ts)) == Succs(t, base + SizeList(ts)) + [];
  }

  // ---------------------------------------------------------------------------
  // Handle allocation

  /** The roots of consecutive trees get increasing handles inside the range the trees occupy. */
  lemma {:induction false} RootsBounds(ts: seq<Tree>, base: nat)
    ensures forall c :: c in Roots(ts, base) ==> base < c <= base + SizeList(ts)
  {
    if ts != [] {
      RootsBounds(ts[1..], base + Size(ts[0]));
    }
  }

  /** Inside a laid-out tree every edge goes from a handle to a larger handle of the same tree. */
  lemma {:induction false} SuccsForward(t: Tree, base: nat)
    ensures Forward(Succs(t, base), base, base + Size(t))
  {
    RootsBounds(t.kids, base + 1);
    SuccsListForward(t.kids, base + 1);
    var s := Succs(t, base);
    forall i, c | 0 <= i < |s| && c in s[i]
      ensures base + i + 1 < c <= base + Size(t)
    {
      if i > 0 {
        assert s[i] == SuccsList(t.kids, base + 1)[i - 1];
      }
    }
  }

  lemma {:induction false} SuccsListForward(ts: seq<Tree>, base: nat)
    ensures Forward(SuccsList(ts, base), base, base + SizeList(ts))
  {
    if ts != [] {
      SuccsForward(ts[0], base);
      SuccsListForward(ts[1..], base + Size(ts[0]));
      SuccsLength(ts[0], base);
      var a: seq<seq<int>> := Succs(ts[0], base);
      var b: seq<seq<int>> := SuccsList(ts[1..], base + Size(ts[0]));
      assert SuccsList(ts, base) == a + b;
      forall i, c | 0 <= i < |a + b| && c in (a + b)[i]
        ensures base + i + 1 < c <= base + SizeList(ts)
      {
        if i >= |a| {
          assert (a + b)[i] == b[i - |a|];
        } else {
          assert (a + b)[i] == a[i];
        }
      }
    }
  }

  // ---------------------------------------------------------------------------
  // One parent per node

  lemma {:induction false} FlattenAppend(a: seq<seq<int>>, b: seq<seq<int>>)
    ensures Flatten(a + b) == Flatten(a) + Flatten(b)
  {
    if a == [] {
      assert a + b == b;
    } else {
      assert (a + b)[1..] == a[1..] + b;
      FlattenAppend(a[1..], b);
    }
  }

  /**
   * The edges of a tree laid out after handle `base` enter every handle of
   * the tree but its root once, and no other handle: the targets of all its
   * edges are base + 2 .. base + Size(t), each once.
   */
  lemma {:induction false} SuccsTargets(t: Tree, base: nat)
    ensures forall h :: multiset(Flatten(Succs(t, base)))[h] == if base + 2 <= h <= base + Size(t) then 1 else 0
  {
    var s := Succs(t, base);
    var roots, below := Roots(t.kids, base + 1), SuccsList(t.kids, base + 1);
    assert s == [roots] + below;
    assert s[1..] == below;
    assert Flatten(s) == roots + Flatten(below);
    SuccsListTargets(t.kids, base + 1);
  }

  /**
   * The roots of consecutive trees together with the targets of their edges
   * are the handles the trees occupy, each once.
   */
  lemma {:induction false} SuccsListTargets(ts: seq<Tree>, base: nat)
    ensures forall h :: multiset(Roots(ts, base))[h] + multiset(Flatten(SuccsList(ts, base)))[h]
                        == if base + 1 <= h <= base + SizeList(ts) then 1 else 0
  {
    if ts != [] {
      var mid := base + Size(ts[0]);
      var first, rest := Succs(ts[0], base), SuccsList(ts[1..], mid);
      var restRoots := Roots(ts[1..], mid);
      assert Roots(ts, base) == [base + 1] + restRoots;
      assert SuccsList(ts, base) == first + rest;
      FlattenAppend(first, rest);
      SuccsTargets(ts[0], base);
      SuccsListTargets(ts[1..], mid);
      assert base + SizeList(ts) == mid + SizeList(ts[1..]);
    }
  }

  /** In the store of a tree, handle 1 has no parent and every other handle has exactly one. */
  lemma AstOfOneParent(t: Tree)
    ensures OneParent(Succs(t, 0), Size(t))
  {
    SuccsTargets(t, 0);
  }

  lemma {:induction false} NodesTexts(t: Tree)
    requires TextsPresent(t)
    ensures forall i :: 0 <= i < |Nodes(t)| && Nodes(t)[i].kind == STRING ==> Nodes(t)[i].text.Some?
  {
    NodesListTexts(t.kids);
  }

  lemma {:induction false} NodesListTexts(ts: seq<Tree>)
    requires forall j :: 0 <= j < |ts| ==> TextsPresent(ts[j])
    ensures forall i :: 0 <= i < |NodesList(ts)| && NodesList(ts)[i].kind == STRING ==> NodesList(ts)[i].text.Some?
  {
    if ts != [] {
      NodesTexts(ts[0]);
      NodesListTexts(ts[1..]);
    }
  }

  /**
   * The store of a tree is valid: handles are exactly 1..N with the root at 1,
   * every edge goes from a parent to a larger handle, so a parent's handle is
   * smaller than every handle below it, and every node but the root has
   * exactly one parent.
   */
  lemma AstOfValid(t: Tree)
    requires TextsPresent(t)
    ensures |AstOf(t).nodes| == Size(t)
    ensures Valid(AstOf(t))
  {
    NodesLength(t);
    SuccsLength(t, 0);
    SuccsForward(t, 0);
    AstOfOneParent(t);
    NodesTexts(t);
  }
}
