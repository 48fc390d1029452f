/**
 * The read-only queries of an AST (aibolit/utils/ast.py:152-256): attribute
 * lookup, filters over a node's successors, the positional decoders of
 * STRING children, and the views built on the depth-first traversal of the
 * store.
 */
module Queries {
  import opened Wrappers
  import opened Taxonomy
  import opened Arena

  // ---------------------------------------------------------------------------
  // Attributes

  /** A value stored in a node's attribute dictionary. */
  datatype Value = KindValue(kind: Kind) | LineValue(line: int) | TextValue(text: string)

  /**
   * The attribute dictionary of a node: `type` always, `source_code_line` and
   * `string` only when the node has them.
   */
  function AttrMap(a: Attrs): (m: map<string, Value>)
    ensures "type" in m && m["type"] == KindValue(a.kind)
    ensures "source_code_line" in m <==> a.line.Some?
    ensures a.line.Some? ==> m["source_code_line"] == LineValue(a.line.value)
    ensures "string" in m <==> a.text.Some?
    ensures a.text.Some? ==> m["string"] == TextValue(a.text.value)
    ensures forall key :: key in m ==> key == "type" || key == "source_code_line" || key == "string"
  {
    var m0 := map["type" := KindValue(a.kind)];
    var m1 := if a.line.Some? then m0["source_code_line" := LineValue(a.line.value)] else m0;
    if a.text.Some? then m1["string" := TextValue(a.text.value)] else m1
  }

  /** `get_attr`: the attribute `name` of node `h`, or the caller's `default` when the node has none. */
  function GetAttr(ast: Ast, h: int, name: string, default: Option<Value>): (r: Option<Value>)
    requires IsHandle(ast, h)
    ensures name !in AttrMap(ast.nodes[h - 1]) ==> r == default
    ensures name in AttrMap(ast.nodes[h - 1]) ==> r == Some(AttrMap(ast.nodes[h - 1])[name])
  {
    var m := AttrMap(ast.nodes[h - 1]);
    if name in m then Some(m[name]) else default
  }

  /** `get_type`: the kind of node `h`, which is its `type` attribute. */
  function GetType(ast: Ast, h: int): (k: Kind)
    requires IsHandle(ast, h)
    ensures GetAttr(ast, h, "type", None) == Some(KindValue(k))
  {
    ast.nodes[h - 1].kind
  }

  /** The text of a STRING node, which every valid store carries. */
  function TextOf(ast: Ast, h: int): (s: string)
    requires Valid(ast) && IsHandle(ast, h) && GetType(ast, h) == STRING
    ensures GetAttr(ast, h, "string", None) == Some(TextValue(s))
  {
    ast.nodes[h - 1].text.value
  }

  /** The `source_code_line` of node `h`, with -1 standing for a node that has none. */
  function LineOrMinusOne(ast: Ast, h: int): (l: int)
    requires IsHandle(ast, h)
    ensures GetAttr(ast, h, "source_code_line", Some(LineValue(-1))) == Some(LineValue(l))
    ensures ast.nodes[h - 1].line.None? ==> l == -1
  {
    match ast.nodes[h - 1].line
    case Some(l) => l
    case None => -1
  }

  // ---------------------------------------------------------------------------
  // Successors and filters

  predicate HandlesIn(ast: Ast, cs: seq<int>) {
    forall c :: c in cs ==> IsHandle(ast, c)
  }

  predicate Increasing(cs: seq<int>) {
    forall i, j :: 0 <= i < j < |cs| ==> cs[i] < cs[j]
  }

  /** The successors of `h`, in the order their edges were added. */
  function Succ(ast: Ast, h: int): (cs: seq<int>)
    requires Valid(ast) && IsHandle(ast, h)
    ensures HandlesIn(ast, cs)
    ensures forall c :: c in cs ==> h < c
  {
    ast.succ[h - 1]
  }

  /** The members of `cs` of kind `k`, in their order in `cs`. */
  function FilterKind(ast: Ast, cs: seq<int>, k: Kind): (r: seq<int>)
    requires HandlesIn(ast, cs)
    ensures forall x :: x in r <==> x in cs && GetType(ast, x) == k
    ensures |r| <= |cs|
  {
    if cs == [] then []
    else
      assert cs == [cs[0]] + cs[1..];
      (if GetType(ast, cs[0]) == k then [cs[0]] else []) + FilterKind(ast, cs[1..], k)
  }

  /** Filtering an ascending sequence leaves it ascending. */
  lemma {:induction false} FilterKindIncreasing(ast: Ast, cs: seq<int>, k: Kind)
    requires HandlesIn(ast, cs) && Increasing(cs)
    ensures Increasing(FilterKind(ast, cs, k))
  {
    if cs != [] {
      var rest := FilterKind(ast, cs[1..], k);
      FilterKindIncreasing(ast, cs[1..], k);
      forall x | x in rest
        ensures cs[0] < x
      {
        var j :| 0 <= j < |cs[1..]| && cs[1..][j] == x;
        assert cs[j + 1] == x;
      }
      var r := FilterKind(ast, cs, k);
      if GetType(ast, cs[0]) == k {
        forall i, j | 0 <= i < j < |r|
          ensures r[i] < r[j]
        {
          assert r[j] == rest[j - 1];
          if i > 0 {
            assert r[i] == rest[i - 1];
          } else {
            assert rest[j - 1] in rest;
          }
        }
      }
    }
  }

  /** Filtering a concatenation filters each part in turn: the filter keeps the order of `cs`. */
  lemma {:induction false} FilterKindAppend(ast: Ast, a: seq<int>, b: seq<int>, k: Kind)
    requires HandlesIn(ast, a) && HandlesIn(ast, b)
    ensures HandlesIn(ast, a + b)
    ensures FilterKind(ast, a + b, k) == FilterKind(ast, a, k) + FilterKind(ast, b, k)
  {
    if a == [] {
      assert a + b == b;
    } else {
      assert (a + b)[1..] == a[1..] + b;
      FilterKindAppend(ast, a[1..], b, k);
    }
  }

  /** `children_with_type`: the immediate children of `h` of kind `k`, in child order. */
  function ChildrenWithType(ast: Ast, h: int, k: Kind): (r: seq<int>)
    requires Valid(ast) && IsHandle(ast, h)
    ensures HandlesIn(ast, r)
    ensures forall c :: c in r <==> c in Succ(ast, h) && GetType(ast, c) == k
    ensures r == [] <==> forall c :: c in Succ(ast, h) ==> GetType(ast, c) != k
  {
    var r := FilterKind(ast, Succ(ast, h), k);
    assert r != [] ==> r[0] in r && r[0] in Succ(ast, h) && GetType(ast, r[0]) == k;
    assert r == [] ==> forall c :: c in Succ(ast, h) ==> GetType(ast, c) != k by {
      if r == [] {
        forall c | c in Succ(ast, h)
          ensures GetType(ast, c) != k
        {
          assert c !in r;
        }
      }
    }
    r
  }

  /**
   * `all_children_with_type`: walks the successors the way the source loop
   * does, one child after the other; the generator the loop creates for each
   * match is never consumed, so it contributes nothing.
   */
  function AllChildrenWithType(ast: Ast, h: int, k: Kind): (r: seq<int>)
    requires Valid(ast) && IsHandle(ast, h)
    ensures r == ChildrenWithType(ast, h, k)
  {
    WalkChildren(ast, Succ(ast, h), k)
  }

  function WalkChildren(ast: Ast, cs: seq<int>, k: Kind): (r: seq<int>)
    requires HandlesIn(ast, cs)
    ensures r == FilterKind(ast, cs, k)
  {
    if cs == [] then []
    else
      var init, last := cs[..|cs| - 1], cs[|cs| - 1];
      assert cs == init + [last];
      FilterKindAppend(ast, init, [last], k);
      WalkChildren(ast, init, k) + (if GetType(ast, last) == k then [last] else [])
  }

  /** The errors a query raises. */
  datatype QueryError =
    | AssertionFailed              // an `assert` on the node kind fails
    | NotEnoughValues              // unpacking one value from an empty iterator
    | IndexOutOfRange              // indexing an empty list
    | NegativeStop                 // `islice` with a negative stop
    | StringCount(values: seq<string>) // the `ValueError` listing the STRING values

  /**
   * The first `q` members of `m`, continued by `None` as far as needed: the
   * prefix of length `q` of `m` followed by an endless run of `None`.
   */
  function PadTake(m: seq<int>, q: nat): (r: seq<Option<int>>)
    ensures |r| == q
    ensures forall i :: 0 <= i < q ==> r[i] == if i < |m| then Some(m[i]) else None
  {
    if q == 0 then []
    else if m == [] then [None] + PadTake([], q - 1)
    else [Some(m[0])] + PadTake(m[1..], q - 1)
  }

  /** `get_first_n_children_with_type`: the first `quantity` matching children, padded with `None`. */
  function GetFirstNChildrenWithType(ast: Ast, h: int, k: Kind, quantity: int): (r: Result<seq<Option<int>>, QueryError>)
    requires Valid(ast) && IsHandle(ast, h)
    ensures r.Failure? <==> quantity < 0
    ensures r.Failure? ==> r.error == NegativeStop
    ensures r.Success? ==> |r.value| == quantity
    ensures r.Success? ==> forall i :: 0 <= i < quantity ==>
      r.value[i] == if i < |ChildrenWithType(ast, h, k)| then Some(ChildrenWithType(ast, h, k)[i]) else None
  {
    if quantity < 0 then Failure(NegativeStop)
    else Success(PadTake(ChildrenWithType(ast, h, k), quantity))
  }

  // ---------------------------------------------------------------------------
  // Positional decoders

  /** The texts of the STRING children of `h`, in child order. */
  function StringParams(ast: Ast, h: int): (ps: seq<string>)
    requires Valid(ast) && IsHandle(ast, h)
    ensures |ps| == |ChildrenWithType(ast, h, STRING)|
    ensures forall i :: 0 <= i < |ps| ==>
      GetAttr(ast, ChildrenWithType(ast, h, STRING)[i], "string", None) == Some(TextValue(ps[i]))
  {
    var m := ChildrenWithType(ast, h, STRING);
    seq(|m|, i requires 0 <= i < |m| => TextOf(ast, m[i]))
  }

  /** `get_binary_operation_name`: the text of the first STRING child of a BINARY_OPERATION node. */
  function GetBinaryOperationName(ast: Ast, h: int): (r: Result<string, QueryError>)
    requires Valid(ast) && IsHandle(ast, h)
    ensures GetType(ast, h) != BINARY_OPERATION ==> r == Failure(AssertionFailed)
    ensures r.Success? <==> GetType(ast, h) == BINARY_OPERATION && StringParams(ast, h) != []
    ensures r.Success? ==> r.value == StringParams(ast, h)[0]
  {
    if GetType(ast, h) != BINARY_OPERATION then Failure(AssertionFailed)
    else
      var m := ChildrenWithType(ast, h, STRING);
      if m == [] then Failure(NotEnoughValues) else Success(TextOf(ast, m[0]))
  }

  datatype MethodInvocationParams = MethodInvocationParams(objectName: string, methodName: string)

  /** The STRING texts a method invocation node carries: the object name, when there is one, then the method name. */
  function EncodeMethodInvocation(p: MethodInvocationParams): (ps: seq<string>)
    ensures 1 <= |ps| <= 2
  {
    if p.objectName == "" then [p.methodName] else [p.objectName, p.methodName]
  }

  /**
   * The decision of `get_method_invocation_params` on the STRING texts: one
   * text is the method name, and otherwise the first two are the object and
   * the method name; with none, indexing the empty list fails.
   */
  function DecodeMethodInvocation(ps: seq<string>): (r: Result<MethodInvocationParams, QueryError>)
    ensures r.Success? <==> ps != []
    ensures r.Failure? ==> r.error == IndexOutOfRange
    ensures r.Success? ==> r.value.methodName == ps[if |ps| == 1 then 0 else 1]
    ensures r.Success? ==> r.value.objectName == if |ps| == 1 then "" else ps[0]
  {
    if |ps| == 0 then Failure(IndexOutOfRange)
    else if |ps| == 1 then Success(MethodInvocationParams("", ps[0]))
    else Success(MethodInvocationParams(ps[0], ps[1]))
  }

  lemma MethodInvocationRoundTrip(p: MethodInvocationParams)
    ensures DecodeMethodInvocation(EncodeMethodInvocation(p)) == Success(p)
  {
  }

  /** Texts after the first two do not change the decoded names. */
  lemma MethodInvocationIgnoresExtra(ps: seq<string>, extra: seq<string>)
    requires |ps| >= 2
    ensures DecodeMethodInvocation(ps + extra) == DecodeMethodInvocation(ps)
  {
    assert (ps + extra)[0] == ps[0] && (ps + extra)[1] == ps[1];
  }

  /** `get_method_invocation_params`: checks the node kind, then decodes its STRING children. */
  function GetMethodInvocationParams(ast: Ast, h: int): (r: Result<MethodInvocationParams, QueryError>)
    requires Valid(ast) && IsHandle(ast, h)
    ensures GetType(ast, h) != METHOD_INVOCATION ==> r == Failure(AssertionFailed)
    ensures GetType(ast, h) == METHOD_INVOCATION ==> r == DecodeMethodInvocation(StringParams(ast, h))
  {
    if GetType(ast, h) != METHOD_INVOCATION then Failure(AssertionFailed)
    else DecodeMethodInvocation(StringParams(ast, h))
  }

  datatype MemberReferenceParams = MemberReferenceParams(objectName: string, memberName: string, unaryOperator: string)

  /** The STRING texts a member reference node carries: the operator, the object name, the member name, each when present. */
  function EncodeMemberReference(p: MemberReferenceParams): (ps: seq<string>)
    ensures 1 <= |ps| <= 3
  {
    if p.unaryOperator != "" then [p.unaryOperator, p.objectName, p.memberName]
    else if p.objectName != "" then [p.objectName, p.memberName]
    else [p.memberName]
  }

  /**
   * The decision of `get_member_reference_params` on the STRING texts: one,
   * two or three texts, read by position; any other count is an error that
   * lists the texts.
   */
  function DecodeMemberReference(ps: seq<string>): (r: Result<MemberReferenceParams, QueryError>)
    ensures r.Success? <==> 1 <= |ps| <= 3
    ensures r.Failure? ==> r.error == StringCount(ps)
    ensures r.Success? ==> r.value.memberName == ps[|ps| - 1]
    ensures r.Success? && |ps| < 3 ==> r.value.unaryOperator == ""
    ensures r.Success? ==> r.value.objectName == if |ps| == 1 then "" else ps[|ps| - 2]
    ensures r.Success? && |ps| == 3 ==> r.value.unaryOperator == ps[0]
  {
    if |ps| == 1 then Success(MemberReferenceParams("", ps[0], ""))
    else if |ps| == 2 then Success(MemberReferenceParams(ps[0], ps[1], ""))
    else if |ps| == 3 then Success(MemberReferenceParams(ps[1], ps[2], ps[0]))
    else Failure(StringCount(ps))
  }

  lemma MemberReferenceRoundTrip(p: MemberReferenceParams)
    ensures DecodeMemberReference(EncodeMemberReference(p)) == Success(p)
  {
  }

  /** `get_member_reference_params`: checks the node kind, then decodes its STRING children. */
  function GetMemberReferenceParams(ast: Ast, h: int): (r: Result<MemberReferenceParams, QueryError>)
    requires Valid(ast) && IsHandle(ast, h)
    ensures GetType(ast, h) != MEMBER_REFERENCE ==> r == Failure(AssertionFailed)
    ensures GetType(ast, h) == MEMBER_REFERENCE ==> r == DecodeMemberReference(StringParams(ast, h))
  {
    if GetType(ast, h) != MEMBER_REFERENCE then Failure(AssertionFailed)
    else DecodeMemberReference(StringParams(ast, h))
  }

  // ---------------------------------------------------------------------------
  // Line lookup

  /**
   * `get_line_number_from_children`: the line of the first immediate child
   * that has a non-negative `source_code_line`, or 0 when no child has one.
   */
  method GetLineNumberFromChildren(ast: Ast, h: int) returns (line: int)
    requires Valid(ast) && IsHandle(ast, h)
    ensures line >= 0
    ensures (exists i :: 0 <= i < |Succ(ast, h)| && FirstLineAt(ast, Succ(ast, h), i) && line == LineOrMinusOne(ast, Succ(ast, h)[i]))
         || (line == 0 && forall c :: c in Succ(ast, h) ==> LineOrMinusOne(ast, c) < 0)
  {
    var cs := Succ(ast, h);
    for i := 0 to |cs|
      invariant forall j :: 0 <= j < i ==> LineOrMinusOne(ast, cs[j]) < 0
    {
      var curLine := LineOrMinusOne(ast, cs[i]);
      if curLine >= 0 {
        assert FirstLineAt(ast, cs, i);
        return curLine;
      }
    }
    forall c | c in cs
      ensures LineOrMinusOne(ast, c) < 0
    {
      var j :| 0 <= j < |cs| && cs[j] == c;
    }
    return 0;
  }

  /** Child `i` is the first of `cs` with a non-negative line. */
  predicate FirstLineAt(ast: Ast, cs: seq<int>, i: int)
    requires HandlesIn(ast, cs) && 0 <= i < |cs|
  {
    && LineOrMinusOne(ast, cs[i]) >= 0
    && forall j :: 0 <= j < i ==> LineOrMinusOne(ast, cs[j]) < 0
  }

  // ---------------------------------------------------------------------------
  // Depth-first traversal

  /** One event of a depth-first traversal: entering a node, or leaving it. */
  datatype DfsEdge = ForwardEdge(dest: int) | ReverseEdge(dest: int)

  /**
   * The labelled depth-first traversal from `h`: a forward event on entering
   * `h`, the traversals of its successors in edge order, and a reverse event
   * on leaving `h`.
   */
  function DfsLabeledEdges(ast: Ast, h: int): (es: seq<DfsEdge>)
    requires Valid(ast) && IsHandle(ast, h)
    ensures forall e :: e in es ==> IsHandle(ast, e.dest)
    decreases |ast.nodes| + 1 - h, 1
  {
    [ForwardEdge(h)] + DfsEdgesBelow(ast, Succ(ast, h), h) + [ReverseEdge(h)]
  }

  function DfsEdgesBelow(ast: Ast, cs: seq<int>, parent: int): (es: seq<DfsEdge>)
    requires Valid(ast) && IsHandle(ast, parent)
    requires forall c :: c in cs ==> parent < c <= |ast.nodes|
    ensures forall e :: e in es ==> IsHandle(ast, e.dest)
    decreases |ast.nodes| + 1 - parent, 0, |cs|
  {
    if cs == [] then []
    else
      assert cs[0] in cs;
      assert forall c :: c in cs[1..] ==> c in cs;
      DfsLabeledEdges(ast, cs[0]) + DfsEdgesBelow(ast, cs[1..], parent)
  }

  /** The nodes a traversal enters, in order. */
  function Entered(es: seq<DfsEdge>): (hs: seq<int>)
    ensures forall x :: x in hs ==> ForwardEdge(x) in es
  {
    if es == [] then []
    else (if es[0].ForwardEdge? then [es[0].dest] else []) + Entered(es[1..])
  }

  lemma {:induction false} EnteredAppend(a: seq<DfsEdge>, b: seq<DfsEdge>)
    ensures Entered(a + b) == Entered(a) + Entered(b)
  {
    if a == [] {
      assert a + b == b;
    } else {
      assert (a + b)[1..] == a[1..] + b;
      EnteredAppend(a[1..], b);
    }
  }

  /** `dfs_preorder_nodes`: the nodes of the subtree of `h` in preorder. */
  function Preorder(ast: Ast, h: int): (hs: seq<int>)
    requires Valid(ast) && IsHandle(ast, h)
    ensures HandlesIn(ast, hs)
  {
    Entered(DfsLabeledEdges(ast, h))
  }

  /** `node_types`: the kinds of the nodes in preorder from the root. */
  function NodeTypes(ast: Ast): (ks: seq<Kind>)
    requires Valid(ast)
    ensures |ks| == |Preorder(ast, ast.root)|
  {
    var p := Preorder(ast, ast.root);
    seq(|p|, i requires 0 <= i < |p| => GetType(ast, p[i]))
  }

  /** `nodes_by_type`: the handles of kind `k`, in the order the nodes were added. */
  function NodesByType(ast: Ast, k: Kind): (hs: seq<int>)
    ensures forall h :: h in hs <==> IsHandle(ast, h) && GetType(ast, h) == k
    ensures Increasing(hs)
  {
    var all := Range(1, |ast.nodes| + 1);
    assert forall h :: 1 <= h <= |ast.nodes| ==> h in all by {
      forall h | 1 <= h <= |ast.nodes|
        ensures h in all
      {
        assert all[h - 1] == h;
      }
    }
    FilterKindIncreasing(ast, all, k);
    FilterKind(ast, all, k)
  }

  // ---------------------------------------------------------------------------
  // The traversal of a laid-out tree

  /** The traversal a tree laid out after handle `b` produces. */
  function TreeEdges(s: Tree, b: nat): seq<DfsEdge>
    decreases s, 1
  {
    [ForwardEdge(b + 1)] + TreeEdgesList(s.kids, b + 1) + [ReverseEdge(b + 1)]
  }

  function TreeEdgesList(ts: seq<Tree>, b: nat): seq<DfsEdge>
    decreases ts, 0
  {
    if ts == [] then [] else TreeEdges(ts[0], b) + TreeEdgesList(ts[1..], b + Size(ts[0]))
  }

  /** Tree `s` occupies the handles b + 1 .. b + Size(s) of the store. */
  predicate Laid(ast: Ast, s: Tree, b: nat) {
    && |ast.succ| == |ast.nodes|
    && b + Size(s) <= |ast.nodes|
    && ast.nodes[b..b + Size(s)] == Nodes(s)
    && ast.succ[b..b + Size(s)] == Succs(s, b)
  }

  predicate LaidList(ast: Ast, ts: seq<Tree>, b: nat) {
    && |ast.succ| == |ast.nodes|
    && b + SizeList(ts) <= |ast.nodes|
    && ast.nodes[b..b + SizeList(ts)] == NodesList(ts)
    && ast.succ[b..b + SizeList(ts)] == SuccsList(ts, b)
  }

  lemma SliceCons<T>(x: seq<T>, lo: nat, hi: nat, a: T, y: seq<T>)
    requires lo < hi <= |x| && x[lo..hi] == [a] + y
    ensures x[lo] == a && x[lo + 1..hi] == y
  {
    assert x[lo] == x[lo..hi][0];
    assert x[lo + 1..hi] == x[lo..hi][1..];
  }

  lemma SliceSplit<T>(x: seq<T>, lo: nat, mid: nat, hi: nat, a: seq<T>, y: seq<T>)
    requires lo <= mid <= hi <= |x| && x[lo..hi] == a + y && |a| == mid - lo
    ensures x[lo..mid] == a && x[mid..hi] == y
  {
    assert x[lo..mid] == x[lo..hi][..mid - lo];
    assert x[mid..hi] == x[lo..hi][mid - lo..];
  }

  /** A laid-out tree: its root record, its root's successors, and its children laid out after it. */
  lemma LaidKids(ast: Ast, s: Tree, b: nat)
    requires Laid(ast, s, b)
    ensures ast.nodes[b] == s.attrs
    ensures ast.succ[b] == Roots(s.kids, b + 1)
    ensures LaidList(ast, s.kids, b + 1)
  {
    NodesListLength(s.kids);
    SuccsListLength(s.kids, b + 1);
    SliceCons(ast.nodes, b, b + Size(s), s.attrs, NodesList(s.kids));
    SliceCons(ast.succ, b, b + Size(s), Roots(s.kids, b + 1), SuccsList(s.kids, b + 1));
  }

  lemma LaidCons(ast: Ast, ts: seq<Tree>, b: nat)
    requires ts != [] && LaidList(ast, ts, b)
    ensures Laid(ast, ts[0], b)
    ensures LaidList(ast, ts[1..], b + Size(ts[0]))
  {
    var mid := b + Size(ts[0]);
    NodesLength(ts[0]);
    SuccsLength(ts[0], b);
    SliceSplit(ast.nodes, b, mid, b + SizeList(ts), Nodes(ts[0]), NodesList(ts[1..]));
    SliceSplit(ast.succ, b, mid, b + SizeList(ts), Succs(ts[0], b), SuccsList(ts[1..], mid));
  }

  /** A whole built store lays out its tree from handle 1. */
  lemma LaidWhole(t: Tree)
    ensures Laid(AstOf(t), t, 0)
  {
    NodesLength(t);
    SuccsLength(t, 0);
    assert AstOf(t).nodes[0..Size(t)] == Nodes(t);
    assert AstOf(t).succ[0..Size(t)] == Succs(t, 0);
  }

  /** On a laid-out tree, the traversal of the store is the traversal of the tree. */
  lemma {:induction false} LaidEdges(ast: Ast, s: Tree, b: nat)
    requires Valid(ast) && Laid(ast, s, b)
    ensures IsHandle(ast, b + 1)
    ensures DfsLabeledEdges(ast, b + 1) == TreeEdges(s, b)
    decreases s, 1
  {
    LaidKids(ast, s, b);
    RootsBounds(s.kids, b + 1);
    LaidListEdges(ast, s.kids, b + 1, b + 1);
  }

  lemma {:induction false} LaidListEdges(ast: Ast, ts: seq<Tree>, b: nat, parent: int)
    requires Valid(ast) && LaidList(ast, ts, b) && 1 <= parent <= b
    ensures forall c :: c in Roots(ts, b) ==> parent < c <= |ast.nodes|
    ensures DfsEdgesBelow(ast, Roots(ts, b), parent) == TreeEdgesList(ts, b)
    decreases ts, 0
  {
    RootsBounds(ts, b);
    if ts != [] {
      var mid := b + Size(ts[0]);
      var cs := Roots(ts, b);
      LaidCons(ast, ts, b);
      LaidEdges(ast, ts[0], b);
      LaidListEdges(ast, ts[1..], mid, parent);
      assert cs[0] == b + 1;
      assert cs[1..] == Roots(ts[1..], mid);
      assert DfsEdgesBelow(ast, cs, parent)
          == DfsLabeledEdges(ast, b + 1) + DfsEdgesBelow(ast, Roots(ts[1..], mid), parent);
    }
  }

  lemma RangeCons(lo: nat, hi: nat)
    requires lo < hi
    ensures Range(lo, hi) == [lo] + Range(lo + 1, hi)
  {
  }

  lemma EnteredWrap(x: int, mid: seq<DfsEdge>)
    ensures Entered([ForwardEdge(x)] + mid + [ReverseEdge(x)]) == [x] + Entered(mid)
  {
    EnteredAppend([ForwardEdge(x)] + mid, [ReverseEdge(x)]);
    EnteredAppend([ForwardEdge(x)], mid);
    assert Entered([ReverseEdge(x)]) == [];
    assert Entered([ForwardEdge(x)]) == [x];
  }

  lemma EnteredJoin(x: seq<DfsEdge>, y: seq<DfsEdge>, hx: seq<int>, hy: seq<int>)
    requires Entered(x) == hx && Entered(y) == hy
    ensures Entered(x + y) == hx + hy
  {
    EnteredAppend(x, y);
  }

  /** A laid-out tree is entered in handle order: preorder is ascending handle order. */
  lemma {:induction false} EnteredTree(s: Tree, b: nat)
    ensures Entered(TreeEdges(s, b)) == Range(b + 1, b + 1 + Size(s))
    decreases s, 1
  {
    var hi := b + 1 + Size(s);
    assert hi == b + 2 + SizeList(s.kids);
    EnteredTreeList(s.kids, b + 1);
    EnteredWrap(b + 1, TreeEdgesList(s.kids, b + 1));
    RangeCons(b + 1, hi);
  }

  lemma {:induction false} EnteredTreeList(ts: seq<Tree>, b: nat)
    ensures Entered(TreeEdgesList(ts, b)) == Range(b + 1, b + 1 + SizeList(ts))
    decreases ts, 0
  {
    if ts != [] {
      var mid := b + Size(ts[0]);
      var hi := b + 1 + SizeList(ts);
      assert hi == mid + 1 + SizeList(ts[1..]);
      var first, rest := TreeEdges(ts[0], b), TreeEdgesList(ts[1..], mid);
      assert TreeEdgesList(ts, b) == first + rest;
      EnteredTree(ts[0], b);
      EnteredTreeList(ts[1..], mid);
      var lower, upper := Range(b + 1, mid + 1), Range(mid + 1, hi);
      EnteredJoin(first, rest, lower, upper);
      RangeConcat(b + 1, mid + 1, hi);
      assert Entered(TreeEdgesList(ts, b)) == lower + upper;
    } else {
      assert Range(b + 1, b + 1) == [];
    }
  }

  /** Every event of a laid-out tree's traversal names one of its handles. */
  lemma {:induction false} TreeEdgesBounds(s: Tree, b: nat)
    ensures forall e :: e in TreeEdges(s, b) ==> b < e.dest <= b + Size(s)
    decreases s, 1
  {
    TreeEdgesListBounds(s.kids, b + 1);
  }

  lemma {:induction false} TreeEdgesListBounds(ts: seq<Tree>, b: nat)
    ensures forall e :: e in TreeEdgesList(ts, b) ==> b < e.dest <= b + SizeList(ts)
    decreases ts, 0
  {
    if ts != [] {
      TreeEdgesBounds(ts[0], b);
      TreeEdgesListBounds(ts[1..], b + Size(ts[0]));
    }
  }

  /**
   * Handles are allocated in preorder: on a built store, `node_types` lists
   * the kinds of handles 1..N in order, one per node.
   */
  lemma NodeTypesInHandleOrder(t: Tree)
    requires TextsPresent(t)
    ensures Valid(AstOf(t))
    ensures Preorder(AstOf(t), 1) == Range(1, |AstOf(t).nodes| + 1)
    ensures |NodeTypes(AstOf(t))| == |AstOf(t).nodes|
    ensures forall i :: 0 <= i < |AstOf(t).nodes| ==> NodeTypes(AstOf(t))[i] == AstOf(t).nodes[i].kind
  {
    AstOfValid(t);
    LaidWhole(t);
    LaidEdges(AstOf(t), t, 0);
    EnteredTree(t, 0);
  }

  // ---------------------------------------------------------------------------
  // Subtrees with a given root kind

  /**
   * The state of the scan in `subtrees_with_root_type`: whether it is inside
   * a subtree, the root of the current (or last) subtree, the subtree listed
   * so far and the subtrees already yielded.
   */
  datatype Scan = Scan(inside: bool, root: int, subtree: seq<int>, found: seq<seq<int>>)

  /** The scan before the first event; -1 is no handle, since handles are positive. */
  const Init: Scan := Scan(false, -1, [], [])

  predicate EdgesIn(ast: Ast, es: seq<DfsEdge>) {
    forall e :: e in es ==> IsHandle(ast, e.dest)
  }

  /** The scan's response to one traversal event. */
  function Step(ast: Ast, k: Kind, st: Scan, e: DfsEdge): Scan
    requires IsHandle(ast, e.dest)
  {
    match e
    case ForwardEdge(d) =>
      if st.inside then st.(subtree := st.subtree + [d])
      else if GetType(ast, d) == k then Scan(true, d, st.subtree + [d], st.found)
      else st
    case ReverseEdge(d) =>
      if d == st.root then Scan(false, st.root, [], st.found + [st.subtree]) else st
  }

  /** The scan after the events `es`, one after the other. */
  function Run(ast: Ast, k: Kind, st: Scan, es: seq<DfsEdge>): Scan
    requires EdgesIn(ast, es)
    decreases |es|
  {
    if es == [] then st
    else
      assert es[|es| - 1] in es;
      assert forall e :: e in es[..|es| - 1] ==> e in es;
      Step(ast, k, Run(ast, k, st, es[..|es| - 1]), es[|es| - 1])
  }

  /** The subtrees the scan yields over the traversal from the root. */
  function Subtrees(ast: Ast, k: Kind): seq<seq<int>>
    requires Valid(ast)
  {
    Run(ast, k, Init, DfsLabeledEdges(ast, ast.root)).found
  }

  /**
   * `subtrees_with_root_type`: scans the depth-first events; a forward event
   * on a node of kind `rootType` outside any subtree opens one, every node
   * entered inside it is appended, and the reverse event of its root closes
   * and yields it.
   */
  method SubtreesWithRootType(ast: Ast, rootType: Kind) returns (subtrees: seq<seq<int>>)
    requires Valid(ast)
    ensures subtrees == Subtrees(ast, rootType)
  {
    var edges := DfsLabeledEdges(ast, ast.root);
    var isInsideSubtree := false;
    var currentSubtreeRoot := -1;
    var subtree: seq<int> := [];
    subtrees := [];
    for i := 0 to |edges|
      invariant EdgesIn(ast, edges[..i])
      invariant Run(ast, rootType, Init, edges[..i]) == Scan(isInsideSubtree, currentSubtreeRoot, subtree, subtrees)
    {
      assert edges[..i + 1][..i] == edges[..i];
      assert edges[i] in edges;
      match edges[i]
      case ForwardEdge(destination) =>
        if isInsideSubtree {
          subtree := subtree + [destination];
        } else if GetType(ast, destination) == rootType {
          subtree := subtree + [destination];
          isInsideSubtree := true;
          currentSubtreeRoot := destination;
        }
      case ReverseEdge(destination) =>
        if destination == currentSubtreeRoot {
          isInsideSubtree := false;
          subtrees := subtrees + [subtree];
          subtree := [];
        }
    }
    assert edges[..|edges|] == edges;
  }

  /**
   * The reference answer on a tree laid out after handle `b`: a root of kind
   * `k` gives its whole subtree, in handle order; any other root gives the
   * answers of its children, one after the other.
   */
  function Maximal(s: Tree, b: nat, k: Kind): seq<seq<int>>
    decreases s, 1
  {
    if s.attrs.kind == k then [Range(b + 1, b + 1 + Size(s))] else MaximalList(s.kids, b + 1, k)
  }

  function MaximalList(ts: seq<Tree>, b: nat, k: Kind): seq<seq<int>>
    decreases ts, 0
  {
    if ts == [] then [] else Maximal(ts[0], b, k) + MaximalList(ts[1..], b + Size(ts[0]), k)
  }

  lemma {:induction false} RunAppend(ast: Ast, k: Kind, st: Scan, a: seq<DfsEdge>, b: seq<DfsEdge>)
    requires EdgesIn(ast, a) && EdgesIn(ast, b)
    ensures EdgesIn(ast, a + b)
    ensures Run(ast, k, st, a + b) == Run(ast, k, Run(ast, k, st, a), b)
    decreases |b|
  {
    if b == [] {
      assert a + b == a;
    } else {
      var b0 := b[..|b| - 1];
      assert forall e :: e in b0 ==> e in b;
      assert (a + b)[..|a + b| - 1] == a + b0;
      assert (a + b)[|a + b| - 1] == b[|b| - 1];
      RunAppend(ast, k, st, a, b0);
    }
  }

  /** Inside a subtree whose root does not close in `es`, the scan only appends the nodes entered. */
  lemma {:induction false} ScanInside(ast: Ast, k: Kind, st: Scan, es: seq<DfsEdge>)
    requires st.inside && EdgesIn(ast, es) && ReverseEdge(st.root) !in es
    ensures Run(ast, k, st, es) == st.(subtree := st.subtree + Entered(es))
    decreases |es|
  {
    if es == [] {
      assert st.subtree + [] == st.subtree;
    } else {
      var init, last := es[..|es| - 1], es[|es| - 1];
      assert es == init + [last];
      assert forall e :: e in init ==> e in es;
      ScanInside(ast, k, st, init);
      EnteredAppend(init, [last]);
      assert Entered([last]) == if last.ForwardEdge? then [last.dest] else [];
      assert st.subtree + Entered(init) + Entered([last]) == st.subtree + (Entered(init) + Entered([last]));
    }
  }

  /** The scan went from `st` to `st'` ending outside any subtree, having yielded `extra`, with its root unchanged or in (lo, hi]. */
  predicate Closed(st: Scan, st': Scan, extra: seq<seq<int>>, lo: int, hi: int) {
    && !st'.inside && st'.subtree == []
    && st'.found == st.found + extra
    && (st'.root == st.root || lo < st'.root <= hi)
  }

  /** The scan of one node's events: its forward event, the events below it, its reverse event. */
  lemma RunWrap(ast: Ast, k: Kind, st: Scan, x: int, m: seq<DfsEdge>)
    requires IsHandle(ast, x) && EdgesIn(ast, m)
    ensures EdgesIn(ast, [ForwardEdge(x)] + m + [ReverseEdge(x)])
    ensures Run(ast, k, st, [ForwardEdge(x)] + m + [ReverseEdge(x)])
         == Step(ast, k, Run(ast, k, Step(ast, k, st, ForwardEdge(x)), m), ReverseEdge(x))
  {
    var f, rv := [ForwardEdge(x)], [ReverseEdge(x)];
    RunAppend(ast, k, st, f + m, rv);
    RunAppend(ast, k, st, f, m);
    assert f[..0] == [] && rv[..0] == [];
  }

  /** A tree whose root has kind `k`, scanned from outside: it yields its whole subtree. */
  lemma ScanMatch(ast: Ast, k: Kind, s: Tree, b: nat, st: Scan)
    requires IsHandle(ast, b + 1) && GetType(ast, b + 1) == k && s.attrs.kind == k
    requires EdgesIn(ast, TreeEdgesList(s.kids, b + 1))
    requires !st.inside && st.subtree == []
    ensures Closed(st, Run(ast, k, st, TreeEdges(s, b)), Maximal(s, b, k), b, b + Size(s))
  {
    var m := TreeEdgesList(s.kids, b + 1);
    var hi := b + 1 + Size(s);
    assert hi == b + 2 + SizeList(s.kids);
    var st1 := Step(ast, k, st, ForwardEdge(b + 1));
    assert st1 == Scan(true, b + 1, [b + 1], st.found);
    ScanBelowRoot(ast, k, s.kids, b + 1, st1);
    var st2 := Run(ast, k, st1, m);
    assert st2 == Scan(true, b + 1, Range(b + 1, hi), st.found);
    var st3 := Step(ast, k, st2, ReverseEdge(b + 1));
    assert st3 == Scan(false, b + 1, [], st.found + [Range(b + 1, hi)]);
    RunWrap(ast, k, st, b + 1, m);
    assert TreeEdges(s, b) == [ForwardEdge(b + 1)] + m + [ReverseEdge(b + 1)];
    assert Maximal(s, b, k) == [Range(b + 1, hi)];
  }

  /** Inside the subtree opened at handle `r`, the events of its children append their handles in order. */
  lemma ScanBelowRoot(ast: Ast, k: Kind, kids: seq<Tree>, r: nat, st1: Scan)
    requires r >= 1 && EdgesIn(ast, TreeEdgesList(kids, r))
    requires st1.inside && st1.root == r && st1.subtree == [r]
    ensures Run(ast, k, st1, TreeEdgesList(kids, r)) == st1.(subtree := Range(r, r + 1 + SizeList(kids)))
  {
    var m := TreeEdgesList(kids, r);
    var hi := r + 1 + SizeList(kids);
    TreeEdgesListBounds(kids, r);
    assert ReverseEdge(r) !in m;
    ScanInside(ast, k, st1, m);
    EnteredTreeList(kids, r);
    RangeCons(r, hi);
  }

  /** Outside any subtree, the scan of a laid-out tree yields the reference answer and ends outside. */
  lemma {:induction false} ScanOutside(ast: Ast, k: Kind, s: Tree, b: nat, st: Scan)
    requires Valid(ast) && Laid(ast, s, b)
    requires !st.inside && st.subtree == [] && !(b < st.root <= b + Size(s))
    ensures EdgesIn(ast, TreeEdges(s, b))
    ensures Closed(st, Run(ast, k, st, TreeEdges(s, b)), Maximal(s, b, k), b, b + Size(s))
    decreases s, 1
  {
    LaidKids(ast, s, b);
    TreeEdgesListBounds(s.kids, b + 1);
    var m := TreeEdgesList(s.kids, b + 1);
    assert EdgesIn(ast, m);
    RunWrap(ast, k, st, b + 1, m);
    if s.attrs.kind == k {
      ScanMatch(ast, k, s, b, st);
    } else {
      assert Step(ast, k, st, ForwardEdge(b + 1)) == st;
      ScanOutsideList(ast, k, s.kids, b + 1, st);
    }
  }

  lemma {:induction false} ScanOutsideList(ast: Ast, k: Kind, ts: seq<Tree>, b: nat, st: Scan)
    requires Valid(ast) && LaidList(ast, ts, b)
    requires !st.inside && st.subtree == [] && !(b < st.root <= b + SizeList(ts))
    ensures EdgesIn(ast, TreeEdgesList(ts, b))
    ensures Closed(st, Run(ast, k, st, TreeEdgesList(ts, b)), MaximalList(ts, b, k), b, b + SizeList(ts))
    decreases ts, 0
  {
    if ts == [] {
      assert st.found + [] == st.found;
    } else {
      var mid := b + Size(ts[0]);
      var e0, e1 := TreeEdges(ts[0], b), TreeEdgesList(ts[1..], mid);
      LaidCons(ast, ts, b);
      ScanOutside(ast, k, ts[0], b, st);
      var st1 := Run(ast, k, st, e0);
      ScanOutsideList(ast, k, ts[1..], mid, st1);
      RunAppend(ast, k, st, e0, e1);
      ClosedJoin(st, st1, Run(ast, k, st1, e1), Maximal(ts[0], b, k), MaximalList(ts[1..], mid, k), b, mid, b + SizeList(ts));
    }
  }

  lemma ClosedJoin(st: Scan, st1: Scan, st2: Scan, x: seq<seq<int>>, y: seq<seq<int>>, lo: int, mid: int, hi: int)
    requires lo <= mid <= hi
    requires Closed(st, st1, x, lo, mid) && Closed(st1, st2, y, mid, hi)
    ensures Closed(st, st2, x + y, lo, hi)
  {
    assert st.found + x + y == st.found + (x + y);
  }

  /** On a built store the scan yields the reference answer of its tree. */
  lemma SubtreesOfTree(t: Tree, k: Kind)
    requires TextsPresent(t)
    ensures Valid(AstOf(t))
    ensures Subtrees(AstOf(t), k) == Maximal(t, 0, k)
  {
    AstOfValid(t);
    LaidWhole(t);
    LaidEdges(AstOf(t), t, 0);
    ScanOutside(AstOf(t), k, t, 0, Init);
    assert [] + Maximal(t, 0, k) == Maximal(t, 0, k);
  }

  /** Every member of every list lies in (lo, hi]. */
  predicate Within(r: seq<seq<int>>, lo: int, hi: int) {
    forall i, x :: 0 <= i < |r| && x in r[i] ==> lo < x <= hi
  }

  /** Every member of an earlier list is smaller than every member of a later one. */
  predicate Separated(r: seq<seq<int>>) {
    forall i, j, x, y :: 0 <= i < j < |r| && x in r[i] && y in r[j] ==> x < y
  }

  lemma RangeMembers(lo: nat, hi: nat)
    requires lo <= hi
    ensures forall x :: x in Range(lo, hi) <==> lo <= x < hi
  {
    var r := Range(lo, hi);
    forall x | lo <= x < hi
      ensures x in r
    {
      assert r[x - lo] == x;
    }
  }

  lemma JoinSeparated(a: seq<seq<int>>, b: seq<seq<int>>, lo: int, mid: int, hi: int)
    requires lo <= mid <= hi
    requires Within(a, lo, mid) && Within(b, mid, hi) && Separated(a) && Separated(b)
    ensures Within(a + b, lo, hi) && Separated(a + b)
  {
    var r := a + b;
    forall i, x | 0 <= i < |r| && x in r[i]
      ensures lo < x <= hi
    {
      if i < |a| {
        assert r[i] == a[i];
      } else {
        assert r[i] == b[i - |a|];
      }
    }
    forall i, j, x, y | 0 <= i < j < |r| && x in r[i] && y in r[j]
      ensures x < y
    {
      if j < |a| {
        assert r[i] == a[i] && r[j] == a[j];
      } else if i >= |a| {
        assert r[i] == b[i - |a|] && r[j] == b[j - |a|];
      } else {
        assert r[i] == a[i] && r[j] == b[j - |a|];
      }
    }
  }

  /** The reference lists lie inside the tree's handles, each wholly before the next. */
  lemma {:induction false} MaximalSeparated(s: Tree, b: nat, k: Kind)
    ensures Within(Maximal(s, b, k), b, b + Size(s))
    ensures Separated(Maximal(s, b, k))
    decreases s, 1
  {
    if s.attrs.kind == k {
      RangeMembers(b + 1, b + 1 + Size(s));
    } else {
      MaximalListSeparated(s.kids, b + 1, k);
    }
  }

  lemma {:induction false} MaximalListSeparated(ts: seq<Tree>, b: nat, k: Kind)
    ensures Within(MaximalList(ts, b, k), b, b + SizeList(ts))
    ensures Separated(MaximalList(ts, b, k))
    decreases ts, 0
  {
    if ts != [] {
      var mid := b + Size(ts[0]);
      MaximalSeparated(ts[0], b, k);
      MaximalListSeparated(ts[1..], mid, k);
      JoinSeparated(Maximal(ts[0], b, k), MaximalList(ts[1..], mid, k), b, mid, b + SizeList(ts));
    }
  }

  /** Every reference list starts at a node of kind `k` and is the whole preorder of that node's subtree. */
  lemma {:induction false} MaximalWhole(ast: Ast, s: Tree, b: nat, k: Kind)
    requires Valid(ast) && Laid(ast, s, b)
    ensures forall l :: l in Maximal(s, b, k) ==>
      l != [] && IsHandle(ast, l[0]) && GetType(ast, l[0]) == k && l == Preorder(ast, l[0])
    decreases s, 1
  {
    if s.attrs.kind == k {
      LaidRootPreorder(ast, s, b);
      assert Maximal(s, b, k) == [Range(b + 1, b + 1 + Size(s))];
    } else {
      LaidKids(ast, s, b);
      MaximalListWhole(ast, s.kids, b + 1, k);
    }
  }

  /** The preorder from the root of a laid-out tree is the block of handles the tree occupies. */
  lemma LaidRootPreorder(ast: Ast, s: Tree, b: nat)
    requires Valid(ast) && Laid(ast, s, b)
    ensures IsHandle(ast, b + 1) && GetType(ast, b + 1) == s.attrs.kind
    ensures Range(b + 1, b + 1 + Size(s)) != [] && Range(b + 1, b + 1 + Size(s))[0] == b + 1
    ensures Preorder(ast, b + 1) == Range(b + 1, b + 1 + Size(s))
  {
    LaidKids(ast, s, b);
    LaidEdges(ast, s, b);
    EnteredTree(s, b);
  }

  lemma {:induction false} MaximalListWhole(ast: Ast, ts: seq<Tree>, b: nat, k: Kind)
    requires Valid(ast) && LaidList(ast, ts, b)
    ensures forall l :: l in MaximalList(ts, b, k) ==>
      l != [] && IsHandle(ast, l[0]) && GetType(ast, l[0]) == k && l == Preorder(ast, l[0])
    decreases ts, 0
  {
    if ts != [] {
      LaidCons(ast, ts, b);
      MaximalWhole(ast, ts[0], b, k);
      MaximalListWhole(ast, ts[1..], b + Size(ts[0]), k);
    }
  }

  lemma {:induction false} FlattenMember(r: seq<seq<int>>, h: int)
    requires h in Flatten(r)
    ensures exists j :: 0 <= j < |r| && h in r[j]
  {
    if h !in r[0] {
      FlattenMember(r[1..], h);
      var j :| 0 <= j < |r[1..]| && h in r[1..][j];
      assert r[j + 1] == r[1..][j];
    }
  }

  /** Every node of kind `k` of a laid-out tree lies in one of the reference lists. */
  lemma {:induction false} MaximalCovers(ast: Ast, s: Tree, b: nat, k: Kind)
    requires Valid(ast) && Laid(ast, s, b)
    ensures forall h :: b < h <= b + Size(s) && GetType(ast, h) == k ==> h in Flatten(Maximal(s, b, k))
    decreases s, 1
  {
    LaidKids(ast, s, b);
    if s.attrs.kind == k {
      var l := Range(b + 1, b + 1 + Size(s));
      RangeMembers(b + 1, b + 1 + Size(s));
      assert Flatten(Maximal(s, b, k)) == l + [];
    } else {
      assert GetType(ast, b + 1) != k;
      MaximalListCovers(ast, s.kids, b + 1, k);
    }
  }

  lemma {:induction false} MaximalListCovers(ast: Ast, ts: seq<Tree>, b: nat, k: Kind)
    requires Valid(ast) && LaidList(ast, ts, b)
    ensures forall h :: b < h <= b + SizeList(ts) && GetType(ast, h) == k ==> h in Flatten(MaximalList(ts, b, k))
    decreases ts, 0
  {
    if ts != [] {
      var mid := b + Size(ts[0]);
      LaidCons(ast, ts, b);
      MaximalCovers(ast, ts[0], b, k);
      MaximalListCovers(ast, ts[1..], mid, k);
      FlattenAppend(Maximal(ts[0], b, k), MaximalList(ts[1..], mid, k));
    }
  }

  /**
   * The maximal-subtree property of `subtrees_with_root_type` on a built
   * store: every yielded list starts at a node of the requested kind and is
   * the preorder of that node's whole subtree; the lists are disjoint and
   * come in preorder of their roots, every member of one preceding every
   * member of the next; and every node of the requested kind lies in exactly
   * one of them.
   */
  lemma SubtreesWithRootTypeMaximal(t: Tree, k: Kind)
    requires TextsPresent(t)
    ensures Valid(AstOf(t))
    ensures forall l :: l in Subtrees(AstOf(t), k) ==>
      l != [] && IsHandle(AstOf(t), l[0]) && GetType(AstOf(t), l[0]) == k && l == Preorder(AstOf(t), l[0])
    ensures Separated(Subtrees(AstOf(t), k))
    ensures forall h :: IsHandle(AstOf(t), h) && GetType(AstOf(t), h) == k ==>
      exists j :: 0 <= j < |Subtrees(AstOf(t), k)| && h in Subtrees(AstOf(t), k)[j]
    ensures forall i, j, h ::
              (0 <= i < |Subtrees(AstOf(t), k)| && 0 <= j < |Subtrees(AstOf(t), k)| &&
               h in Subtrees(AstOf(t), k)[i] && h in Subtrees(AstOf(t), k)[j]) ==> i == j
  {
    var ast := AstOf(t);
    SubtreesOfTree(t, k);
    LaidWhole(t);
    NodesLength(t);
    MaximalWhole(ast, t, 0, k);
    MaximalSeparated(t, 0, k);
    MaximalCovers(ast, t, 0, k);
    forall h | IsHandle(ast, h) && GetType(ast, h) == k
      ensures exists j :: 0 <= j < |Subtrees(ast, k)| && h in Subtrees(ast, k)[j]
    {
      FlattenMember(Subtrees(ast, k), h);
    }
  }
}
