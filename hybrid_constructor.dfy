/**
 * The hybrid-constructor pattern
 * (aibolit/patterns/hybrid_constructor/hybrid_constructor.py): a constructor is
 * reported when its body both holds an explicit constructor invocation
 * (`this(...)`) and contains some other statement. A call `super(...)` is a
 * statement of another kind, so a constructor that delegates only through
 * `super(...)` is never reported. A recursive
 * traversal sorts the statements of a constructor body into two caller-owned
 * lists, the explicit constructor invocations and the other statements, by
 * appending to them.
 */
module HybridConstructor {
  import opened Wrappers
  import opened Taxonomy

  /**
   * A statement node with the attributes the traversal reads; an attribute
   * the node's class does not have is `None`.
   *   expression  the kind of the expression of a statement expression
   *   statements  the statements of a block
   *   ifParts     the branches of an if statement
   *   body        the body of a loop; the traversal visits the body's children
   *   tryParts    the parts of a try statement
   */
  datatype Stmt = Stmt(
    kind: Kind,
    children: seq<Stmt>,
    expression: Option<Kind>,
    statements: Option<Block>,
    ifParts: Option<IfParts>,
    body: Option<Stmt>,
    tryParts: Option<TryParts>)

  /** The statements a block holds. */
  datatype Block = Block(items: seq<Stmt>)

  /** The then-branch and the else-branch of an if statement; the else-branch may be null. */
  datatype IfParts = IfParts(thenStatement: Stmt, elseStatement: Option<Stmt>)

  /** Resources, catch clauses and finally block are null when absent; `block` is the guarded block. */
  datatype TryParts = TryParts(
    resources: Option<seq<Stmt>>,
    catches: Option<seq<Catch>>,
    finallyBlock: Option<seq<Stmt>>,
    block: seq<Stmt>)

  /** A catch clause, of which the traversal reads only the block. */
  datatype Catch = Catch(block: seq<Stmt>)

  /** A constructor declaration: its line and the statements of its body. */
  datatype ConstructorDecl = ConstructorDecl(line: int, body: seq<Stmt>)

  predicate IsLoop(k: Kind) {
    k == DO_STATEMENT || k == WHILE_STATEMENT
  }

  /**
   * Every node the traversal reaches has the attributes it reads there, as
   * the parser's nodes do: an expression on a statement expression, the parts
   * of a try statement (with at least one catch clause when the list is not
   * null), a body on a loop and the branches of an if statement.
   */
  predicate Shaped(s: Stmt)
    decreases s, 1
  {
    && (s.kind == STATEMENT_EXPRESSION ==> s.expression.Some?)
    && (s.kind == TRY_STATEMENT ==>
          s.tryParts.Some? && (s.tryParts.value.catches.Some? ==> s.tryParts.value.catches.value != []))
    && ((IsLoop(s.kind) || s.kind == FOR_STATEMENT) ==> s.body.Some?)
    && (s.kind == IF_STATEMENT ==> s.ifParts.Some?)
    && (s.body.Some? ==> AllShaped(s.body.value.children))
    && (s.tryParts.Some? ==> AllShaped(s.tryParts.value.block))
    && (s.statements.Some? ==> AllShaped(s.statements.value.items))
    && (s.ifParts.Some? ==> Shaped(s.ifParts.value.thenStatement) && BranchShaped(s.ifParts.value.elseStatement))
  }

  predicate BranchShaped(o: Option<Stmt>)
    decreases o, 0
  {
    o.Some? ==> Shaped(o.value)
  }

  predicate AllShaped(ss: seq<Stmt>)
    decreases ss, 0
  {
    forall i :: 0 <= i < |ss| ==> Shaped(ss[i])
  }

  // ---------------------------------------------------------------------------
  // What a traversal appends

  /** What a traversal appends to the two lists: explicit constructor invocations, other statements. */
  datatype Lists = Lists(exp: seq<Stmt>, other: seq<Option<Stmt>>)

  const Nothing := Lists([], [])

  function Join(a: Lists, b: Lists): Lists {
    Lists(a.exp + b.exp, a.other + b.other)
  }

  function Other(o: Option<Stmt>): Lists {
    Lists([], [o])
  }

  lemma JoinAssoc(a: Lists, b: Lists, c: Lists)
    ensures Join(Join(a, b), c) == Join(a, Join(b, c))
  {
  }

  /** The statement expression invokes a constructor explicitly. */
  predicate IsStatementCtorInv(s: Stmt)
    requires s.expression.Some?
  {
    s.expression.value == EXPLICIT_CONSTRUCTOR_INVOCATION
  }

  /** What visiting one statement appends. */
  function Classify(s: Stmt): Lists
    requires Shaped(s)
    decreases s, 1
  {
    if s.kind == STATEMENT_EXPRESSION then
      if IsStatementCtorInv(s) then Lists([s], []) else Other(Some(s))
    else if s.kind == TRY_STATEMENT then
      ClassifyInTry(s)
    else if IsLoop(s.kind) then
      ClassifyAll(s.body.value.children)
    else if s.kind == FOR_STATEMENT then
      ClassifyFor(s, s.body.value.children)
    else if s.kind == IF_STATEMENT then
      Join(Join(Other(Some(s)), ClassifyInIf(s.ifParts.value.thenStatement)), ClassifyBranch(s.ifParts.value.elseStatement))
    else
      Other(Some(s))
  }

  /** What visiting the statements one after another appends. */
  function ClassifyAll(ss: seq<Stmt>): Lists
    requires AllShaped(ss)
    decreases ss, 0
  {
    if ss == [] then Nothing else Join(ClassifyAll(ss[..|ss| - 1]), Classify(ss[|ss| - 1]))
  }

  /** A for statement is appended once before each child of its body is visited. */
  function ClassifyFor(s: Stmt, ss: seq<Stmt>): Lists
    requires AllShaped(ss)
    decreases ss, 0
  {
    if ss == [] then Nothing
    else Join(ClassifyFor(s, ss[..|ss| - 1]), Join(Other(Some(s)), Classify(ss[|ss| - 1])))
  }

  /** The condition under which a try statement is itself appended. */
  predicate TryAppended(t: TryParts)
    requires t.catches.Some? ==> t.catches.value != []
  {
    || t.resources.Some?
    || (t.catches.Some? && t.catches.value[0].block != [])
    || t.finallyBlock.Some?
  }

  function ClassifyInTry(s: Stmt): Lists
    requires Shaped(s) && s.kind == TRY_STATEMENT
    decreases s, 0
  {
    var t := s.tryParts.value;
    Join(if TryAppended(t) then Other(Some(s)) else Nothing, ClassifyAll(t.block))
  }

  /**
   * What visiting a branch of an if statement appends: the statements of a
   * block are visited in full, and the branches of a nested if statement are
   * visited and then appended themselves (a null else-branch as null).
   */
  function ClassifyInIf(v: Stmt): Lists
    requires Shaped(v)
    decreases v, 0
  {
    var inBlock := if v.statements.Some? then ClassifyAll(v.statements.value.items) else Nothing;
    if v.ifParts.Some? then
      var p := v.ifParts.value;
      Join(Join(Join(Join(inBlock, ClassifyInIf(p.thenStatement)), Other(Some(p.thenStatement))),
                ClassifyBranch(p.elseStatement)),
           Other(p.elseStatement))
    else
      inBlock
  }

  /** A null branch has neither attribute, so visiting it appends nothing. */
  function ClassifyBranch(o: Option<Stmt>): Lists
    requires BranchShaped(o)
    decreases o, 0
  {
    if o.None? then Nothing else ClassifyInIf(o.value)
  }

  /** The body makes the constructor hybrid: both lists end up non-empty. */
  predicate IsHybrid(c: ConstructorDecl)
    requires AllShaped(c.body)
  {
    var l := ClassifyAll(c.body);
    |l.exp| > 0 && |l.other| > 0
  }

  predicate AllBodiesShaped(cs: seq<ConstructorDecl>) {
    forall i :: 0 <= i < |cs| ==> AllShaped(cs[i].body)
  }

  /** The lines of the hybrid constructors, in order. */
  function HybridLines(cs: seq<ConstructorDecl>): seq<int>
    requires AllBodiesShaped(cs)
  {
    if cs == [] then []
    else
      var last := cs[|cs| - 1];
      HybridLines(cs[..|cs| - 1]) + (if IsHybrid(last) then [last.line] else [])
  }

  // ---------------------------------------------------------------------------
  // The traversal

  /** The two caller-owned lists the traversal appends to. */
  class StatementLists {
    var expCtrsDecls: seq<Stmt>
    var otherStatements: seq<Option<Stmt>>

    function Contents(): Lists
      reads this
    {
      Lists(expCtrsDecls, otherStatements)
    }

    constructor ()
      ensures Contents() == Nothing
    {
      expCtrsDecls := [];
      otherStatements := [];
    }

    method AppendCtorInvocation(s: Stmt)
      modifies this
      ensures Contents() == Join(old(Contents()), Lists([s], []))
    {
      expCtrsDecls := expCtrsDecls + [s];
    }

    method AppendOther(o: Option<Stmt>)
      modifies this
      ensures Contents() == Join(old(Contents()), Other(o))
    {
      otherStatements := otherStatements + [o];
    }
  }

  lemma ClassifyAllStep(ss: seq<Stmt>, i: nat)
    requires AllShaped(ss) && i < |ss|
    ensures ClassifyAll(ss[..i + 1]) == Join(ClassifyAll(ss[..i]), Classify(ss[i]))
  {
    assert ss[..i + 1][..i] == ss[..i];
  }

  lemma ClassifyForStep(s: Stmt, ss: seq<Stmt>, i: nat)
    requires AllShaped(ss) && i < |ss|
    ensures ClassifyFor(s, ss[..i + 1]) == Join(ClassifyFor(s, ss[..i]), Join(Other(Some(s)), Classify(ss[i])))
  {
    assert ss[..i + 1][..i] == ss[..i];
  }

  /** Visits one statement, appending to the lists exactly what `Classify` says. */
  method Traverse(statement: Stmt, lists: StatementLists)
    requires Shaped(statement)
    modifies lists
    ensures lists.Contents() == Join(old(lists.Contents()), Classify(statement))
    decreases statement, 1
  {
    if statement.kind == STATEMENT_EXPRESSION {
      var isCtorInv := IsStatementCtorInv(statement);
      if isCtorInv {
        lists.AppendCtorInvocation(statement);
      } else {
        lists.AppendOther(Some(statement));
      }
    } else if statement.kind == TRY_STATEMENT {
      TraverseInTry(lists, statement);
    } else if IsLoop(statement.kind) {
      var children := statement.body.value.children;
      for i := 0 to |children|
        invariant lists.Contents() == Join(old(lists.Contents()), ClassifyAll(children[..i]))
      {
        Traverse(children[i], lists);
        ClassifyAllStep(children, i);
        JoinAssoc(old(lists.Contents()), ClassifyAll(children[..i]), Classify(children[i]));
      }
      assert children[..|children|] == children;
    } else if statement.kind == FOR_STATEMENT {
      var children := statement.body.value.children;
      for i := 0 to |children|
        invariant lists.Contents() == Join(old(lists.Contents()), ClassifyFor(statement, children[..i]))
      {
        var before := lists.Contents();
        lists.AppendOther(Some(statement));
        Traverse(children[i], lists);
        ClassifyForStep(statement, children, i);
        JoinAssoc(old(lists.Contents()), ClassifyFor(statement, children[..i]),
                  Join(Other(Some(statement)), Classify(children[i])));
        JoinAssoc(before, Other(Some(statement)), Classify(children[i]));
      }
      assert children[..|children|] == children;
    } else if statement.kind == IF_STATEMENT {
      var p := statement.ifParts.value;
      lists.AppendOther(Some(statement));
      TraverseInIf(p.thenStatement, lists);
      if p.elseStatement.Some? {
        TraverseInIf(p.elseStatement.value, lists);
      }
      JoinAssoc(old(lists.Contents()), Other(Some(statement)), ClassifyInIf(p.thenStatement));
      JoinAssoc(old(lists.Contents()), Join(Other(Some(statement)), ClassifyInIf(p.thenStatement)),
                ClassifyBranch(p.elseStatement));
    } else {
      lists.AppendOther(Some(statement));
    }
  }

  /**
   * Visits a branch of an if statement. The branch may be null, which has
   * neither attribute; callers skip the call then, which appends nothing.
   */
  method TraverseInIf(val: Stmt, lists: StatementLists)
    requires Shaped(val)
    modifies lists
    ensures lists.Contents() == Join(old(lists.Contents()), ClassifyInIf(val))
    decreases val, 0
  {
    if val.statements.Some? {
      var children := val.statements.value.items;
      for i := 0 to |children|
        invariant lists.Contents() == Join(old(lists.Contents()), ClassifyAll(children[..i]))
      {
        Traverse(children[i], lists);
        ClassifyAllStep(children, i);
        JoinAssoc(old(lists.Contents()), ClassifyAll(children[..i]), Classify(children[i]));
      }
      assert children[..|children|] == children;
    }
    var inBlock := if val.statements.Some? then ClassifyAll(val.statements.value.items) else Nothing;
    assert lists.Contents() == Join(old(lists.Contents()), inBlock);
    if val.ifParts.Some? {
      var p := val.ifParts.value;
      var c0 := lists.Contents();
      TraverseInIf(p.thenStatement, lists);
      lists.AppendOther(Some(p.thenStatement));
      var c1 := lists.Contents();
      if p.elseStatement.Some? {
        TraverseInIf(p.elseStatement.value, lists);
      }
      lists.AppendOther(p.elseStatement);
      var a := Join(inBlock, ClassifyInIf(p.thenStatement));
      var b := Join(a, Other(Some(p.thenStatement)));
      var c := Join(b, ClassifyBranch(p.elseStatement));
      JoinAssoc(old(lists.Contents()), inBlock, ClassifyInIf(p.thenStatement));
      JoinAssoc(old(lists.Contents()), a, Other(Some(p.thenStatement)));
      assert c1 == Join(old(lists.Contents()), b);
      JoinAssoc(old(lists.Contents()), b, ClassifyBranch(p.elseStatement));
      JoinAssoc(old(lists.Contents()), c, Other(p.elseStatement));
    }
  }

  /** Visits a try statement: appends it when it has resources, a non-empty first catch block or a finally block, then visits its block. */
  method TraverseInTry(lists: StatementLists, statement: Stmt)
    requires Shaped(statement) && statement.kind == TRY_STATEMENT
    modifies lists
    ensures lists.Contents() == Join(old(lists.Contents()), ClassifyInTry(statement))
    decreases statement, 0
  {
    var t := statement.tryParts.value;
    if t.resources.Some? || (t.catches.Some? && t.catches.value[0].block != []) || t.finallyBlock.Some? {
      lists.AppendOther(Some(statement));
    }
    var head := lists.Contents();
    var block := t.block;
    for i := 0 to |block|
      invariant lists.Contents() == Join(head, ClassifyAll(block[..i]))
    {
      Traverse(block[i], lists);
      ClassifyAllStep(block, i);
      JoinAssoc(head, ClassifyAll(block[..i]), Classify(block[i]));
    }
    assert block[..|block|] == block;
    JoinAssoc(old(lists.Contents()), if TryAppended(t) then Other(Some(statement)) else Nothing, ClassifyAll(block));
  }

  /** The lines of the constructors whose bodies leave both lists non-empty. */
  method Value(ctors: seq<ConstructorDecl>) returns (lines: seq<int>)
    requires AllBodiesShaped(ctors)
    ensures lines == HybridLines(ctors)
  {
    lines := [];
    for k := 0 to |ctors|
      invariant lines == HybridLines(ctors[..k])
    {
      var node := ctors[k];
      var lists := new StatementLists();
      for j := 0 to |node.body|
        invariant lists.Contents() == ClassifyAll(node.body[..j])
      {
        Traverse(node.body[j], lists);
        ClassifyAllStep(node.body, j);
      }
      assert node.body[..|node.body|] == node.body;
      if |lists.expCtrsDecls| > 0 {
        if |lists.otherStatements| > 0 {
          lines := lines + [node.line];
        }
      }
      assert ctors[..k + 1][..k] == ctors[..k];
    }
    assert ctors[..|ctors|] == ctors;
  }

  // ---------------------------------------------------------------------------
  // Properties

  /** The number of nodes the traversal can reach from `s`, `s` included. */
  function Weight(s: Stmt): nat
    decreases s, 1
  {
    1 + (if s.body.Some? then WeightAll(s.body.value.children) else 0)
      + (if s.tryParts.Some? then WeightAll(s.tryParts.value.block) else 0)
      + (if s.statements.Some? then WeightAll(s.statements.value.items) else 0)
      + (if s.ifParts.Some? then Weight(s.ifParts.value.thenStatement) + WeightBranch(s.ifParts.value.elseStatement) else 0)
  }

  function WeightAll(ss: seq<Stmt>): nat
    decreases ss, 0
  {
    if ss == [] then 0 else WeightAll(ss[..|ss| - 1]) + Weight(ss[|ss| - 1])
  }

  function WeightBranch(o: Option<Stmt>): nat
    decreases o, 0
  {
    if o.None? then 0 else Weight(o.value)
  }

  lemma {:induction false} WeightAllBound(ss: seq<Stmt>)
    ensures forall i :: 0 <= i < |ss| ==> Weight(ss[i]) <= WeightAll(ss)
  {
    if ss != [] {
      var init := ss[..|ss| - 1];
      WeightAllBound(init);
      assert forall i :: 0 <= i < |init| ==> init[i] == ss[i];
    }
  }

  /** A statement expression whose expression is an explicit constructor invocation. */
  predicate IsCtorInvocation(t: Stmt) {
    t.kind == STATEMENT_EXPRESSION && t.expression == Some(EXPLICIT_CONSTRUCTOR_INVOCATION)
  }

  /**
   * The first list of `l` holds only explicit constructor invocations, and
   * every statement in `l` weighs less than `n`.
   */
  predicate Sound(l: Lists, n: int) {
    && (forall t :: t in l.exp ==> IsCtorInvocation(t) && Weight(t) < n)
    && (forall o :: o in l.other && o.Some? ==> Weight(o.value) < n)
  }

  /** Visiting a statement appends only the statement itself and nodes below it. */
  lemma {:induction false} ClassifySound(s: Stmt)
    requires Shaped(s)
    ensures Sound(Classify(s), Weight(s) + 1)
    decreases s, 1
  {
    if s.kind == STATEMENT_EXPRESSION {
    } else if s.kind == TRY_STATEMENT {
      ClassifyInTrySound(s);
    } else if IsLoop(s.kind) {
      WeightAllBound(s.body.value.children);
      ClassifyAllSound(s.body.value.children, Weight(s));
    } else if s.kind == FOR_STATEMENT {
      WeightAllBound(s.body.value.children);
      ClassifyForSound(s, s.body.value.children, Weight(s) + 1);
    } else if s.kind == IF_STATEMENT {
      ClassifyInIfSound(s.ifParts.value.thenStatement);
      ClassifyBranchSound(s.ifParts.value.elseStatement);
    }
  }

  lemma {:induction false} ClassifyAllSound(ss: seq<Stmt>, n: int)
    requires AllShaped(ss)
    requires forall i :: 0 <= i < |ss| ==> Weight(ss[i]) < n
    ensures Sound(ClassifyAll(ss), n)
    decreases ss, 0
  {
    if ss != [] {
      ClassifyAllSound(ss[..|ss| - 1], n);
      ClassifySound(ss[|ss| - 1]);
    }
  }

  lemma {:induction false} ClassifyForSound(s: Stmt, ss: seq<Stmt>, n: int)
    requires AllShaped(ss) && Weight(s) < n
    requires forall i :: 0 <= i < |ss| ==> Weight(ss[i]) < n
    ensures Sound(ClassifyFor(s, ss), n)
    decreases ss, 0
  {
    if ss != [] {
      ClassifyForSound(s, ss[..|ss| - 1], n);
      ClassifySound(ss[|ss| - 1]);
    }
  }

  lemma {:induction false} ClassifyInTrySound(s: Stmt)
    requires Shaped(s) && s.kind == TRY_STATEMENT
    ensures Sound(ClassifyAll(s.tryParts.value.block), Weight(s))
    ensures Sound(ClassifyInTry(s), Weight(s) + 1)
    decreases s, 0
  {
    WeightAllBound(s.tryParts.value.block);
    ClassifyAllSound(s.tryParts.value.block, Weight(s));
  }

  lemma {:induction false} ClassifyInIfSound(v: Stmt)
    requires Shaped(v)
    ensures Sound(ClassifyInIf(v), Weight(v))
    decreases v, 0
  {
    if v.statements.Some? {
      WeightAllBound(v.statements.value.items);
      ClassifyAllSound(v.statements.value.items, Weight(v));
    }
    if v.ifParts.Some? {
      ClassifyInIfSound(v.ifParts.value.thenStatement);
      ClassifyBranchSound(v.ifParts.value.elseStatement);
    }
  }

  lemma {:induction false} ClassifyBranchSound(o: Option<Stmt>)
    requires BranchShaped(o)
    ensures Sound(ClassifyBranch(o), WeightBranch(o))
    decreases o, 0
  {
    if o.Some? {
      ClassifyInIfSound(o.value);
    }
  }

  /** Only explicit constructor invocations reach the first list. */
  lemma CtorInvocationsOnly(ss: seq<Stmt>)
    requires AllShaped(ss)
    ensures forall t :: t in ClassifyAll(ss).exp ==> IsCtorInvocation(t)
  {
    WeightAllBound(ss);
    ClassifyAllSound(ss, WeightAll(ss) + 1);
  }

  /**
   * A statement expression goes to the first list exactly when it invokes a
   * constructor explicitly, and to the second list otherwise.
   */
  lemma StatementExpressionRouting(s: Stmt)
    requires Shaped(s) && s.kind == STATEMENT_EXPRESSION
    ensures s in Classify(s).exp <==> IsStatementCtorInv(s)
    ensures Some(s) in Classify(s).other <==> !IsStatementCtorInv(s)
    ensures |Classify(s).exp| + |Classify(s).other| == 1
  {
  }

  /**
   * A try statement is appended to the other statements exactly when it has
   * resources, a non-empty first catch block or a finally block; its block is
   * visited either way.
   */
  lemma TryStatementAppended(s: Stmt)
    requires Shaped(s) && s.kind == TRY_STATEMENT
    ensures Classify(s)
              == Join(if TryAppended(s.tryParts.value) then Other(Some(s)) else Nothing, ClassifyAll(s.tryParts.value.block))
    ensures Some(s) !in ClassifyAll(s.tryParts.value.block).other
    ensures s !in ClassifyAll(s.tryParts.value.block).exp
  {
    ClassifyInTrySound(s);
  }

  /** A do or while statement is never appended itself: it contributes what its body's children do. */
  lemma LoopNotAppended(s: Stmt)
    requires Shaped(s) && IsLoop(s.kind)
    ensures Some(s) !in Classify(s).other && s !in Classify(s).exp
    ensures Classify(s) == ClassifyAll(s.body.value.children)
  {
    WeightAllBound(s.body.value.children);
    ClassifyAllSound(s.body.value.children, Weight(s));
  }

  lemma {:induction false} ClassifyForCount(s: Stmt, ss: seq<Stmt>)
    requires AllShaped(ss)
    requires forall i :: 0 <= i < |ss| ==> Weight(ss[i]) < Weight(s)
    ensures multiset(ClassifyFor(s, ss).other)[Some(s)] == |ss|
    ensures s !in ClassifyFor(s, ss).exp
    decreases ss, 0
  {
    if ss != [] {
      var last := ss[|ss| - 1];
      ClassifyForCount(s, ss[..|ss| - 1]);
      ClassifySound(last);
      assert Some(s) !in Classify(last).other;
    }
  }

  /**
   * A for statement is appended once for each child of its body, and never
   * counted as a constructor invocation; with an empty body it contributes
   * nothing.
   */
  lemma ForAppendedPerChild(s: Stmt)
    requires Shaped(s) && s.kind == FOR_STATEMENT
    ensures multiset(Classify(s).other)[Some(s)] == |s.body.value.children|
    ensures s !in Classify(s).exp
    ensures s.body.value.children == [] ==> Classify(s) == Nothing
  {
    WeightAllBound(s.body.value.children);
    ClassifyForCount(s, s.body.value.children);
  }

  /** An if statement is appended once, before anything its branches contribute. */
  lemma IfAppendedOnce(s: Stmt)
    requires Shaped(s) && s.kind == IF_STATEMENT
    ensures |Classify(s).other| > 0 && Classify(s).other[0].Some? && Classify(s).other[0].value == s
    ensures Classify(s).other[1..]
              == ClassifyInIf(s.ifParts.value.thenStatement).other + ClassifyBranch(s.ifParts.value.elseStatement).other
    ensures forall k :: 0 < k < |Classify(s).other| && Classify(s).other[k].Some? ==> Classify(s).other[k].value != s
  {
    var p := s.ifParts.value;
    var inThen := ClassifyInIf(p.thenStatement);
    var inElse := ClassifyBranch(p.elseStatement);
    ClassifyInIfSound(p.thenStatement);
    ClassifyBranchSound(p.elseStatement);
    var rest := inThen.other + inElse.other;
    assert Classify(s).other[1..] == rest;
    assert forall o :: o in rest && o.Some? ==> Weight(o.value) < Weight(s);
  }

  /** Every other kind of statement is appended to the other statements and nothing else happens. */
  lemma DefaultAppended(s: Stmt)
    requires Shaped(s)
    requires s.kind !in {STATEMENT_EXPRESSION, TRY_STATEMENT, DO_STATEMENT, WHILE_STATEMENT, FOR_STATEMENT, IF_STATEMENT}
    ensures Classify(s) == Other(Some(s))
  {
  }

  /**
   * A branch that is neither a block nor an if statement contributes nothing;
   * the branches of a nested if statement are appended after being visited.
   */
  lemma BranchContents(v: Stmt)
    requires Shaped(v)
    ensures v.statements.None? && v.ifParts.None? ==> ClassifyInIf(v) == Nothing
    ensures v.statements.Some? && v.ifParts.None? ==> ClassifyInIf(v) == ClassifyAll(v.statements.value.items)
    ensures v.ifParts.Some? ==>
              var p := v.ifParts.value;
              var inBlock := if v.statements.Some? then ClassifyAll(v.statements.value.items) else Nothing;
              && ClassifyInIf(v).exp
                 == inBlock.exp + ClassifyInIf(p.thenStatement).exp + ClassifyBranch(p.elseStatement).exp
              && ClassifyInIf(v).other
                 == inBlock.other + ClassifyInIf(p.thenStatement).other + [Some(p.thenStatement)]
                    + ClassifyBranch(p.elseStatement).other + [p.elseStatement]
    ensures v.ifParts.Some? ==>
              Some(v.ifParts.value.thenStatement) in ClassifyInIf(v).other
              && v.ifParts.value.elseStatement in ClassifyInIf(v).other
    ensures ClassifyBranch(None) == Nothing
  {
    if v.ifParts.Some? {
      var p := v.ifParts.value;
      var inBlock := if v.statements.Some? then ClassifyAll(v.statements.value.items) else Nothing;
      var thenPart, elsePart := ClassifyInIf(p.thenStatement), ClassifyBranch(p.elseStatement);
      var other := inBlock.other + thenPart.other + [Some(p.thenStatement)] + elsePart.other + [p.elseStatement];
      assert ClassifyInIf(v) == Join(Join(Join(Join(inBlock, thenPart), Other(Some(p.thenStatement))), elsePart),
                                     Other(p.elseStatement));
      assert ClassifyInIf(v).other == other;
      assert other[|inBlock.other| + |thenPart.other|] == Some(p.thenStatement);
      assert other[|other| - 1] == p.elseStatement;
    }
  }

  /** Visiting two runs of statements one after the other appends what each run does, in order. */
  lemma {:induction false} ClassifyAllAppend(a: seq<Stmt>, b: seq<Stmt>)
    requires AllShaped(a) && AllShaped(b)
    ensures AllShaped(a + b)
    ensures ClassifyAll(a + b) == Join(ClassifyAll(a), ClassifyAll(b))
    decreases |b|
  {
    if b == [] {
      assert a + b == a;
    } else {
      var init := b[..|b| - 1];
      assert (a + b)[..|a + b| - 1] == a + init;
      assert (a + b)[|a + b| - 1] == b[|b| - 1];
      ClassifyAllAppend(a, init);
      JoinAssoc(ClassifyAll(a), ClassifyAll(init), Classify(b[|b| - 1]));
    }
  }

  /** A run of statements appends to a list exactly when one of its statements does. */
  lemma {:induction false} ClassifyAllEmpty(ss: seq<Stmt>)
    requires AllShaped(ss)
    ensures ClassifyAll(ss).exp == [] <==> forall i :: 0 <= i < |ss| ==> Classify(ss[i]).exp == []
    ensures ClassifyAll(ss).other == [] <==> forall i :: 0 <= i < |ss| ==> Classify(ss[i]).other == []
  {
    if ss != [] {
      var init := ss[..|ss| - 1];
      ClassifyAllEmpty(init);
      assert forall i :: 0 <= i < |init| ==> init[i] == ss[i];
    }
  }

  /** Every explicit constructor invocation at the top level of a run of statements is collected. */
  lemma TopLevelInvocationCollected(ss: seq<Stmt>, i: nat)
    requires AllShaped(ss) && i < |ss| && IsCtorInvocation(ss[i])
    ensures ss[i] in ClassifyAll(ss).exp
  {
    assert ss == ss[..i + 1] + ss[i + 1..];
    ClassifyAllAppend(ss[..i + 1], ss[i + 1..]);
    ClassifyAllStep(ss, i);
  }

  /**
   * A constructor is hybrid exactly when some statement of its body
   * contributes an explicit constructor invocation and some statement
   * contributes another statement.
   */
  lemma HybridIff(c: ConstructorDecl)
    requires AllShaped(c.body)
    ensures IsHybrid(c) <==>
              (exists i :: 0 <= i < |c.body| && Classify(c.body[i]).exp != [])
              && (exists j :: 0 <= j < |c.body| && Classify(c.body[j]).other != [])
  {
    ClassifyAllEmpty(c.body);
  }

  /** An explicit constructor invocation beside a plain statement expression makes a constructor hybrid. */
  lemma InvocationBesideStatement(c: ConstructorDecl, i: nat, j: nat)
    requires AllShaped(c.body) && i < |c.body| && j < |c.body|
    requires IsCtorInvocation(c.body[i])
    requires c.body[j].kind == STATEMENT_EXPRESSION && !IsCtorInvocation(c.body[j])
    ensures IsHybrid(c)
  {
    HybridIff(c);
    assert Classify(c.body[i]).exp != [];
    assert Classify(c.body[j]).other != [];
  }

  /** A body that holds only explicit constructor invocations is not hybrid. */
  lemma OnlyInvocationsNotHybrid(c: ConstructorDecl)
    requires AllShaped(c.body)
    requires forall i :: 0 <= i < |c.body| ==> IsCtorInvocation(c.body[i])
    ensures !IsHybrid(c)
  {
    HybridIff(c);
    forall j | 0 <= j < |c.body|
      ensures Classify(c.body[j]).other == []
    {
    }
  }

  /** The reported lines are the lines of the hybrid constructors, one per constructor at most. */
  lemma {:induction false} HybridLinesMembers(cs: seq<ConstructorDecl>)
    requires AllBodiesShaped(cs)
    ensures |HybridLines(cs)| <= |cs|
    ensures forall l :: l in HybridLines(cs) <==> exists i :: 0 <= i < |cs| && IsHybrid(cs[i]) && cs[i].line == l
  {
    if cs != [] {
      var init := cs[..|cs| - 1];
      HybridLinesMembers(init);
      assert forall i :: 0 <= i < |init| ==> init[i] == cs[i];
    }
  }
}
