# aibolit core in Dafny

This project models three parts of aibolit, a tool that finds design patterns in Java code:

1. The AST framework, `aibolit/utils/ast.py`.
   - The builder turns the tree produced by the Java parser into a store of integer-addressed node records.
     The records carry a node kind, an optional source line and, for STRING leaves, a text.
     Each node has an ordered list of successors.
   - The query layer answers questions about that store:
     - immediate children of a kind, and padded prefixes of them;
     - maximal subtrees whose root has a given kind;
     - node kinds in preorder, and nodes of a kind;
     - attribute lookup and the line of the first child that has one;
     - decoding of binary operations, method invocations and member references from their STRING children.
2. The counting and partition helpers of `aibolit/model/stats.py`: `divide_array`, `count_acts`, `get_minimum` and `get_array`.
3. The hybrid-constructor pattern of `aibolit/patterns/hybrid_constructor/hybrid_constructor.py`.
   It sorts the statements of a constructor body into explicit constructor invocations and other statements.
   It reports the constructor's line when both groups are non-empty.
   Only `this(...)` counts as an explicit constructor invocation; `super(...)` is a node of another kind, so a constructor that delegates only through `super(...)` is never reported.

Modules:

- `Wrappers`: `Option` and `Result`.
- `Taxonomy`: the node-kind enumeration, and the lookup from parser classes to kinds.
- `ParseTree`: the parser's tree as a datatype.
  Child slots can hold a node, nothing, an ignored scalar, a text, a set of texts, or a nested list.
- `Arena`: the built store.
  - `Tree` is the abstract shape of a build.
  - `Nodes`, `Succs` and `AstOf` lay a tree out in preorder, with handles `1..N`.
  - `Valid` states the invariants every built store has.
- `Builder`:
  - the pure conversion `ConvertNode`/`Build`;
  - a `Graph` class holding the mutable node and successor lists;
  - one method per builder routine, each proved to leave the graph exactly as the pure conversion lays it out.
- `Queries`: the query layer.
  - `DfsLabeledEdges` is the forward/reverse event stream of a depth-first walk, written out explicitly.
  - `SubtreesWithRootType` is the event-driven state machine, as a loop.
  - The lemmas about maximal subtrees are proved through the tree view (`Laid`, `Maximal`).
- `Stats`: the stats helpers over integer matrices.
  `DivideArray`, `CountActs` and `GetArray` are loops, each proved against a specification function.
- `HybridConstructor`: the pattern.
  - `Stmt` is an abstract statement with optional fields: expression, statements, then/else, body, try parts.
  - `StatementLists` is the pair of lists the traversal appends to.
  - The methods `Traverse`, `TraverseInIf`, `TraverseInTry` and `Value` are proved against the pure classifier `Classify`.

## Model

| member | source | states |
|---|---|---|
| Taxonomy.TypesMap | aibolit/utils/ast.py:313-391 | the lookup fails exactly for a parser class the table does not list; a listed class never maps to the synthetic COLLECTION or STRING kinds |
| Taxonomy.ListedKind | aibolit/utils/ast.py:313-391 | every listed parser class maps to a kind a parser node can have |
| Arena.AstOfValid | aibolit/utils/ast.py:258-264 | a tree laid out in preorder from handle 1 has one record per node; the root is handle 1; every successor handle is greater than its parent and in 1..N; every node but the root has exactly one parent; every STRING record carries its text |
| Arena.SuccsTargets | aibolit/utils/ast.py:266-274 | the edges of a laid-out subtree enter each handle of the subtree except its root exactly once, and no handle outside it |
| Arena.SuccsListTargets | aibolit/utils/ast.py:266-274 | the roots of consecutive subtrees, together with the targets of their edges, are the handles those subtrees occupy, each exactly once |
| Arena.AstOfOneParent | aibolit/utils/ast.py:258-274 | in a built store, handle 1 is nobody's child and every other handle is the child of exactly one node |
| Arena.SuccsForward | aibolit/utils/ast.py:258-264 | in the laid-out successor lists, every child handle is greater than its parent's handle and lies inside the parent's subtree block |
| Arena.RootsBounds | aibolit/utils/ast.py:266-274 | the handles of a node's children fall inside the block of handles numbered for that node's subtree |
| Builder.ConvertItems | aibolit/utils/ast.py:300-311 | a set's elements convert iff none is other than a text or None; the failure is the unexpected-item error; on success there is one STRING leaf per text element, in iteration order, carrying that text |
| Builder.Graph.constructor | aibolit/utils/ast.py:128-132 | the graph starts with no nodes or edges |
| Builder.Graph.AddNode | aibolit/utils/ast.py:259-260 | the new node gets handle count+1; one record and an empty successor list are appended; nothing else changes |
| Builder.Graph.AddEdge | aibolit/utils/ast.py:272-274 | the edge u→v is appended to u's successors unless it is already there; nothing else changes |
| Builder.BuildFromJavalang | aibolit/utils/ast.py:128-132 | the result is exactly `Build(root)`, the pure conversion; on success the store is valid |
| Builder.BuildNode | aibolit/utils/ast.py:258-264 | fails iff the conversion fails, with the same error; on success the node's handle is count+1; the graph gains exactly the node's preorder records and successor lists, numbered after the existing ones |
| Builder.IterateOverChildrenList | aibolit/utils/ast.py:266-274 | slots are handled in order and nested lists are flattened under the same parent; the graph gains the children's layouts; the parent gains edges to the children's roots in slot order; a failing slot gives its error |
| Builder.AddChild | aibolit/utils/ast.py:269-274 | one non-list slot: its layout is appended and the parent gets an edge to it; a skipped slot adds neither |
| Builder.HandleJavalangAstNode | aibolit/utils/ast.py:283-292 | a node, set or text adds its layout and returns its handle; any other slot returns the skip marker and leaves the graph unchanged |
| Builder.HandleStringNode | aibolit/utils/ast.py:294-298 | appends one STRING record carrying the text, with no successors; returns handle count+1 |
| Builder.HandleCollectionNode | aibolit/utils/ast.py:300-311 | appends a COLLECTION node followed by one STRING leaf per text element, each an edge from the COLLECTION node; fails iff an element is not a text or None |
| Builder.ConvertNodeParts | aibolit/utils/ast.py:258-264 | an unknown parser class fails the node before its children are looked at; then a failing child fails the node with that child's error |
| Builder.ConvertChildrenPrefixFails | aibolit/utils/ast.py:266-274 | once a slot fails, the whole children list fails with that error |
| Builder.ConvertSucceeds | aibolit/utils/ast.py:258-311 | the build succeeds iff every parser class in the tree is listed and no set holds an element that is not a text or None |
| Builder.ConvertSize | aibolit/utils/ast.py:258-311 | the number of nodes built is one per parser node, text slot, set and text element of a set |
| Builder.ConvertTexts | aibolit/utils/ast.py:294-298 | every STRING node of a build carries its text |
| Builder.ConvertChildrenAppend | aibolit/utils/ast.py:266-274 | the children of a concatenated slot list are the children of each part, in order |
| Builder.FlattenNested | aibolit/utils/ast.py:268-269 | a nested list contributes exactly what its elements would contribute in place |
| Builder.SkippedSlot | aibolit/utils/ast.py:283-292 | a None slot or a scalar slot adds no node and no edge, wherever it stands |
| Builder.BuildShape | aibolit/utils/ast.py:128-132 | the build succeeds iff the tree is buildable; a failure carries the conversion's error; a success is a valid store with one record per built node |
| Queries.AttrMap | aibolit/utils/ast.py:276-281 | a record always has `type`, holding its kind; it has `source_code_line` iff the parser position has a line, holding that line; it has `string` iff it is a text, holding that text; it has no other keys |
| Queries.GetAttr | aibolit/utils/ast.py:222-223 | an absent key yields the caller's default; a present key yields the value stored under it |
| Queries.GetType | aibolit/utils/ast.py:225-226 | the kind is the record's `type` attribute |
| Queries.LineOrMinusOne | aibolit/utils/ast.py:207 | the `source_code_line` attribute with default -1; it is -1 when the parser position had no line |
| Queries.ChildrenWithType | aibolit/utils/ast.py:174-180 | a handle is yielded iff it is an immediate child of kind k; nothing is yielded iff no child has kind k |
| Queries.FilterKindAppend | aibolit/utils/ast.py:174-180 | the kind filter keeps successor order: filtering a concatenation gives the filtered parts one after the other |
| Queries.FilterKindIncreasing | aibolit/utils/ast.py:174-180 | filtering ascending handles by kind keeps them ascending |
| Queries.AllChildrenWithType | aibolit/utils/ast.py:182-189 | the same sequence as `ChildrenWithType`, because the recursive call's result is discarded |
| Queries.PadTake | aibolit/utils/ast.py:196-198 | the padded prefix has length q; slot i is the i-th match while matches last, and None after |
| Queries.GetFirstNChildrenWithType | aibolit/utils/ast.py:191-198 | a negative quantity is an error; otherwise the result has length q; slot i is the i-th immediate child of kind k if there is one, else None |
| Queries.GetBinaryOperationName | aibolit/utils/ast.py:200-203 | a node of another kind fails the assertion; succeeds iff the node has a STRING child; returns the first STRING child's text |
| Queries.StringParams | aibolit/utils/ast.py:230-231 | one text per STRING child, in child order |
| Queries.DecodeMethodInvocation | aibolit/utils/ast.py:228-236 | succeeds iff there is at least one text; with one text the object name is empty and the method name is that text; otherwise they are the first and the second text |
| Queries.MethodInvocationRoundTrip | aibolit/utils/ast.py:228-236 | decoding the STRING children of an encoded invocation gives back its object and method names |
| Queries.MethodInvocationIgnoresExtra | aibolit/utils/ast.py:234-236 | texts after the first two do not change the decoded invocation |
| Queries.GetMethodInvocationParams | aibolit/utils/ast.py:228-236 | a node of another kind fails the assertion; otherwise the result is the decode of its STRING children |
| Queries.DecodeMemberReference | aibolit/utils/ast.py:238-256 | succeeds iff there are 1 to 3 texts, failing otherwise with an error carrying the texts; the member name is the last text; the object name is empty for one text and otherwise the text before the last; the unary operator is empty unless there are three, when it is the first text |
| Queries.MemberReferenceRoundTrip | aibolit/utils/ast.py:238-256 | decoding an encoded member reference gives it back, including the field-order shift at three texts |
| Queries.GetMemberReferenceParams | aibolit/utils/ast.py:238-256 | a node of another kind fails the assertion; otherwise the result is the decode of its STRING children |
| Queries.GetLineNumberFromChildren | aibolit/utils/ast.py:205-210 | returns the line of the first immediate child whose line is ≥ 0, or 0 when there is none (the result is never negative) |
| Queries.DfsLabeledEdges | aibolit/utils/ast.py:159 | the event stream of a depth-first walk only names handles of the store |
| Queries.EnteredTree | aibolit/utils/ast.py:159 | the forward events of a laid-out subtree enter its handles in ascending, that is preorder, order |
| Queries.NodeTypesInHandleOrder | aibolit/utils/ast.py:212-217 | for a built store, the preorder walk visits handles 1..N in order, so `node_types` has length N and entry i is the kind of handle i+1 |
| Queries.NodeTypes | aibolit/utils/ast.py:212-217 | one kind per node visited in preorder |
| Queries.NodesByType | aibolit/utils/ast.py:219-220 | exactly the handles of kind k, in ascending order |
| Queries.SubtreesWithRootType | aibolit/utils/ast.py:152-172 | the loop over the walk's events yields exactly what the event-by-event state machine `Subtrees` yields |
| Queries.SubtreesOfTree | aibolit/utils/ast.py:152-172 | on a built store, the state machine yields the maximal subtrees of the tree, the root included when its kind matches |
| Queries.SubtreesWithRootTypeMaximal | aibolit/utils/ast.py:152-172 | each yielded list starts with a node of kind k and is that node's whole subtree in preorder; every node of an earlier list precedes every node of a later one, so no root lies in another list and lists come in preorder of their roots; every node of kind k is in exactly one list |
| Queries.RunAppend | aibolit/utils/ast.py:159-172 | running the state machine over two event runs is running it over the first and then the second |
| Queries.ScanInside | aibolit/utils/ast.py:161-163 | inside an open subtree, every forward event only appends its node until the root's reverse event |
| Stats.DivideArray | aibolit/model/stats.py:106-124 | the two results are `RowsWhere(x, idx, true)` and `RowsWhere(x, idx, false)` |
| Stats.RowsWhereMembers | aibolit/model/stats.py:118-122 | a row is in `nulls` iff it is a row of X whose entry idx is 0, and in `not_nulls` iff it is a row whose entry is not 0 |
| Stats.RowsWhereAppend | aibolit/model/stats.py:118-122 | the partition of concatenated rows is the concatenation of the partitions, so row order is kept |
| Stats.RowsWherePartition | aibolit/model/stats.py:106-124 | the lengths add up to the row count, and the two parts together are a permutation of X |
| Stats.CountActs | aibolit/model/stats.py:31-45 | m and p are the act-1 and act-2 histograms of the top-ranked pattern over all rows |
| Stats.Histogram | aibolit/model/stats.py:36-39 | the histogram has one entry per column of `ranked` |
| Stats.HistogramCounts | aibolit/model/stats.py:40-44 | entry j counts exactly the rows whose act is the given one and whose top-ranked pattern is j |
| Stats.HistogramSum | aibolit/model/stats.py:40-44 | the entries of a histogram add up to the number of rows with that act |
| Stats.HistogramsTotal | aibolit/model/stats.py:40-45 | sum(m) + sum(p) is the number of rows whose act is 1 or 2 |
| Stats.GetMinimum | aibolit/model/stats.py:126-140 | fails iff the three arrays differ in length; otherwise each position holds the least of the three values and the first array index (0, 1 or 2) that attains it |
| Stats.Selected | aibolit/model/stats.py:155 | the selected increments are at most one per row; an all-true mask column selects all of them |
| Stats.SelectedSnoc | aibolit/model/stats.py:155 | a further row adds its increment at the end of the selection exactly when its mask entry in column i is set, so the selection is the increments of the set rows in row order |
| Stats.SelectedCount | aibolit/model/stats.py:155 | the selection has one increment per row whose mask entry in column i is set |
| Stats.GetArray | aibolit/model/stats.py:142-157 | an index error when `incr` and the mask differ in length; a value error unless the selection has one entry per row or exactly one; otherwise a copy of the same shape in which only column i changes, rising by the row's increment or the single one |
| HybridConstructor.StatementLists.constructor | aibolit/patterns/hybrid_constructor/hybrid_constructor.py:106-107 | both lists start empty |
| HybridConstructor.StatementLists.AppendCtorInvocation | aibolit/patterns/hybrid_constructor/hybrid_constructor.py:68 | the statement is appended to the invocations and the other list is unchanged |
| HybridConstructor.StatementLists.AppendOther | aibolit/patterns/hybrid_constructor/hybrid_constructor.py:70 | the entry is appended to the other statements and the invocations are unchanged |
| HybridConstructor.Traverse | aibolit/patterns/hybrid_constructor/hybrid_constructor.py:57-87 | the lists become their old contents followed by exactly `Classify(statement)`; traversal only appends |
| HybridConstructor.TraverseInIf | aibolit/patterns/hybrid_constructor/hybrid_constructor.py:38-55 | the lists become their old contents followed by exactly `ClassifyInIf(val)` |
| HybridConstructor.TraverseInTry | aibolit/patterns/hybrid_constructor/hybrid_constructor.py:89-100 | the lists become their old contents followed by exactly `ClassifyInTry(statement)` |
| HybridConstructor.Value | aibolit/patterns/hybrid_constructor/hybrid_constructor.py:102-115 | the lines returned are `HybridLines(ctors)`: each constructor starts from empty lists and its line is reported iff it is hybrid |
| HybridConstructor.ClassifySound | aibolit/patterns/hybrid_constructor/hybrid_constructor.py:57-100 | only explicit constructor invocations ever reach the invocation list; no entry of either list is larger (counts more reachable nodes) than the statement visited |
| HybridConstructor.CtorInvocationsOnly | aibolit/patterns/hybrid_constructor/hybrid_constructor.py:65-70 | every entry of the invocation list is a statement expression whose expression is an explicit constructor invocation |
| HybridConstructor.StatementExpressionRouting | aibolit/patterns/hybrid_constructor/hybrid_constructor.py:30-36 | a statement expression goes to the invocations iff its expression is an explicit constructor invocation, and to the other statements otherwise; it adds exactly one entry |
| HybridConstructor.TryStatementAppended | aibolit/patterns/hybrid_constructor/hybrid_constructor.py:89-100 | a try statement contributes itself, as the first entry of the other statements, iff it has resources, a non-empty first catch block or a finally block; then comes what its block's statements contribute, which never includes the try statement |
| HybridConstructor.LoopNotAppended | aibolit/patterns/hybrid_constructor/hybrid_constructor.py:73-77 | a do or while statement is never appended; it contributes exactly what its body's children contribute |
| HybridConstructor.ForAppendedPerChild | aibolit/patterns/hybrid_constructor/hybrid_constructor.py:78-81 | a for statement is appended once per body child, never to the invocations, and an empty body contributes nothing |
| HybridConstructor.IfAppendedOnce | aibolit/patterns/hybrid_constructor/hybrid_constructor.py:82-85 | an if statement is appended first, then come its then and else branches visited with `traverse_in_if`; it appears nowhere else |
| HybridConstructor.BranchContents | aibolit/patterns/hybrid_constructor/hybrid_constructor.py:38-55 | a branch with neither statements nor then/else contributes nothing; a block contributes its statements; a nested if contributes, in this order, its block's statements, what visiting its then branch contributes, the then branch itself, what visiting its else branch contributes and the else entry (None when absent); a missing branch contributes nothing |
| HybridConstructor.DefaultAppended | aibolit/patterns/hybrid_constructor/hybrid_constructor.py:86-87 | any other statement kind contributes exactly itself to the other statements |
| HybridConstructor.ClassifyAllAppend | aibolit/patterns/hybrid_constructor/hybrid_constructor.py:108-109 | classifying concatenated statement lists concatenates their contributions |
| HybridConstructor.ClassifyAllEmpty | aibolit/patterns/hybrid_constructor/hybrid_constructor.py:108-109 | a body's list is empty iff every statement contributes nothing to it |
| HybridConstructor.TopLevelInvocationCollected | aibolit/patterns/hybrid_constructor/hybrid_constructor.py:65-68 | a top-level explicit constructor invocation in a body is in the invocation list |
| HybridConstructor.HybridIff | aibolit/patterns/hybrid_constructor/hybrid_constructor.py:111-113 | a constructor is hybrid iff some body statement contributes an invocation and some body statement contributes another entry |
| HybridConstructor.InvocationBesideStatement | aibolit/patterns/hybrid_constructor/hybrid_constructor.py:102-115 | a body with an explicit constructor invocation and another statement expression is hybrid |
| HybridConstructor.OnlyInvocationsNotHybrid | aibolit/patterns/hybrid_constructor/hybrid_constructor.py:102-115 | a body made only of explicit constructor invocations is not hybrid |
| HybridConstructor.HybridLinesMembers | aibolit/patterns/hybrid_constructor/hybrid_constructor.py:102-115 | a line is reported iff it is the line of a hybrid constructor; there are never more lines than constructors |

## Left out

- The Java parser and the graph library are not modelled.
  - The parser's tree is given as a `ParseTree.JNode` value.
  - The graph is the `Builder.Graph` class, with ordered successor lists.
  - The depth-first event stream and the preorder walk are written out over that class.
- The visited set of the graph library's depth-first walk, and its 'nontree' events, are not modelled. Every store the builder produces is a tree (`Arena.OneParent`, part of `Valid`), so the walk never meets a node twice.
- Graph attribute merging is not modelled. The builder's two `add_node` calls for one parser node, one for the kind and one for the line, are modelled as a single record written once.
- The graph's state after a failed build is not modelled: the records added before the error are unspecified.
  The source raises exceptions (`KeyError` for an unknown class, `RuntimeError` for a bad set element), and the store being built is then unusable.
- Set iteration order is not modelled.
  - A set slot is a sequence of elements in some iteration order, and the model's contracts hold for every order.
  - No particular order is assumed.
- `AST.__str__` is not modelled; it is a diagnostic dump that depends on enum text formatting.
- `cached_property` memoisation of `node_types` is not modelled: `NodeTypes` is a pure function, and caching only affects speed.
- Query preconditions: the queries require a valid store, because the source only ever builds valid ones. A handle outside the store, which would be a `KeyError`, is ruled out by preconditions.
- Queries.GetFirstNChildrenWithType: a negative `quantity` is modelled as an error. `islice` raises `ValueError` for it; the model does not special-case the message.
- Queries.GetAttr: the stored values are the three attribute kinds the builder writes (kind, line, text), not arbitrary Python values.
- Taxonomy.TypesMap: injectivity of the table and its inverse are not stated. The model only uses the lookup direction.
- Stats: matrix entries are integers rather than floating-point numbers, and numpy arrays are sequences of rows. The returned `np.array` conversion, negative indexing and broadcasting are modelled only where they matter:
  - the one-entry broadcast in `get_array`;
  - the stacking error in `get_minimum`.
- Stats.CountActs: `ranked` must be rectangular with at least one column, and `acts` must have an entry per row. Every row with act 1 or 2 must name a column of the histogram by a non-negative number. Otherwise numpy would raise an `IndexError`, or wrap a negative pattern number around to the end; those paths are ruled out by preconditions rather than modelled.
- Stats.DivideArray: every row must have an entry `pattern_idx`; a shorter row would make the source raise `IndexError`, which is ruled out by a precondition.
- The model-driven stats (`aibolit_stat`, `check_impact`, `get_table`, `get_patterns_name`) and the ML pipeline are not part of this model: they use a pickled model, pandas, configuration files and file I/O.
- The plumbing of `HybridConstructor.value` is not modelled: `build_ast`, `AST.build_from_javalang` and `get_proxy_nodes`. The AST proxy framework it uses is not part of this model, so constructors are given as a sequence of `ConstructorDecl` values.
- HybridConstructor.Traverse: the statement must be well-shaped (`Shaped`). A statement lacking the field its kind is read through would make the source raise `AttributeError`, and an empty catches list would make it raise `IndexError`; these error paths are ruled out by a precondition rather than modelled.
- Python's `hasattr` tests on statements are modelled by the `Option` fields of `Stmt`. A field the parser class lacks is `None`.
- A constructor's line is modelled as an integer.
