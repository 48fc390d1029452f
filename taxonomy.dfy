/**
 * The closed taxonomy of AST node kinds, and the lookup from the parser's
 * runtime node classes to kinds (aibolit/utils/ast.py:34-113, 313-391).
 */
module Taxonomy {
  import opened Wrappers

  /**
   * A node kind: the value of a member of the kinds enumeration, which numbers
   * its members 1, 2, 3, ... in the order they are declared.
   */
  newtype Kind = k: int | 1 <= k <= 79 witness 1

  const ANNOTATION: Kind := 1
  const ANNOTATION_DECLARATION: Kind := 2
  const ANNOTATION_METHOD: Kind := 3
  const ARRAY_CREATOR: Kind := 4
  const ARRAY_INITIALIZER: Kind := 5
  const ARRAY_SELECTOR: Kind := 6
  const ASSERT_STATEMENT: Kind := 7
  const ASSIGNMENT: Kind := 8
  const BASIC_TYPE: Kind := 9
  const BINARY_OPERATION: Kind := 10
  const BLOCK_STATEMENT: Kind := 11
  const BREAK_STATEMENT: Kind := 12
  const CAST: Kind := 13
  const CATCH_CLAUSE: Kind := 14
  const CATCH_CLAUSE_PARAMETER: Kind := 15
  const CLASS_CREATOR: Kind := 16
  const CLASS_DECLARATION: Kind := 17
  const CLASS_REFERENCE: Kind := 18
  const COLLECTION: Kind := 19
  const COMPILATION_UNIT: Kind := 20
  const CONSTANT_DECLARATION: Kind := 21
  const CONSTRUCTOR_DECLARATION: Kind := 22
  const CONTINUE_STATEMENT: Kind := 23
  const CREATOR: Kind := 24
  const DECLARATION: Kind := 25
  const DO_STATEMENT: Kind := 26
  const DOCUMENTED: Kind := 27
  const ELEMENT_ARRAY_VALUE: Kind := 28
  const ELEMENT_VALUE_PAIR: Kind := 29
  const ENHANCED_FOR_CONTROL: Kind := 30
  const ENUM_BODY: Kind := 31
  const ENUM_CONSTANT_DECLARATION: Kind := 32
  const ENUM_DECLARATION: Kind := 33
  const EXPLICIT_CONSTRUCTOR_INVOCATION: Kind := 34
  const EXPRESSION: Kind := 35
  const FIELD_DECLARATION: Kind := 36
  const FOR_CONTROL: Kind := 37
  const FOR_STATEMENT: Kind := 38
  const FORMAL_PARAMETER: Kind := 39
  const IF_STATEMENT: Kind := 40
  const IMPORT: Kind := 41
  const INFERRED_FORMAL_PARAMETER: Kind := 42
  const INNER_CLASS_CREATOR: Kind := 43
  const INTERFACE_DECLARATION: Kind := 44
  const INVOCATION: Kind := 45
  const LAMBDA_EXPRESSION: Kind := 46
  const LITERAL: Kind := 47
  const LOCAL_VARIABLE_DECLARATION: Kind := 48
  const MEMBER: Kind := 49
  const MEMBER_REFERENCE: Kind := 50
  const METHOD_DECLARATION: Kind := 51
  const METHOD_INVOCATION: Kind := 52
  const METHOD_REFERENCE: Kind := 53
  const PACKAGE_DECLARATION: Kind := 54
  const PRIMARY: Kind := 55
  const REFERENCE_TYPE: Kind := 56
  const RETURN_STATEMENT: Kind := 57
  const STATEMENT: Kind := 58
  const STATEMENT_EXPRESSION: Kind := 59
  const STRING: Kind := 60
  const SUPER_CONSTRUCTOR_INVOCATION: Kind := 61
  const SUPER_MEMBER_REFERENCE: Kind := 62
  const SUPER_METHOD_INVOCATION: Kind := 63
  const SWITCH_STATEMENT: Kind := 64
  const SWITCH_STATEMENT_CASE: Kind := 65
  const SYNCHRONIZED_STATEMENT: Kind := 66
  const TERNARY_EXPRESSION: Kind := 67
  const THIS: Kind := 68
  const THROW_STATEMENT: Kind := 69
  const TRY_RESOURCE: Kind := 70
  const TRY_STATEMENT: Kind := 71
  const TYPE: Kind := 72
  const TYPE_ARGUMENT: Kind := 73
  const TYPE_DECLARATION: Kind := 74
  const TYPE_PARAMETER: Kind := 75
  const VARIABLE_DECLARATION: Kind := 76
  const VARIABLE_DECLARATOR: Kind := 77
  const VOID_CLASS_REFERENCE: Kind := 78
  const WHILE_STATEMENT: Kind := 79

  /**
   * The runtime class of a node the Java parser produces: one constructor per
   * parser class the lookup table lists (named as the class is), and `Unlisted`
   * for any class the table lacks.
   */
  datatype JavalangType =
    | Annotation | AnnotationDeclaration | AnnotationMethod | ArrayCreator | ArrayInitializer
    | ArraySelector | AssertStatement | Assignment | BasicType | BinaryOperation | BlockStatement
    | BreakStatement | Cast | CatchClause | CatchClauseParameter | ClassCreator | ClassDeclaration
    | ClassReference | CompilationUnit | ConstantDeclaration | ConstructorDeclaration
    | ContinueStatement | Creator | Declaration | Documented | DoStatement | ElementArrayValue
    | ElementValuePair | EnhancedForControl | EnumBody | EnumConstantDeclaration | EnumDeclaration
    | ExplicitConstructorInvocation | Expression | FieldDeclaration | ForControl | FormalParameter
    | ForStatement | IfStatement | Import | InferredFormalParameter | InnerClassCreator
    | InterfaceDeclaration | Invocation | LambdaExpression | Literal | LocalVariableDeclaration
    | Member | MemberReference | MethodDeclaration | MethodInvocation | MethodReference
    | PackageDeclaration | Primary | ReferenceType | ReturnStatement | Statement
    | StatementExpression | SuperConstructorInvocation | SuperMemberReference
    | SuperMethodInvocation | SwitchStatement | SwitchStatementCase | SynchronizedStatement
    | TernaryExpression | This | ThrowStatement | TryResource | TryStatement | Type | TypeArgument
    | TypeDeclaration | TypeParameter | VariableDeclaration | VariableDeclarator
    | VoidClassReference | WhileStatement
    | Unlisted(className: string)

  /**
   * The kinds a parser class can map to: every kind but the two synthetic ones,
   * COLLECTION and STRING, which stand for a set of texts and for a text that
   * the parser placed directly in a child slot.
   */
  predicate IsParserKind(k: Kind) {
    k != COLLECTION && k != STRING
  }

  /**
   * The lookup table from parser classes to kinds; `None` is the lookup failure
   * raised for a class the table does not list.
   */
  function TypesMap(t: JavalangType): (r: Option<Kind>)
    ensures r.None? <==> t.Unlisted?
    ensures r.Some? ==> IsParserKind(r.value)
  {
    if t.Unlisted? then None else Some(ListedKind(t))
  }

  /** The kind a listed parser class maps to. */
  function ListedKind(t: JavalangType): (k: Kind)
    requires !t.Unlisted?
    ensures IsParserKind(k)
  {
    match t
    case Annotation => ANNOTATION
    case AnnotationDeclaration => ANNOTATION_DECLARATION
    case AnnotationMethod => ANNOTATION_METHOD
    case ArrayCreator => ARRAY_CREATOR
    case ArrayInitializer => ARRAY_INITIALIZER
    case ArraySelector => ARRAY_SELECTOR
    case AssertStatement => ASSERT_STATEMENT
    case Assignment => ASSIGNMENT
    case BasicType => BASIC_TYPE
    case BinaryOperation => BINARY_OPERATION
    case BlockStatement => BLOCK_STATEMENT
    case BreakStatement => BREAK_STATEMENT
    case Cast => CAST
    case CatchClause => CATCH_CLAUSE
    case CatchClauseParameter => CATCH_CLAUSE_PARAMETER
    case ClassCreator => CLASS_CREATOR
    case ClassDeclaration => CLASS_DECLARATION
    case ClassReference => CLASS_REFERENCE
    case CompilationUnit => COMPILATION_UNIT
    case ConstantDeclaration => CONSTANT_DECLARATION
    case ConstructorDeclaration => CONSTRUCTOR_DECLARATION
    case ContinueStatement => CONTINUE_STATEMENT
    case Creator => CREATOR
    case Declaration => DECLARATION
    case Documented => DOCUMENTED
    case DoStatement => DO_STATEMENT
    case ElementArrayValue => ELEMENT_ARRAY_VALUE
    case ElementValuePair => ELEMENT_VALUE_PAIR
    case EnhancedForControl => ENHANCED_FOR_CONTROL
    case EnumBody => ENUM_BODY
    case EnumConstantDeclaration => ENUM_CONSTANT_DECLARATION
    case EnumDeclaration => ENUM_DECLARATION
    case ExplicitConstructorInvocation => EXPLICIT_CONSTRUCTOR_INVOCATION
    case Expression => EXPRESSION
    case FieldDeclaration => FIELD_DECLARATION
    case ForControl => FOR_CONTROL
    case FormalParameter => FORMAL_PARAMETER
    case ForStatement => FOR_STATEMENT
    case IfStatement => IF_STATEMENT
    case Import => IMPORT
    case InferredFormalParameter => INFERRED_FORMAL_PARAMETER
    case InnerClassCreator => INNER_CLASS_CREATOR
    case InterfaceDeclaration => INTERFACE_DECLARATION
    case Invocation => INVOCATION
    case LambdaExpression => LAMBDA_EXPRESSION
    case Literal => LITERAL
    case LocalVariableDeclaration => LOCAL_VARIABLE_DECLARATION
    case Member => MEMBER
    case MemberReference => MEMBER_REFERENCE
    case MethodDeclaration => METHOD_DECLARATION
    case MethodInvocation => METHOD_INVOCATION
    case MethodReference => METHOD_REFERENCE
    case PackageDeclaration => PACKAGE_DECLARATION
    case Primary => PRIMARY
    case ReferenceType => REFERENCE_TYPE
    case ReturnStatement => RETURN_STATEMENT
    case Statement => STATEMENT
    case StatementExpression => STATEMENT_EXPRESSION
    case SuperConstructorInvocation => SUPER_CONSTRUCTOR_INVOCATION
    case SuperMemberReference => SUPER_MEMBER_REFERENCE
    case SuperMethodInvocation => SUPER_METHOD_INVOCATION
    case SwitchStatement => SWITCH_STATEMENT
    case SwitchStatementCase => SWITCH_STATEMENT_CASE
    case SynchronizedStatement => SYNCHRONIZED_STATEMENT
    case TernaryExpression => TERNARY_EXPRESSION
    case This => THIS
    case ThrowStatement => THROW_STATEMENT
    case TryResource => TRY_RESOURCE
    case TryStatement => TRY_STATEMENT
    case Type => TYPE
    case TypeArgument => TYPE_ARGUMENT
    case TypeDeclaration => TYPE_DECLARATION
    case TypeParameter => TYPE_PARAMETER
    case VariableDeclaration => VARIABLE_DECLARATION
    case VariableDeclarator => VARIABLE_DECLARATOR
    case VoidClassReference => VOID_CLASS_REFERENCE
    case WhileStatement => WHILE_STATEMENT
  }
}
