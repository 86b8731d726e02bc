/**
 * The syntax-tree shape the matcher works on: the part of a TypeScript
 * compiler node that node equivalence and the tree walks read, plus the
 * match records the editor actions store.
 *
 * A kind is the compiler's numeric syntax-kind tag. The constants below give
 * the kinds the matcher names a distinct number each; any other number is a
 * kind the matcher treats through its generic arm.
 */
module Syntax {

  datatype Option<T> = None | Some(value: T)

  type Kind = int

  const Unknown: Kind := 0
  const EndOfFileToken: Kind := 1
  const SingleLineCommentTrivia: Kind := 2
  const MultiLineCommentTrivia: Kind := 3
  const NumericLiteral: Kind := 9
  const StringLiteral: Kind := 11
  const RegularExpressionLiteral: Kind := 14
  const NoSubstitutionTemplateLiteral: Kind := 15
  const OpenBraceToken: Kind := 19
  const CloseBraceToken: Kind := 20
  const OpenParenToken: Kind := 21
  const CloseParenToken: Kind := 22
  const SemicolonToken: Kind := 27
  const ExclamationToken: Kind := 54
  const EqualsToken: Kind := 64
  const Identifier: Kind := 80
  const ConstKeyword: Kind := 87
  const DefaultKeyword: Kind := 90
  const ExportKeyword: Kind := 95
  const FalseKeyword: Kind := 97
  const FunctionKeyword: Kind := 100
  const InKeyword: Kind := 103
  const NullKeyword: Kind := 106
  const ReturnKeyword: Kind := 107
  const SuperKeyword: Kind := 108
  const ThisKeyword: Kind := 110
  const TrueKeyword: Kind := 112
  const VoidKeyword: Kind := 116
  const PrivateKeyword: Kind := 123
  const ProtectedKeyword: Kind := 124
  const PublicKeyword: Kind := 125
  const StaticKeyword: Kind := 126
  const AbstractKeyword: Kind := 128
  const AccessorKeyword: Kind := 129
  const AsyncKeyword: Kind := 134
  const DeclareKeyword: Kind := 138
  const ReadonlyKeyword: Kind := 148
  const OutKeyword: Kind := 147
  const OverrideKeyword: Kind := 164
  const UndefinedKeyword: Kind := 157
  const Parameter: Kind := 169
  const Decorator: Kind := 170
  const MethodDeclaration: Kind := 174
  const Constructor: Kind := 176
  const GetAccessor: Kind := 177
  const SetAccessor: Kind := 178
  const PropertyAccessExpression: Kind := 211
  const ElementAccessExpression: Kind := 212
  const CallExpression: Kind := 213
  const NewExpression: Kind := 214
  const ParenthesizedExpression: Kind := 217
  const FunctionExpression: Kind := 218
  const ArrowFunction: Kind := 219
  const PrefixUnaryExpression: Kind := 224
  const PostfixUnaryExpression: Kind := 225
  const BinaryExpression: Kind := 226
  const Block: Kind := 241
  const VariableStatement: Kind := 243
  const ExpressionStatement: Kind := 244
  const IfStatement: Kind := 245
  const ReturnStatement: Kind := 253
  const VariableDeclaration: Kind := 260
  const VariableDeclarationList: Kind := 261
  const FunctionDeclaration: Kind := 262
  const SourceFile: Kind := 312
  const SyntaxList: Kind := 358

  /** The literal kinds whose nodes are compared by their `.text`. */
  predicate IsLiteralKind(k: Kind) {
    k == StringLiteral || k == NumericLiteral || k == RegularExpressionLiteral
    || k == NoSubstitutionTemplateLiteral
  }

  /** The keyword kinds whose nodes are equal whenever their kinds are. */
  predicate IsBareKeywordKind(k: Kind) {
    k == TrueKeyword || k == FalseKeyword || k == NullKeyword || k == UndefinedKeyword
    || k == ThisKeyword || k == SuperKeyword || k == VoidKeyword || k == ExportKeyword
    || k == StaticKeyword || k == AsyncKeyword || k == PublicKeyword || k == PrivateKeyword
    || k == ProtectedKeyword || k == ReadonlyKeyword
  }

  /** Declarations and expressions of the function-like family. */
  predicate IsFunctionLikeKind(k: Kind) {
    k == FunctionDeclaration || k == MethodDeclaration || k == Constructor
    || k == ArrowFunction || k == FunctionExpression || k == GetAccessor || k == SetAccessor
  }

  /** The compiler's modifier test: the keyword kinds that may stand in a modifier list. */
  predicate IsModifierKind(k: Kind) {
    k == AbstractKeyword || k == AccessorKeyword || k == AsyncKeyword || k == ConstKeyword
    || k == DeclareKeyword || k == DefaultKeyword || k == ExportKeyword || k == InKeyword
    || k == PublicKeyword || k == PrivateKeyword || k == ProtectedKeyword
    || k == ReadonlyKeyword || k == StaticKeyword || k == OutKeyword || k == OverrideKeyword
  }

  /** A node array property that the parser may leave undefined. */
  datatype NodeList = Missing | Present(items: seq<Node>)

  /**
   * One parsed node.
   * - `children` is what `getChildren()` returns: every syntactic child in
   *   source order, tokens and `SyntaxList` wrappers included.
   * - `astChildren` is what `forEachChild` visits: the named child nodes, with
   *   node arrays visited element by element.
   * - `start` and `end` are the offsets `getStart()` and `getEnd()` report.
   * - The remaining fields are the kind-specific properties the equivalence
   *   reads; a field that a kind does not have is left empty.
   */
  datatype Node = Node(
    kind: Kind,
    text: string,                   // Identifier.text, or a literal's text
    start: nat,
    end: nat,
    children: seq<Node>,
    astChildren: seq<Node>,
    flags: int,                     // VariableDeclarationList: let/const/var flags
    operator: Kind,                 // binary operator token kind, or unary operator
    modifiers: seq<Kind>,           // kinds in the node's `modifiers` list
    decorators: NodeList,           // decorators, when the kind can have them
    name: Option<Node>,             // declared name, or a property access's member name
    typeNode: Option<Node>,         // declared or return type
    exclamationToken: Option<Node>, // definite-assignment marker
    initializer: Option<Node>,
    declarationList: Option<Node>,
    declarations: NodeList,
    expression: Option<Node>,       // callee, base, condition or inner expression
    argumentExpression: Option<Node>,
    questionDotToken: bool,
    typeArguments: NodeList,
    arguments: NodeList,
    dotDotDotToken: bool,
    questionToken: bool,
    asteriskToken: bool,
    typeParameters: NodeList,
    parameters: NodeList,
    body: Option<Node>,
    statements: NodeList,
    thenStatement: Option<Node>,
    elseStatement: Option<Node>,
    left: Option<Node>,
    right: Option<Node>,
    operand: Option<Node>
  )

  /** A node of kind `k` with every kind-specific field empty. */
  function Leaf(k: Kind): (n: Node)
    ensures n.kind == k && n.children == [] && n.astChildren == []
  {
    Node(k, "", 0, 0, [], [], 0, 0, [], Missing, None, None, None, None, None, Missing,
         None, None, false, Missing, Missing, false, false, false, Missing, Missing, None,
         Missing, None, None, None, None, None)
  }

  /** A span of document offsets, `[start, end)`. */
  datatype Range = Range(start: int, end: int)

  /** How a match was found: by tree shape, or by the normalized-text fallback. */
  datatype Mode = Ast | Text

  datatype MatchResult = MatchResult(range: Range, mode: Mode)

  predicate InDocument(r: Range, docLength: nat) {
    0 <= r.start <= r.end <= docLength
  }
}
