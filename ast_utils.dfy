/**
 * Structural node equivalence and pattern selection, as the current search
 * uses them (src/astUtils.ts).
 *
 * The `ignoreIdentifiers` flag is honoured at the call it is given to: by an
 * Identifier compared at that call, and by a function-like node's own name.
 * Every other nested comparison is made with the flag off.
 */
module AstUtils {
  import opened Syntax
  import opened JsStrings

  // ---------------------------------------------------------------------------
  // Equivalence
  // ---------------------------------------------------------------------------

  /** `areNodesBasicallyEqual` on possibly-absent nodes. */
  function AreNodesBasicallyEqual(a: Option<Node>, b: Option<Node>, ignore: bool): (r: bool)
    ensures a.None? && b.None? ==> r
    ensures a.None? != b.None? ==> !r
    ensures a.Some? && b.Some? ==> (r <==> NodesEqual(a.value, b.value, ignore))
    decreases a, 3
  {
    if a.None? && b.None? then true
    else if a.None? || b.None? then false
    else NodesEqual(a.value, b.value, ignore)
  }

  /** The kind switch of `areNodesBasicallyEqual`, for two present nodes. */
  function NodesEqual(x: Node, y: Node, ignore: bool): (r: bool)
    ensures x.kind != y.kind ==> !r
    ensures x.kind == Identifier == y.kind ==> (r <==> ignore || x.text == y.text)
    ensures x.kind == y.kind && IsLiteralKind(x.kind) ==> (r <==> x.text == y.text)
    ensures x.kind == y.kind && IsBareKeywordKind(x.kind) ==> r
    decreases x, 2
  {
    if x.kind != y.kind then false
    else if x.kind == Identifier then ignore || x.text == y.text
    else if IsLiteralKind(x.kind) then x.text == y.text
    else if IsBareKeywordKind(x.kind) then true
    else if x.kind == VariableDeclaration then VariableDeclarationEqual(x, y)
    else if x.kind == VariableDeclarationList then VariableDeclarationListEqual(x, y)
    else if x.kind == VariableStatement then VariableStatementEqual(x, y)
    else if x.kind == ExpressionStatement then AreNodesBasicallyEqual(x.expression, y.expression, false)
    else if x.kind == CallExpression || x.kind == NewExpression then CallEqual(x, y)
    else if x.kind == PropertyAccessExpression || x.kind == ElementAccessExpression then AccessEqual(x, y)
    else if x.kind == Parameter then ParameterEqual(x, y)
    else if IsFunctionLikeKind(x.kind) then FunctionLikeEqual(x, y, ignore)
    else if x.kind == Block then CompareNodeArrays(x.statements, y.statements)
    else if x.kind == IfStatement then IfEqual(x, y)
    else if x.kind == BinaryExpression then BinaryEqual(x, y)
    else if x.kind == PrefixUnaryExpression || x.kind == PostfixUnaryExpression then
      x.operator == y.operator && AreNodesBasicallyEqual(x.operand, y.operand, false)
    else if x.kind == ParenthesizedExpression then AreNodesBasicallyEqual(x.expression, y.expression, false)
    else SignificantChildrenEqual(x, y)
  }

  predicate VariableDeclarationEqual(x: Node, y: Node)
    decreases x, 1
  {
    AreNodesBasicallyEqual(x.name, y.name, false)
    && AreNodesBasicallyEqual(x.typeNode, y.typeNode, false)
    && AreNodesBasicallyEqual(x.exclamationToken, y.exclamationToken, false)
    && AreNodesBasicallyEqual(x.initializer, y.initializer, false)
  }

  predicate VariableDeclarationListEqual(x: Node, y: Node)
    decreases x, 1
  {
    x.flags == y.flags && CompareNodeArrays(x.declarations, y.declarations)
  }

  predicate VariableStatementEqual(x: Node, y: Node)
    decreases x, 1
  {
    CompareNodeArrays(x.decorators, y.decorators)
    && CompareModifiers(ModifiersOnly(x.modifiers), ModifiersOnly(y.modifiers))
    && AreNodesBasicallyEqual(x.declarationList, y.declarationList, false)
  }

  predicate CallEqual(x: Node, y: Node)
    decreases x, 1
  {
    AreNodesBasicallyEqual(x.expression, y.expression, false)
    && CompareNodeArrays(x.typeArguments, y.typeArguments)
    && CompareNodeArrays(x.arguments, y.arguments)
  }

  /** Property access compares member names, element access the index expressions. */
  predicate AccessEqual(x: Node, y: Node)
    decreases x, 1
  {
    AreNodesBasicallyEqual(x.expression, y.expression, false)
    && (if x.kind == PropertyAccessExpression
        then AreNodesBasicallyEqual(x.name, y.name, false)
        else AreNodesBasicallyEqual(x.argumentExpression, y.argumentExpression, false))
    && x.questionDotToken == y.questionDotToken
  }

  predicate ParameterEqual(x: Node, y: Node)
    decreases x, 1
  {
    CompareNodeArrays(x.decorators, y.decorators)
    && CompareModifiers(ModifiersOnly(x.modifiers), ModifiersOnly(y.modifiers))
    && x.dotDotDotToken == y.dotDotDotToken
    && AreNodesBasicallyEqual(x.name, y.name, false)
    && x.questionToken == y.questionToken
    && AreNodesBasicallyEqual(x.typeNode, y.typeNode, false)
    && AreNodesBasicallyEqual(x.initializer, y.initializer, false)
  }

  /** The one arm that hands the flag on: to the node's own name. */
  predicate FunctionLikeEqual(x: Node, y: Node, ignore: bool)
    decreases x, 1
  {
    CompareNodeArrays(x.decorators, y.decorators)
    && CompareModifiers(ModifiersOnly(x.modifiers), ModifiersOnly(y.modifiers))
    && x.asteriskToken == y.asteriskToken
    && AreNodesBasicallyEqual(x.name, y.name, ignore)
    && CompareNodeArrays(x.typeParameters, y.typeParameters)
    && CompareNodeArrays(x.parameters, y.parameters)
    && AreNodesBasicallyEqual(x.typeNode, y.typeNode, false)
    && AreNodesBasicallyEqual(x.body, y.body, false)
  }

  predicate IfEqual(x: Node, y: Node)
    decreases x, 1
  {
    AreNodesBasicallyEqual(x.expression, y.expression, false)
    && AreNodesBasicallyEqual(x.thenStatement, y.thenStatement, false)
    && AreNodesBasicallyEqual(x.elseStatement, y.elseStatement, false)
  }

  predicate BinaryEqual(x: Node, y: Node)
    decreases x, 1
  {
    x.operator == y.operator
    && AreNodesBasicallyEqual(x.left, y.left, false)
    && AreNodesBasicallyEqual(x.right, y.right, false)
  }

  /** The elements of a node array, an undefined one read as empty. */
  function Items(l: NodeList): seq<Node> {
    if l.Present? then l.items else []
  }

  /** `compareNodeArrays`: an undefined array is empty; elements compared with the flag off. */
  function CompareNodeArrays(a: NodeList, b: NodeList): (r: bool)
    ensures r <==> |Items(a)| == |Items(b)|
                   && forall i :: 0 <= i < |Items(a)| ==> NodesEqual(Items(a)[i], Items(b)[i], false)
    decreases a, 3
  {
    match (a, b)
    case (Missing, Missing) => true
    case (Missing, Present(ys)) => |ys| == 0
    case (Present(xs), Missing) => |xs| == 0
    case (Present(xs), Present(ys)) => ListsEqual(xs, ys)
  }

  /** Same length and pairwise equal with the flag off. */
  predicate ListsEqual(xs: seq<Node>, ys: seq<Node>)
    decreases xs, 1
  {
    |xs| == |ys| && forall i :: 0 <= i < |xs| ==> NodesEqual(xs[i], ys[i], false)
  }

  /** The default arm: trivia-filtered `getChildren` lists, pairwise with the flag off. */
  predicate SignificantChildrenEqual(x: Node, y: Node)
    decreases x, 1
  {
    var sa, sb := Significant(x.children), Significant(y.children);
    |sa| == |sb|
    && forall i :: 0 <= i < |sa| ==> (assert sa[i] in x.children; NodesEqual(sa[i], sb[i], false))
  }

  /** `isTriviaNode`: a comment, or a `SyntaxList` without children. */
  predicate IsTriviaNode(n: Node) {
    n.kind == SingleLineCommentTrivia || n.kind == MultiLineCommentTrivia
    || (n.kind == SyntaxList && |n.children| == 0)
  }

  /** `children.filter(n => !isTriviaNode(n))`. */
  function Significant(s: seq<Node>): (r: seq<Node>)
    ensures forall n :: n in r ==> n in s && !IsTriviaNode(n)
    ensures forall n :: n in s && !IsTriviaNode(n) ==> n in r
    ensures |r| <= |s|
  {
    if s == [] then []
    else if IsTriviaNode(s[0]) then Significant(s[1..])
    else [s[0]] + Significant(s[1..])
  }

  /** `(modifiers || []).filter(ts.isModifier)`, on kinds. */
  function ModifiersOnly(s: seq<Kind>): (r: seq<Kind>)
    ensures forall k :: k in r <==> k in s && IsModifierKind(k)
    ensures multiset(r) <= multiset(s)
    ensures forall k :: multiset(r)[k] == if IsModifierKind(k) then multiset(s)[k] else 0
  {
    if s == [] then []
    else
      assert s == [s[0]] + s[1..];
      if IsModifierKind(s[0]) then [s[0]] + ModifiersOnly(s[1..])
      else ModifiersOnly(s[1..])
  }

  // ---------------------------------------------------------------------------
  // Modifier comparison
  // ---------------------------------------------------------------------------

  predicate SortedKinds(s: seq<Kind>) {
    forall i, j :: 0 <= i < j < |s| ==> s[i] <= s[j]
  }

  function InsertKind(k: Kind, s: seq<Kind>): (r: seq<Kind>)
    requires SortedKinds(s)
    ensures SortedKinds(r) && multiset(r) == multiset(s) + multiset{k}
  {
    if s == [] then [k]
    else if k <= s[0] then [k] + s
    else
      var t := InsertKind(k, s[1..]);
      assert s == [s[0]] + s[1..];
      LowerBoundKept(s[0], k, s[1..], t);
      [s[0]] + t
  }

  /** A bound below `k` and below every element of `u` bounds a list holding `u` and `k`. */
  lemma LowerBoundKept(b: Kind, k: Kind, u: seq<Kind>, t: seq<Kind>)
    requires b <= k && forall i :: 0 <= i < |u| ==> b <= u[i]
    requires multiset(t) == multiset(u) + multiset{k}
    ensures forall i :: 0 <= i < |t| ==> b <= t[i]
  {
    forall i | 0 <= i < |t|
      ensures b <= t[i]
    {
      assert t[i] in multiset(t);
      if t[i] != k {
        assert t[i] in multiset(u);
      }
    }
  }

  /** `.map(m => m.kind).sort()`, ordering kinds numerically. */
  function SortKinds(s: seq<Kind>): (r: seq<Kind>)
    ensures SortedKinds(r) && multiset(r) == multiset(s)
  {
    if s == [] then []
    else
      assert s == [s[0]] + s[1..];
      InsertKind(s[0], SortKinds(s[1..]))
  }

  /** `compareModifiers`: the sorted kind lists agree position by position. */
  function CompareModifiers(a: seq<Kind>, b: seq<Kind>): bool {
    var ka, kb := SortKinds(a), SortKinds(b);
    |ka| == |kb| && forall i :: 0 <= i < |ka| ==> ka[i] == kb[i]
  }

  /** Two sorted lists holding the same multiset are the same list. */
  lemma {:induction false} SortedUnique(xs: seq<Kind>, ys: seq<Kind>)
    requires SortedKinds(xs) && SortedKinds(ys) && multiset(xs) == multiset(ys)
    ensures xs == ys
  {
    if xs == [] {
      assert |multiset(ys)| == 0;
    } else {
      SortedHeadsAgree(xs, ys);
      SameTailMultiset(xs, ys);
      SortedTail(xs);
      SortedTail(ys);
      SortedUnique(xs[1..], ys[1..]);
      assert xs == [xs[0]] + xs[1..] && ys == [ys[0]] + ys[1..];
    }
  }

  /** The least kind comes first in both sorted lists. */
  lemma SortedHeadsAgree(xs: seq<Kind>, ys: seq<Kind>)
    requires SortedKinds(xs) && SortedKinds(ys) && multiset(xs) == multiset(ys) && xs != []
    ensures ys != [] && xs[0] == ys[0]
  {
    assert xs[0] in multiset(xs);
    assert ys[0] in multiset(ys);
    var i :| 0 <= i < |ys| && ys[i] == xs[0];
    var j :| 0 <= j < |xs| && xs[j] == ys[0];
    assert ys[0] <= ys[i] && xs[0] <= xs[j];
  }

  lemma SameTailMultiset(xs: seq<Kind>, ys: seq<Kind>)
    requires multiset(xs) == multiset(ys) && xs != [] && ys != [] && xs[0] == ys[0]
    ensures multiset(xs[1..]) == multiset(ys[1..])
  {
    assert xs == [xs[0]] + xs[1..];
    assert ys == [ys[0]] + ys[1..];
    assert multiset(xs[1..]) == multiset(xs) - multiset{xs[0]};
    assert multiset(ys[1..]) == multiset(ys) - multiset{ys[0]};
  }

  lemma SortedTail(xs: seq<Kind>)
    requires SortedKinds(xs) && xs != []
    ensures SortedKinds(xs[1..])
  {
  }

  /** `compareModifiers` holds exactly when both lists hold the same kinds, counted with multiplicity. */
  lemma {:induction false} CompareModifiersIsMultisetEquality(a: seq<Kind>, b: seq<Kind>)
    ensures CompareModifiers(a, b) <==> multiset(a) == multiset(b)
  {
    var ka, kb := SortKinds(a), SortKinds(b);
    if CompareModifiers(a, b) {
      assert ka == kb;
    }
    if multiset(a) == multiset(b) {
      SortedUnique(ka, kb);
    }
  }

  // ---------------------------------------------------------------------------
  // Pattern selection
  // ---------------------------------------------------------------------------

  /** What `ts.createSourceFile` produced: an exception, or the top-level statements. */
  datatype ParseOutcome = Threw | Parsed(statements: seq<Node>)

  /** The parser gives every expression statement its expression. */
  predicate WellFormedParse(outcome: ParseOutcome) {
    outcome.Parsed? ==>
      forall i :: 0 <= i < |outcome.statements| && outcome.statements[i].kind == ExpressionStatement
        ==> outcome.statements[i].expression.Some?
  }

  /** The trimmed code is nonempty and does not end in `;`. */
  predicate LacksTrailingSemicolon(code: string) {
    var t := Trim(code);
    |t| > 0 && t[|t| - 1] != ';'
  }

  /** `parseCodeToAST`: the nodes to search for, or None when parsing threw. */
  function ParseCodeToAST(code: string, outcome: ParseOutcome): (r: Option<seq<Node>>)
    requires WellFormedParse(outcome)
    ensures r.None? <==> outcome.Threw?
    ensures r.Some? ==> |r.value| == |outcome.statements|
    ensures r.Some? && |outcome.statements| != 1 ==> r.value == outcome.statements
    ensures r.Some? && !LacksTrailingSemicolon(code) ==> r.value == outcome.statements
    ensures r.Some? && |outcome.statements| == 1 && outcome.statements[0].kind != ExpressionStatement
            ==> r.value == outcome.statements
    ensures r.Some? && |outcome.statements| == 1 && outcome.statements[0].kind == ExpressionStatement
            && LacksTrailingSemicolon(code)
            ==> r.value == [outcome.statements[0].expression.value]
  {
    match outcome
    case Threw => None
    case Parsed(st) =>
      if |st| == 1 && st[0].kind == ExpressionStatement && LacksTrailingSemicolon(code)
      then Some([st[0].expression.value])
      else Some(st)
  }

  // ---------------------------------------------------------------------------
  // Properties of the equivalence
  // ---------------------------------------------------------------------------

  lemma {:induction false} OptionReflexive(a: Option<Node>, ignore: bool)
    ensures AreNodesBasicallyEqual(a, a, ignore)
    decreases a, 3
  {
    if a.Some? {
      Reflexive(a.value, ignore);
    }
  }

  lemma {:induction false} ArrayReflexive(l: NodeList)
    ensures CompareNodeArrays(l, l)
    decreases l, 3
  {
    if l.Present? {
      forall i | 0 <= i < |l.items|
        ensures NodesEqual(l.items[i], l.items[i], false)
      {
        Reflexive(l.items[i], false);
      }
    }
  }

  /** Every node is equivalent to itself, under either flag value. */
  lemma {:induction false} Reflexive(x: Node, ignore: bool)
    ensures NodesEqual(x, x, ignore)
    decreases x, 2
  {
    var k := x.kind;
    if k == Identifier || IsLiteralKind(k) || IsBareKeywordKind(k) {
    } else if k == VariableDeclaration {
      OptionReflexive(x.name, false);
      OptionReflexive(x.typeNode, false);
      OptionReflexive(x.exclamationToken, false);
      OptionReflexive(x.initializer, false);
    } else if k == VariableDeclarationList {
      ArrayReflexive(x.declarations);
    } else if k == VariableStatement {
      ArrayReflexive(x.decorators);
      OptionReflexive(x.declarationList, false);
    } else if k == ExpressionStatement || k == ParenthesizedExpression {
      OptionReflexive(x.expression, false);
    } else if k == CallExpression || k == NewExpression {
      OptionReflexive(x.expression, false);
      ArrayReflexive(x.typeArguments);
      ArrayReflexive(x.arguments);
    } else if k == PropertyAccessExpression || k == ElementAccessExpression {
      OptionReflexive(x.expression, false);
      OptionReflexive(x.name, false);
      OptionReflexive(x.argumentExpression, false);
    } else if k == Parameter {
      ArrayReflexive(x.decorators);
      OptionReflexive(x.name, false);
      OptionReflexive(x.typeNode, false);
      OptionReflexive(x.initializer, false);
    } else if IsFunctionLikeKind(k) {
      ArrayReflexive(x.decorators);
      OptionReflexive(x.name, ignore);
      ArrayReflexive(x.typeParameters);
      ArrayReflexive(x.parameters);
      OptionReflexive(x.typeNode, false);
      OptionReflexive(x.body, false);
    } else if k == Block {
      ArrayReflexive(x.statements);
    } else if k == IfStatement {
      OptionReflexive(x.expression, false);
      OptionReflexive(x.thenStatement, false);
      OptionReflexive(x.elseStatement, false);
    } else if k == BinaryExpression {
      OptionReflexive(x.left, false);
      OptionReflexive(x.right, false);
    } else if k == PrefixUnaryExpression || k == PostfixUnaryExpression {
      OptionReflexive(x.operand, false);
    } else {
      var s := Significant(x.children);
      forall i | 0 <= i < |s|
        ensures NodesEqual(s[i], s[i], false)
      {
        assert s[i] in x.children;
        Reflexive(s[i], false);
      }
    }
  }

  lemma {:induction false} OptionSymmetric(a: Option<Node>, b: Option<Node>, ignore: bool)
    ensures AreNodesBasicallyEqual(a, b, ignore) == AreNodesBasicallyEqual(b, a, ignore)
    decreases a, 3
  {
    if a.Some? && b.Some? {
      Symmetric(a.value, b.value, ignore);
    }
  }

  lemma {:induction false} ArraySymmetric(a: NodeList, b: NodeList)
    ensures CompareNodeArrays(a, b) == CompareNodeArrays(b, a)
    decreases a, 3
  {
    if a.Present? && b.Present? && |a.items| == |b.items| {
      forall i | 0 <= i < |a.items|
        ensures NodesEqual(a.items[i], b.items[i], false) == NodesEqual(b.items[i], a.items[i], false)
      {
        Symmetric(a.items[i], b.items[i], false);
      }
    }
  }

  /** The equivalence does not depend on the order of its operands. */
  lemma {:induction false} Symmetric(x: Node, y: Node, ignore: bool)
    ensures NodesEqual(x, y, ignore) == NodesEqual(y, x, ignore)
    decreases x, 2
  {
    var k := x.kind;
    if k != y.kind || k == Identifier || IsLiteralKind(k) || IsBareKeywordKind(k) {
    } else if k == VariableDeclaration {
      VariableDeclarationSymmetric(x, y);
    } else if k == VariableDeclarationList {
      ArraySymmetric(x.declarations, y.declarations);
    } else if k == VariableStatement {
      ArraySymmetric(x.decorators, y.decorators);
      OptionSymmetric(x.declarationList, y.declarationList, false);
    } else if k == ExpressionStatement || k == ParenthesizedExpression {
      OptionSymmetric(x.expression, y.expression, false);
    } else if k == CallExpression || k == NewExpression {
      CallSymmetric(x, y);
    } else if k == PropertyAccessExpression || k == ElementAccessExpression {
      AccessSymmetric(x, y);
    } else if k == Parameter {
      ParameterSymmetric(x, y);
    } else if IsFunctionLikeKind(k) {
      FunctionLikeSymmetric(x, y, ignore);
    } else if k == Block {
      ArraySymmetric(x.statements, y.statements);
    } else if k == IfStatement {
      IfSymmetric(x, y);
    } else if k == BinaryExpression {
      OptionSymmetric(x.left, y.left, false);
      OptionSymmetric(x.right, y.right, false);
    } else if k == PrefixUnaryExpression || k == PostfixUnaryExpression {
      OptionSymmetric(x.operand, y.operand, false);
    } else {
      ChildrenSymmetric(x, y);
    }
  }

  lemma {:induction false} VariableDeclarationSymmetric(x: Node, y: Node)
    ensures VariableDeclarationEqual(x, y) == VariableDeclarationEqual(y, x)
    decreases x, 1
  {
    OptionSymmetric(x.name, y.name, false);
    OptionSymmetric(x.typeNode, y.typeNode, false);
    OptionSymmetric(x.exclamationToken, y.exclamationToken, false);
    OptionSymmetric(x.initializer, y.initializer, false);
  }

  lemma {:induction false} CallSymmetric(x: Node, y: Node)
    ensures CallEqual(x, y) == CallEqual(y, x)
    decreases x, 1
  {
    OptionSymmetric(x.expression, y.expression, false);
    ArraySymmetric(x.typeArguments, y.typeArguments);
    ArraySymmetric(x.arguments, y.arguments);
  }

  lemma {:induction false} AccessSymmetric(x: Node, y: Node)
    requires x.kind == y.kind
    ensures AccessEqual(x, y) == AccessEqual(y, x)
    decreases x, 1
  {
    OptionSymmetric(x.expression, y.expression, false);
    OptionSymmetric(x.name, y.name, false);
    OptionSymmetric(x.argumentExpression, y.argumentExpression, false);
  }

  lemma {:induction false} ParameterSymmetric(x: Node, y: Node)
    ensures ParameterEqual(x, y) == ParameterEqual(y, x)
    decreases x, 1
  {
    ArraySymmetric(x.decorators, y.decorators);
    OptionSymmetric(x.name, y.name, false);
    OptionSymmetric(x.typeNode, y.typeNode, false);
    OptionSymmetric(x.initializer, y.initializer, false);
  }

  lemma {:induction false} FunctionLikeSymmetric(x: Node, y: Node, ignore: bool)
    ensures FunctionLikeEqual(x, y, ignore) == FunctionLikeEqual(y, x, ignore)
    decreases x, 1
  {
    ArraySymmetric(x.decorators, y.decorators);
    OptionSymmetric(x.name, y.name, ignore);
    ArraySymmetric(x.typeParameters, y.typeParameters);
    ArraySymmetric(x.parameters, y.parameters);
    OptionSymmetric(x.typeNode, y.typeNode, false);
    OptionSymmetric(x.body, y.body, false);
  }

  lemma {:induction false} IfSymmetric(x: Node, y: Node)
    ensures IfEqual(x, y) == IfEqual(y, x)
    decreases x, 1
  {
    OptionSymmetric(x.expression, y.expression, false);
    OptionSymmetric(x.thenStatement, y.thenStatement, false);
    OptionSymmetric(x.elseStatement, y.elseStatement, false);
  }

  lemma {:induction false} ChildrenSymmetric(x: Node, y: Node)
    ensures SignificantChildrenEqual(x, y) == SignificantChildrenEqual(y, x)
    decreases x, 1
  {
    var sa, sb := Significant(x.children), Significant(y.children);
    if |sa| == |sb| {
      forall i | 0 <= i < |sa|
        ensures NodesEqual(sa[i], sb[i], false) == NodesEqual(sb[i], sa[i], false)
      {
        assert sa[i] in x.children;
        Symmetric(sa[i], sb[i], false);
      }
    }
  }

  /** Turning the flag on can only make more nodes equal. */
  lemma {:induction false} FlagMonotone(x: Node, y: Node)
    requires NodesEqual(x, y, false)
    ensures NodesEqual(x, y, true)
    decreases x
  {
    if x.kind != y.kind || x.kind == Identifier {
    } else if IsFunctionLikeKind(x.kind) {
      FunctionLikeArm(x, y, false);
      FunctionLikeArm(x, y, true);
      if x.name.Some? && y.name.Some? {
        FlagMonotone(x.name.value, y.name.value);
      }
    } else {
      FlagUnusedBelowTop(x, y);
    }
  }

  /**
   * The reach of the flag: the top-level identifier text, and the text along
   * a function-like node's own name, erased; nothing deeper is touched.
   */
  function EraseTopName(x: Node): (r: Node)
    ensures r.kind == x.kind
    decreases x
  {
    if x.kind == Identifier then x.(text := "")
    else if IsFunctionLikeKind(x.kind) && x.name.Some? then
      x.(name := Some(EraseTopName(x.name.value)))
    else x
  }

  /**
   * Comparing with the flag on is comparing with it off after erasing exactly
   * the names the flag reaches.
   */
  lemma {:induction false} FlagReachesOnlyTopNames(x: Node, y: Node)
    ensures NodesEqual(x, y, true) == NodesEqual(EraseTopName(x), EraseTopName(y), false)
    decreases x
  {
    if x.kind != y.kind || x.kind == Identifier {
    } else if IsFunctionLikeKind(x.kind) {
      if x.name.Some? && y.name.Some? {
        FlagReachesOnlyTopNames(x.name.value, y.name.value);
      }
      FunctionNameCarriesFlag(x, y);
    } else {
      FlagUnusedBelowTop(x, y);
    }
  }

  lemma {:induction false} FunctionNameCarriesFlag(x: Node, y: Node)
    requires x.kind == y.kind && IsFunctionLikeKind(x.kind)
    requires x.name.Some? && y.name.Some? ==>
      NodesEqual(x.name.value, y.name.value, true)
      == NodesEqual(EraseTopName(x.name.value), EraseTopName(y.name.value), false)
    ensures NodesEqual(x, y, true) == NodesEqual(EraseTopName(x), EraseTopName(y), false)
  {
    var ex, ey := EraseTopName(x), EraseTopName(y);
    ErasedNames(x, y);
    EraseKeepsOtherFields(x);
    EraseKeepsOtherFields(y);
    RenamedFunctionLikeEqual(x, y, ex, ey);
    FunctionLikeArm(x, y, true);
    FunctionLikeArm(ex, ey, false);
  }

  lemma {:induction false} ErasedNames(x: Node, y: Node)
    requires IsFunctionLikeKind(x.kind) && IsFunctionLikeKind(y.kind)
    requires x.name.Some? && y.name.Some? ==>
      NodesEqual(x.name.value, y.name.value, true)
      == NodesEqual(EraseTopName(x.name.value), EraseTopName(y.name.value), false)
    ensures AreNodesBasicallyEqual(x.name, y.name, true)
            == AreNodesBasicallyEqual(EraseTopName(x).name, EraseTopName(y).name, false)
  {
    ErasedName(x);
    ErasedName(y);
  }

  /** Erasing a function-like node erases its name, and keeps it present or absent. */
  lemma ErasedName(x: Node)
    requires IsFunctionLikeKind(x.kind)
    ensures EraseTopName(x).name == if x.name.Some? then Some(EraseTopName(x.name.value)) else None
  {
    assert x.kind != Identifier;
  }

  /** Replacing the names changes the function-like arm only through the name comparison. */
  lemma {:induction false} RenamedFunctionLikeEqual(x: Node, y: Node, x': Node, y': Node)
    requires x' == x.(name := x'.name) && y' == y.(name := y'.name)
    requires AreNodesBasicallyEqual(x.name, y.name, true) == AreNodesBasicallyEqual(x'.name, y'.name, false)
    ensures FunctionLikeEqual(x, y, true) == FunctionLikeEqual(x', y', false)
  {}

  lemma {:induction false} EraseKeepsOtherFields(x: Node)
    ensures EraseTopName(x) == x.(name := EraseTopName(x).name) || x.kind == Identifier
  {
    if x.kind != Identifier && !(IsFunctionLikeKind(x.kind) && x.name.Some?) {
      assert EraseTopName(x) == x;
    }
  }

  lemma {:induction false} FunctionLikeArm(x: Node, y: Node, ignore: bool)
    requires x.kind == y.kind && IsFunctionLikeKind(x.kind)
    ensures NodesEqual(x, y, ignore) == FunctionLikeEqual(x, y, ignore)
  {}

  /** Away from identifiers and function-like nodes, the flag is not consulted at all. */
  lemma {:induction false} FlagUnusedBelowTop(x: Node, y: Node)
    requires x.kind != Identifier && !IsFunctionLikeKind(x.kind)
    ensures NodesEqual(x, y, true) == NodesEqual(x, y, false)
  {}

  /** A variable's declared name is compared with the flag off, whatever the flag at its declaration. */
  lemma {:induction false} VariableNameNeverIgnored(x: Node, y: Node, ignore: bool)
    requires x.kind == VariableDeclaration == y.kind
    requires x.name.Some? && y.name.Some?
    requires x.name.value.kind == Identifier == y.name.value.kind
    requires x.name.value.text != y.name.value.text
    ensures !NodesEqual(x, y, ignore)
  {}

  /** A parameter's name is compared with the flag off, whatever the flag at its declaration. */
  lemma {:induction false} ParameterNameNeverIgnored(x: Node, y: Node, ignore: bool)
    requires x.kind == Parameter == y.kind
    requires x.name.Some? && y.name.Some?
    requires x.name.value.kind == Identifier == y.name.value.kind
    requires x.name.value.text != y.name.value.text
    ensures !NodesEqual(x, y, ignore)
  {}

  /** Function-like nodes that differ only in the text of their declared name are equal under the flag. */
  lemma {:induction false} RenamedFunctionMatches(x: Node, newName: string)
    requires IsFunctionLikeKind(x.kind)
    requires x.name.Some? && x.name.value.kind == Identifier
    ensures NodesEqual(x, x.(name := Some(x.name.value.(text := newName))), true)
  {
    var y := x.(name := Some(x.name.value.(text := newName)));
    ArrayReflexive(x.decorators);
    ArrayReflexive(x.typeParameters);
    ArrayReflexive(x.parameters);
    OptionReflexive(x.typeNode, false);
    OptionReflexive(x.body, false);
  }

  /** `compareNodeArrays` reads an undefined array as an empty one, on either side. */
  lemma {:induction false} MissingIsEmpty(b: NodeList)
    ensures CompareNodeArrays(Missing, b) == CompareNodeArrays(Present([]), b)
    ensures CompareNodeArrays(b, Missing) == CompareNodeArrays(b, Present([]))
  {}

  /** The default arm is the array comparison applied to the trivia-filtered children. */
  lemma {:induction false} DefaultArmComparesSignificantChildren(x: Node, y: Node)
    ensures SignificantChildrenEqual(x, y)
            == CompareNodeArrays(Present(Significant(x.children)), Present(Significant(y.children)))
  {}

  /** Filtering a list without trivia returns it unchanged. */
  /** The filter keeps order: filtering a concatenation concatenates the filtered parts. */
  lemma {:induction false} SignificantAppend(a: seq<Node>, b: seq<Node>)
    ensures Significant(a + b) == Significant(a) + Significant(b)
  {
    if a == [] {
      assert a + b == b;
    } else {
      assert (a + b)[0] == a[0] && (a + b)[1..] == a[1..] + b;
      SignificantAppend(a[1..], b);
    }
  }

  /** The filter keeps every non-trivia child as often as it occurs, and no trivia. */
  lemma {:induction false} SignificantCounts(s: seq<Node>)
    ensures forall n :: multiset(Significant(s))[n] == if IsTriviaNode(n) then 0 else multiset(s)[n]
  {
    if s != [] {
      assert s == [s[0]] + s[1..];
      SignificantCounts(s[1..]);
    }
  }

  /** Same for the modifier filter. */
  lemma {:induction false} ModifiersOnlyAppend(a: seq<Kind>, b: seq<Kind>)
    ensures ModifiersOnly(a + b) == ModifiersOnly(a) + ModifiersOnly(b)
  {
    if a == [] {
      assert a + b == b;
    } else {
      assert (a + b)[0] == a[0] && (a + b)[1..] == a[1..] + b;
      ModifiersOnlyAppend(a[1..], b);
    }
  }

  lemma {:induction false} SignificantOfNonTrivia(s: seq<Node>)
    requires forall i :: 0 <= i < |s| ==> !IsTriviaNode(s[i])
    ensures Significant(s) == s
  {
    if s != [] {
      SignificantOfNonTrivia(s[1..]);
    }
  }

  /** Trivia children never influence the default arm. */
  lemma {:induction false} TriviaIgnored(x: Node, t: Node)
    requires IsTriviaNode(t)
    ensures Significant(x.children + [t]) == Significant(x.children)
  {
    SignificantAppendTrivia(x.children, t);
  }

  lemma {:induction false} SignificantAppendTrivia(s: seq<Node>, t: Node)
    requires IsTriviaNode(t)
    ensures Significant(s + [t]) == Significant(s)
  {
    if s == [] {
      assert [] + [t] == [t];
      assert Significant([t][1..]) == [];
    } else {
      assert (s + [t])[0] == s[0];
      assert (s + [t])[1..] == s[1..] + [t];
      SignificantAppendTrivia(s[1..], t);
    }
  }

  // ---------------------------------------------------------------------------
  // A worked example: `function foo(a) { return bar(a); }`
  // ---------------------------------------------------------------------------

  function Ident(t: string): Node {
    Leaf(Identifier).(text := t)
  }

  function CallOf(callee: string, arg: string): Node {
    Leaf(CallExpression).(expression := Some(Ident(callee)), arguments := Present([Ident(arg)]))
  }

  /** `function <name>(a) { return <callee>(a); }` */
  function FunctionDecl(name: string, callee: string): Node {
    var param := Leaf(Parameter).(name := Some(Ident("a")));
    var ret := Leaf(ReturnStatement).(children := [Leaf(ReturnKeyword), CallOf(callee, "a"), Leaf(SemicolonToken)]);
    Leaf(FunctionDeclaration).(name := Some(Ident(name)), parameters := Present([param]),
                               body := Some(Leaf(Block).(statements := Present([ret]))))
  }

  /** Renaming the function matches under the flag, and only under it. */
  lemma {:induction false} ExampleRenamedFunction()
    ensures NodesEqual(FunctionDecl("foo", "bar"), FunctionDecl("baz", "bar"), true)
    ensures !NodesEqual(FunctionDecl("foo", "bar"), FunctionDecl("baz", "bar"), false)
  {
    RenamedFunctionMatches(FunctionDecl("foo", "bar"), "baz");
    assert FunctionDecl("foo", "bar").(name := Some(Ident("baz"))) == FunctionDecl("baz", "bar");
  }

  /** A different callee inside the body is never ignored. */
  lemma {:induction false} ExampleInnerCalleeCompared()
    ensures !NodesEqual(FunctionDecl("foo", "bar"), FunctionDecl("foo", "qux"), true)
  {
    var b1, b2 := FunctionDecl("foo", "bar").body.value, FunctionDecl("foo", "qux").body.value;
    ExampleBodiesDiffer();
    var f1, f2 := FunctionDecl("foo", "bar"), FunctionDecl("foo", "qux");
    assert f1.body == Some(b1) && f2.body == Some(b2);
    assert !FunctionLikeEqual(f1, f2, true);
    FunctionLikeArm(f1, f2, true);
  }

  function ReturnOf(callee: string): Node {
    ReturnWith(CallOf(callee, "a"))
  }

  /** `return <e>;` as the parser lays out its children. */
  function ReturnWith(e: Node): Node {
    Leaf(ReturnStatement).(children := [Leaf(ReturnKeyword), e, Leaf(SemicolonToken)])
  }

  lemma {:induction false} ExampleCallsDiffer()
    ensures !NodesEqual(CallOf("bar", "a"), CallOf("qux", "a"), false)
  {
    var c1, c2 := CallOf("bar", "a"), CallOf("qux", "a");
    assert !CallEqual(c1, c2) by {
      assert !NodesEqual(Ident("bar"), Ident("qux"), false);
    }
    CallArm(c1, c2, false);
  }

  lemma {:induction false} ExampleReturnsDiffer()
    ensures !NodesEqual(ReturnOf("bar"), ReturnOf("qux"), false)
  {
    ExampleCallsDiffer();
    ReturnsDiffer(CallOf("bar", "a"), CallOf("qux", "a"));
  }

  /** Return statements of different significant expressions differ. */
  lemma {:induction false} ReturnsDiffer(e1: Node, e2: Node)
    requires !IsTriviaNode(e1) && !IsTriviaNode(e2) && !NodesEqual(e1, e2, false)
    ensures !NodesEqual(ReturnWith(e1), ReturnWith(e2), false)
  {
    var r1, r2 := ReturnWith(e1), ReturnWith(e2);
    var k, t := Leaf(ReturnKeyword), Leaf(SemicolonToken);
    assert r1.children == [k, e1, t] && r2.children == [k, e2, t];
    ThreeSignificant(k, e1, t);
    ThreeSignificant(k, e2, t);
    DifferAtMiddle(r1, r2);
    DefaultArm(r1, r2, false);
  }

  /** A three-child list without trivia is kept whole by the filter. */
  lemma {:induction false} ThreeSignificant(a: Node, b: Node, c: Node)
    requires !IsTriviaNode(a) && !IsTriviaNode(b) && !IsTriviaNode(c)
    ensures Significant([a, b, c]) == [a, b, c]
  {
    SignificantOfNonTrivia([a, b, c]);
  }

  /** Significant children that differ in the middle make the default arm fail. */
  lemma {:induction false} DifferAtMiddle(x: Node, y: Node)
    requires |Significant(x.children)| == |Significant(y.children)| == 3
    requires !NodesEqual(Significant(x.children)[1], Significant(y.children)[1], false)
    ensures !SignificantChildrenEqual(x, y)
  {}

  lemma {:induction false} ExampleBodiesDiffer()
    ensures !NodesEqual(FunctionDecl("foo", "bar").body.value, FunctionDecl("foo", "qux").body.value, false)
  {
    ExampleReturnsDiffer();
    SingleStatementBlocks(ReturnOf("bar"), ReturnOf("qux"));
  }

  /** Blocks of one statement each compare as those statements do. */
  lemma {:induction false} SingleStatementBlocks(r1: Node, r2: Node)
    ensures NodesEqual(Leaf(Block).(statements := Present([r1])), Leaf(Block).(statements := Present([r2])), false)
         == NodesEqual(r1, r2, false)
  {
    var b1, b2 := Leaf(Block).(statements := Present([r1])), Leaf(Block).(statements := Present([r2]));
    BlockArm(b1, b2, false);
    assert Items(b1.statements) == [r1] && Items(b2.statements) == [r2];
    assert CompareNodeArrays(b1.statements, b2.statements) == NodesEqual([r1][0], [r2][0], false);
  }

  lemma {:induction false} CallArm(x: Node, y: Node, ignore: bool)
    requires x.kind == y.kind == CallExpression
    ensures NodesEqual(x, y, ignore) == CallEqual(x, y)
  {}

  lemma {:induction false} BlockArm(x: Node, y: Node, ignore: bool)
    requires x.kind == y.kind == Block
    ensures NodesEqual(x, y, ignore) == CompareNodeArrays(x.statements, y.statements)
  {}

  /** A kind the switch does not name is compared by its significant children. */
  lemma {:induction false} DefaultArm(x: Node, y: Node, ignore: bool)
    requires x.kind == y.kind == ReturnStatement
    ensures NodesEqual(x, y, ignore) == SignificantChildrenEqual(x, y)
  {}
}
