/**
 * The earlier copy of the structural equivalence, kept as methods of the
 * webview provider class in src/extension.ts.
 *
 * It has the same arms as the current one (module AstUtils), but hands its
 * `ignoreIdentifiers` flag unchanged to every nested comparison: array
 * elements, default-arm children and every field. With the flag on, every
 * identifier anywhere in the tree is ignored, not only the top-level one.
 * The helpers that carry no flag (`compareModifiers`, `isTriviaNode` and the
 * modifier filter) are the same as in AstUtils and are used from there.
 */
module LegacyEquivalence {
  import opened Syntax
  import AstUtils

  // ---------------------------------------------------------------------------
  // Equivalence
  // ---------------------------------------------------------------------------

  /** `areNodesBasicallyEqual` of the provider class, on possibly-absent nodes. */
  function AreNodesBasicallyEqual(a: Option<Node>, b: Option<Node>, ignore: bool): (r: bool)
    ensures a.None? && b.None? ==> r
    ensures a.None? != b.None? ==> !r
    ensures a.Some? && b.Some? ==> (r <==> NodesEqual(a.value, b.value, ignore))
    decreases a, 3
  {
    if a.None? && b.None? then true
    else if a.None? || b.None? then false
    else NodesEqual(a.value, b.value, ignore)
  }

  /** The kind switch, for two present nodes; every nested call gets `ignore`. */
  function NodesEqual(x: Node, y: Node, ignore: bool): (r: bool)
    ensures x.kind != y.kind ==> !r
    ensures x.kind == Identifier == y.kind ==> (r <==> ignore || x.text == y.text)
    ensures x.kind == y.kind && IsLiteralKind(x.kind) ==> (r <==> x.text == y.text)
    ensures x.kind == y.kind && IsBareKeywordKind(x.kind) ==> r
    decreases x, 2
  {
    if x.kind != y.kind then false
    else if x.kind == Identifier then ignore || x.text == y.text
    else if IsLiteralKind(x.kind) then x.text == y.text
    else if IsBareKeywordKind(x.kind) then true
    else if x.kind == VariableDeclaration then VariableDeclarationEqual(x, y, ignore)
    else if x.kind == VariableDeclarationList then x.flags == y.flags && CompareNodeArrays(x.declarations, y.declarations, ignore)
    else if x.kind == VariableStatement then VariableStatementEqual(x, y, ignore)
    else if x.kind == ExpressionStatement then AreNodesBasicallyEqual(x.expression, y.expression, ignore)
    else if x.kind == CallExpression || x.kind == NewExpression then CallEqual(x, y, ignore)
    else if x.kind == PropertyAccessExpression || x.kind == ElementAccessExpression then AccessEqual(x, y, ignore)
    else if x.kind == Parameter then ParameterEqual(x, y, ignore)
    else if IsFunctionLikeKind(x.kind) then FunctionLikeEqual(x, y, ignore)
    else if x.kind == Block then CompareNodeArrays(x.statements, y.statements, ignore)
    else if x.kind == IfStatement then IfEqual(x, y, ignore)
    else if x.kind == BinaryExpression then BinaryEqual(x, y, ignore)
    else if x.kind == PrefixUnaryExpression || x.kind == PostfixUnaryExpression then
      x.operator == y.operator && AreNodesBasicallyEqual(x.operand, y.operand, ignore)
    else if x.kind == ParenthesizedExpression then AreNodesBasicallyEqual(x.expression, y.expression, ignore)
    else SignificantChildrenEqual(x, y, ignore)
  }

  predicate VariableDeclarationEqual(x: Node, y: Node, ignore: bool)
    decreases x, 1
  {
    AreNodesBasicallyEqual(x.name, y.name, ignore)
    && AreNodesBasicallyEqual(x.typeNode, y.typeNode, ignore)
    && AreNodesBasicallyEqual(x.exclamationToken, y.exclamationToken, ignore)
    && AreNodesBasicallyEqual(x.initializer, y.initializer, ignore)
  }

  predicate VariableStatementEqual(x: Node, y: Node, ignore: bool)
    decreases x, 1
  {
    CompareNodeArrays(x.decorators, y.decorators, ignore)
    && AstUtils.CompareModifiers(AstUtils.ModifiersOnly(x.modifiers), AstUtils.ModifiersOnly(y.modifiers))
    && AreNodesBasicallyEqual(x.declarationList, y.declarationList, ignore)
  }

  predicate CallEqual(x: Node, y: Node, ignore: bool)
    decreases x, 1
  {
    AreNodesBasicallyEqual(x.expression, y.expression, ignore)
    && CompareNodeArrays(x.typeArguments, y.typeArguments, ignore)
    && CompareNodeArrays(x.arguments, y.arguments, ignore)
  }

  predicate AccessEqual(x: Node, y: Node, ignore: bool)
    decreases x, 1
  {
    AreNodesBasicallyEqual(x.expression, y.expression, ignore)
    && (if x.kind == PropertyAccessExpression
        then AreNodesBasicallyEqual(x.name, y.name, ignore)
        else AreNodesBasicallyEqual(x.argumentExpression, y.argumentExpression, ignore))
    && x.questionDotToken == y.questionDotToken
  }

  predicate ParameterEqual(x: Node, y: Node, ignore: bool)
    decreases x, 1
  {
    CompareNodeArrays(x.decorators, y.decorators, ignore)
    && AstUtils.CompareModifiers(AstUtils.ModifiersOnly(x.modifiers), AstUtils.ModifiersOnly(y.modifiers))
    && x.dotDotDotToken == y.dotDotDotToken
    && AreNodesBasicallyEqual(x.name, y.name, ignore)
    && x.questionToken == y.questionToken
    && AreNodesBasicallyEqual(x.typeNode, y.typeNode, ignore)
    && AreNodesBasicallyEqual(x.initializer, y.initializer, ignore)
  }

  predicate FunctionLikeEqual(x: Node, y: Node, ignore: bool)
    decreases x, 1
  {
    CompareNodeArrays(x.decorators, y.decorators, ignore)
    && AstUtils.CompareModifiers(AstUtils.ModifiersOnly(x.modifiers), AstUtils.ModifiersOnly(y.modifiers))
    && x.asteriskToken == y.asteriskToken
    && AreNodesBasicallyEqual(x.name, y.name, ignore)
    && CompareNodeArrays(x.typeParameters, y.typeParameters, ignore)
    && CompareNodeArrays(x.parameters, y.parameters, ignore)
    && AreNodesBasicallyEqual(x.typeNode, y.typeNode, ignore)
    && AreNodesBasicallyEqual(x.body, y.body, ignore)
  }

  predicate IfEqual(x: Node, y: Node, ignore: bool)
    decreases x, 1
  {
    AreNodesBasicallyEqual(x.expression, y.expression, ignore)
    && AreNodesBasicallyEqual(x.thenStatement, y.thenStatement, ignore)
    && AreNodesBasicallyEqual(x.elseStatement, y.elseStatement, ignore)
  }

  predicate BinaryEqual(x: Node, y: Node, ignore: bool)
    decreases x, 1
  {
    x.operator == y.operator
    && AreNodesBasicallyEqual(x.left, y.left, ignore)
    && AreNodesBasicallyEqual(x.right, y.right, ignore)
  }

  /** `compareNodeArrays`: an undefined array is empty; elements compared with the caller's flag. */
  function CompareNodeArrays(a: NodeList, b: NodeList, ignore: bool): (r: bool)
    ensures r <==> |AstUtils.Items(a)| == |AstUtils.Items(b)|
                   && forall i :: 0 <= i < |AstUtils.Items(a)| ==>
                        NodesEqual(AstUtils.Items(a)[i], AstUtils.Items(b)[i], ignore)
    decreases a, 3
  {
    match (a, b)
    case (Missing, Missing) => true
    case (Missing, Present(ys)) => |ys| == 0
    case (Present(xs), Missing) => |xs| == 0
    case (Present(xs), Present(ys)) => ListsEqual(xs, ys, ignore)
  }

  predicate ListsEqual(xs: seq<Node>, ys: seq<Node>, ignore: bool)
    decreases xs, 1
  {
    |xs| == |ys| && forall i :: 0 <= i < |xs| ==> NodesEqual(xs[i], ys[i], ignore)
  }

  /** The default arm: trivia-filtered `getChildren` lists, pairwise with the caller's flag. */
  predicate SignificantChildrenEqual(x: Node, y: Node, ignore: bool)
    decreases x, 1
  {
    var sa, sb := AstUtils.Significant(x.children), AstUtils.Significant(y.children);
    |sa| == |sb|
    && forall i :: 0 <= i < |sa| ==> (assert sa[i] in x.children; NodesEqual(sa[i], sb[i], ignore))
  }

  // ---------------------------------------------------------------------------
  // With the flag off, the two copies agree
  // ---------------------------------------------------------------------------

  lemma {:induction false} OptionAgrees(a: Option<Node>, b: Option<Node>)
    ensures AreNodesBasicallyEqual(a, b, false) == AstUtils.AreNodesBasicallyEqual(a, b, false)
    decreases a, 3
  {
    if a.Some? && b.Some? {
      AgreesWhenFlagOff(a.value, b.value);
    }
  }

  lemma {:induction false} ArrayAgrees(a: NodeList, b: NodeList)
    ensures CompareNodeArrays(a, b, false) == AstUtils.CompareNodeArrays(a, b)
    decreases a, 3
  {
    if a.Present? && b.Present? && |a.items| == |b.items| {
      forall i | 0 <= i < |a.items|
        ensures NodesEqual(a.items[i], b.items[i], false) == AstUtils.NodesEqual(a.items[i], b.items[i], false)
      {
        AgreesWhenFlagOff(a.items[i], b.items[i]);
      }
    }
  }

  /**
   * With the flag off (as the highlight command always calls it) the earlier
   * copy decides exactly what the current one decides.
   */
  lemma {:induction false} AgreesWhenFlagOff(x: Node, y: Node)
    ensures NodesEqual(x, y, false) == AstUtils.NodesEqual(x, y, false)
    decreases x, 2
  {
    var k := x.kind;
    if k != y.kind || k == Identifier || IsLiteralKind(k) || IsBareKeywordKind(k) {
    } else if k == VariableDeclaration {
      OptionAgrees(x.name, y.name);
      OptionAgrees(x.typeNode, y.typeNode);
      OptionAgrees(x.exclamationToken, y.exclamationToken);
      OptionAgrees(x.initializer, y.initializer);
    } else if k == VariableDeclarationList {
      ArrayAgrees(x.declarations, y.declarations);
    } else if k == VariableStatement {
      ArrayAgrees(x.decorators, y.decorators);
      OptionAgrees(x.declarationList, y.declarationList);
    } else if k == ExpressionStatement || k == ParenthesizedExpression {
      OptionAgrees(x.expression, y.expression);
    } else if k == CallExpression || k == NewExpression {
      OptionAgrees(x.expression, y.expression);
      ArrayAgrees(x.typeArguments, y.typeArguments);
      ArrayAgrees(x.arguments, y.arguments);
    } else if k == PropertyAccessExpression || k == ElementAccessExpression {
      OptionAgrees(x.expression, y.expression);
      OptionAgrees(x.name, y.name);
      OptionAgrees(x.argumentExpression, y.argumentExpression);
    } else if k == Parameter {
      ArrayAgrees(x.decorators, y.decorators);
      OptionAgrees(x.name, y.name);
      OptionAgrees(x.typeNode, y.typeNode);
      OptionAgrees(x.initializer, y.initializer);
    } else if IsFunctionLikeKind(k) {
      FunctionLikeAgrees(x, y);
    } else if k == Block {
      ArrayAgrees(x.statements, y.statements);
    } else if k == IfStatement {
      OptionAgrees(x.expression, y.expression);
      OptionAgrees(x.thenStatement, y.thenStatement);
      OptionAgrees(x.elseStatement, y.elseStatement);
    } else if k == BinaryExpression {
      OptionAgrees(x.left, y.left);
      OptionAgrees(x.right, y.right);
    } else if k == PrefixUnaryExpression || k == PostfixUnaryExpression {
      OptionAgrees(x.operand, y.operand);
    } else {
      ChildrenAgree(x, y);
    }
  }

  lemma {:induction false} FunctionLikeAgrees(x: Node, y: Node)
    ensures FunctionLikeEqual(x, y, false) == AstUtils.FunctionLikeEqual(x, y, false)
    decreases x, 1
  {
    ArrayAgrees(x.decorators, y.decorators);
    OptionAgrees(x.name, y.name);
    ArrayAgrees(x.typeParameters, y.typeParameters);
    ArrayAgrees(x.parameters, y.parameters);
    OptionAgrees(x.typeNode, y.typeNode);
    OptionAgrees(x.body, y.body);
  }

  lemma {:induction false} ChildrenAgree(x: Node, y: Node)
    ensures SignificantChildrenEqual(x, y, false) == AstUtils.SignificantChildrenEqual(x, y)
    decreases x, 1
  {
    var sa, sb := AstUtils.Significant(x.children), AstUtils.Significant(y.children);
    if |sa| == |sb| {
      forall i | 0 <= i < |sa|
        ensures NodesEqual(sa[i], sb[i], false) == AstUtils.NodesEqual(sa[i], sb[i], false)
      {
        assert sa[i] in x.children;
        AgreesWhenFlagOff(sa[i], sb[i]);
      }
    }
  }

  // ---------------------------------------------------------------------------
  // Turning the flag on can only make more nodes equal
  // ---------------------------------------------------------------------------

  lemma {:induction false} OptionMonotone(a: Option<Node>, b: Option<Node>)
    requires AreNodesBasicallyEqual(a, b, false)
    ensures AreNodesBasicallyEqual(a, b, true)
    decreases a, 3
  {
    if a.Some? && b.Some? {
      FlagMonotone(a.value, b.value);
    }
  }

  lemma {:induction false} ArrayMonotone(a: NodeList, b: NodeList)
    requires CompareNodeArrays(a, b, false)
    ensures CompareNodeArrays(a, b, true)
    decreases a, 3
  {
    if a.Present? && b.Present? {
      forall i | 0 <= i < |a.items|
        ensures NodesEqual(a.items[i], b.items[i], true)
      {
        FlagMonotone(a.items[i], b.items[i]);
      }
    }
  }

  /** Equal with the flag off implies equal with it on, at every depth. */
  lemma {:induction false} FlagMonotone(x: Node, y: Node)
    requires NodesEqual(x, y, false)
    ensures NodesEqual(x, y, true)
    decreases x, 2
  {
    var k := x.kind;
    if k == Identifier || IsLiteralKind(k) || IsBareKeywordKind(k) {
    } else if k == VariableDeclaration {
      OptionMonotone(x.name, y.name);
      OptionMonotone(x.typeNode, y.typeNode);
      OptionMonotone(x.exclamationToken, y.exclamationToken);
      OptionMonotone(x.initializer, y.initializer);
    } else if k == VariableDeclarationList {
      ArrayMonotone(x.declarations, y.declarations);
    } else if k == VariableStatement {
      ArrayMonotone(x.decorators, y.decorators);
      OptionMonotone(x.declarationList, y.declarationList);
    } else if k == ExpressionStatement || k == ParenthesizedExpression {
      OptionMonotone(x.expression, y.expression);
    } else if k == CallExpression || k == NewExpression {
      OptionMonotone(x.expression, y.expression);
      ArrayMonotone(x.typeArguments, y.typeArguments);
      ArrayMonotone(x.arguments, y.arguments);
    } else if k == PropertyAccessExpression || k == ElementAccessExpression {
      AccessMonotone(x, y);
    } else if k == Parameter {
      ParameterMonotone(x, y);
    } else if IsFunctionLikeKind(k) {
      FunctionLikeMonotone(x, y);
    } else if k == Block {
      ArrayMonotone(x.statements, y.statements);
    } else if k == IfStatement {
      OptionMonotone(x.expression, y.expression);
      OptionMonotone(x.thenStatement, y.thenStatement);
      OptionMonotone(x.elseStatement, y.elseStatement);
    } else if k == BinaryExpression {
      OptionMonotone(x.left, y.left);
      OptionMonotone(x.right, y.right);
    } else if k == PrefixUnaryExpression || k == PostfixUnaryExpression {
      OptionMonotone(x.operand, y.operand);
    } else {
      ChildrenMonotone(x, y);
    }
  }

  lemma {:induction false} AccessMonotone(x: Node, y: Node)
    requires AccessEqual(x, y, false)
    ensures AccessEqual(x, y, true)
    decreases x, 1
  {
    OptionMonotone(x.expression, y.expression);
    if x.kind == PropertyAccessExpression {
      OptionMonotone(x.name, y.name);
    } else {
      OptionMonotone(x.argumentExpression, y.argumentExpression);
    }
  }

  lemma {:induction false} ParameterMonotone(x: Node, y: Node)
    requires ParameterEqual(x, y, false)
    ensures ParameterEqual(x, y, true)
    decreases x, 1
  {
    ArrayMonotone(x.decorators, y.decorators);
    OptionMonotone(x.name, y.name);
    OptionMonotone(x.typeNode, y.typeNode);
    OptionMonotone(x.initializer, y.initializer);
  }

  lemma {:induction false} FunctionLikeMonotone(x: Node, y: Node)
    requires FunctionLikeEqual(x, y, false)
    ensures FunctionLikeEqual(x, y, true)
    decreases x, 1
  {
    ArrayMonotone(x.decorators, y.decorators);
    OptionMonotone(x.name, y.name);
    ArrayMonotone(x.typeParameters, y.typeParameters);
    ArrayMonotone(x.parameters, y.parameters);
    OptionMonotone(x.typeNode, y.typeNode);
    OptionMonotone(x.body, y.body);
  }

  lemma {:induction false} ChildrenMonotone(x: Node, y: Node)
    requires SignificantChildrenEqual(x, y, false)
    ensures SignificantChildrenEqual(x, y, true)
    decreases x, 1
  {
    var sa, sb := AstUtils.Significant(x.children), AstUtils.Significant(y.children);
    forall i | 0 <= i < |sa|
      ensures NodesEqual(sa[i], sb[i], true)
    {
      assert sa[i] in x.children;
      FlagMonotone(sa[i], sb[i]);
    }
  }

  /**
   * The flag reaches at least as far here as in the current copy: nodes the
   * current copy equates under the flag, this one equates too.
   */
  lemma {:induction false} ReachesAtLeastAsFar(x: Node, y: Node)
    requires AstUtils.NodesEqual(x, y, true)
    ensures NodesEqual(x, y, true)
    decreases x
  {
    if x.kind == Identifier {
    } else if IsFunctionLikeKind(x.kind) {
      AstUtils.FunctionLikeArm(x, y, true);
      if x.name.Some? && y.name.Some? {
        ReachesAtLeastAsFar(x.name.value, y.name.value);
      }
      OffThenOn(x, y);
    } else {
      AstUtils.FlagUnusedBelowTop(x, y);
      AgreesWhenFlagOff(x, y);
      FlagMonotone(x, y);
    }
  }

  /** The fields other than the name, equal in the current copy's function-like arm, are equal here under the flag. */
  lemma {:induction false} OffThenOn(x: Node, y: Node)
    requires IsFunctionLikeKind(x.kind) && AstUtils.FunctionLikeEqual(x, y, true)
    requires x.name.Some? && y.name.Some? ==> NodesEqual(x.name.value, y.name.value, true)
    ensures FunctionLikeEqual(x, y, true)
  {
    ArrayAgrees(x.decorators, y.decorators);
    ArrayMonotone(x.decorators, y.decorators);
    ArrayAgrees(x.typeParameters, y.typeParameters);
    ArrayMonotone(x.typeParameters, y.typeParameters);
    ArrayAgrees(x.parameters, y.parameters);
    ArrayMonotone(x.parameters, y.parameters);
    OptionAgrees(x.typeNode, y.typeNode);
    OptionMonotone(x.typeNode, y.typeNode);
    OptionAgrees(x.body, y.body);
    OptionMonotone(x.body, y.body);
  }

  // ---------------------------------------------------------------------------
  // Reflexivity and symmetry
  // ---------------------------------------------------------------------------

  /** Every node is equivalent to itself, under either flag value. */
  lemma {:induction false} Reflexive(x: Node, ignore: bool)
    ensures NodesEqual(x, x, ignore)
  {
    AstUtils.Reflexive(x, false);
    AgreesWhenFlagOff(x, x);
    if ignore {
      FlagMonotone(x, x);
    }
  }

  lemma {:induction false} OptionSymmetric(a: Option<Node>, b: Option<Node>, ignore: bool)
    ensures AreNodesBasicallyEqual(a, b, ignore) == AreNodesBasicallyEqual(b, a, ignore)
    decreases a, 3
  {
    if a.Some? && b.Some? {
      Symmetric(a.value, b.value, ignore);
    }
  }

  lemma {:induction false} ArraySymmetric(a: NodeList, b: NodeList, ignore: bool)
    ensures CompareNodeArrays(a, b, ignore) == CompareNodeArrays(b, a, ignore)
    decreases a, 3
  {
    if a.Present? && b.Present? && |a.items| == |b.items| {
      forall i | 0 <= i < |a.items|
        ensures NodesEqual(a.items[i], b.items[i], ignore) == NodesEqual(b.items[i], a.items[i], ignore)
      {
        Symmetric(a.items[i], b.items[i], ignore);
      }
    }
  }

  /** The earlier equivalence does not depend on the order of its operands either. */
  lemma {:induction false} Symmetric(x: Node, y: Node, ignore: bool)
    ensures NodesEqual(x, y, ignore) == NodesEqual(y, x, ignore)
    decreases x, 2
  {
    var k := x.kind;
    if k != y.kind || k == Identifier || IsLiteralKind(k) || IsBareKeywordKind(k) {
    } else if k == VariableDeclaration {
      OptionSymmetric(x.name, y.name, ignore);
      OptionSymmetric(x.typeNode, y.typeNode, ignore);
      OptionSymmetric(x.exclamationToken, y.exclamationToken, ignore);
      OptionSymmetric(x.initializer, y.initializer, ignore);
    } else if k == VariableDeclarationList {
      ArraySymmetric(x.declarations, y.declarations, ignore);
    } else if k == VariableStatement {
      ArraySymmetric(x.decorators, y.decorators, ignore);
      OptionSymmetric(x.declarationList, y.declarationList, ignore);
    } else if k == ExpressionStatement || k == ParenthesizedExpression {
      OptionSymmetric(x.expression, y.expression, ignore);
    } else if k == CallExpression || k == NewExpression {
      OptionSymmetric(x.expression, y.expression, ignore);
      ArraySymmetric(x.typeArguments, y.typeArguments, ignore);
      ArraySymmetric(x.arguments, y.arguments, ignore);
    } else if k == PropertyAccessExpression || k == ElementAccessExpression {
      OptionSymmetric(x.expression, y.expression, ignore);
      OptionSymmetric(x.name, y.name, ignore);
      OptionSymmetric(x.argumentExpression, y.argumentExpression, ignore);
    } else if k == Parameter {
      ArraySymmetric(x.decorators, y.decorators, ignore);
      OptionSymmetric(x.name, y.name, ignore);
      OptionSymmetric(x.typeNode, y.typeNode, ignore);
      OptionSymmetric(x.initializer, y.initializer, ignore);
    } else if IsFunctionLikeKind(k) {
      FunctionLikeSymmetric(x, y, ignore);
    } else if k == Block {
      ArraySymmetric(x.statements, y.statements, ignore);
    } else if k == IfStatement {
      OptionSymmetric(x.expression, y.expression, ignore);
      OptionSymmetric(x.thenStatement, y.thenStatement, ignore);
      OptionSymmetric(x.elseStatement, y.elseStatement, ignore);
    } else if k == BinaryExpression {
      OptionSymmetric(x.left, y.left, ignore);
      OptionSymmetric(x.right, y.right, ignore);
    } else if k == PrefixUnaryExpression || k == PostfixUnaryExpression {
      OptionSymmetric(x.operand, y.operand, ignore);
    } else {
      ChildrenSymmetric(x, y, ignore);
    }
  }

  lemma {:induction false} FunctionLikeSymmetric(x: Node, y: Node, ignore: bool)
    ensures FunctionLikeEqual(x, y, ignore) == FunctionLikeEqual(y, x, ignore)
    decreases x, 1
  {
    ArraySymmetric(x.decorators, y.decorators, ignore);
    OptionSymmetric(x.name, y.name, ignore);
    ArraySymmetric(x.typeParameters, y.typeParameters, ignore);
    ArraySymmetric(x.parameters, y.parameters, ignore);
    OptionSymmetric(x.typeNode, y.typeNode, ignore);
    OptionSymmetric(x.body, y.body, ignore);
  }

  lemma {:induction false} ChildrenSymmetric(x: Node, y: Node, ignore: bool)
    ensures SignificantChildrenEqual(x, y, ignore) == SignificantChildrenEqual(y, x, ignore)
    decreases x, 1
  {
    var sa, sb := AstUtils.Significant(x.children), AstUtils.Significant(y.children);
    if |sa| == |sb| {
      forall i | 0 <= i < |sa|
        ensures NodesEqual(sa[i], sb[i], ignore) == NodesEqual(sb[i], sa[i], ignore)
      {
        assert sa[i] in x.children;
        Symmetric(sa[i], sb[i], ignore);
      }
    }
  }

  // ---------------------------------------------------------------------------
  // Where the two copies part: an inner call's callee under the flag
  // ---------------------------------------------------------------------------

  /** `<callee>(a)` and `<other>(a)` match under the flag: the callee identifier is ignored. */
  lemma {:induction false} CalleeIgnored(callee: string, other: string)
    ensures NodesEqual(AstUtils.CallOf(callee, "a"), AstUtils.CallOf(other, "a"), true)
  {
    var c1, c2 := AstUtils.CallOf(callee, "a"), AstUtils.CallOf(other, "a");
    assert AstUtils.Items(c1.arguments) == [AstUtils.Ident("a")] == AstUtils.Items(c2.arguments);
    assert CallEqual(c1, c2, true);
  }

  /** `return <e1>;` and `return <e2>;` match when the significant expressions do. */
  lemma {:induction false} ReturnsMatch(e1: Node, e2: Node, ignore: bool)
    requires !AstUtils.IsTriviaNode(e1) && !AstUtils.IsTriviaNode(e2) && NodesEqual(e1, e2, ignore)
    ensures NodesEqual(AstUtils.ReturnWith(e1), AstUtils.ReturnWith(e2), ignore)
  {
    var r1, r2 := AstUtils.ReturnWith(e1), AstUtils.ReturnWith(e2);
    var k, t := Leaf(ReturnKeyword), Leaf(SemicolonToken);
    AstUtils.ThreeSignificant(k, e1, t);
    AstUtils.ThreeSignificant(k, e2, t);
    Reflexive(k, ignore);
    Reflexive(t, ignore);
    MatchAtMiddle(r1, r2, ignore);
    DefaultArm(r1, r2, ignore);
  }

  /** Three significant children that match one by one make the default arm hold. */
  lemma {:induction false} MatchAtMiddle(x: Node, y: Node, ignore: bool)
    requires |x.children| == 3 && |y.children| == 3
    requires AstUtils.Significant(x.children) == x.children && AstUtils.Significant(y.children) == y.children
    requires x.children[0] == y.children[0] && x.children[2] == y.children[2]
    requires NodesEqual(x.children[0], x.children[0], ignore) && NodesEqual(x.children[2], x.children[2], ignore)
    requires NodesEqual(x.children[1], y.children[1], ignore)
    ensures SignificantChildrenEqual(x, y, ignore)
  {
    var sa := AstUtils.Significant(x.children);
    forall i | 0 <= i < |sa|
      ensures NodesEqual(sa[i], AstUtils.Significant(y.children)[i], ignore)
    {
      assert i == 0 || i == 1 || i == 2;
    }
  }

  lemma {:induction false} DefaultArm(x: Node, y: Node, ignore: bool)
    requires x.kind == y.kind == ReturnStatement
    ensures NodesEqual(x, y, ignore) == SignificantChildrenEqual(x, y, ignore)
  {}

  /** Blocks of one statement each compare as those statements do. */
  lemma {:induction false} SingleStatementBlocks(r1: Node, r2: Node, ignore: bool)
    ensures NodesEqual(Leaf(Block).(statements := Present([r1])), Leaf(Block).(statements := Present([r2])), ignore)
         == NodesEqual(r1, r2, ignore)
  {
    var b1, b2 := Leaf(Block).(statements := Present([r1])), Leaf(Block).(statements := Present([r2]));
    assert AstUtils.Items(b1.statements) == [r1] && AstUtils.Items(b2.statements) == [r2];
    assert CompareNodeArrays(b1.statements, b2.statements, ignore) == NodesEqual([r1][0], [r2][0], ignore);
  }

  /**
   * `function foo(a) { return bar(a); }` and `function foo(a) { return qux(a); }`:
   * with the flag on the earlier copy treats them as equal, while the current
   * one compares the inner callee and tells them apart.
   */
  lemma {:induction false} ExampleInnerCalleeIgnored()
    ensures NodesEqual(AstUtils.FunctionDecl("foo", "bar"), AstUtils.FunctionDecl("foo", "qux"), true)
    ensures !AstUtils.NodesEqual(AstUtils.FunctionDecl("foo", "bar"), AstUtils.FunctionDecl("foo", "qux"), true)
  {
    InnerCalleeIgnored();
    AstUtils.ExampleInnerCalleeCompared();
  }

  lemma {:induction false} InnerCalleeIgnored()
    ensures NodesEqual(AstUtils.FunctionDecl("foo", "bar"), AstUtils.FunctionDecl("foo", "qux"), true)
  {
    var f1, f2 := AstUtils.FunctionDecl("foo", "bar"), AstUtils.FunctionDecl("foo", "qux");
    BodiesMatch();
    SameExceptBody(f1, f2, true);
  }

  lemma {:induction false} BodiesMatch()
    ensures AreNodesBasicallyEqual(AstUtils.FunctionDecl("foo", "bar").body, AstUtils.FunctionDecl("foo", "qux").body, true)
  {
    CalleeIgnored("bar", "qux");
    ReturnsMatch(AstUtils.CallOf("bar", "a"), AstUtils.CallOf("qux", "a"), true);
    SingleStatementBlocks(AstUtils.ReturnOf("bar"), AstUtils.ReturnOf("qux"), true);
  }

  /** Function-like nodes that differ only in a matching body are equal. */
  lemma {:induction false} SameExceptBody(x: Node, y: Node, ignore: bool)
    requires IsFunctionLikeKind(x.kind) && y == x.(body := y.body)
    requires AreNodesBasicallyEqual(x.body, y.body, ignore)
    ensures NodesEqual(x, y, ignore)
  {
    ArrayReflexive(x.decorators, ignore);
    ArrayReflexive(x.typeParameters, ignore);
    ArrayReflexive(x.parameters, ignore);
    OptionReflexive(x.name, ignore);
    OptionReflexive(x.typeNode, ignore);
    AstUtils.CompareModifiersIsMultisetEquality(AstUtils.ModifiersOnly(x.modifiers), AstUtils.ModifiersOnly(x.modifiers));
    assert FunctionLikeEqual(x, y, ignore);
  }

  lemma {:induction false} OptionReflexive(a: Option<Node>, ignore: bool)
    ensures AreNodesBasicallyEqual(a, a, ignore)
  {
    if a.Some? {
      Reflexive(a.value, ignore);
    }
  }

  lemma {:induction false} ArrayReflexive(l: NodeList, ignore: bool)
    ensures CompareNodeArrays(l, l, ignore)
  {
    forall i | 0 <= i < |AstUtils.Items(l)|
      ensures NodesEqual(AstUtils.Items(l)[i], AstUtils.Items(l)[i], ignore)
    {
      Reflexive(AstUtils.Items(l)[i], ignore);
    }
  }
}
