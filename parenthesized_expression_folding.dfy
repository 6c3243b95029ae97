/**
 * The parenthesized-literal folding rule: a visitor that walks the tree below a
 * root and replaces, in its parent's slot, every parenthesized expression whose
 * innermost expression is a literal by a copy of that literal.
 *
 * The walk follows the JDT's accept protocol: visit the node, visit its
 * children (in property order, list elements in order) if visit said so, then
 * endVisit. The rule overrides visit and endVisit for ParenthesizedExpression
 * only: visit first folds its expression and then looks at what is there now,
 * so nested parentheses collapse in one walk.
 */
module ParenthesizedExpressionFolding {
  import opened Jdt
  import opened Utils
  import opened FoldSpec

  const NullRootMessage := "Null root passed to ParenthesizedExpressionFolding.fold"
  const DetachedRootMessage := "Non-CompilationUnit root with no parent passed to ParenthesizedExpressionFolding.fold"
  const NullLocationMessage := "The location cannot be null in Visitor.endVisit with a new expression to set."

  /** The properties of a composite node with those before `i` folded. */
  ghost function PartlyFolded(ps: seq<Property>, i: nat): (r: seq<Property>)
    ensures |r| == |ps|
  {
    seq(|ps|, m requires 0 <= m < |ps| => if m < i then FoldedProperty(ps[m]) else ps[m])
  }

  /** The elements of a child list with those before `j` folded. */
  ghost function PartlyFoldedList(cs: seq<Node>, j: nat): (r: seq<Node>)
    ensures |r| == |cs|
  {
    seq(|cs|, m requires 0 <= m < |cs| => if m < j then Folded(cs[m]) else cs[m])
  }

  class Visitor {
    /** The copy of a literal that endVisit is to put in place of the node, if any. */
    var newExp: Option<Node>
    /** Whether some replacement has been made. */
    var didFold: bool

    constructor ()
      ensures newExp == None && !didFold
    {
      newExp := None;
      didFold := false;
    }

    /**
     * node.accept(this) for the node at path `p`. Afterwards that node is
     * folded in place; it fails only when the node, being a parenthesized
     * literal, has no parent to be replaced in.
     */
    method Accept(ast: Ast, p: Path) returns (r: Outcome)
      requires ValidPath(ast.top, p) && newExp == None
      modifies this, ast
      decreases At(ast.top, p), 2
      ensures r.Pass? <==> !(p == [] && IsParenthesizedLiteral(old(ast.top)))
      ensures r.Pass? ==>
                && ast.top == ReplaceAt(old(ast.top), p, Folded(old(At(ast.top, p))))
                && newExp == None
                && didFold == (old(didFold) || HasParenthesizedLiteral(old(At(ast.top, p))))
      ensures r.Fail? ==>
                var e := old(ast.top).expression;
                && r.error == NullPointerException(NullLocationMessage)
                && ast.top == ParenthesizedExpression(Folded(e))
                && newExp == Some(Folded(e))
                && didFold == (old(didFold) || HasParenthesizedLiteral(e))
    {
      ghost var t0, d0 := ast.top, didFold;
      var node := At(ast.top, p);
      if node.ParenthesizedExpression? {
        var visitChildren := Visit(ast, p);
        assert !visitChildren;
        var e := node.expression;
        FoldedLiteral(e);
        AtReplaceAt(t0, p, ParenthesizedExpression(Folded(e)));
        ghost var pending := newExp;
        r := EndVisit(ast, p);
        if pending.Some? && p != [] {
          ReplaceAtTwice(t0, p, ParenthesizedExpression(Folded(e)), Folded(e));
          assert Folded(node) == Folded(e);
        } else if pending.None? {
          assert Folded(node) == ParenthesizedExpression(Folded(e));
        }
      } else {
        VisitChildren(ast, p);
        r := Pass;
      }
    }

    /**
     * visit(ParenthesizedExpression): first accept the expression, then, if
     * what now sits in the expression slot is a literal, keep a copy of it for
     * endVisit. Never asks for the children to be visited again.
     */
    method Visit(ast: Ast, p: Path) returns (visitChildren: bool)
      requires ValidPath(ast.top, p) && At(ast.top, p).ParenthesizedExpression? && newExp == None
      modifies this, ast
      decreases At(ast.top, p), 1
      ensures !visitChildren
      ensures var e := old(At(ast.top, p)).expression;
              && ast.top == ReplaceAt(old(ast.top), p, ParenthesizedExpression(Folded(e)))
              && didFold == (old(didFold) || HasParenthesizedLiteral(e))
              && newExp == (if IsLiteralExpression(Folded(e)) then Some(Folded(e)) else None)
    {
      ghost var t0 := ast.top;
      var expression := p + [ChildLocation(0)];
      AtAppend(ast.top, p, ChildLocation(0));
      var node := At(ast.top, p);
      ReplaceAtSelf(t0, p);
      ReplaceBelow(t0, p, node, ChildLocation(0), Folded(node.expression));
      var accepted := Accept(ast, expression);
      assert accepted.Pass?;
      AtReplaceAt(t0, p, ParenthesizedExpression(Folded(node.expression)));
      var exp := At(ast.top, p).expression;
      if IsLiteralExpression(exp) {
        newExp := Some(exp);
      } else {
        newExp := None;
      }
      visitChildren := false;
    }

    /**
     * endVisit(ParenthesizedExpression): with a literal copy pending, put it in
     * the node's slot in its parent and record the fold. A node without a
     * location (no parent) is a null pointer failure.
     */
    method EndVisit(ast: Ast, p: Path) returns (r: Outcome)
      requires ValidPath(ast.top, p)
      modifies this, ast
      ensures old(newExp).None? ==>
                r == Pass && ast.top == old(ast.top) && newExp == old(newExp) && didFold == old(didFold)
      ensures old(newExp).Some? && p == [] ==>
                && r == Fail(NullPointerException(NullLocationMessage))
                && ast.top == old(ast.top) && newExp == old(newExp) && didFold == old(didFold)
      ensures old(newExp).Some? && p != [] ==>
                r == Pass && ast.top == ReplaceAt(old(ast.top), p, old(newExp).value) && newExp == None && didFold
    {
      if newExp == None {
        return Pass;
      }
      var location := LocationInParent(p);
      r := RequiresNonNull(location, NullLocationMessage);
      if r.Fail? {
        return;
      }
      r := SetNewChildInParent(ast, p, newExp.value);
      if r.Pass? {
        newExp := None;
        didFold := true;
      }
    }

    /**
     * The default visit of any other node: accept each child in turn, list
     * elements in order. The default endVisit does nothing.
     */
    method VisitChildren(ast: Ast, p: Path)
      requires ValidPath(ast.top, p) && !At(ast.top, p).ParenthesizedExpression? && newExp == None
      modifies this, ast
      decreases At(ast.top, p), 1
      ensures ast.top == ReplaceAt(old(ast.top), p, Folded(old(At(ast.top, p))))
      ensures newExp == None
      ensures didFold == (old(didFold) || HasParenthesizedLiteral(old(At(ast.top, p))))
    {
      ghost var t0, d0 := ast.top, didFold;
      var node := At(ast.top, p);
      ReplaceAtSelf(t0, p);
      if node.Literal? {
        return;
      }
      var kind, ps := node.kind, node.properties;
      assert PartlyFolded(ps, 0) == ps;
      var i := 0;
      while i < |ps|
        invariant i <= |ps|
        decreases |ps| - i
        invariant ast.top == ReplaceAt(t0, p, Composite(kind, PartlyFolded(ps, i)))
        invariant newExp == None
        invariant didFold == (d0 || exists m :: 0 <= m < i && PropertyHasParenthesizedLiteral(ps[m]))
      {
        ghost var before := Composite(kind, PartlyFolded(ps, i));
        match ps[i] {
        case Child(c) =>
          var l := ChildLocation(i);
          ReplaceBelow(t0, p, before, l, Folded(c));
          var accepted := Accept(ast, p + [l]);
          assert PartlyFolded(ps, i)[i := Child(Folded(c))] == PartlyFolded(ps, i + 1);
        case ChildList(cs) =>
          AtReplaceAt(t0, p, before);
          assert before.properties[i] == ps[i];
          AcceptChildren(ast, p, i);
          ReplaceAtTwice(t0, p, before, Composite(kind, PartlyFolded(ps, i)[i := FoldedProperty(ps[i])]));
          assert PartlyFolded(ps, i)[i := FoldedProperty(ps[i])] == PartlyFolded(ps, i + 1);
        case Simple(_) =>
          assert PartlyFolded(ps, i) == PartlyFolded(ps, i + 1);
        }
        i := i + 1;
      }
      assert PartlyFolded(ps, |ps|) == Folded(node).properties;
    }

    /**
     * The accept of each element of the child list in property `i` of the
     * composite node at `p`, in order.
     */
    method AcceptChildren(ast: Ast, p: Path, i: nat)
      requires ValidPath(ast.top, p) && At(ast.top, p).Composite? && newExp == None
      requires i < |At(ast.top, p).properties| && At(ast.top, p).properties[i].ChildList?
      modifies this, ast
      decreases At(ast.top, p).properties[i]
      ensures var node := old(At(ast.top, p));
              ast.top == ReplaceAt(old(ast.top), p,
                                   Composite(node.kind, node.properties[i := FoldedProperty(node.properties[i])]))
      ensures newExp == None
      ensures didFold == (old(didFold) || PropertyHasParenthesizedLiteral(old(At(ast.top, p)).properties[i]))
    {
      ghost var t0, d0 := ast.top, didFold;
      var node := At(ast.top, p);
      var kind, ps, cs := node.kind, node.properties, node.properties[i].nodes;
      ReplaceAtSelf(t0, p);
      assert PartlyFoldedList(cs, 0) == cs;
      assert ps[i := ChildList(PartlyFoldedList(cs, 0))] == ps;
      var j := 0;
      while j < |cs|
        invariant j <= |cs|
        invariant ast.top == ReplaceAt(t0, p, Composite(kind, ps[i := ChildList(PartlyFoldedList(cs, j))]))
        invariant newExp == None
        invariant didFold == (d0 || exists k :: 0 <= k < j && HasParenthesizedLiteral(cs[k]))
      {
        ghost var partial := Composite(kind, ps[i := ChildList(PartlyFoldedList(cs, j))]);
        var l := ChildListLocation(i, j);
        ReplaceBelow(t0, p, partial, l, Folded(cs[j]));
        assert ChildAt(partial, l) == Some(cs[j]);
        var accepted := Accept(ast, p + [l]);
        assert PartlyFoldedList(cs, j)[j := Folded(cs[j])] == PartlyFoldedList(cs, j + 1);
        assert WithChildAt(partial, l, Folded(cs[j])) == Composite(kind, ps[i := ChildList(PartlyFoldedList(cs, j + 1))]);
        j := j + 1;
      }
      assert ChildList(PartlyFoldedList(cs, |cs|)) == FoldedProperty(ps[i]);
    }
  }

  /**
   * checkRequires: the root must be present, and must be a CompilationUnit or
   * have a parent.
   */
  function CheckRequires(top: Node, root: Option<Path>): (r: Outcome)
    requires root.Some? ==> ValidPath(top, root.value)
    ensures root.None? ==> r == Fail(NullPointerException(NullRootMessage))
    ensures root.Some? ==> (r.Pass? <==> IsCompilationUnit(At(top, root.value)) || root.value != [])
    ensures root.Some? && r.Fail? ==> r == Fail(RuntimeException(DetachedRootMessage))
  {
    var present := RequiresNonNull(root, NullRootMessage);
    if present.Fail? then present
    else if !IsCompilationUnit(At(top, root.value)) && root.value == [] then
      ThrowRuntimeException(DetachedRootMessage)
    else Pass
  }

  /**
   * fold: replaces the parenthesized literals reachable from `root` (a node of
   * the tree in `ast`, or None for null) by their literals, and says whether it
   * replaced any.
   */
  method Fold(ast: Ast, root: Option<Path>) returns (r: Result<bool>)
    requires root.Some? ==> ValidPath(ast.top, root.value)
    modifies ast
    ensures CheckRequires(old(ast.top), root).Fail? ==>
              r == Failure(CheckRequires(old(ast.top), root).error) && ast.top == old(ast.top)
    ensures CheckRequires(old(ast.top), root).Pass? ==>
              var sub := At(old(ast.top), root.value);
              && r == Success(HasParenthesizedLiteral(sub))
              && ast.top == ReplaceAt(old(ast.top), root.value, Folded(sub))
  {
    match CheckRequires(ast.top, root)
    case Fail(e) =>
      return Failure(e);
    case Pass =>
    var visitor := new Visitor();
    var accepted := visitor.Accept(ast, root.value);
    assert accepted.Pass?;
    r := Success(visitor.didFold);
  }

  /**
   * What fold does to the tree below its root, seen from the top: every
   * outermost parenthesized literal below the root is replaced, in its own
   * slot, by its innermost literal, and every node outside them keeps its type.
   */
  lemma FoldRewritesBelowRoot(t: Node, root: Path, q: Path)
    requires ValidPath(t, root) && ValidPath(At(t, root), q)
    requires OutsideParenthesizedLiterals(At(t, root), q)
    ensures ValidPath(t, root + q)
    ensures var after := ReplaceAt(t, root, Folded(At(t, root)));
            && ValidPath(after, root + q)
            && (IsParenthesizedLiteral(At(t, root + q)) ==> At(after, root + q) == Bottom(At(t, root + q)))
            && (!IsParenthesizedLiteral(At(t, root + q)) ==> SameType(At(after, root + q), At(t, root + q)))
  {
    var sub := At(t, root);
    AtConcat(t, root, q);
    AtReplaceAt(t, root, Folded(sub));
    FoldedAtPath(sub, q);
    AtConcat(ReplaceAt(t, root, Folded(sub)), root, q);
  }

  /** With no parenthesized literal below the root, fold leaves the whole tree as it was. */
  lemma FoldWithNothingToFold(t: Node, root: Path)
    requires ValidPath(t, root) && !HasParenthesizedLiteral(At(t, root))
    ensures ReplaceAt(t, root, Folded(At(t, root))) == t
  {
    FoldedWithoutParenthesizedLiteral(At(t, root));
    ReplaceAtSelf(t, root);
  }

  /**
   * Folding the same root a second time finds nothing more to fold. The root is
   * named by its slot in the tree, so after the first fold it is whatever node
   * now sits there, also when the first fold replaced the root node itself.
   */
  method FoldTwice(ast: Ast, root: Path) returns (first: Result<bool>, second: Result<bool>)
    requires ValidPath(ast.top, root) && CheckRequires(ast.top, Some(root)).Pass?
    modifies ast
    ensures first == Success(HasParenthesizedLiteral(old(At(ast.top, root))))
    ensures second == Success(false)
    ensures ast.top == ReplaceAt(old(ast.top), root, Folded(old(At(ast.top, root))))
  {
    ghost var t0 := ast.top;
    ghost var sub := At(ast.top, root);
    first := Fold(ast, Some(root));
    AtReplaceAt(t0, root, Folded(sub));
    FoldedHasNoParenthesizedLiteral(sub);
    FoldedIdempotent(sub);
    second := Fold(ast, Some(root));
    ReplaceAtTwice(t0, root, Folded(sub), Folded(Folded(sub)));
  }

  /**
   * The root as a Java reference. When the root is itself a parenthesized
   * literal inside some parent, the first fold folds its expression in place
   * and then puts the literal in the root's slot in the parent. The node the
   * caller still holds is the old root: detached from the tree and still a
   * parenthesized literal. Folding that reference again is refused by the
   * parent check instead of returning false.
   */
  lemma DetachedRootRefoldFails(t: Node, root: Path)
    requires ValidPath(t, root) && root != [] && IsParenthesizedLiteral(At(t, root))
    ensures CheckRequires(t, Some(root)) == Pass && HasParenthesizedLiteral(At(t, root))
    ensures var detached := ParenthesizedExpression(Folded(At(t, root).expression));
            && IsParenthesizedLiteral(detached)
            && CheckRequires(detached, Some([])) == Fail(RuntimeException(DetachedRootMessage))
  {
    FoldedLiteral(At(t, root).expression);
  }
}
