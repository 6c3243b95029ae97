/**
 * What folding parenthesized literals means, on tree values.
 *
 * A parenthesized literal is a ParenthesizedExpression whose innermost
 * expression, through any number of further parentheses, is a literal. The
 * visitor works bottom-up (`Folded`); the fold method's documentation describes
 * the result top-down, as every outermost parenthesized literal replaced by its
 * innermost literal (`TopDown`). The lemmas show that the two agree, that the
 * result has no parenthesized literal left anywhere, and which nodes keep their
 * place.
 */
module FoldSpec {
  import opened Jdt

  /** isLiteralExpression: a Boolean, character, null, string, type or number literal. */
  predicate IsLiteralExpression(n: Node): (r: bool)
    ensures r <==> n.Literal?
  {
    match n
    case Literal(k, _) =>
      || k == BooleanLiteral
      || k == CharacterLiteral
      || k == NullLiteral
      || k == StringLiteral
      || k == TypeLiteral
      || k == NumberLiteral
    case _ => false
  }

  /** `n` is a literal, or parentheses (any depth) around a literal. */
  predicate ReducesToLiteral(n: Node)
  {
    match n
    case ParenthesizedExpression(e) => ReducesToLiteral(e)
    case _ => IsLiteralExpression(n)
  }

  /** `n` is a parenthesized expression that ends in a literal. */
  predicate IsParenthesizedLiteral(n: Node)
  {
    n.ParenthesizedExpression? && ReducesToLiteral(n.expression)
  }

  /** The innermost expression of a chain of parentheses that ends in a literal. */
  function Bottom(n: Node): (r: Node)
    requires ReducesToLiteral(n)
    ensures IsLiteralExpression(r)
  {
    match n
    case ParenthesizedExpression(e) => Bottom(e)
    case _ => n
  }

  /** Some node of the tree `n`, `n` included, is a parenthesized literal. */
  predicate HasParenthesizedLiteral(n: Node): (r: bool)
    ensures IsParenthesizedLiteral(n) ==> r
    ensures n.Literal? ==> !r
  {
    match n
    case ParenthesizedExpression(e) => ReducesToLiteral(e) || HasParenthesizedLiteral(e)
    case Literal(_, _) => false
    case Composite(_, ps) => exists i :: 0 <= i < |ps| && PropertyHasParenthesizedLiteral(ps[i])
  }

  predicate PropertyHasParenthesizedLiteral(pr: Property)
  {
    match pr
    case Child(c) => HasParenthesizedLiteral(c)
    case ChildList(cs) => exists j :: 0 <= j < |cs| && HasParenthesizedLiteral(cs[j])
    case Simple(_) => false
  }

  /** The same question asked through paths: some reachable node is a parenthesized literal. */
  ghost predicate ReachesParenthesizedLiteral(n: Node)
  {
    exists q :: ValidPath(n, q) && IsParenthesizedLiteral(At(n, q))
  }

  /**
   * The tree after the visitor: children first, then a parenthesized expression
   * whose (already folded) expression is a literal becomes that literal.
   */
  function Folded(n: Node): (r: Node)
    ensures IsLiteralExpression(r) <==> ReducesToLiteral(n)
    ensures !IsParenthesizedLiteral(n) ==> SameType(r, n)
  {
    match n
    case ParenthesizedExpression(e) =>
      var inner := Folded(e);
      if IsLiteralExpression(inner) then inner else ParenthesizedExpression(inner)
    case Literal(_, _) => n
    case Composite(k, ps) => Composite(k, seq(|ps|, i requires 0 <= i < |ps| => FoldedProperty(ps[i])))
  }

  function FoldedProperty(pr: Property): Property
  {
    match pr
    case Child(c) => Child(Folded(c))
    case ChildList(cs) => ChildList(seq(|cs|, j requires 0 <= j < |cs| => Folded(cs[j])))
    case Simple(_) => pr
  }

  /** The tree with every outermost parenthesized literal replaced by its innermost literal. */
  function TopDown(n: Node): (r: Node)
    ensures ReducesToLiteral(r) <==> ReducesToLiteral(n)
    ensures IsParenthesizedLiteral(n) ==> IsLiteralExpression(r)
    ensures !IsParenthesizedLiteral(n) ==> SameType(r, n)
  {
    if IsParenthesizedLiteral(n) then Bottom(n)
    else match n
      case ParenthesizedExpression(e) => ParenthesizedExpression(TopDown(e))
      case Literal(_, _) => n
      case Composite(k, ps) => Composite(k, seq(|ps|, i requires 0 <= i < |ps| => TopDownProperty(ps[i])))
  }

  function TopDownProperty(pr: Property): Property
  {
    match pr
    case Child(c) => Child(TopDown(c))
    case ChildList(cs) => ChildList(seq(|cs|, j requires 0 <= j < |cs| => TopDown(cs[j])))
    case Simple(_) => pr
  }

  /** `d` pairs of parentheses around `n`. */
  function Nest(d: nat, n: Node): Node
  {
    if d == 0 then n else ParenthesizedExpression(Nest(d - 1, n))
  }

  /** No node strictly above the end of `q` (starting at `n`) is a parenthesized literal. */
  predicate OutsideParenthesizedLiterals(n: Node, q: Path)
    requires ValidPath(n, q)
    decreases q
  {
    q == [] || (!IsParenthesizedLiteral(n) && OutsideParenthesizedLiterals(ChildAt(n, q[0]).value, q[1..]))
  }

  /**
   * Folding keeps an expression a literal or parentheses around one exactly when
   * it was one, and then the result is that innermost literal.
   */
  lemma {:induction false} FoldedLiteral(e: Node)
    ensures ReducesToLiteral(Folded(e)) <==> ReducesToLiteral(e)
    ensures ReducesToLiteral(e) ==> Folded(e) == Bottom(e)
  {
    match e
    case ParenthesizedExpression(x) => FoldedLiteral(x);
    case Literal(_, _) =>
    case Composite(_, _) =>
  }

  /**
   * A node that is not itself a parenthesized literal keeps its type and the
   * same slots; each child is replaced by its folded form.
   */
  lemma ChildAtFolded(n: Node, l: Location)
    requires !IsParenthesizedLiteral(n)
    ensures SameType(Folded(n), n) && |Properties(Folded(n))| == |Properties(n)|
    ensures ChildAt(Folded(n), l) == if ChildAt(n, l).Some? then Some(Folded(ChildAt(n, l).value)) else None
  {
    if n.ParenthesizedExpression? {
      FoldedLiteral(n.expression);
    }
  }

  /** Nested parentheses around a literal collapse to the literal in one fold. */
  lemma {:induction false} CascadeInOneFold(d: nat, lit: Node)
    requires IsLiteralExpression(lit)
    ensures Folded(Nest(d, lit)) == lit
  {
    if d > 0 {
      CascadeInOneFold(d - 1, lit);
    }
  }

  /** A parenthesized expression that does not end in a literal stays, around its folded expression. */
  lemma ParenthesizedNonLiteralStays(e: Node)
    requires !ReducesToLiteral(e)
    ensures Folded(ParenthesizedExpression(e)) == ParenthesizedExpression(Folded(e))
  {
    FoldedLiteral(e);
  }

  /** After folding, no node of the tree is a parenthesized literal. */
  lemma {:induction false} FoldedHasNoParenthesizedLiteral(n: Node)
    ensures !HasParenthesizedLiteral(Folded(n))
  {
    match n
    case ParenthesizedExpression(e) =>
      FoldedLiteral(e);
      FoldedHasNoParenthesizedLiteral(e);
    case Literal(_, _) =>
    case Composite(k, ps) =>
      forall i | 0 <= i < |ps|
        ensures !PropertyHasParenthesizedLiteral(FoldedProperty(ps[i]))
      {
        match ps[i]
        case Child(c) =>
          FoldedHasNoParenthesizedLiteral(c);
        case ChildList(cs) =>
          forall j | 0 <= j < |cs| ensures !HasParenthesizedLiteral(Folded(cs[j])) {
            FoldedHasNoParenthesizedLiteral(cs[j]);
          }
        case Simple(_) =>
      }
  }

  /** A tree without parenthesized literals is left exactly as it was. */
  lemma {:induction false} FoldedWithoutParenthesizedLiteral(n: Node)
    requires !HasParenthesizedLiteral(n)
    ensures Folded(n) == n
  {
    match n
    case ParenthesizedExpression(e) =>
      FoldedWithoutParenthesizedLiteral(e);
    case Literal(_, _) =>
    case Composite(k, ps) =>
      forall i | 0 <= i < |ps| ensures FoldedProperty(ps[i]) == ps[i] {
        match ps[i]
        case Child(c) =>
          assert !PropertyHasParenthesizedLiteral(ps[i]);
          FoldedWithoutParenthesizedLiteral(c);
        case ChildList(cs) =>
          assert !PropertyHasParenthesizedLiteral(ps[i]);
          forall j | 0 <= j < |cs| ensures Folded(cs[j]) == cs[j] {
            FoldedWithoutParenthesizedLiteral(cs[j]);
          }
          assert FoldedProperty(ps[i]).nodes == cs;
        case Simple(_) =>
      }
      assert Folded(n).properties == ps;
  }

  /** Folding changes the tree exactly when it holds a parenthesized literal. */
  lemma FoldedChangesIff(n: Node)
    ensures Folded(n) == n <==> !HasParenthesizedLiteral(n)
  {
    FoldedHasNoParenthesizedLiteral(n);
    if !HasParenthesizedLiteral(n) {
      FoldedWithoutParenthesizedLiteral(n);
    }
  }

  /** Folding a folded tree changes nothing. */
  lemma FoldedIdempotent(n: Node)
    ensures Folded(Folded(n)) == Folded(n)
  {
    FoldedHasNoParenthesizedLiteral(n);
    FoldedWithoutParenthesizedLiteral(Folded(n));
  }

  /** The bottom-up visitor's result is the top-down description of the fold. */
  lemma {:induction false} FoldedIsTopDown(n: Node)
    ensures Folded(n) == TopDown(n)
  {
    if IsParenthesizedLiteral(n) {
      FoldedLiteral(n);
    } else {
      match n
      case ParenthesizedExpression(e) =>
        FoldedLiteral(e);
        FoldedIsTopDown(e);
      case Literal(_, _) =>
      case Composite(k, ps) =>
        forall i | 0 <= i < |ps| ensures FoldedProperty(ps[i]) == TopDownProperty(ps[i]) {
          match ps[i]
          case Child(c) =>
            FoldedIsTopDown(c);
          case ChildList(cs) =>
            forall j | 0 <= j < |cs| ensures Folded(cs[j]) == TopDown(cs[j]) {
              FoldedIsTopDown(cs[j]);
            }
          case Simple(_) =>
        }
    }
  }

  /** A parenthesized literal found structurally is reachable by a path. */
  lemma {:induction false} PathToParenthesizedLiteral(n: Node) returns (q: Path)
    requires HasParenthesizedLiteral(n)
    ensures ValidPath(n, q) && IsParenthesizedLiteral(At(n, q))
  {
    match n
    case ParenthesizedExpression(e) =>
      if ReducesToLiteral(e) {
        q := [];
      } else {
        var rest := PathToParenthesizedLiteral(e);
        q := [ChildLocation(0)] + rest;
        assert q[1..] == rest;
      }
    case Composite(_, ps) =>
      var i :| 0 <= i < |ps| && PropertyHasParenthesizedLiteral(ps[i]);
      var l, c;
      if ps[i].Child? {
        l, c := ChildLocation(i), ps[i].node;
      } else {
        var cs := ps[i].nodes;
        var j :| 0 <= j < |cs| && HasParenthesizedLiteral(cs[j]);
        l, c := ChildListLocation(i, j), cs[j];
      }
      var rest := PathToParenthesizedLiteral(c);
      q := [l] + rest;
      assert q[1..] == rest;
  }

  /** A parenthesized literal reachable by a path is found structurally. */
  lemma {:induction false} ParenthesizedLiteralOnPath(n: Node, q: Path)
    requires ValidPath(n, q)
    ensures IsParenthesizedLiteral(At(n, q)) ==> HasParenthesizedLiteral(n)
    decreases q
  {
    if q != [] {
      var c := ChildAt(n, q[0]).value;
      ParenthesizedLiteralOnPath(c, q[1..]);
      match q[0]
      case ChildLocation(i) =>
        if n.Composite? {
          assert n.properties[i] == Child(c);
        }
      case ChildListLocation(i, j) =>
        assert n.properties[i].nodes[j] == c;
      case SimpleLocation(_) =>
    }
  }

  /** The structural definition and the path definition agree. */
  lemma HasIffReaches(n: Node)
    ensures HasParenthesizedLiteral(n) <==> ReachesParenthesizedLiteral(n)
  {
    if HasParenthesizedLiteral(n) {
      var q := PathToParenthesizedLiteral(n);
    } else {
      forall q | ValidPath(n, q) ensures !IsParenthesizedLiteral(At(n, q)) {
        ParenthesizedLiteralOnPath(n, q);
      }
    }
  }

  /** No node reachable in the folded tree is a parenthesized literal. */
  lemma NothingLeftToFold(n: Node)
    ensures forall q :: ValidPath(Folded(n), q) ==> !IsParenthesizedLiteral(At(Folded(n), q))
  {
    FoldedHasNoParenthesizedLiteral(n);
    forall q | ValidPath(Folded(n), q) ensures !IsParenthesizedLiteral(At(Folded(n), q)) {
      ParenthesizedLiteralOnPath(Folded(n), q);
    }
  }

  /**
   * Every node outside the parenthesized literals is still at its path after
   * folding, folded in place; an outermost parenthesized literal's slot now
   * holds its innermost literal, and any other node keeps its type and slots.
   */
  lemma {:induction false} FoldedAtPath(n: Node, q: Path)
    requires ValidPath(n, q) && OutsideParenthesizedLiterals(n, q)
    ensures ValidPath(Folded(n), q) && At(Folded(n), q) == Folded(At(n, q))
    ensures IsParenthesizedLiteral(At(n, q)) ==> At(Folded(n), q) == Bottom(At(n, q))
    ensures !IsParenthesizedLiteral(At(n, q)) ==> SameType(At(Folded(n), q), At(n, q))
    decreases q
  {
    if q == [] {
      if IsParenthesizedLiteral(n) {
        FoldedLiteral(n);
      } else {
        ChildAtFolded(n, ChildLocation(0));
      }
    } else {
      ChildAtFolded(n, q[0]);
      FoldedAtPath(ChildAt(n, q[0]).value, q[1..]);
    }
  }
}
