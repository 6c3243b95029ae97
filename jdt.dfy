/**
 * The part of the Eclipse JDT DOM that the folding code relies on: a tree of
 * nodes, each with structural properties (a single child, a list of children,
 * or a simple value), and the descriptor of where a node sits in its parent.
 *
 * A node is addressed by its path from the topmost node of its tree: its parent
 * is the node at the path without its last step, and the last step is its
 * location in the parent. A JDT tree gives every node at most one parent, so a
 * path names exactly one node and no node is shared between two slots.
 */
module Jdt {

  datatype Option<+T> = None | Some(value: T)

  /** The six node types that the folding rule treats as literals. */
  datatype LiteralKind =
    | BooleanLiteral
    | CharacterLiteral
    | NullLiteral
    | StringLiteral
    | TypeLiteral
    | NumberLiteral

  /** Node types other than ParenthesizedExpression and the literals. */
  datatype CompositeKind = CompilationUnit | OtherKind(name: string)

  /**
   * A tree node. A literal's payload (number token, string escapes, the type of a
   * type literal) is an opaque token. Every other node type (statements,
   * operators, method calls, names, ...) is a Composite with its properties in
   * the order in which the JDT visits them.
   */
  datatype Node =
    | ParenthesizedExpression(expression: Node)
    | Literal(literal: LiteralKind, token: string)
    | Composite(kind: CompositeKind, properties: seq<Property>)

  /**
   * A structural property of a node, as JDT's three kinds of property descriptor.
   * An optional child property that holds null (an if statement without else)
   * is a Simple placeholder: the JDT's traversal skips a null child, and no node
   * sits there.
   */
  datatype Property =
    | Child(node: Node)
    | ChildList(nodes: seq<Node>)
    | Simple(value: string)

  /**
   * Where a node sits in its parent: a child property, an element of a child-list
   * property (with the element's index), or a simple property (which holds no node).
   */
  datatype Location =
    | ChildLocation(property: nat)
    | ChildListLocation(property: nat, index: nat)
    | SimpleLocation(property: nat)

  type Path = seq<Location>

  /** The properties of a node; a parenthesized expression has one, its expression. */
  function Properties(n: Node): seq<Property>
  {
    match n
    case ParenthesizedExpression(e) => [Child(e)]
    case Literal(_, token) => [Simple(token)]
    case Composite(_, ps) => ps
  }

  predicate IsCompilationUnit(n: Node)
  {
    n.Composite? && n.kind == CompilationUnit
  }

  /** The two nodes have the same node type (their properties may differ). */
  predicate SameType(a: Node, b: Node)
  {
    match a
    case ParenthesizedExpression(_) => b.ParenthesizedExpression?
    case Literal(k, _) => b.Literal? && b.literal == k
    case Composite(k, _) => b.Composite? && b.kind == k
  }

  /** The child of `n` at location `loc`, if there is one. */
  function ChildAt(n: Node, loc: Location): (r: Option<Node>)
    ensures r.Some? ==> r.value < n
  {
    var ps := Properties(n);
    match loc
    case ChildLocation(i) =>
      if i < |ps| && ps[i].Child? then Some(ps[i].node) else None
    case ChildListLocation(i, j) =>
      if i < |ps| && ps[i].ChildList? && j < |ps[i].nodes| then Some(ps[i].nodes[j]) else None
    case SimpleLocation(_) => None
  }

  /**
   * `n` with the child at `loc` replaced by `c`: what the JDT's
   * setStructuralProperty does for a child property and List.set does for an
   * element of a child list.
   */
  function WithChildAt(n: Node, loc: Location, c: Node): (r: Node)
    requires ChildAt(n, loc).Some?
    ensures SameType(r, n) && |Properties(r)| == |Properties(n)|
    ensures ChildAt(r, loc) == Some(c)
    ensures forall l :: l != loc ==> ChildAt(r, l) == ChildAt(n, l)
  {
    match n
    case ParenthesizedExpression(_) => ParenthesizedExpression(c)
    case Literal(_, _) => n
    case Composite(k, ps) =>
      var p := loc.property;
      if loc.ChildLocation? then Composite(k, ps[p := Child(c)])
      else Composite(k, ps[p := ChildList(ps[p].nodes[loc.index := c])])
  }

  /** `p` leads from `t` through existing children to a node. */
  predicate ValidPath(t: Node, p: Path)
    decreases p
  {
    p == [] || (ChildAt(t, p[0]).Some? && ValidPath(ChildAt(t, p[0]).value, p[1..]))
  }

  /** The node at path `p` below `t`. */
  function At(t: Node, p: Path): Node
    requires ValidPath(t, p)
    decreases p
  {
    if p == [] then t else At(ChildAt(t, p[0]).value, p[1..])
  }

  /** `t` with the node at path `p` replaced by `s`; every ancestor keeps its other slots. */
  function ReplaceAt(t: Node, p: Path, s: Node): (r: Node)
    requires ValidPath(t, p)
    ensures p != [] ==> SameType(r, t) && |Properties(r)| == |Properties(t)|
    decreases p
  {
    if p == [] then s else WithChildAt(t, p[0], ReplaceAt(ChildAt(t, p[0]).value, p[1..], s))
  }

  /** The path of the parent of the node at non-empty path `p`. */
  function ParentPath(p: Path): Path
    requires p != []
  {
    p[..|p| - 1]
  }

  /** getLocationInParent: None for the topmost node, which has no parent. */
  function LocationInParent(p: Path): (r: Option<Location>)
    ensures r.None? <==> p == []
  {
    if p == [] then None else Some(p[|p| - 1])
  }

  predicate IsPrefix(q: Path, p: Path)
  {
    |q| <= |p| && p[..|q|] == q
  }

  /** Extending a valid path by one step is valid exactly when that child exists. */
  lemma {:induction false} AtAppend(t: Node, p: Path, l: Location)
    ensures ValidPath(t, p + [l]) <==> ValidPath(t, p) && ChildAt(At(t, p), l).Some?
    ensures ValidPath(t, p + [l]) ==> At(t, p + [l]) == ChildAt(At(t, p), l).value
    decreases p
  {
    if p == [] {
      assert [] + [l] == [l];
      assert [l][1..] == [];
    } else {
      assert (p + [l])[0] == p[0];
      assert (p + [l])[1..] == p[1..] + [l];
      if ChildAt(t, p[0]).Some? {
        AtAppend(ChildAt(t, p[0]).value, p[1..], l);
      }
    }
  }

  /** A path through the node at `p` is `p` followed by a path below that node. */
  lemma {:induction false} AtConcat(t: Node, p: Path, q: Path)
    requires ValidPath(t, p)
    ensures ValidPath(t, p + q) <==> ValidPath(At(t, p), q)
    ensures ValidPath(t, p + q) ==> At(t, p + q) == At(At(t, p), q)
    decreases p
  {
    if p == [] {
      assert [] + q == q;
    } else {
      assert (p + q)[0] == p[0];
      assert (p + q)[1..] == p[1..] + q;
      AtConcat(ChildAt(t, p[0]).value, p[1..], q);
    }
  }

  /** Replacing at a path one step longer replaces that slot in the node at the shorter path. */
  lemma {:induction false} ReplaceAtAppend(t: Node, p: Path, l: Location, s: Node)
    requires ValidPath(t, p + [l])
    ensures ValidPath(t, p) && ChildAt(At(t, p), l).Some?
    ensures ReplaceAt(t, p + [l], s) == ReplaceAt(t, p, WithChildAt(At(t, p), l, s))
    decreases p
  {
    AtAppend(t, p, l);
    if p == [] {
      assert [] + [l] == [l];
      assert [l][1..] == [];
    } else {
      assert (p + [l])[0] == p[0];
      assert (p + [l])[1..] == p[1..] + [l];
      ReplaceAtAppend(ChildAt(t, p[0]).value, p[1..], l, s);
    }
  }

  /** After a replacement the path still leads to a node, and that node is the replacement. */
  lemma {:induction false} AtReplaceAt(t: Node, p: Path, s: Node)
    requires ValidPath(t, p)
    ensures ValidPath(ReplaceAt(t, p, s), p) && At(ReplaceAt(t, p, s), p) == s
    decreases p
  {
    if p != [] {
      AtReplaceAt(ChildAt(t, p[0]).value, p[1..], s);
    }
  }

  /** A second replacement at the same path overrides the first. */
  lemma {:induction false} ReplaceAtTwice(t: Node, p: Path, a: Node, b: Node)
    requires ValidPath(t, p)
    ensures ValidPath(ReplaceAt(t, p, a), p)
    ensures ReplaceAt(ReplaceAt(t, p, a), p, b) == ReplaceAt(t, p, b)
    decreases p
  {
    AtReplaceAt(t, p, a);
    if p != [] {
      var c := ChildAt(t, p[0]).value;
      ReplaceAtTwice(c, p[1..], a, b);
      WithChildAtTwice(t, p[0], ReplaceAt(c, p[1..], a), ReplaceAt(c, p[1..], b));
    }
  }

  /** Setting the same slot twice keeps only the second child. */
  lemma WithChildAtTwice(n: Node, loc: Location, a: Node, b: Node)
    requires ChildAt(n, loc).Some?
    ensures WithChildAt(WithChildAt(n, loc, a), loc, b) == WithChildAt(n, loc, b)
  {
    if n.Composite? && loc.ChildListLocation? {
      var xs := n.properties[loc.property].nodes;
      assert xs[loc.index := a][loc.index := b] == xs[loc.index := b];
    }
  }

  /**
   * A replacement leaves every node that is neither on the path to the replaced
   * node nor below it exactly as it was.
   */
  lemma {:induction false} ReplaceAtElsewhere(t: Node, p: Path, s: Node, q: Path)
    requires ValidPath(t, p) && ValidPath(t, q)
    requires !IsPrefix(p, q) && !IsPrefix(q, p)
    ensures ValidPath(ReplaceAt(t, p, s), q) && At(ReplaceAt(t, p, s), q) == At(t, q)
    decreases p
  {
    assert p != [] && q != [];
    var r := ReplaceAt(t, p, s);
    if p[0] == q[0] {
      PrefixTail(p, q);
      PrefixTail(q, p);
      ReplaceAtElsewhere(ChildAt(t, p[0]).value, p[1..], s, q[1..]);
    } else {
      assert ChildAt(r, q[0]) == ChildAt(t, q[0]) by {
        SlotUnchanged(t, p[0], ReplaceAt(ChildAt(t, p[0]).value, p[1..], s), q[0]);
      }
    }
  }

  /** Two paths that start with the same step are prefixes of each other as their tails are. */
  lemma PrefixTail(p: Path, q: Path)
    requires p != [] && q != [] && p[0] == q[0]
    ensures IsPrefix(p, q) <==> IsPrefix(p[1..], q[1..])
  {
    if |p| <= |q| {
      assert q[..|p|] == [q[0]] + q[1..][..|p| - 1];
    }
  }

  /** WithChildAt changes no other slot. */
  lemma SlotUnchanged(n: Node, loc: Location, c: Node, other: Location)
    requires ChildAt(n, loc).Some? && other != loc
    ensures ChildAt(WithChildAt(n, loc, c), other) == ChildAt(n, other)
  {
  }

  /**
   * On the way to the replaced node every ancestor keeps its node type, its
   * number of properties and every child that is not on the path.
   */
  lemma {:induction false} ReplaceAtAncestor(t: Node, p: Path, s: Node, q: Path, l: Location)
    requires ValidPath(t, p) && IsPrefix(q, p) && |q| < |p|
    requires l != p[|q|]
    ensures ValidPath(t, q) && ValidPath(ReplaceAt(t, p, s), q)
    ensures SameType(At(ReplaceAt(t, p, s), q), At(t, q))
    ensures |Properties(At(ReplaceAt(t, p, s), q))| == |Properties(At(t, q))|
    ensures ChildAt(At(ReplaceAt(t, p, s), q), l) == ChildAt(At(t, q), l)
    decreases p
  {
    var c := ChildAt(t, p[0]).value;
    var inner := ReplaceAt(c, p[1..], s);
    if q == [] {
      SlotUnchanged(t, p[0], inner, l);
    } else {
      assert q[0] == p[0];
      assert IsPrefix(q[1..], p[1..]) by { assert p[1..][..|q| - 1] == p[..|q|][1..]; }
      assert p[1..][|q| - 1] == p[|q|];
      ReplaceAtAncestor(c, p[1..], s, q[1..], l);
    }
  }

  /** Putting back the node that is already there changes nothing. */
  lemma WithChildAtSelf(n: Node, loc: Location)
    requires ChildAt(n, loc).Some?
    ensures WithChildAt(n, loc, ChildAt(n, loc).value) == n
  {
    if n.Composite? && loc.ChildListLocation? {
      var xs := n.properties[loc.property].nodes;
      assert xs[loc.index := xs[loc.index]] == xs;
    }
  }

  lemma {:induction false} ReplaceAtSelf(t: Node, p: Path)
    requires ValidPath(t, p)
    ensures ReplaceAt(t, p, At(t, p)) == t
    decreases p
  {
    if p != [] {
      ReplaceAtSelf(ChildAt(t, p[0]).value, p[1..]);
      WithChildAtSelf(t, p[0]);
    }
  }

  /**
   * Replacing the node at `p` by `x` and then a child of it by `y` is one
   * replacement at `p`, by `x` with that child set to `y`.
   */
  lemma ReplaceBelow(t: Node, p: Path, x: Node, l: Location, y: Node)
    requires ValidPath(t, p) && ChildAt(x, l).Some?
    ensures ValidPath(ReplaceAt(t, p, x), p + [l]) && At(ReplaceAt(t, p, x), p + [l]) == ChildAt(x, l).value
    ensures ReplaceAt(ReplaceAt(t, p, x), p + [l], y) == ReplaceAt(t, p, WithChildAt(x, l, y))
  {
    var r := ReplaceAt(t, p, x);
    AtReplaceAt(t, p, x);
    AtAppend(r, p, l);
    ReplaceAtAppend(r, p, l, y);
    ReplaceAtTwice(t, p, x, WithChildAt(x, l, y));
  }

  /**
   * The JDT AST object that owns a tree: `top` is the topmost node, a
   * CompilationUnit for a parsed file or a node created on its own.
   */
  class Ast {
    var top: Node

    constructor (top: Node)
      ensures this.top == top
    {
      this.top := top;
    }
  }
}
