# Parenthesized-literal folding, modelled in Dafny

This project models the parenthesized-literal folding rule of the BYU CS 329 constant-folding lab
and proves its contract. The rule is a JDT `ASTVisitor`. Wherever a `ParenthesizedExpression`
ends in a literal, through any number of further parentheses, it puts a copy of that literal in
the expression's slot in its parent. It reports whether it replaced anything. The model also
covers the helpers the rule uses from `Utils`: `requiresNonNull`, `throwRuntimeException` and
`setNewChildInParent`.

Files and modules:

- `jdt.dfy` (module `Jdt`) is the part of the Eclipse JDT DOM the rule relies on.
  - A node is a value: a `ParenthesizedExpression`, one of the six literal types, or a
    composite node with child, child-list and simple properties.
  - A node in a tree is named by its path from the top. Its parent is the path without its
    last step, and that last step is its location in the parent.
  - The class `Ast` holds the tree the rule mutates in place.
  - Lemmas describe what replacing the node at a path does to the rest of the tree.
- `utils.dfy` (module `Utils`) has:
  - the two guards;
  - the one-slot update, which fails on a simple-property location;
  - the method `SetNewChildInParent`, which changes the tree in one slot.

  A thrown exception is a `Fail`/`Failure` value that the caller passes on.
- `fold_spec.dfy` (module `FoldSpec`) says what folding means on tree values.
  - `Folded` is the bottom-up result the visitor computes.
  - `TopDown` is the reading in the method's documentation: every outermost parenthesized
    literal is replaced by its innermost literal.
  - Lemmas prove that these two agree, that nothing is left to fold, and that folding is
    idempotent.
  - Further lemmas prove which nodes keep their slot and type.
- `parenthesized_expression_folding.dfy` (module `ParenthesizedExpressionFolding`) holds the visitor.
  - The class `Visitor` has the fields `newExp` and `didFold`.
  - Its methods are `Accept`, `Visit`, `EndVisit`, `VisitChildren` and `AcceptChildren`. They
    follow the JDT's traversal: visit, then the children in property order, then endVisit.
  - `CheckRequires` and `Fold` model the two methods of the rule.
  - Every method is proved against `FoldSpec.Folded`. After `Fold`, the tree holds the folded
    subtree at the root's path, and the result is whether that subtree had a parenthesized
    literal.

## Model

| member | source | states |
|---|---|---|
| FoldSpec.IsLiteralExpression | src/main/java/edu/byu/cs329/constantfolding/ParenthesizedExpressionFolding.java:31-38 | holds exactly for the six literal node types (Boolean, character, null, string, type, number) and for nothing else |
| FoldSpec.Bottom | src/main/java/edu/byu/cs329/constantfolding/ParenthesizedExpressionFolding.java:88-89 | for a chain of parentheses that ends in a literal, the innermost expression, which is a literal |
| FoldSpec.HasParenthesizedLiteral | src/main/java/edu/byu/cs329/constantfolding/ParenthesizedExpressionFolding.java:77-79 | defines "top(root) is not empty", the value fold returns: some node of the tree, the tree included, is a parenthesized literal; it holds for a parenthesized literal and never for a literal |
| FoldSpec.Folded | src/main/java/edu/byu/cs329/constantfolding/ParenthesizedExpressionFolding.java:40-64 | defines the tree the visitor leaves: children first, then a parenthesized expression whose folded expression is a literal becomes that literal; the result is a literal exactly when the input is a literal or parentheses around one, and any node that is not a parenthesized literal keeps its type |
| FoldSpec.TopDown | src/main/java/edu/byu/cs329/constantfolding/ParenthesizedExpressionFolding.java:77-89 | defines the documented reading: every outermost parenthesized literal is replaced by its innermost literal (bottom), every other node keeps its type, and the result ends in a literal exactly when the input does |
| FoldSpec.FoldedLiteral | src/main/java/edu/byu/cs329/constantfolding/ParenthesizedExpressionFolding.java:42-49 | folding keeps an expression a literal or parentheses around one exactly when it was one, and then the result is its innermost literal |
| FoldSpec.CascadeInOneFold | src/main/java/edu/byu/cs329/constantfolding/ParenthesizedExpressionFolding.java:41-51 | any depth of nested parentheses around a literal folds to that literal in one traversal |
| FoldSpec.ParenthesizedNonLiteralStays | src/main/java/edu/byu/cs329/constantfolding/ParenthesizedExpressionFolding.java:47-48 | a parenthesized expression that does not end in a literal stays a parenthesized expression around its folded expression |
| FoldSpec.ChildAtFolded | src/main/java/edu/byu/cs329/constantfolding/ParenthesizedExpressionFolding.java:100-103 | a node that is not a parenthesized literal keeps its type and property count, and each of its slots holds the folded former child |
| FoldSpec.FoldedHasNoParenthesizedLiteral | src/main/java/edu/byu/cs329/constantfolding/ParenthesizedExpressionFolding.java:104-106 | no parenthesized literal is left anywhere in the folded tree |
| FoldSpec.NothingLeftToFold | src/main/java/edu/byu/cs329/constantfolding/ParenthesizedExpressionFolding.java:104-106 | no path of the folded tree leads to a parenthesized literal |
| FoldSpec.FoldedWithoutParenthesizedLiteral | src/main/java/edu/byu/cs329/constantfolding/ParenthesizedExpressionFolding.java:100-103 | a tree without parenthesized literals is left exactly as it was |
| FoldSpec.FoldedChangesIff | src/main/java/edu/byu/cs329/constantfolding/ParenthesizedExpressionFolding.java:109 | folding changes the tree if and only if it holds a parenthesized literal |
| FoldSpec.FoldedIdempotent | src/main/java/edu/byu/cs329/constantfolding/ParenthesizedExpressionFolding.java:104-106 | folding a folded tree changes nothing |
| FoldSpec.FoldedIsTopDown | src/main/java/edu/byu/cs329/constantfolding/ParenthesizedExpressionFolding.java:77-99 | the bottom-up result equals the documented one, in which each outermost parenthesized literal is replaced by its innermost literal |
| FoldSpec.PathToParenthesizedLiteral | src/main/java/edu/byu/cs329/constantfolding/ParenthesizedExpressionFolding.java:77-79 | when the tree holds a parenthesized literal, it returns a path that reaches one |
| FoldSpec.ParenthesizedLiteralOnPath | src/main/java/edu/byu/cs329/constantfolding/ParenthesizedExpressionFolding.java:77-79 | a parenthesized literal reachable by a path means the tree holds one |
| FoldSpec.HasIffReaches | src/main/java/edu/byu/cs329/constantfolding/ParenthesizedExpressionFolding.java:73-79 | the structural test for holding a parenthesized literal agrees in both directions with reachability along a path |
| FoldSpec.FoldedAtPath | src/main/java/edu/byu/cs329/constantfolding/ParenthesizedExpressionFolding.java:94-103 | every path that passes through no parenthesized literal survives folding; an outermost parenthesized literal at its end becomes its innermost literal in the same slot, and any other node keeps its type |
| Jdt.ChildAt | src/main/java/edu/byu/cs329/constantfolding/Utils.java:126-128 | the child of a node at a location, if present, is structurally smaller than the node |
| Jdt.WithChildAt | src/main/java/edu/byu/cs329/constantfolding/Utils.java:122-128 | setting one slot keeps the node type and property count, puts the new child in that slot and leaves every other slot unchanged |
| Jdt.LocationInParent | src/main/java/edu/byu/cs329/constantfolding/Utils.java:120 | a node has no location in a parent exactly when it is the topmost node |
| Jdt.ReplaceAt | src/main/java/edu/byu/cs329/constantfolding/Utils.java:123-128 | defines setStructuralProperty and List.set seen from the top of the tree: the node at a path replaced, every ancestor rebuilt with that one slot changed; replacing below the top keeps the top node's type and property count |
| Jdt.AtReplaceAt | src/main/java/edu/byu/cs329/constantfolding/Utils.java:119-128 | after a replacement, the node's path leads to the new child |
| Jdt.ReplaceAtElsewhere | src/main/java/edu/byu/cs329/constantfolding/ParenthesizedExpressionFolding.java:100-103 | a replacement leaves unchanged every node whose path is neither above nor below the replaced one |
| Jdt.ReplaceAtAncestor | src/main/java/edu/byu/cs329/constantfolding/ParenthesizedExpressionFolding.java:96-99 | each ancestor of the replaced node keeps its type, property count and all its other slots |
| Utils.RequiresNonNull | src/main/java/edu/byu/cs329/constantfolding/Utils.java:60-68 | returns normally if and only if the value is present, otherwise fails with a NullPointerException carrying the message |
| Utils.ThrowRuntimeException | src/main/java/edu/byu/cs329/constantfolding/Utils.java:75-79 | never returns normally; always fails with a RuntimeException carrying the message |
| Utils.ReplaceInParent | src/main/java/edu/byu/cs329/constantfolding/Utils.java:122-134 | a child slot gets the new child; in a child list, the list keeps its length and order with the new child only at the index; every other property stays; a simple-property location fails with UnsupportedOperationException |
| Utils.NodeLocationIsNotSimple | src/main/java/edu/byu/cs329/constantfolding/Utils.java:120-134 | a node below the top always has a location, it is never a simple property, and its slot in its parent exists, so neither the unsupported branch nor a missing slot can arise for a tree node |
| Utils.ReplaceAtParent | src/main/java/edu/byu/cs329/constantfolding/Utils.java:119-135 | replacing a node of the tree changes its parent exactly as the slot update does: every other property of the parent, simple ones included, stays, and a child list keeps its length and order |
| Utils.SetNewChildInParent | src/main/java/edu/byu/cs329/constantfolding/Utils.java:119-135 | for the topmost node, fails with a NullPointerException and leaves the tree alone; otherwise the tree changes exactly at the node's slot, which now holds the new child |
| ParenthesizedExpressionFolding.Visitor.constructor | src/main/java/edu/byu/cs329/constantfolding/ParenthesizedExpressionFolding.java:28-29 | a new visitor has no pending expression and has not folded |
| ParenthesizedExpressionFolding.Visitor.Accept | src/main/java/edu/byu/cs329/constantfolding/ParenthesizedExpressionFolding.java:40-64 | accepting the node at a path folds exactly that subtree in place, clears the pending expression and adds to didFold whether the subtree held a parenthesized literal; it fails, with the endVisit message, only for a parenthesized literal at the top, which has no parent |
| ParenthesizedExpressionFolding.Visitor.Visit | src/main/java/edu/byu/cs329/constantfolding/ParenthesizedExpressionFolding.java:40-51 | folds the expression first, then keeps a copy of it as the pending expression exactly when it is now a literal; returns false so the children are not visited again |
| ParenthesizedExpressionFolding.Visitor.EndVisit | src/main/java/edu/byu/cs329/constantfolding/ParenthesizedExpressionFolding.java:53-64 | with nothing pending, changes nothing; with a pending literal, fails with the null-location message for a node without a parent, and otherwise puts the literal in the node's slot, clears the pending expression and sets didFold |
| ParenthesizedExpressionFolding.Visitor.VisitChildren | src/main/java/edu/byu/cs329/constantfolding/ParenthesizedExpressionFolding.java:26-29 | the inherited visit of any other node accepts every child in property order, which folds the node's subtree in place and adds to didFold whether it held a parenthesized literal |
| ParenthesizedExpressionFolding.Visitor.AcceptChildren | src/main/java/edu/byu/cs329/constantfolding/ParenthesizedExpressionFolding.java:26-29 | accepting the elements of one child list in order folds each element and nothing else in the tree |
| ParenthesizedExpressionFolding.CheckRequires | src/main/java/edu/byu/cs329/constantfolding/ParenthesizedExpressionFolding.java:118-126 | a missing root fails with the null-root NullPointerException; otherwise it passes if and only if the root is a CompilationUnit or has a parent, and fails with the detached-root RuntimeException if not |
| ParenthesizedExpressionFolding.Fold | src/main/java/edu/byu/cs329/constantfolding/ParenthesizedExpressionFolding.java:111-116 | a failed check leaves the tree alone and passes the failure on; otherwise the root's subtree is replaced by its folded form, and the result is true if and only if the subtree held a parenthesized literal |
| ParenthesizedExpressionFolding.FoldRewritesBelowRoot | src/main/java/edu/byu/cs329/constantfolding/ParenthesizedExpressionFolding.java:94-103 | seen from the top of the tree, each outermost parenthesized literal below the root is replaced in its own slot by its innermost literal, and every node outside them keeps its type |
| ParenthesizedExpressionFolding.FoldWithNothingToFold | src/main/java/edu/byu/cs329/constantfolding/ParenthesizedExpressionFolding.java:100-109 | with no parenthesized literal below the root, fold leaves the whole tree unchanged (and, by Fold, returns false) |
| ParenthesizedExpressionFolding.FoldTwice | src/main/java/edu/byu/cs329/constantfolding/ParenthesizedExpressionFolding.java:104-116 | a second fold of the same root slot, right after the first, returns false and leaves the first fold's result unchanged, also when the first fold replaced the root node itself |
| ParenthesizedExpressionFolding.DetachedRootRefoldFails | src/main/java/edu/byu/cs329/constantfolding/ParenthesizedExpressionFolding.java:104-124 | when the root is a parenthesized literal with a parent, the first fold passes its check and returns true, but the node the caller holds is left detached and still a parenthesized literal, and folding it again fails the parent check with the detached-root RuntimeException |

## Left out

- Reading and parsing source files (`Utils.readFile`, `parse`, `getCompilationUnit`, `getUri`) are left out. They are file and class-path I/O; the tree is given as a value.
- `ConstantFolding` and its `main` are left out. Its fold is unimplemented in the source. A repeated-rounds fixed-point driver does not exist in the code, so none is modelled; each call to `Fold` is one traversal.
- Logging through slf4j (`log.error`) is left out. It has no effect on the tree or the results.
- JDT internals are abstracted in three ways. `ASTNode.copySubtree` becomes a value copy, since a value has no identity. `getStructuralProperty` and `setStructuralProperty` become reads and updates of one slot. A literal's payload, including the type of a `TypeLiteral`, is an opaque token, so a type annotation inside a type literal is not traversed.
- The JDT's `preVisit`/`postVisit` hooks and its Javadoc handling are left out. The rule does not override them, and no parenthesized expression can occur inside Javadoc.
- Node identity is a node's path, with `indexOf` already resolved into the list location's index. `Fold` and `FoldTwice` name the root by its slot. A Java reference to a root node that the fold replaces is expressed only by `DetachedRootRefoldFails`, which takes that detached node as the top of a tree of its own (see Findings).
- Utils.SetNewChildInParent: a null `oldChild`, a missing slot and a simple-property location are not modelled as Java exceptions thrown for a tree node. The first cannot be expressed with paths. `NodeLocationIsNotSimple` shows that the other two cannot arise for a node of a tree. For a bare parent node, `ReplaceInParent` still models both as failures.
- An optional child property that holds null, such as the else branch of an if statement, is a `Simple` placeholder. The JDT's traversal skips a null child, so folding never looks there.
- The exact Java exception thrown by `Objects.requireNonNull(location)` has no message, so it is a `NullPointerException` with an empty message.

## Findings

| source | as written | input that shows it | evidently intended | confidence | as-written member | corrected member |
|---|---|---|---|---|---|---|
| src/main/java/edu/byu/cs329/constantfolding/ParenthesizedExpressionFolding.java:104-116 | `fold(root)` replaces a root that is itself a parenthesized literal in its parent, and the caller's `root` reference is then detached and still a parenthesized literal | the statement `(1);` folded with the `ParenthesizedExpression` as root: the first fold returns true, the held root is still `(1)` with no parent, and a second `fold(root)` throws the detached-root RuntimeException | after fold, top(root) is empty and a second fold of the same root returns false, where the root is what now sits in the root's slot | medium, not executed | ParenthesizedExpressionFolding.DetachedRootRefoldFails | ParenthesizedExpressionFolding.FoldTwice |
