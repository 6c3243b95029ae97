/**
 * The checking and tree-mutation helpers of the folding code. A thrown Java
 * exception becomes a failure value that the caller passes on.
 */
module Utils {
  import opened Jdt

  /** The exceptions the helpers throw; a message left null in the source is "". */
  datatype Exception =
    | NullPointerException(message: string)
    | RuntimeException(message: string)
      /** "Location '...' is not supported", naming the location. */
    | UnsupportedOperationException(location: Location)
      /** The JDT's own failure when the parent has no node at that location. */
    | NoSuchChild(location: Location)

  /** The outcome of a call that returns nothing: normal return or a thrown exception. */
  datatype Outcome = Pass | Fail(error: Exception)

  datatype Result<+T> = Success(value: T) | Failure(error: Exception)

  /** requiresNonNull: returns normally exactly when `o` is present, otherwise throws with `msg`. */
  function RequiresNonNull<T>(o: Option<T>, msg: string): (r: Outcome)
    ensures r.Pass? <==> o.Some?
    ensures r.Fail? ==> r.error == NullPointerException(msg)
  {
    if o.Some? then Pass else Fail(NullPointerException(msg))
  }

  /** throwRuntimeException: never returns normally. */
  function ThrowRuntimeException(msg: string): (r: Outcome)
    ensures r.Fail? && r.error.RuntimeException? && r.error.message == msg
  {
    Fail(RuntimeException(msg))
  }

  /**
   * The slot update at the heart of setNewChildInParent, on the parent node: a
   * child location or a child-list location has its node replaced by `newChild`;
   * any other kind of location is rejected.
   */
  function ReplaceInParent(parent: Node, location: Location, newChild: Node): (r: Result<Node>)
    ensures location.SimpleLocation? ==> r == Failure(UnsupportedOperationException(location))
    ensures !location.SimpleLocation? && ChildAt(parent, location).None? ==> r == Failure(NoSuchChild(location))
    ensures ChildAt(parent, location).Some? ==>
              && r.Success?
              && SameType(r.value, parent)
              && ChildAt(r.value, location) == Some(newChild)
              && (forall l :: l != location ==> ChildAt(r.value, l) == ChildAt(parent, l))
    ensures location.ChildLocation? && ChildAt(parent, location).Some? ==>
              var i := location.property;
              && |Properties(r.value)| == |Properties(parent)|
              && Properties(r.value)[i] == Child(newChild)
              && forall m :: 0 <= m < |Properties(parent)| && m != i ==> Properties(r.value)[m] == Properties(parent)[m]
    ensures location.ChildListLocation? && ChildAt(parent, location).Some? ==>
              var (i, j) := (location.property, location.index);
              var before := Properties(parent)[i].nodes;
              var after := Properties(r.value)[i];
              && |Properties(r.value)| == |Properties(parent)|
              && after.ChildList? && |after.nodes| == |before|
              && after.nodes[j] == newChild
              && (forall k :: 0 <= k < |before| && k != j ==> after.nodes[k] == before[k])
              && forall m :: 0 <= m < |Properties(parent)| && m != i ==> Properties(r.value)[m] == Properties(parent)[m]
  {
    match location
    case ChildLocation(_) =>
      if ChildAt(parent, location).Some? then Success(WithChildAt(parent, location, newChild))
      else Failure(NoSuchChild(location))
    case ChildListLocation(_, _) =>
      if ChildAt(parent, location).Some? then Success(WithChildAt(parent, location, newChild))
      else Failure(NoSuchChild(location))
    case SimpleLocation(_) =>
      Failure(UnsupportedOperationException(location))
  }

  /**
   * A node of a tree never sits in a simple property and its slot in its parent
   * exists, so neither failure of the slot update can arise for it.
   */
  lemma NodeLocationIsNotSimple(t: Node, p: Path)
    requires ValidPath(t, p) && p != []
    ensures LocationInParent(p).Some? && !LocationInParent(p).value.SimpleLocation?
    ensures ValidPath(t, ParentPath(p)) && ChildAt(At(t, ParentPath(p)), p[|p| - 1]).Some?
  {
    AtAppend(t, ParentPath(p), p[|p| - 1]);
    assert ParentPath(p) + [p[|p| - 1]] == p;
  }

  /**
   * Seen from the parent, replacing the node at `p` in the tree is the slot
   * update of `ReplaceInParent`: the parent's other properties, simple ones
   * included, stay, and a child list keeps its length and order.
   */
  lemma ReplaceAtParent(t: Node, p: Path, newChild: Node)
    requires ValidPath(t, p) && p != []
    ensures ValidPath(t, ParentPath(p))
    ensures ReplaceInParent(At(t, ParentPath(p)), p[|p| - 1], newChild).Success?
    ensures ValidPath(ReplaceAt(t, p, newChild), ParentPath(p))
    ensures At(ReplaceAt(t, p, newChild), ParentPath(p))
         == ReplaceInParent(At(t, ParentPath(p)), p[|p| - 1], newChild).value
  {
    var q, l := ParentPath(p), p[|p| - 1];
    assert q + [l] == p;
    ReplaceAtAppend(t, q, l, newChild);
    AtReplaceAt(t, q, WithChildAt(At(t, q), l, newChild));
  }

  /**
   * setNewChildInParent: puts `newChild` in the slot that the node at `oldChild`
   * occupies in its parent. The topmost node has no location, which is a null
   * pointer failure; otherwise the tree changes at that one slot.
   */
  method SetNewChildInParent(ast: Ast, oldChild: Path, newChild: Node) returns (r: Outcome)
    requires ValidPath(ast.top, oldChild)
    modifies ast
    ensures oldChild == [] ==> r == Fail(NullPointerException("")) && ast.top == old(ast.top)
    ensures oldChild != [] ==> r == Pass && ast.top == ReplaceAt(old(ast.top), oldChild, newChild)
  {
    var location := LocationInParent(oldChild);
    if location.None? {
      return Fail(NullPointerException(""));
    }
    var parentPath := ParentPath(oldChild);
    assert parentPath + [location.value] == oldChild;
    ReplaceAtAppend(ast.top, parentPath, location.value, newChild);
    var parent := At(ast.top, parentPath);
    match ReplaceInParent(parent, location.value, newChild)
    case Failure(e) =>
      r := Fail(e);
    case Success(updated) =>
      ast.top := ReplaceAt(ast.top, parentPath, updated);
      r := Pass;
  }
}
