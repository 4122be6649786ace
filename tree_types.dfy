/**
 * Shared vocabulary of the tree-view utilities: optional and failing values,
 * JavaScript truthiness of optional identifiers, and the entries of a
 * ViewHierarchy (the identifier-keyed dictionary the builder produces).
 */
module TreeTypes {

  /** `None` is an absent value: `undefined`, `null`, or a list element skipped as falsy. */
  datatype Option<+T> = None | Some(value: T)

  /** The outcome of an operation that can throw. */
  datatype Result<+R, +E> = Success(value: R) | Failure(error: E)

  /**
   * An optional identifier is truthy in JavaScript exactly when it is
   * present and not the empty string.
   */
  predicate IsTruthy(id: Option<string>) {
    id.Some? && id.value != ""
  }

  /**
   * One entry of a ViewHierarchy. The source spreads the caller's record into
   * the entry; here the record is kept whole as `payload` (absent only in a
   * skeleton). Children are held by identifier.
   */
  datatype Item<T> = Item(
    payload: Option<T>,
    parentId: Option<string>,
    nodeChildren: Option<seq<string>>,
    templateChildren: Option<seq<string>>,
    isLeaf: Option<bool>)

  /** The dictionary `Record<string, HierarchyItem<T>>`. */
  type ViewHierarchy<T> = map<string, Item<T>>

  /**
   * The placeholder written for a parent that has no `nodeChildren` yet: it
   * holds its one child under `templateChildren` and no `nodeChildren`.
   */
  function Skeleton<T>(child: string): Item<T> {
    Item(None, None, None, Some([child]), Some(false))
  }

  /** JavaScript's `Array.prototype.reverse`, on a value. */
  function Reverse<X>(s: seq<X>): (r: seq<X>)
    ensures |r| == |s|
    ensures forall i :: 0 <= i < |s| ==> r[i] == s[|s| - 1 - i]
  {
    if s == [] then [] else [s[|s| - 1]] + Reverse(s[..|s| - 1])
  }
}
