/**
 * The meaning of TreeViewUtils.createHierarchy, on values: `Step` is the
 * effect of one element of the input list on the dictionary, `BuildFrom` the
 * effect of a run of them. The source's loop (TreeViewUtils.CreateHierarchy)
 * is proved to compute `Build`; what `Build` guarantees is proved in module
 * HierarchyProperties.
 */
module HierarchySpec {
  import opened TreeTypes

  /**
   * The caller's extractors: the record's own identifier, its parent's
   * identifier, and the optional leaf detector.
   */
  datatype Accessors<!T> = Accessors(
    id: T -> Option<string>,
    parentId: T -> Option<string>,
    leafDetector: Option<T -> bool>)

  /** The one error: a present record whose identifier is falsy. */
  datatype BuildError = MissingIdentifier

  /** `isLeaf` of a new entry: the detector's verdict, or undefined without one. */
  function LeafFlag<T>(acc: Accessors<T>, t: T): Option<bool> {
    match acc.leafDetector
    case None => None
    case Some(detect) => Some(detect(t))
  }

  /** `hierarchy[id]?.nodeChildren ?? []` */
  function InheritedChildren<T>(h: ViewHierarchy<T>, id: string): seq<string> {
    if id in h && h[id].nodeChildren.Some? then h[id].nodeChildren.value else []
  }

  /**
   * Hangs `child` under `parent`: appended to the parent's `nodeChildren`
   * when it has them, otherwise the parent's key is overwritten by a skeleton.
   */
  function Attach<T>(h: ViewHierarchy<T>, parent: string, child: string): ViewHierarchy<T> {
    if parent in h && h[parent].nodeChildren.Some? then
      h[parent := h[parent].(nodeChildren := Some(h[parent].nodeChildren.value + [child]))]
    else
      h[parent := Skeleton(child)]
  }

  /** The effect of one element of the input list. */
  function Step<T>(h: ViewHierarchy<T>, o: Option<T>, acc: Accessors<T>): Result<ViewHierarchy<T>, BuildError> {
    match o
    case None => Success(h)
    case Some(t) =>
      var id := acc.id(t);
      if !IsTruthy(id) then Failure(MissingIdentifier)
      else
        var pid := acc.parentId(t);
        var h1 := h[id.value := Item(Some(t), pid, Some(InheritedChildren(h, id.value)), None, LeafFlag(acc, t))];
        Success(if IsTruthy(pid) then Attach(h1, pid.value, id.value) else h1)
  }

  /** The elements of `s`, in order, applied to `h`; the first failure aborts. */
  function BuildFrom<T>(h: ViewHierarchy<T>, s: seq<Option<T>>, acc: Accessors<T>): Result<ViewHierarchy<T>, BuildError>
    decreases |s|
  {
    if s == [] then Success(h)
    else
      match Step(h, s[0], acc)
      case Failure(e) => Failure(e)
      case Success(h1) => BuildFrom(h1, s[1..], acc)
  }

  /** The result of `createHierarchy(templates, ...)`. */
  function Build<T>(s: seq<Option<T>>, acc: Accessors<T>): Result<ViewHierarchy<T>, BuildError> {
    BuildFrom(map[], s, acc)
  }
}
