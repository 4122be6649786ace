/**
 * Which identifiers getRootElements keeps for a dictionary built by
 * createHierarchy.
 */
module RootProperties {
  import opened TreeTypes
  import opened HierarchySpec
  import opened HierarchyProperties
  import opened TreeViewUtils

  lemma {:induction false} RecordIdsLast<T>(s: seq<Option<T>>, acc: Accessors<T>, k: string)
    ensures k in RecordIds(s, acc) <==> LastRecordOf(s, k, acc).Some?
    decreases |s|
  {
    if s == [] {
      assert RecordIds(s, acc) == {};
    } else {
      RecordIdsCons(s, acc);
      RecordIdsLast(s[1..], acc, k);
    }
  }

  lemma BuildRootAt<T>(s: seq<Option<T>>, acc: Accessors<T>, k: string)
    requires Build(s, acc).Success?
    ensures k in GetRootElements(Build(s, acc).value) <==>
      match LastRecordOf(s, k, acc)
      case Some(t) => !IsTruthy(acc.parentId(t))
      case None => k in ParentRefs(s, acc)
  {
    var r := Build(s, acc).value;
    BuildKeys(s, acc);
    RecordIdsLast(s, acc, k);
    if k == "" {
      assert k !in RecordIds(s, acc) && k !in ParentRefs(s, acc);
    } else if LastRecordOf(s, k, acc).Some? {
      FirstRecordEntry(map[], s, acc, k);
    } else {
      SkeletonEntry(map[], s, acc, k);
    }
  }

  /**
   * The roots of a built dictionary: every identifier whose (last) record
   * has a falsy parent identifier, and every identifier that was only ever
   * named as a parent (it is left as a skeleton, which has no `parentId`).
   */
  lemma BuildRoots<T>(s: seq<Option<T>>, acc: Accessors<T>)
    requires Build(s, acc).Success?
    ensures forall k :: k in GetRootElements(Build(s, acc).value) <==>
      match LastRecordOf(s, k, acc)
      case Some(t) => !IsTruthy(acc.parentId(t))
      case None => k in ParentRefs(s, acc)
  {
    forall k {
      BuildRootAt(s, acc, k);
    }
  }
}
