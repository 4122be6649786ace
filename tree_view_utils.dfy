/**
 * The three static operations of the TreeViewUtils class. The two with
 * loops are methods proved against the specification functions of modules
 * HierarchySpec and PathSpec; root selection is a pure filter.
 */
module TreeViewUtils {
  import opened TreeTypes
  import opened HierarchySpec
  import opened HierarchyProperties
  import opened PathSpec

  /**
   * createHierarchy: the dictionary is updated in place record by record;
   * a present record with a falsy identifier throws out of the loop.
   */
  method CreateHierarchy<T>(templates: seq<Option<T>>, acc: Accessors<T>)
    returns (r: Result<ViewHierarchy<T>, BuildError>)
    ensures r == Build(templates, acc)
    ensures r.Failure? <==> exists i :: 0 <= i < |templates| && HasFalsyId(templates[i], acc)
    ensures r.Success? ==> r.value.Keys == RecordIds(templates, acc) + ParentRefs(templates, acc)
  {
    BuildFailsIff(templates, acc);
    if Build(templates, acc).Success? {
      BuildKeys(templates, acc);
    }
    var hierarchy: ViewHierarchy<T> := map[];
    for i := 0 to |templates|
      invariant BuildFrom(hierarchy, templates[i..], acc) == Build(templates, acc)
    {
      assert templates[i..][1..] == templates[i + 1..];
      var template := templates[i];
      if template.Some? {
        var templateId := acc.id(template.value);
        if IsTruthy(templateId) {
          var id := templateId.value;
          var parentId := acc.parentId(template.value);
          var isLeaf := LeafFlag(acc, template.value);
          var inherited := if id in hierarchy && hierarchy[id].nodeChildren.Some? then hierarchy[id].nodeChildren.value else [];
          hierarchy := hierarchy[id := Item(Some(template.value), parentId, Some(inherited), None, isLeaf)];
          if IsTruthy(parentId) {
            var p := parentId.value;
            if p !in hierarchy || hierarchy[p].nodeChildren.None? {
              hierarchy := hierarchy[p := Skeleton(id)];
            } else {
              hierarchy := hierarchy[p := hierarchy[p].(nodeChildren := Some(hierarchy[p].nodeChildren.value + [id]))];
            }
          }
        } else {
          return Failure(MissingIdentifier);
        }
      }
    }
    r := Success(hierarchy);
  }

  /**
   * getRootElements: a fresh dictionary holding, unchanged, exactly the
   * entries whose `parentId` is falsy (skeletons included).
   */
  function GetRootElements<T>(hierarchy: ViewHierarchy<T>): (roots: ViewHierarchy<T>)
    ensures roots.Keys <= hierarchy.Keys
    ensures forall k :: k in hierarchy ==> (k in roots <==> !IsTruthy(hierarchy[k].parentId))
    ensures forall k :: k in roots ==> roots[k] == hierarchy[k]
  {
    map k | k in hierarchy && !IsTruthy(hierarchy[k].parentId) :: hierarchy[k]
  }

  /**
   * retrieveAbsolutHierarchyPath: follows parent links from `node`, with a
   * visited set as cycle guard. After a normal exit the collected
   * identifiers are returned reversed, after a cycle as collected.
   */
  method RetrieveAbsolutHierarchyPath<T>(node: Item<T>, hierarchy: ViewHierarchy<T>,
                                         idOf: Item<T> -> Option<string>, parentOf: Item<T> -> Option<string>,
                                         includeCurrentNode: bool)
    returns (r: Result<seq<string>, PathError>)
    ensures match AncestorWalk(node, hierarchy, idOf, parentOf, includeCurrentNode)
            case Success(w) => r == Success(PathOrder(w))
            case Failure(e) => r == Failure(e)
  {
    var parentIdSet: set<string> := {};
    var parentIds: seq<string> := [];
    var nextParentId := parentOf(node);
    if includeCurrentNode {
      var nodeId := idOf(node);
      if IsTruthy(nodeId) {
        parentIds := parentIds + [nodeId.value];
        parentIdSet := parentIdSet + {nodeId.value};
      }
    }
    assert parentIds == StartIds(node, idOf, includeCurrentNode);
    assert parentIdSet == set x | x in parentIds;
    while IsTruthy(nextParentId)
      invariant Chase(hierarchy, parentOf, nextParentId, parentIdSet, parentIds) == AncestorWalk(node, hierarchy, idOf, parentOf, includeCurrentNode)
      decreases hierarchy.Keys - parentIdSet
    {
      var id := nextParentId.value;
      if id in parentIdSet {
        return Success(parentIds);
      }
      parentIds := parentIds + [id];
      parentIdSet := parentIdSet + {id};
      if id !in hierarchy {
        return Failure(UnknownParent(id));
      }
      nextParentId := parentOf(hierarchy[id]);
    }
    r := Success(Reverse(parentIds));
  }
}
