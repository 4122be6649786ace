/**
 * Concrete runs of the model on the repository's mock categories
 * (test/lib/tree-view-utils.test.ts) and on small lists that show the
 * out-of-order and cycle behaviour.
 */
module TreeViewExamples {
  import opened TreeTypes
  import opened HierarchySpec
  import opened PathSpec
  import opened TreeViewUtils

  /** The record type of the repository's tests. */
  datatype Category = Category(id: string, name: string, parentId: Option<string>, someExtraInfo: Option<string>)

  /** The default extractors (`elem.id`, `elem.parentId`) and no leaf detector. */
  function CategoryAccessors(): Accessors<Category> {
    Accessors((c: Category) => Some(c.id), (c: Category) => c.parentId, None)
  }

  /** The default id extractor applied to an entry: the record's `id`, undefined on a skeleton. */
  function EntryId(e: Item<Category>): Option<string> {
    if e.payload.Some? then Some(e.payload.value.id) else None
  }

  /** A record for the small examples below, named after its identifier. */
  function Cat(id: string, parent: Option<string>): Option<Category> {
    Some(Category(id, id, parent, None))
  }

  /** The repository's `mockCategories`, payloads included. */
  function MockCategories(): seq<Option<Category>> {
    [ Some(Category("C_A1", "Category A1", None, Some("Extra Info C_A1"))),
      Some(Category("C_A1_1", "Subcategory A1_1", Some("C_A1"), None)),
      Some(Category("C_A1_1_1", "Special category A1_1_1", Some("C_A1_1"), None)),
      Some(Category("C_A1_2", "Subcategory A1_2", Some("C_A1"), Some("Extra Info C_A1"))),
      Some(Category("C_A1_3", "Subcategory A1_3", Some("C_A1"), None)),
      Some(Category("C_A2", "Category A3", None, None)),
      Some(Category("C_A3", "Category A3", None, None)) ]
  }

  const MockIds: set<string> := {"C_A1", "C_A1_1", "C_A1_1_1", "C_A1_2", "C_A1_3", "C_A2", "C_A3"}

  lemma MockBuilds()
    ensures Build(MockCategories(), CategoryAccessors()).Success?
  {
    var s, acc := MockCategories(), CategoryAccessors();
    HierarchyProperties.BuildFailsIff(s, acc);
    forall i | 0 <= i < |s| ensures !HierarchyProperties.HasFalsyId(s[i], acc) {
      assert s[i].value.id != "";
    }
  }

  lemma MockRecordIds()
    ensures HierarchyProperties.RecordIds(MockCategories(), CategoryAccessors()) == MockIds
  {
    var s, acc := MockCategories(), CategoryAccessors();
    forall x | x in HierarchyProperties.RecordIds(s, acc) ensures x in MockIds {
      var i :| 0 <= i < |s| && s[i].Some? && IsTruthy(acc.id(s[i].value)) && acc.id(s[i].value).value == x;
      assert s[i].value.id in MockIds;
    }
    forall j | 0 <= j < |s| ensures s[j].value.id in HierarchyProperties.RecordIds(s, acc) {
      assert acc.id(s[j].value) == Some(s[j].value.id);
    }
    assert MockIds == {s[0].value.id, s[1].value.id, s[2].value.id, s[3].value.id, s[4].value.id, s[5].value.id, s[6].value.id};
  }

  lemma MockParentRefs()
    ensures HierarchyProperties.ParentRefs(MockCategories(), CategoryAccessors()) == {"C_A1", "C_A1_1"}
  {
    var s, acc := MockCategories(), CategoryAccessors();
    forall x | x in HierarchyProperties.ParentRefs(s, acc) ensures x in {"C_A1", "C_A1_1"} {
      var i :| 0 <= i < |s| && s[i].Some? && IsTruthy(acc.parentId(s[i].value)) && acc.parentId(s[i].value).value == x;
      assert s[i].value.parentId == Some(x);
    }
    assert acc.parentId(s[1].value) == Some("C_A1");
    assert acc.parentId(s[2].value) == Some("C_A1_1");
  }

  /**
   * The repository's first test: the keys of the built dictionary are
   * exactly the mock identifiers (every parent precedes its children).
   */
  lemma MockHierarchyKeys()
    ensures Build(MockCategories(), CategoryAccessors()).Success?
    ensures Build(MockCategories(), CategoryAccessors()).value.Keys == MockIds
  {
    MockBuilds();
    HierarchyProperties.BuildKeys(MockCategories(), CategoryAccessors());
    MockRecordIds();
    MockParentRefs();
  }

  lemma MockIdsDistinct()
    ensures forall i, j :: 0 <= i < |MockCategories()| && 0 <= j < |MockCategories()| && i != j ==>
      MockCategories()[i].value.id != MockCategories()[j].value.id
  {
  }

  /** The entry of each mock record: its own payload and parent identifier. */
  lemma MockEntry(i: nat)
    requires i < |MockCategories()|
    ensures Build(MockCategories(), CategoryAccessors()).Success?
    ensures var h := Build(MockCategories(), CategoryAccessors()).value; var c := MockCategories()[i];
      c.value.id in h && h[c.value.id].payload == c && h[c.value.id].parentId == c.value.parentId
  {
    var s, acc := MockCategories(), CategoryAccessors();
    MockBuilds();
    MockIdsDistinct();
    HierarchyProperties.BuildRecordEntry(s, acc, s[i].value.id, i, i);
  }

  /**
   * The repository's second test: the roots are the mock records without a
   * parent identifier.
   */
  lemma MockRoots()
    ensures Build(MockCategories(), CategoryAccessors()).Success?
    ensures GetRootElements(Build(MockCategories(), CategoryAccessors()).value).Keys == {"C_A1", "C_A2", "C_A3"}
  {
    var s := MockCategories();
    MockHierarchyKeys();
    forall i | 0 <= i < |s| {
      MockEntry(i);
    }
    var h := Build(s, CategoryAccessors()).value;
    assert MockIds == {s[0].value.id, s[1].value.id, s[2].value.id, s[3].value.id, s[4].value.id, s[5].value.id, s[6].value.id};
  }

  /**
   * The repository's third test: the path of C_A1_1_1 is its ancestors from
   * the top down, ending with the node itself.
   */
  lemma MockPath()
    ensures Build(MockCategories(), CategoryAccessors()).Success?
    ensures var h := Build(MockCategories(), CategoryAccessors()).value;
      "C_A1_1_1" in h &&
      AncestorWalk(h["C_A1_1_1"], h, EntryId, ParentIdField, true) == Success(Walk(["C_A1_1_1", "C_A1_1", "C_A1"], false)) &&
      PathOrder(AncestorWalk(h["C_A1_1_1"], h, EntryId, ParentIdField, true).value) == ["C_A1", "C_A1_1", "C_A1_1_1"]
  {
    MockEntry(0);
    MockEntry(1);
    MockEntry(2);
    var h := Build(MockCategories(), CategoryAccessors()).value;
    var v1, v2 := {"C_A1_1_1"} + {"C_A1_1"}, {"C_A1_1_1"} + {"C_A1_1"} + {"C_A1"};
    assert MockCategories()[1].value.id == "C_A1_1" && MockCategories()[0].value.id == "C_A1";
    assert "C_A1_1" in h && ParentIdField(h["C_A1_1"]) == Some("C_A1");
    assert "C_A1" in h && ParentIdField(h["C_A1"]) == None;
    assert "C_A1_1" !in {"C_A1_1_1"} && "C_A1" !in v1;
    assert ["C_A1_1_1"] + ["C_A1_1"] == ["C_A1_1_1", "C_A1_1"];
    assert ["C_A1_1_1", "C_A1_1"] + ["C_A1"] == ["C_A1_1_1", "C_A1_1", "C_A1"];
    var node := h["C_A1_1_1"];
    assert StartIds(node, EntryId, true) == ["C_A1_1_1"];
    assert (set x | x in ["C_A1_1_1"]) == {"C_A1_1_1"};
    assert AncestorWalk(node, h, EntryId, ParentIdField, true)
        == Chase(h, ParentIdField, Some("C_A1_1"), {"C_A1_1_1"}, ["C_A1_1_1"])
        == Chase(h, ParentIdField, Some("C_A1"), v1, ["C_A1_1_1", "C_A1_1"])
        == Chase(h, ParentIdField, None, v2, ["C_A1_1_1", "C_A1_1", "C_A1"]);
  }

  /**
   * A child listed before its parent is lost: the parent's record starts
   * with empty `nodeChildren` (the skeleton kept the child under
   * `templateChildren`).
   */
  lemma EarlyChildLost()
    ensures var h := Build([Cat("B", Some("A")), Cat("A", None)], CategoryAccessors());
      h.Success? && h.value.Keys == {"A", "B"} &&
      h.value["A"].nodeChildren == Some([]) && h.value["B"].parentId == Some("A")
  {
    var s, acc := [Cat("B", Some("A")), Cat("A", None)], CategoryAccessors();
    var h1 := Step(map[], s[0], acc).value;
    assert h1 == map["B" := Item(s[0], Some("A"), Some([]), None, None), "A" := Skeleton("B")];
    var h2 := Step(h1, s[1], acc).value;
    assert h2 == h1["A" := Item(s[1], None, Some([]), None, None)];
    assert BuildFrom(h2, s[2..], acc) == Success(h2);
  }

  /** A second child of a parent that has no record yet replaces the first skeleton. */
  lemma SecondEarlyChildReplaces()
    ensures var h := Build([Cat("B", Some("A")), Cat("C", Some("A"))], CategoryAccessors());
      h.Success? && h.value["A"] == Skeleton("C")
  {
    var s, acc := [Cat("B", Some("A")), Cat("C", Some("A"))], CategoryAccessors();
    HierarchyProperties.BuildFailsIff(s, acc);
    assert HierarchyProperties.ChildrenOf(s, "A", acc) == ["B", "C"];
    HierarchyProperties.BuildSkeletonEntry(s, acc, "A");
  }

  /** A duplicate identifier is not rejected: the later record wins and the children stay. */
  lemma DuplicateIdReplaces()
    ensures var s := [Cat("A", None), Cat("X", Some("A")), Some(Category("A", "again", None, None))];
      var h := Build(s, CategoryAccessors());
      h.Success? && h.value["A"].payload == s[2] && h.value["A"].nodeChildren == Some(["X"])
  {
    var s := [Cat("A", None), Cat("X", Some("A")), Some(Category("A", "again", None, None))];
    var acc := CategoryAccessors();
    HierarchyProperties.BuildFailsIff(s, acc);
    assert HierarchyProperties.ChildrenOf(s, "A", acc) == ["X"];
    HierarchyProperties.BuildRecordEntry(s, acc, "A", 0, 2);
  }

  /** Two records naming each other: the walk stops at the cycle and returns its collection unreversed. */
  lemma CyclePath()
    ensures var h := Build([Cat("A", Some("B")), Cat("B", Some("A"))], CategoryAccessors());
      h.Success? && "A" in h.value &&
      AncestorWalk(h.value["A"], h.value, EntryId, ParentIdField, true) == Success(Walk(["A", "B"], true)) &&
      PathOrder(AncestorWalk(h.value["A"], h.value, EntryId, ParentIdField, true).value) == ["A", "B"]
  {
    var s, acc := [Cat("A", Some("B")), Cat("B", Some("A"))], CategoryAccessors();
    HierarchyProperties.BuildFailsIff(s, acc);
    HierarchyProperties.BuildRecordEntry(s, acc, "A", 0, 0);
    HierarchyProperties.BuildRecordEntry(s, acc, "B", 1, 1);
    var h := Build(s, acc).value;
    assert "B" in h && ParentIdField(h["B"]) == Some("A") && "B" !in {"A"};
    assert ["A"] + ["B"] == ["A", "B"];
    assert StartIds(h["A"], EntryId, true) == ["A"];
    assert (set x | x in ["A"]) == {"A"};
    assert AncestorWalk(h["A"], h, EntryId, ParentIdField, true)
        == Chase(h, ParentIdField, Some("B"), {"A"}, ["A"])
        == Chase(h, ParentIdField, Some("A"), {"A"} + {"B"}, ["A", "B"]);
  }
}
