# tree-view-utils, modelled in Dafny

The library turns a flat, ordered list of records into a dictionary keyed by
identifier (a `ViewHierarchy`). Each record has an identifier and, optionally,
a parent identifier. The class `TreeViewUtils` offers three static operations:

- `createHierarchy` builds the dictionary in one pass. Each record's entry gets
  a `parentId`, a `nodeChildren` list and an `isLeaf` flag. A parent with no
  entry, or only a placeholder (a "skeleton"), gets a new placeholder.
- `getRootElements` keeps the entries whose `parentId` is falsy.
- `retrieveAbsolutHierarchyPath` follows parent links from a node. A visited
  set guards against cycles.
  - After a normal exit the result lists the top ancestor first and the node last.
  - After a detected cycle it lists the node first, then the ancestors in discovery order.
  - With the default parent extractor, reaching an identifier that is not a key throws.

The model follows the code. JavaScript truthiness of identifiers is explicit:
`undefined` and `""` are both absent (`TreeTypes.IsTruthy`).

Files and modules:

- `tree_types.dfy`, module `TreeTypes`: `Option`, `Result`, `IsTruthy`, the entry type `Item`, `Skeleton` and `Reverse`.
  - `Item` holds the record as an opaque `payload`, plus `parentId`, `nodeChildren`, `templateChildren` and `isLeaf`.
  - Children are held by identifier.
- `hierarchy_spec.dfy`, module `HierarchySpec`: the meaning of `createHierarchy` as functions on values.
  - `Accessors` bundles the identifier, parent-identifier and optional leaf extractors.
  - `Step` is one list element. `BuildFrom` and `Build` are the whole pass.
- `hierarchy_properties.dfy`, module `HierarchyProperties`: what `Build` guarantees.
- `path_spec.dfy`, module `PathSpec`: the meaning of the path walk and what it guarantees.
  - `Chase` and `AncestorWalk` are the walk. `PathOrder` is the asymmetric return order.
- `tree_view_utils.dfy`, module `TreeViewUtils`: the three operations as the source has them.
  - `CreateHierarchy` is a method whose `for` loop updates a local map.
  - `GetRootElements` is a pure function.
  - `RetrieveAbsolutHierarchyPath` is a method with the visited-set `while` loop.
  - Each method is proved against the specification function above.
- `root_properties.dfy`, module `RootProperties`: which keys are roots in a built dictionary.
- `examples.dfy`, module `TreeViewExamples`: the repository's mock categories, with their payloads copied, and small out-of-order and cycle cases, as lemmas.

Inputs and extractors:

- The input list is a `seq<Option<T>>`. `None` is an element that `if(template)` (line 19) skips: `null` or `undefined`, or any other falsy value.
- The extractors are function parameters.
  - For the mock records, `CategoryAccessors` is the default `elem.id` / `elem.parentId` pair (src/lib/tree-view-utils.ts:4-5).
  - `PathSpec.ParentIdField` is the default parent extractor applied to an entry.

## Where the code departs from its apparent intent

The comment at src/lib/tree-view-utils.ts:39 calls the placeholder a skeleton
"for now". That suggests it should become the parent's entry, with its children
kept, once the parent's record arrives. But the skeleton stores its child under
`templateChildren` (line 37), and the record step reads back only
`nodeChildren` (line 28). The model follows the code:

- A child whose record comes before its parent's record is lost from the parent's `nodeChildren`.
  - `HierarchyProperties.BuildRecordEntry` states this in general: the children are those from the parent's first record onward.
  - `TreeViewExamples.EarlyChildLost` is a concrete case.
- A second child of a parent that has no record yet overwrites the first skeleton (lines 35-39).
  - `HierarchyProperties.BuildSkeletonEntry` and `TreeViewExamples.SecondEarlyChildReplaces` state this.
- The error message at line 45 says each template needs a unique id, but only a missing or empty id is rejected. A duplicate id is accepted: the later record replaces the entry's fields, and the entry keeps its children (`TreeViewExamples.DuplicateIdReplaces`).
- `hierarchy[nextParentId]` at line 85 is `undefined` for an id that is not a key. The default parent extractor then throws a `TypeError` reading `.parentId`. The model returns `Failure(UnknownParent(id))` there.
  - `PathSpec.BuiltWalkSucceeds` shows when this cannot happen: the walk starts at an entry of a dictionary built by `createHierarchy` and uses the default parent extractor.
  - A node from elsewhere, or a custom parent extractor, can still reach the failure.

## Model

| member | source | states |
|---|---|---|
| TreeViewUtils.CreateHierarchy | src/lib/tree-view-utils.ts:10-52 | The in-place loop computes `Build`. It fails exactly when some present record has a falsy id. On success the keys are the record ids plus the truthy parent ids. |
| HierarchyProperties.BuildFailsIff | src/lib/tree-view-utils.ts:19-46 | The build throws `MissingIdentifier` iff a non-null element's extracted id is `undefined` or `""`. No dictionary is returned then. |
| HierarchyProperties.BuildSkipsNulls | src/lib/tree-view-utils.ts:19-49 | The result equals the result for the list with its skipped (falsy, `None`) elements removed. |
| HierarchyProperties.NullElementIgnored | src/lib/tree-view-utils.ts:19-49 | Inserting a null element anywhere in the list does not change the result. |
| HierarchyProperties.BuildKeys | src/lib/tree-view-utils.ts:25-39 | The key set is exactly the ids of the present records plus every truthy parent id they name. |
| HierarchyProperties.BuildRecordEntry | src/lib/tree-view-utils.ts:23-42 | For an id with records, the entry has the last record's payload and `parentId`, and no `templateChildren`. Its `isLeaf` is the detector's verdict on that record, or undefined without a detector. Its `nodeChildren` are the ids of all children from the id's first record onward, in input order. Earlier children are lost. |
| HierarchyProperties.BuildSkeletonEntry | src/lib/tree-view-utils.ts:32-39 | An id that is only ever named as a parent is a skeleton holding the last such child. The skeleton has `isLeaf = false`, no `parentId` and no `nodeChildren`. |
| HierarchyProperties.FullEntryEvolves | src/lib/tree-view-utils.ts:25-42 | Append rule: an entry that has `nodeChildren` keeps them. Later children are appended at the end in arrival order. A later record of the same id replaces only the other fields. |
| HierarchyProperties.FirstRecordEntry | src/lib/tree-view-utils.ts:25-39 | An entry without `nodeChildren` (missing or a skeleton) restarts from `[]` at its first record, so children held by the skeleton are dropped. |
| HierarchyProperties.SkeletonEntry | src/lib/tree-view-utils.ts:35-39 | Skeleton rule: each child naming an id that has no record overwrites its entry with a fresh skeleton. An id named by no child is untouched. |
| HierarchyProperties.StepOnFullEntry | src/lib/tree-view-utils.ts:25-42 | One record leaves an entry's existing `nodeChildren` in place. It appends at most its own id and overwrites the other fields only if it is that id's record. |
| HierarchyProperties.StepOnBareEntry | src/lib/tree-view-utils.ts:25-39 | One record on an entry lacking `nodeChildren` does one of three things. It creates the full entry with `[]` (or `[self]`) if it is that id's record. It writes a skeleton if it names the id as parent. Otherwise it leaves the entry alone. |
| HierarchyProperties.BuildParentsPresent | src/lib/tree-view-utils.ts:32-39 | In a built dictionary every truthy `parentId` is itself a key. |
| TreeViewUtils.GetRootElements | src/lib/tree-view-utils.ts:54-61 | The result has exactly the entries whose `parentId` is falsy, with values unchanged. Its keys are a subset of the input's. |
| RootProperties.BuildRoots | src/lib/tree-view-utils.ts:54-60 | In a built dictionary an id is a root iff one of two things holds. Its last record has a falsy parent id, or it was only ever named as a parent (a skeleton). |
| TreeViewUtils.RetrieveAbsolutHierarchyPath | src/lib/tree-view-utils.ts:63-88 | The visited-set loop terminates. It returns the walk's ids reversed after a normal exit, unreversed after a detected cycle, and the lookup error where an id is missing. |
| PathSpec.WalkShape | src/lib/tree-view-utils.ts:69-86 | The walk pushes the start ids, then a run of parent links from the node's parent id, with no id pushed twice. It reports a cycle iff the next parent id is truthy, and that id was already pushed. Otherwise it stopped at a falsy parent id. |
| PathSpec.PathOrderShape | src/lib/tree-view-utils.ts:79-87 | Normal exit returns the ancestors top-most first, then the node's id, and the top ancestor has a falsy parent. A cycle returns the node's id first, then the ancestors in discovery order. |
| PathSpec.WalkLength | src/lib/tree-view-utils.ts:69-84 | The walk pushes at most one id per key of the dictionary besides the node's own. |
| PathSpec.BuiltWalkSucceeds | src/lib/tree-view-utils.ts:85 | With the default parent extractor, a walk from an entry of a built dictionary never looks up a missing id. |
| TreeViewExamples.MockHierarchyKeys | test/lib/tree-view-utils.test.ts:50-54 | The mock categories build successfully, and the keys are exactly their ids. |
| TreeViewExamples.MockRoots | test/lib/tree-view-utils.test.ts:56-60 | The roots of the mock hierarchy are C_A1, C_A2 and C_A3. |
| TreeViewExamples.MockPath | test/lib/tree-view-utils.test.ts:62-71 | The path of C_A1_1_1 is `['C_A1', 'C_A1_1', 'C_A1_1_1']`. |
| TreeViewExamples.EarlyChildLost | src/lib/tree-view-utils.ts:28-39 | A child listed before its parent leaves the parent with empty `nodeChildren`. |
| TreeViewExamples.SecondEarlyChildReplaces | src/lib/tree-view-utils.ts:35-39 | Two children of a parent that has no record yet leave the skeleton of the second one. |
| TreeViewExamples.DuplicateIdReplaces | src/lib/tree-view-utils.ts:25-28 | A duplicate id is accepted: the later record's payload wins and the children stay. |
| TreeViewExamples.CyclePath | src/lib/tree-view-utils.ts:79-82 | A two-node cycle ends the walk and returns `['A', 'B']` unreversed. |

## Left out

- Object spreading: `...template` (src/lib/tree-view-utils.ts:26) merges the record's fields into the entry. The model keeps the record whole as an opaque `payload`, and the builder's fields sit beside it. A record field that happens to be called `templateChildren` is not carried over.
- Object identity: `nodeChildren` hold live object references in the source. Pushing onto a shared array aliases entries. The model holds children by identifier, so aliasing is not captured.
- Inherited property names: the source's dictionary is a plain object, where keys such as `__proto__` or `constructor` behave specially. The model treats every key as an ordinary map key.
- `typeof isLeafDetector === 'function'` (line 24): the detector is an optional total function. A truthy detector that is not a function is not modelled.
- Extractor types: identifiers are strings or absent. Non-string ids that JavaScript would coerce to keys are not modelled.
- `HierarchySpec.Build` and `TreeViewUtils.CreateHierarchy` return the error value `MissingIdentifier` instead of throwing an `Error` with the message text.
- TreeViewUtils.RetrieveAbsolutHierarchyPath: a missing `hierarchy[id]` ends the walk with `Failure(UnknownParent(id))`. That is where the default extractor throws a `TypeError`. A custom extractor that accepts `undefined` would carry on in the source.
- TreeViewUtils.RetrieveAbsolutHierarchyPath: the `node` truthiness test (line 72) is not modelled. The node is always an entry value. With the default parent extractor, a falsy `node` already throws at line 71. A custom extractor that tolerates a falsy `node` gets past line 72 in the source, which then pushes no id; that case is not covered.
- Path extractors: both are parameters on entries. The default id extractor reads a field of the caller's record type, which has no generic counterpart. `TreeViewExamples.EntryId` plays that part for the mock records.
- Falsy elements: every element `if(template)` skips (`null`, `undefined`, and for a primitive `T` also `0`, `""`, `false`, `NaN`) is written as `None` in the input. The model does not derive that from a JavaScript value.
- Key order: the source returns plain objects, whose `Object.keys` order (integer-like keys first, then insertion order) callers can observe. That includes the roots object built at lines 55-60. The model's dictionaries are Dafny `map`s, which have no order. Only the key sets and values are modelled.
- The test harness (`checkStringArrayEquality`, `console.log`, Jest) is not part of this model. Its three tests appear only as the concrete lemmas above.
