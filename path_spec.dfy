/**
 * The meaning of TreeViewUtils.retrieveAbsolutHierarchyPath, on values.
 *
 * `Chase` follows parent links from `next`, remembering the identifiers it
 * has pushed (`visited` is the source's Set, `discovered` its array). It
 * stops at the first falsy parent identifier (normal exit), at the first
 * identifier it has already pushed (cycle exit), or at an identifier that is
 * not a key of the dictionary (where the source's default extractor throws a
 * TypeError). `PathOrder` is the asymmetric return: reversed after a normal
 * exit, as discovered after a cycle.
 */
module PathSpec {
  import opened TreeTypes
  import opened HierarchySpec
  import opened HierarchyProperties

  /** `hierarchy[id]` was undefined and its parent identifier was asked for. */
  datatype PathError = UnknownParent(id: string)

  /** The identifiers pushed, in discovery order, and how the walk ended. */
  datatype Walk = Walk(discovered: seq<string>, cycleDetected: bool)

  /** The default parent extractor (`elem.parentId`) applied to an entry. */
  function ParentIdField<T>(e: Item<T>): Option<string> {
    e.parentId
  }

  /** What the walk starts from: the node's own identifier, when asked for and truthy. */
  function StartIds<T>(node: Item<T>, idOf: Item<T> -> Option<string>, includeCurrentNode: bool): seq<string> {
    if includeCurrentNode && IsTruthy(idOf(node)) then [idOf(node).value] else []
  }

  function Chase<T>(h: ViewHierarchy<T>, parentOf: Item<T> -> Option<string>, next: Option<string>,
                    visited: set<string>, discovered: seq<string>): Result<Walk, PathError>
    decreases h.Keys - visited
  {
    if !IsTruthy(next) then Success(Walk(discovered, false))
    else if next.value in visited then Success(Walk(discovered, true))
    else if next.value !in h then Failure(UnknownParent(next.value))
    else Chase(h, parentOf, parentOf(h[next.value]), visited + {next.value}, discovered + [next.value])
  }

  function AncestorWalk<T>(node: Item<T>, h: ViewHierarchy<T>, idOf: Item<T> -> Option<string>,
                           parentOf: Item<T> -> Option<string>, includeCurrentNode: bool): Result<Walk, PathError>
  {
    var start := StartIds(node, idOf, includeCurrentNode);
    Chase(h, parentOf, parentOf(node), (set x | x in start), start)
  }

  /** The array the source returns for a walk. */
  function PathOrder(w: Walk): seq<string> {
    if w.cycleDetected then w.discovered else Reverse(w.discovered)
  }

  /** No identifier occurs twice. */
  ghost predicate Distinct(s: seq<string>) {
    forall i, j :: 0 <= i < j < |s| ==> s[i] != s[j]
  }

  /**
   * `c` is a run of parent links that starts at `first`: every element is a
   * truthy key of `h`, and each is the parent of the one before it.
   */
  ghost predicate IsParentChain<T>(h: ViewHierarchy<T>, parentOf: Item<T> -> Option<string>, first: Option<string>, c: seq<string>) {
    && (forall j :: 0 <= j < |c| ==> c[j] != "" && c[j] in h)
    && (|c| > 0 ==> first == Some(c[0]))
    && (forall j :: 0 <= j < |c| - 1 ==> parentOf(h[c[j]]) == Some(c[j + 1]))
  }

  /** The parent identifier the walk looks at after the chain `c`. */
  ghost function ChainNext<T>(h: ViewHierarchy<T>, parentOf: Item<T> -> Option<string>, first: Option<string>, c: seq<string>): Option<string>
    requires IsParentChain(h, parentOf, first, c)
  {
    if c == [] then first else parentOf(h[c[|c| - 1]])
  }

  // ---------------------------------------------------------------------------
  // Shape of a walk

  lemma {:induction false} ChaseShape<T>(h: ViewHierarchy<T>, parentOf: Item<T> -> Option<string>, first: Option<string>,
                                         start: seq<string>, c: seq<string>, next: Option<string>,
                                         visited: set<string>, discovered: seq<string>)
    requires discovered == start + c
    requires forall x :: x in visited <==> x in discovered
    requires Distinct(discovered)
    requires IsParentChain(h, parentOf, first, c)
    requires next == ChainNext(h, parentOf, first, c)
    requires Chase(h, parentOf, next, visited, discovered).Success?
    ensures var w := Chase(h, parentOf, next, visited, discovered).value;
      && |start| <= |w.discovered| && w.discovered[..|start|] == start
      && Distinct(w.discovered)
      && IsParentChain(h, parentOf, first, w.discovered[|start|..])
      && (w.cycleDetected <==> IsTruthy(ChainNext(h, parentOf, first, w.discovered[|start|..])))
      && (w.cycleDetected ==> ChainNext(h, parentOf, first, w.discovered[|start|..]).value in w.discovered)
    decreases h.Keys - visited
  {
    assert discovered[..|start|] == start && discovered[|start|..] == c;
    if IsTruthy(next) && next.value !in visited {
      var n := next.value;
      var c' := c + [n];
      assert discovered + [n] == start + c';
      forall i, j | 0 <= i < j < |discovered + [n]| ensures (discovered + [n])[i] != (discovered + [n])[j] {
        if j == |discovered| {
          assert discovered[i] in discovered;
        }
      }
      assert IsParentChain(h, parentOf, first, c');
      assert ChainNext(h, parentOf, first, c') == parentOf(h[n]);
      ChaseShape(h, parentOf, first, start, c', parentOf(h[n]), visited + {n}, discovered + [n]);
    }
  }

  /**
   * Every walk that does not fail pushes first the start identifiers, then a
   * run of parent links from the node's parent identifier; no identifier is
   * pushed twice; it reports a cycle exactly when the parent identifier after
   * the run is truthy, which is then one already pushed, and otherwise it
   * stopped at a falsy parent identifier.
   */
  lemma WalkShape<T>(node: Item<T>, h: ViewHierarchy<T>, idOf: Item<T> -> Option<string>,
                     parentOf: Item<T> -> Option<string>, includeCurrentNode: bool)
    requires AncestorWalk(node, h, idOf, parentOf, includeCurrentNode).Success?
    ensures |StartIds(node, idOf, includeCurrentNode)| <= |AncestorWalk(node, h, idOf, parentOf, includeCurrentNode).value.discovered|
    ensures var w := AncestorWalk(node, h, idOf, parentOf, includeCurrentNode).value;
      var start := StartIds(node, idOf, includeCurrentNode);
      var chain := w.discovered[|start|..];
      && w.discovered == start + chain
      && Distinct(w.discovered)
      && IsParentChain(h, parentOf, parentOf(node), chain)
      && (w.cycleDetected <==> IsTruthy(ChainNext(h, parentOf, parentOf(node), chain)))
      && (w.cycleDetected ==> ChainNext(h, parentOf, parentOf(node), chain).value in w.discovered)
  {
    var start := StartIds(node, idOf, includeCurrentNode);
    ChaseShape(h, parentOf, parentOf(node), start, [], parentOf(node), (set x | x in start), start);
    var w := AncestorWalk(node, h, idOf, parentOf, includeCurrentNode).value;
    assert w.discovered == w.discovered[..|start|] + w.discovered[|start|..];
  }

  lemma {:induction false} ReverseAppend(a: seq<string>, b: seq<string>)
    ensures Reverse(a + b) == Reverse(b) + Reverse(a)
  {
    assert forall i :: 0 <= i < |a + b| ==> Reverse(a + b)[i] == (Reverse(b) + Reverse(a))[i];
  }

  /**
   * The returned array: after a normal exit the run of ancestors top-most
   * first followed by the node's own identifier (when included); after a
   * cycle the node's identifier first followed by the ancestors in discovery
   * order, not reversed.
   */
  lemma PathOrderShape<T>(node: Item<T>, h: ViewHierarchy<T>, idOf: Item<T> -> Option<string>,
                          parentOf: Item<T> -> Option<string>, includeCurrentNode: bool)
    requires AncestorWalk(node, h, idOf, parentOf, includeCurrentNode).Success?
    ensures |StartIds(node, idOf, includeCurrentNode)| <= |AncestorWalk(node, h, idOf, parentOf, includeCurrentNode).value.discovered|
    ensures var w := AncestorWalk(node, h, idOf, parentOf, includeCurrentNode).value;
      var start := StartIds(node, idOf, includeCurrentNode);
      var chain := w.discovered[|start|..];
      && IsParentChain(h, parentOf, parentOf(node), chain)
      && (!w.cycleDetected ==> PathOrder(w) == Reverse(chain) + start && !IsTruthy(ChainNext(h, parentOf, parentOf(node), chain)))
      && (w.cycleDetected ==> PathOrder(w) == start + chain)
  {
    WalkShape(node, h, idOf, parentOf, includeCurrentNode);
    var w := AncestorWalk(node, h, idOf, parentOf, includeCurrentNode).value;
    var start := StartIds(node, idOf, includeCurrentNode);
    ReverseAppend(start, w.discovered[|start|..]);
    assert Reverse(start) == start;
  }

  lemma {:induction false} DistinctWithin(c: seq<string>, keys: set<string>)
    requires Distinct(c)
    requires forall j :: 0 <= j < |c| ==> c[j] in keys
    ensures |c| <= |keys|
  {
    if c != [] {
      var rest := c[1..];
      assert forall j :: 0 <= j < |rest| ==> rest[j] == c[j + 1] && c[j + 1] != c[0];
      DistinctWithin(rest, keys - {c[0]});
    }
  }

  lemma DistinctDrop(s: seq<string>, k: nat)
    requires Distinct(s) && k <= |s|
    ensures Distinct(s[k..])
  {
    forall i, j | 0 <= i < j < |s| - k ensures s[k..][i] != s[k..][j] {
      assert s[k..][i] == s[k + i] && s[k..][j] == s[k + j];
    }
  }

  /**
   * The walk is bounded by the size of the dictionary: it pushes at most one
   * identifier per key, besides the node's own.
   */
  lemma WalkLength<T>(node: Item<T>, h: ViewHierarchy<T>, idOf: Item<T> -> Option<string>,
                      parentOf: Item<T> -> Option<string>, includeCurrentNode: bool)
    requires AncestorWalk(node, h, idOf, parentOf, includeCurrentNode).Success?
    ensures var w := AncestorWalk(node, h, idOf, parentOf, includeCurrentNode).value;
      |w.discovered| <= |StartIds(node, idOf, includeCurrentNode)| + |h|
  {
    WalkShape(node, h, idOf, parentOf, includeCurrentNode);
    var w := AncestorWalk(node, h, idOf, parentOf, includeCurrentNode).value;
    var start := StartIds(node, idOf, includeCurrentNode);
    var chain := w.discovered[|start|..];
    DistinctDrop(w.discovered, |start|);
    DistinctWithin(chain, h.Keys);
  }

  // ---------------------------------------------------------------------------
  // No missing parent on a built dictionary

  lemma {:induction false} ChaseSucceeds<T>(h: ViewHierarchy<T>, next: Option<string>, visited: set<string>, discovered: seq<string>)
    requires ParentsPresent(h)
    requires IsTruthy(next) ==> next.value in h
    ensures Chase(h, ParentIdField, next, visited, discovered).Success?
    decreases h.Keys - visited
  {
    if IsTruthy(next) && next.value !in visited {
      var n := next.value;
      ChaseSucceeds(h, h[n].parentId, visited + {n}, discovered + [n]);
    }
  }

  /**
   * With the default parent extractor, walking from an entry of a dictionary
   * built by createHierarchy never reaches an identifier that is not a key.
   */
  lemma BuiltWalkSucceeds<T>(s: seq<Option<T>>, acc: Accessors<T>, k: string,
                             idOf: Item<T> -> Option<string>, includeCurrentNode: bool)
    requires Build(s, acc).Success? && k in Build(s, acc).value
    ensures var h := Build(s, acc).value;
      AncestorWalk(h[k], h, idOf, ParentIdField, includeCurrentNode).Success?
  {
    var h := Build(s, acc).value;
    BuildParentsPresent(s, acc);
    var start := StartIds(h[k], idOf, includeCurrentNode);
    ChaseSucceeds(h, h[k].parentId, (set x | x in start), start);
  }
}
