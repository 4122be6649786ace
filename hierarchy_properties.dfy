/**
 * What createHierarchy guarantees, proved about `Build`: the one error and
 * when it is raised, that absent list elements are ignored, the key set of
 * the result, the exact entry of every identifier that has a record, the
 * skeleton left for a parent that never gets one, and that every truthy
 * parent identifier in the result is itself a key.
 */
module HierarchyProperties {
  import opened TreeTypes
  import opened HierarchySpec

  /** `o` is a present record whose identifier is the (truthy) `k`. */
  predicate IsRecordOf<T>(o: Option<T>, k: string, acc: Accessors<T>) {
    o.Some? && k != "" && acc.id(o.value) == Some(k)
  }

  /** `o` is a present record with a truthy identifier naming `k` as parent. */
  predicate IsChildOf<T>(o: Option<T>, k: string, acc: Accessors<T>) {
    o.Some? && IsTruthy(acc.id(o.value)) && k != "" && acc.parentId(o.value) == Some(k)
  }

  /** `o` is a present record whose identifier is undefined or empty. */
  predicate HasFalsyId<T>(o: Option<T>, acc: Accessors<T>) {
    o.Some? && !IsTruthy(acc.id(o.value))
  }

  /** The identifiers of the records of `s` that name `k` as parent, in input order. */
  function ChildrenOf<T>(s: seq<Option<T>>, k: string, acc: Accessors<T>): seq<string> {
    if s == [] then []
    else (if IsChildOf(s[0], k, acc) then [acc.id(s[0].value).value] else []) + ChildrenOf(s[1..], k, acc)
  }

  /** ChildrenOf the part of `s` that starts at the first record of `k`. */
  function ChildrenSinceFirstRecord<T>(s: seq<Option<T>>, k: string, acc: Accessors<T>): seq<string> {
    if s == [] then []
    else if IsRecordOf(s[0], k, acc) then ChildrenOf(s, k, acc)
    else ChildrenSinceFirstRecord(s[1..], k, acc)
  }

  /** The last record of `k` in `s`, if any. */
  function LastRecordOf<T>(s: seq<Option<T>>, k: string, acc: Accessors<T>): Option<T> {
    if s == [] then None
    else
      var later := LastRecordOf(s[1..], k, acc);
      if later.Some? then later
      else if IsRecordOf(s[0], k, acc) then Some(s[0].value)
      else None
  }

  /** `e` with the fields a record of `t` writes, or `e` itself when there is none. */
  function Overlay<T>(e: Item<T>, o: Option<T>, acc: Accessors<T>): Item<T> {
    match o
    case None => e
    case Some(t) => e.(payload := Some(t), parentId := acc.parentId(t), templateChildren := None, isLeaf := LeafFlag(acc, t))
  }

  /** The identifiers of the present records of `s` (when they are truthy). */
  ghost function RecordIds<T>(s: seq<Option<T>>, acc: Accessors<T>): set<string> {
    set i | 0 <= i < |s| && s[i].Some? && IsTruthy(acc.id(s[i].value)) :: acc.id(s[i].value).value
  }

  /** The truthy parent identifiers that the present records of `s` name. */
  ghost function ParentRefs<T>(s: seq<Option<T>>, acc: Accessors<T>): set<string> {
    set i | 0 <= i < |s| && s[i].Some? && IsTruthy(acc.parentId(s[i].value)) :: acc.parentId(s[i].value).value
  }

  /** `s` without its absent elements. */
  function NonNull<T>(s: seq<Option<T>>): (r: seq<Option<T>>)
    ensures |r| <= |s|
    ensures forall i :: 0 <= i < |r| ==> r[i].Some?
  {
    if s == [] then []
    else if s[0].None? then NonNull(s[1..])
    else [s[0]] + NonNull(s[1..])
  }

  /** Every truthy `parentId` in `h` is a key of `h`. */
  ghost predicate ParentsPresent<T>(h: ViewHierarchy<T>) {
    forall k :: k in h && IsTruthy(h[k].parentId) ==> h[k].parentId.value in h
  }

  // ---------------------------------------------------------------------------
  // The one error

  lemma {:induction false} BuildFromFailsIff<T>(h: ViewHierarchy<T>, s: seq<Option<T>>, acc: Accessors<T>)
    ensures BuildFrom(h, s, acc).Failure? <==> exists i :: 0 <= i < |s| && HasFalsyId(s[i], acc)
    decreases |s|
  {
    if s != [] && !HasFalsyId(s[0], acc) {
      var h1 := Step(h, s[0], acc).value;
      BuildFromFailsIff(h1, s[1..], acc);
      if exists i :: 0 <= i < |s| && HasFalsyId(s[i], acc) {
        var i :| 0 <= i < |s| && HasFalsyId(s[i], acc);
        assert s[1..][i - 1] == s[i];
      }
      if exists j :: 0 <= j < |s[1..]| && HasFalsyId(s[1..][j], acc) {
        var j :| 0 <= j < |s[1..]| && HasFalsyId(s[1..][j], acc);
        assert s[j + 1] == s[1..][j];
      }
    }
  }

  /**
   * createHierarchy throws exactly when some present record has a falsy
   * identifier; then no dictionary is returned at all.
   */
  lemma BuildFailsIff<T>(s: seq<Option<T>>, acc: Accessors<T>)
    ensures Build(s, acc).Failure? <==> exists i :: 0 <= i < |s| && HasFalsyId(s[i], acc)
  {
    BuildFromFailsIff(map[], s, acc);
  }

  // ---------------------------------------------------------------------------
  // Absent elements are skipped

  lemma {:induction false} BuildFromSkipsNulls<T>(h: ViewHierarchy<T>, s: seq<Option<T>>, acc: Accessors<T>)
    ensures BuildFrom(h, s, acc) == BuildFrom(h, NonNull(s), acc)
    decreases |s|
  {
    if s != [] {
      if s[0].None? {
        BuildFromSkipsNulls(h, s[1..], acc);
      } else {
        var n := NonNull(s);
        assert n[0] == s[0] && n[1..] == NonNull(s[1..]);
        match Step(h, s[0], acc)
        case Failure(_) =>
        case Success(h1) => BuildFromSkipsNulls(h1, s[1..], acc);
      }
    }
  }

  lemma {:induction false} NonNullAppend<T>(a: seq<Option<T>>, b: seq<Option<T>>)
    ensures NonNull(a + b) == NonNull(a) + NonNull(b)
    decreases |a|
  {
    if a == [] {
      assert a + b == b;
    } else {
      assert (a + b)[0] == a[0] && (a + b)[1..] == a[1..] + b;
      NonNullAppend(a[1..], b);
      if a[0].Some? {
        assert NonNull(a + b) == [a[0]] + NonNull(a[1..] + b);
      }
    }
  }

  /** The result equals the result for the list with its absent elements removed. */
  lemma BuildSkipsNulls<T>(s: seq<Option<T>>, acc: Accessors<T>)
    ensures Build(s, acc) == Build(NonNull(s), acc)
  {
    BuildFromSkipsNulls(map[], s, acc);
  }

  /** An absent element anywhere in the list changes nothing. */
  lemma NullElementIgnored<T>(a: seq<Option<T>>, b: seq<Option<T>>, acc: Accessors<T>)
    ensures Build(a + [None] + b, acc) == Build(a + b, acc)
  {
    var gap: seq<Option<T>> := [None];
    assert a + [None] + b == a + gap + b;
    assert NonNull(gap) == [];
    NonNullAppend(a + gap, b);
    NonNullAppend(a, gap);
    NonNullAppend(a, b);
    assert NonNull(a + gap + b) == NonNull(a + b);
    BuildSkipsNulls(a + gap + b, acc);
    BuildSkipsNulls(a + b, acc);
  }

  // ---------------------------------------------------------------------------
  // The key set

  lemma RecordIdsCons<T>(s: seq<Option<T>>, acc: Accessors<T>)
    requires s != []
    ensures RecordIds(s, acc) ==
      (if s[0].Some? && IsTruthy(acc.id(s[0].value)) then {acc.id(s[0].value).value} else {}) + RecordIds(s[1..], acc)
  {
    var head := if s[0].Some? && IsTruthy(acc.id(s[0].value)) then {acc.id(s[0].value).value} else {};
    forall x | x in RecordIds(s, acc) ensures x in head + RecordIds(s[1..], acc) {
      var i :| 0 <= i < |s| && s[i].Some? && IsTruthy(acc.id(s[i].value)) && acc.id(s[i].value).value == x;
      if i > 0 {
        assert s[1..][i - 1] == s[i];
      }
    }
    forall x | x in RecordIds(s[1..], acc) ensures x in RecordIds(s, acc) {
      var i :| 0 <= i < |s[1..]| && s[1..][i].Some? && IsTruthy(acc.id(s[1..][i].value)) && acc.id(s[1..][i].value).value == x;
      assert s[i + 1] == s[1..][i];
    }
  }

  lemma ParentRefsCons<T>(s: seq<Option<T>>, acc: Accessors<T>)
    requires s != []
    ensures ParentRefs(s, acc) ==
      (if s[0].Some? && IsTruthy(acc.parentId(s[0].value)) then {acc.parentId(s[0].value).value} else {}) + ParentRefs(s[1..], acc)
  {
    var head := if s[0].Some? && IsTruthy(acc.parentId(s[0].value)) then {acc.parentId(s[0].value).value} else {};
    forall x | x in ParentRefs(s, acc) ensures x in head + ParentRefs(s[1..], acc) {
      var i :| 0 <= i < |s| && s[i].Some? && IsTruthy(acc.parentId(s[i].value)) && acc.parentId(s[i].value).value == x;
      if i > 0 {
        assert s[1..][i - 1] == s[i];
      }
    }
    forall x | x in ParentRefs(s[1..], acc) ensures x in ParentRefs(s, acc) {
      var i :| 0 <= i < |s[1..]| && s[1..][i].Some? && IsTruthy(acc.parentId(s[1..][i].value)) && acc.parentId(s[1..][i].value).value == x;
      assert s[i + 1] == s[1..][i];
    }
  }

  lemma {:induction false} BuildFromKeys<T>(h: ViewHierarchy<T>, s: seq<Option<T>>, acc: Accessors<T>)
    requires BuildFrom(h, s, acc).Success?
    ensures BuildFrom(h, s, acc).value.Keys == h.Keys + RecordIds(s, acc) + ParentRefs(s, acc)
    decreases |s|
  {
    if s != [] {
      var h1 := Step(h, s[0], acc).value;
      BuildFromKeys(h1, s[1..], acc);
      RecordIdsCons(s, acc);
      ParentRefsCons(s, acc);
    }
  }

  /**
   * The keys of the result are exactly the identifiers of the present
   * records together with every truthy parent identifier they name.
   */
  lemma BuildKeys<T>(s: seq<Option<T>>, acc: Accessors<T>)
    requires Build(s, acc).Success?
    ensures Build(s, acc).value.Keys == RecordIds(s, acc) + ParentRefs(s, acc)
  {
    BuildFromKeys(map[], s, acc);
  }

  // ---------------------------------------------------------------------------
  // Entries

  /** One record's effect on an entry that already has `nodeChildren`. */
  lemma StepOnFullEntry<T>(h: ViewHierarchy<T>, o: Option<T>, acc: Accessors<T>, k: string)
    requires k in h && h[k].nodeChildren.Some? && k != ""
    requires Step(h, o, acc).Success?
    ensures var h1 := Step(h, o, acc).value;
      k in h1 && h1[k] == Overlay(h[k], if IsRecordOf(o, k, acc) then o else None, acc).(nodeChildren :=
        Some(h[k].nodeChildren.value + if IsChildOf(o, k, acc) then [acc.id(o.value).value] else []))
  {
    if o.None? {
      assert h[k].nodeChildren.value + [] == h[k].nodeChildren.value;
    } else {
      var t := o.value;
      var id := acc.id(t).value;
      var pid := acc.parentId(t);
      var h1 := h[id := Item(Some(t), pid, Some(InheritedChildren(h, id)), None, LeafFlag(acc, t))];
      if id == k {
        assert h1[k].nodeChildren == h[k].nodeChildren;
      } else {
        assert h1[k] == h[k];
      }
      if !IsChildOf(o, k, acc) {
        assert h[k].nodeChildren.value + [] == h[k].nodeChildren.value;
      }
    }
  }

  /** One element's effect on an entry that has no `nodeChildren`. */
  lemma StepOnBareEntry<T>(h: ViewHierarchy<T>, o: Option<T>, acc: Accessors<T>, k: string)
    requires k !in h || h[k].nodeChildren.None?
    requires k != ""
    requires Step(h, o, acc).Success?
    ensures var h1 := Step(h, o, acc).value;
      && (IsRecordOf(o, k, acc) ==>
            k in h1 && h1[k] == Item(o, acc.parentId(o.value), Some(if IsChildOf(o, k, acc) then [k] else []), None, LeafFlag(acc, o.value)))
      && (!IsRecordOf(o, k, acc) && IsChildOf(o, k, acc) ==> k in h1 && h1[k] == Skeleton(acc.id(o.value).value))
      && (!IsRecordOf(o, k, acc) && !IsChildOf(o, k, acc) ==> (k in h1 <==> k in h) && (k in h ==> h1[k] == h[k]))
  {
    if IsRecordOf(o, k, acc) && IsChildOf(o, k, acc) {
      assert [] + [k] == [k];
    }
  }

  /**
   * An entry that already has `nodeChildren` keeps them: later children are
   * appended in input order, and a later record of the same identifier
   * replaces the other fields but not the children.
   */
  lemma {:induction false} FullEntryEvolves<T>(h: ViewHierarchy<T>, s: seq<Option<T>>, acc: Accessors<T>, k: string)
    requires k in h && h[k].nodeChildren.Some? && k != ""
    requires BuildFrom(h, s, acc).Success?
    ensures var r := BuildFrom(h, s, acc).value;
      k in r && r[k] == Overlay(h[k], LastRecordOf(s, k, acc), acc).(nodeChildren := Some(h[k].nodeChildren.value + ChildrenOf(s, k, acc)))
    decreases |s|
  {
    if s != [] {
      var h1 := Step(h, s[0], acc).value;
      var head := if IsChildOf(s[0], k, acc) then [acc.id(s[0].value).value] else [];
      assert ChildrenOf(s, k, acc) == head + ChildrenOf(s[1..], k, acc);
      StepOnFullEntry(h, s[0], acc, k);
      FullEntryEvolves(h1, s[1..], acc, k);
      assert h[k].nodeChildren.value + head + ChildrenOf(s[1..], k, acc)
          == h[k].nodeChildren.value + ChildrenOf(s, k, acc);
      var later := LastRecordOf(s[1..], k, acc);
      var here := if IsRecordOf(s[0], k, acc) then s[0] else None;
      var e1 := Overlay(h[k], here, acc).(nodeChildren := Some(h[k].nodeChildren.value + head));
      assert h1[k] == e1;
      if later.None? {
        assert LastRecordOf(s, k, acc) == here;
      } else {
        assert LastRecordOf(s, k, acc) == later;
        assert Overlay(e1, later, acc).(nodeChildren := None) == Overlay(h[k], later, acc).(nodeChildren := None);
      }
    } else {
      assert h[k].nodeChildren.value + [] == h[k].nodeChildren.value;
    }
  }

  /**
   * An identifier whose entry has no `nodeChildren` before its first record:
   * the first record starts the children afresh (earlier children are lost)
   * and the last record supplies the other fields.
   */
  lemma {:induction false} FirstRecordEntry<T>(h: ViewHierarchy<T>, s: seq<Option<T>>, acc: Accessors<T>, k: string)
    requires k != ""
    requires k !in h || h[k].nodeChildren.None?
    requires LastRecordOf(s, k, acc).Some?
    requires BuildFrom(h, s, acc).Success?
    ensures var r := BuildFrom(h, s, acc).value; var t := LastRecordOf(s, k, acc).value;
      k in r && r[k] == Item(Some(t), acc.parentId(t), Some(ChildrenSinceFirstRecord(s, k, acc)), None, LeafFlag(acc, t))
    decreases |s|
  {
    var h1 := Step(h, s[0], acc).value;
    if IsRecordOf(s[0], k, acc) {
      var head := if IsChildOf(s[0], k, acc) then [k] else [];
      assert ChildrenOf(s, k, acc) == head + ChildrenOf(s[1..], k, acc);
      StepOnBareEntry(h, s[0], acc, k);
      FullEntryEvolves(h1, s[1..], acc, k);
      if LastRecordOf(s[1..], k, acc).None? {
        assert LastRecordOf(s, k, acc) == s[0];
      }
    } else {
      StepOnBareEntry(h, s[0], acc, k);
      FirstRecordEntry(h1, s[1..], acc, k);
    }
  }

  /**
   * An identifier with no record of its own: every record naming it as
   * parent overwrites its entry with a fresh skeleton, so only the last such
   * child is remembered, under `templateChildren`.
   */
  lemma {:induction false} SkeletonEntry<T>(h: ViewHierarchy<T>, s: seq<Option<T>>, acc: Accessors<T>, k: string)
    requires k != ""
    requires k !in h || h[k].nodeChildren.None?
    requires LastRecordOf(s, k, acc).None?
    requires BuildFrom(h, s, acc).Success?
    ensures var r := BuildFrom(h, s, acc).value; var c := ChildrenOf(s, k, acc);
      && (c == [] ==> (k in r <==> k in h) && (k in h ==> r[k] == h[k]))
      && (c != [] ==> k in r && r[k] == Skeleton(c[|c| - 1]))
    decreases |s|
  {
    if s != [] {
      var h1 := Step(h, s[0], acc).value;
      var head := if IsChildOf(s[0], k, acc) then [acc.id(s[0].value).value] else [];
      assert ChildrenOf(s, k, acc) == head + ChildrenOf(s[1..], k, acc);
      StepOnBareEntry(h, s[0], acc, k);
      SkeletonEntry(h1, s[1..], acc, k);
    }
  }

  lemma {:induction false} NoRecordNoLast<T>(s: seq<Option<T>>, k: string, acc: Accessors<T>)
    requires forall j :: 0 <= j < |s| ==> !IsRecordOf(s[j], k, acc)
    ensures LastRecordOf(s, k, acc).None?
    decreases |s|
  {
    if s != [] {
      assert forall j :: 0 <= j < |s[1..]| ==> s[1..][j] == s[j + 1];
      NoRecordNoLast(s[1..], k, acc);
    }
  }

  lemma {:induction false} LastRecordAt<T>(s: seq<Option<T>>, k: string, acc: Accessors<T>, last: nat)
    requires last < |s| && IsRecordOf(s[last], k, acc)
    requires forall j :: last < j < |s| ==> !IsRecordOf(s[j], k, acc)
    ensures LastRecordOf(s, k, acc) == s[last]
    decreases |s|
  {
    assert forall j :: 0 <= j < |s[1..]| ==> s[1..][j] == s[j + 1];
    if last == 0 {
      NoRecordNoLast(s[1..], k, acc);
    } else {
      LastRecordAt(s[1..], k, acc, last - 1);
    }
  }

  lemma {:induction false} FirstRecordAt<T>(s: seq<Option<T>>, k: string, acc: Accessors<T>, first: nat)
    requires first < |s| && IsRecordOf(s[first], k, acc)
    requires forall j :: 0 <= j < first ==> !IsRecordOf(s[j], k, acc)
    ensures ChildrenSinceFirstRecord(s, k, acc) == ChildrenOf(s[first..], k, acc)
    decreases |s|
  {
    if first > 0 {
      assert forall j :: 0 <= j < |s[1..]| ==> s[1..][j] == s[j + 1];
      assert s[1..][first - 1..] == s[first..];
      FirstRecordAt(s[1..], k, acc, first - 1);
    }
  }

  /**
   * The entry of an identifier that has records: the last record's payload,
   * parent identifier and leaf flag, no `templateChildren`, and as
   * `nodeChildren` every child that names it as parent from its FIRST record
   * onward, in input order. Children listed before that first record are
   * lost; a duplicate identifier is not rejected, its later record replaces
   * the earlier one's fields.
   */
  lemma BuildRecordEntry<T>(s: seq<Option<T>>, acc: Accessors<T>, k: string, first: nat, last: nat)
    requires Build(s, acc).Success?
    requires first <= last < |s| && IsRecordOf(s[first], k, acc) && IsRecordOf(s[last], k, acc)
    requires forall j :: 0 <= j < first ==> !IsRecordOf(s[j], k, acc)
    requires forall j :: last < j < |s| ==> !IsRecordOf(s[j], k, acc)
    ensures var r := Build(s, acc).value; var t := s[last].value;
      k in r && r[k] == Item(Some(t), acc.parentId(t), Some(ChildrenOf(s[first..], k, acc)), None, LeafFlag(acc, t))
  {
    LastRecordAt(s, k, acc, last);
    FirstRecordAt(s, k, acc, first);
    FirstRecordEntry(map[], s, acc, k);
  }

  /**
   * An identifier that only ever appears as a parent stays a skeleton that
   * holds the LAST child naming it (each such child overwrote the previous
   * skeleton).
   */
  lemma BuildSkeletonEntry<T>(s: seq<Option<T>>, acc: Accessors<T>, k: string)
    requires Build(s, acc).Success?
    requires k != ""
    requires forall j :: 0 <= j < |s| ==> !IsRecordOf(s[j], k, acc)
    requires ChildrenOf(s, k, acc) != []
    ensures var r := Build(s, acc).value; var c := ChildrenOf(s, k, acc);
      k in r && r[k] == Skeleton(c[|c| - 1])
  {
    NoRecordNoLast(s, k, acc);
    SkeletonEntry(map[], s, acc, k);
  }

  // ---------------------------------------------------------------------------
  // Parent links stay inside the dictionary

  lemma {:induction false} BuildFromParentsPresent<T>(h: ViewHierarchy<T>, s: seq<Option<T>>, acc: Accessors<T>)
    requires ParentsPresent(h)
    requires BuildFrom(h, s, acc).Success?
    ensures ParentsPresent(BuildFrom(h, s, acc).value)
    decreases |s|
  {
    if s != [] {
      var h1 := Step(h, s[0], acc).value;
      assert ParentsPresent(h1);
      BuildFromParentsPresent(h1, s[1..], acc);
    }
  }

  /**
   * Every truthy `parentId` of an entry of the result is a key, so walking
   * parent links never looks up a missing identifier.
   */
  lemma BuildParentsPresent<T>(s: seq<Option<T>>, acc: Accessors<T>)
    requires Build(s, acc).Success?
    ensures ParentsPresent(Build(s, acc).value)
  {
    BuildFromParentsPresent(map[], s, acc);
  }
}
