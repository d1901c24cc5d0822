/** Step one of the job: expanding the selection into the set of
    FXOMInstances whose property is to be set. */
module Expansion {
  import opened Results
  import opened Fxom
  import opened Selection

  /** The candidate set under construction, and the document it refers to
      (resolving an intrinsic adds an instance to the document). */
  datatype ExpansionState = ExpansionState(candidates: set<FxObject>, doc: Document)

  /** The number of intrinsics among the items: how many instances the
      expansion creates. */
  function IntrinsicCount(items: seq<FxObject>): nat {
    if |items| == 0 then 0
    else (if items[0].IsIntrinsic() then 1 else 0) + IntrinsicCount(items[1..])
  }

  /** The selected items that are instances. */
  function InstanceItems(items: seq<FxObject>): set<FxObject> {
    set o | o in items && o.IsInstance()
  }

  /** The instances created with identities `from` up to, not including, `to`. */
  function FreshInstances(from: nat, to: nat): set<FxObject> {
    set id: nat | from <= id < to :: FxObject(id, InstanceKind)
  }

  /** Every selected object has an allocated identity. */
  predicate ItemsAllocated(items: seq<FxObject>, doc: Document) {
    forall i :: 0 <= i < |items| ==> items[i].id < doc.next
  }

  /** handleFxomInstance: an instance is added as it is. */
  function HandleFxomInstance(o: FxObject, candidates: set<FxObject>): (r: set<FxObject>)
    ensures candidates <= r
    ensures o in r <==> o.IsInstance() || o in candidates
    ensures forall x :: x in r && x !in candidates ==> x == o
  {
    if o.IsInstance() then candidates + {o} else candidates
  }

  /** handleFxomIntrinsic: an intrinsic is resolved to a new instance, and
      that instance is added in its place. */
  function HandleFxomIntrinsic(o: FxObject, e: ExpansionState): (r: ExpansionState)
    requires ValidDocument(e.doc)
    ensures ValidDocument(r.doc)
    ensures r.doc.next == e.doc.next + (if o.IsIntrinsic() then 1 else 0)
    ensures r.candidates == e.candidates + FreshInstances(e.doc.next, r.doc.next)
    ensures forall id: ObjectId, n :: id < e.doc.next ==> Raw(r.doc, id, n) == Raw(e.doc, id, n)
    ensures o.IsIntrinsic() && o.id < e.doc.next ==> forall n :: Raw(r.doc, e.doc.next, n) == Raw(e.doc, o.id, n)
  {
    if o.IsIntrinsic() then
      var (instance, doc') := ResolveIntrinsic(e.doc, o);
      ExpansionState(e.candidates + {instance}, doc')
    else e
  }

  /** Both handlers, run on one item. */
  function HandleItem(o: FxObject, e: ExpansionState): ExpansionState
    requires ValidDocument(e.doc)
  {
    HandleFxomIntrinsic(o, ExpansionState(HandleFxomInstance(o, e.candidates), e.doc))
  }

  /** handleObjectSelectionGroup: both handlers run on every item in turn. */
  function HandleObjectSelectionGroup(items: seq<FxObject>, e: ExpansionState): (r: ExpansionState)
    requires ValidDocument(e.doc)
    ensures ValidDocument(r.doc)
    ensures r.doc.next == e.doc.next + IntrinsicCount(items)
    ensures r.candidates == e.candidates + InstanceItems(items) + FreshInstances(e.doc.next, r.doc.next)
    ensures forall id: ObjectId, n :: id < e.doc.next ==> Raw(r.doc, id, n) == Raw(e.doc, id, n)
    decreases |items|
  {
    if |items| == 0 then e
    else
      var e' := HandleItem(items[0], e);
      HandleItemFacts(items[0], e);
      var r := HandleObjectSelectionGroup(items[1..], e');
      InstanceItemsCons(items);
      FreshInstancesSplit(e.doc.next, e'.doc.next, r.doc.next);
      r
  }

  /** handleGridSelectionGroup: each selected index becomes the constraints
      object the mask finds there, which must be an instance. */
  function HandleGridSelectionGroup(mask: HierarchyMask, gridType: GridType, indexes: set<int>): (r: Result<set<FxObject>, Failure>)
    ensures r.Success? <==> forall i :: i in indexes ==> IsInstanceAt(mask, gridType, i)
    ensures r.Success? ==> forall c :: c in r.value ==> c.IsInstance()
    ensures r.Success? ==> |r.value| <= |indexes|
  {
    if forall i :: i in indexes ==> IsInstanceAt(mask, gridType, i) then
      GridCandidatesBound(mask, gridType, indexes);
      Success(GridCandidates(mask, gridType, indexes))
    else
      Failure(ConstraintsNotInstance)
  }

  /** The constraints objects at the selected indexes. */
  function GridCandidates(mask: HierarchyMask, gridType: GridType, indexes: set<int>): set<FxObject>
    requires forall i :: i in indexes ==> IsInstanceAt(mask, gridType, i)
  {
    set i | i in indexes && IsInstanceAt(mask, gridType, i) :: ConstraintsAt(mask, gridType, i).value
  }

  /** makeSubJobs, first half: the candidate set of the current selection. */
  function ExpandSelection(group: SelectionGroup, maskOf: MaskFactory, doc: Document): (r: Result<ExpansionState, Failure>)
    requires ValidDocument(doc)
    ensures r.Success? ==> ValidDocument(r.value.doc)
    ensures r.Success? ==> forall c :: c in r.value.candidates ==> c.IsInstance()
    ensures r.Failure? <==> group.OtherSelectionGroup? || (group.GridSelectionGroup? && HandleGridSelectionGroup(maskOf(group.ancestor), group.gridType, group.indexes).Failure?)
    ensures group.NoGroup? ==> r.Success? && r.value.candidates == {} && r.value.doc == doc
    ensures group.ObjectSelectionGroup? ==> |r.value.candidates| <= |group.items|
    ensures group.GridSelectionGroup? && r.Success? ==> |r.value.candidates| <= |group.indexes| && r.value.doc == doc
  {
    match group
    case ObjectSelectionGroup(items) =>
      var e := HandleObjectSelectionGroup(items, ExpansionState({}, doc));
      ObjectCandidatesBound(items, doc);
      Success(e)
    case GridSelectionGroup(ancestor, gridType, indexes) =>
      var mask := maskOf(ancestor);
      (match HandleGridSelectionGroup(mask, gridType, indexes)
       case Success(candidates) => Success(ExpansionState(candidates, doc))
       case Failure(f) => Failure(f))
    case NoGroup => Success(ExpansionState({}, doc))
    case OtherSelectionGroup => Failure(UnhandledGroup)
  }

  /** For an object selection: every selected instance is a candidate as it
      is, every selected intrinsic is replaced by one newly created instance,
      and no intrinsic or other non-instance item is ever a candidate. */
  lemma {:induction false} ObjectSelectionCandidates(items: seq<FxObject>, maskOf: MaskFactory, doc: Document)
    requires ValidDocument(doc)
    ensures var r := ExpandSelection(ObjectSelectionGroup(items), maskOf, doc);
            && r.Success?
            && r.value.doc.next == doc.next + IntrinsicCount(items)
            && r.value.candidates == InstanceItems(items) + FreshInstances(doc.next, r.value.doc.next)
            && (forall i :: 0 <= i < |items| && items[i].IsInstance() ==> items[i] in r.value.candidates)
            && (forall i :: 0 <= i < |items| && !items[i].IsInstance() ==> items[i] !in r.value.candidates)
  {
    var e := HandleObjectSelectionGroup(items, ExpansionState({}, doc));
    assert ExpandSelection(ObjectSelectionGroup(items), maskOf, doc) == Success(e);
    assert e.doc.next == doc.next + IntrinsicCount(items);
    var none: set<FxObject> := {};
    assert none + InstanceItems(items) == InstanceItems(items);
    assert e.candidates == InstanceItems(items) + FreshInstances(doc.next, e.doc.next);
    forall i | 0 <= i < |items| && items[i].IsInstance() ensures items[i] in e.candidates {
      assert items[i] in InstanceItems(items);
    }
  }

  // ---------------------------------------------------------------------
  // Lemmas

  lemma {:induction false} FreshInstancesSplit(a: nat, b: nat, c: nat)
    requires a <= b <= c
    ensures FreshInstances(a, b) + FreshInstances(b, c) == FreshInstances(a, c)
  {
    forall o | o in FreshInstances(a, c)
      ensures o in FreshInstances(a, b) + FreshInstances(b, c)
    {
      var id: nat :| a <= id < c && o == FxObject(id, InstanceKind);
      if id < b {
        assert o in FreshInstances(a, b);
      } else {
        assert o in FreshInstances(b, c);
      }
    }
  }

  lemma {:induction false} FreshInstancesCount(a: nat, b: nat)
    requires a <= b
    ensures |FreshInstances(a, b)| == b - a
    decreases b - a
  {
    if a < b {
      FreshInstancesCount(a, b - 1);
      FreshInstancesSplit(a, b - 1, b);
      assert FreshInstances(b - 1, b) == {FxObject(b - 1, InstanceKind)};
      assert FxObject(b - 1, InstanceKind) !in FreshInstances(a, b - 1);
    } else {
      assert FreshInstances(a, b) == {};
    }
  }

  lemma {:induction false} InstancesAndIntrinsicsBound(items: seq<FxObject>)
    ensures |InstanceItems(items)| + IntrinsicCount(items) <= |items|
  {
    if |items| > 0 {
      InstancesAndIntrinsicsBound(items[1..]);
      assert items == [items[0]] + items[1..];
      assert InstanceItems(items) == InstanceItems([items[0]]) + InstanceItems(items[1..]);
      if items[0].IsInstance() {
        assert InstanceItems([items[0]]) == {items[0]};
      } else {
        assert InstanceItems([items[0]]) == {};
      }
    }
  }

  /** The fresh instances are distinct from every selected item. */
  lemma {:induction false} FreshDisjointFromItems(items: seq<FxObject>, doc: Document, to: nat)
    requires ItemsAllocated(items, doc)
    ensures InstanceItems(items) !! FreshInstances(doc.next, to)
  {
  }

  /** For an object selection, the candidates are the selected instances and
      one new instance per selected intrinsic, so there are exactly as many
      candidates as distinct instances plus intrinsics. */
  lemma {:induction false} ObjectCandidatesCount(items: seq<FxObject>, doc: Document)
    requires ValidDocument(doc) && ItemsAllocated(items, doc)
    ensures |HandleObjectSelectionGroup(items, ExpansionState({}, doc)).candidates| == |InstanceItems(items)| + IntrinsicCount(items)
  {
    var r := HandleObjectSelectionGroup(items, ExpansionState({}, doc));
    FreshDisjointFromItems(items, doc, r.doc.next);
    FreshInstancesCount(doc.next, r.doc.next);
    assert r.candidates == InstanceItems(items) + FreshInstances(doc.next, r.doc.next);
  }

  /** An object selection never yields more candidates than it has items. */
  lemma {:induction false} ObjectCandidatesBound(items: seq<FxObject>, doc: Document)
    requires ValidDocument(doc)
    ensures |HandleObjectSelectionGroup(items, ExpansionState({}, doc)).candidates| <= |items|
  {
    var r := HandleObjectSelectionGroup(items, ExpansionState({}, doc));
    FreshInstancesCount(doc.next, r.doc.next);
    InstancesAndIntrinsicsBound(items);
    assert r.candidates == InstanceItems(items) + FreshInstances(doc.next, r.doc.next);
  }

  lemma {:induction false} GridCandidatesBound(mask: HierarchyMask, gridType: GridType, indexes: set<int>)
    requires forall i :: i in indexes ==> IsInstanceAt(mask, gridType, i)
    ensures |GridCandidates(mask, gridType, indexes)| <= |indexes|
    decreases |indexes|
  {
    if indexes != {} {
      assert (forall j :: j !in indexes) ==> indexes == {};
      var i :| i in indexes;
      var rest := indexes - {i};
      GridCandidatesBound(mask, gridType, rest);
      GridCandidatesStep(mask, gridType, indexes, i);
    }
  }

  /** Removing one index removes at most its own constraints object. */
  lemma {:induction false} GridCandidatesStep(mask: HierarchyMask, gridType: GridType, indexes: set<int>, i: int)
    requires forall j :: j in indexes ==> IsInstanceAt(mask, gridType, j)
    requires i in indexes
    ensures GridCandidates(mask, gridType, indexes)
         == GridCandidates(mask, gridType, indexes - {i}) + {ConstraintsAt(mask, gridType, i).value}
  {
  }

  /** For a grid selection the candidates are exactly the constraints objects
      the mask holds at the selected indexes: column constraints for a column
      selection, row constraints for a row selection. */
  lemma {:induction false} GridCandidatesAreMaskLookups(maskOf: MaskFactory, doc: Document, ancestor: FxObject, gridType: GridType, indexes: set<int>)
    requires ValidDocument(doc)
    ensures var r := ExpandSelection(GridSelectionGroup(ancestor, gridType, indexes), maskOf, doc);
            r.Success? && gridType == Column ==>
              forall i :: i in indexes ==> maskOf(ancestor).columnConstraintsAt(i).Some? && maskOf(ancestor).columnConstraintsAt(i).value in r.value.candidates
    ensures var r := ExpandSelection(GridSelectionGroup(ancestor, gridType, indexes), maskOf, doc);
            r.Success? && gridType == Row ==>
              forall i :: i in indexes ==> maskOf(ancestor).rowConstraintsAt(i).Some? && maskOf(ancestor).rowConstraintsAt(i).value in r.value.candidates
    ensures var r := ExpandSelection(GridSelectionGroup(ancestor, gridType, indexes), maskOf, doc);
            r.Success? ==>
              forall c :: c in r.value.candidates ==> exists i :: i in indexes && ConstraintsAt(maskOf(ancestor), gridType, i) == Some(c)
  {
    var mask := maskOf(ancestor);
    var r := ExpandSelection(GridSelectionGroup(ancestor, gridType, indexes), maskOf, doc);
    if r.Success? {
      assert r.value.candidates == GridCandidates(mask, gridType, indexes);
      forall i | i in indexes
        ensures ConstraintsAt(mask, gridType, i).Some? && ConstraintsAt(mask, gridType, i).value in r.value.candidates
      {
        assert IsInstanceAt(mask, gridType, i);
      }
      forall c | c in r.value.candidates
        ensures exists i :: i in indexes && ConstraintsAt(mask, gridType, i) == Some(c)
      {
        var i :| i in indexes && IsInstanceAt(mask, gridType, i) && ConstraintsAt(mask, gridType, i).value == c;
      }
    }
  }

  /** Distinct indexes name distinct constraints objects in a grid, so then
      there is one candidate per selected index. */
  lemma {:induction false} GridCandidatesExact(mask: HierarchyMask, gridType: GridType, indexes: set<int>)
    requires forall i :: i in indexes ==> IsInstanceAt(mask, gridType, i)
    requires forall i, j :: i in indexes && j in indexes && i != j ==> ConstraintsAt(mask, gridType, i) != ConstraintsAt(mask, gridType, j)
    ensures |GridCandidates(mask, gridType, indexes)| == |indexes|
    decreases |indexes|
  {
    if indexes != {} {
      assert (forall j :: j !in indexes) ==> indexes == {};
      var i :| i in indexes;
      var rest := indexes - {i};
      GridCandidatesExact(mask, gridType, rest);
      GridCandidatesStep(mask, gridType, indexes, i);
      assert ConstraintsAt(mask, gridType, i).value !in GridCandidates(mask, gridType, rest);
    }
  }

  /** What handling one item does to the candidates, the allocator and the
      values of already allocated objects. */
  lemma {:induction false} HandleItemFacts(o: FxObject, e: ExpansionState)
    requires ValidDocument(e.doc)
    ensures var e' := HandleItem(o, e);
            && ValidDocument(e'.doc)
            && e'.doc.next == e.doc.next + (if o.IsIntrinsic() then 1 else 0)
            && e'.candidates == e.candidates + InstanceItems([o]) + FreshInstances(e.doc.next, e'.doc.next)
            && (forall id: ObjectId, n :: id < e.doc.next ==> Raw(e'.doc, id, n) == Raw(e.doc, id, n))
  {
    var e' := HandleItem(o, e);
    if o.IsIntrinsic() {
      assert FreshInstances(e.doc.next, e'.doc.next) == {FxObject(e.doc.next, InstanceKind)};
      assert InstanceItems([o]) == {};
    } else {
      assert FreshInstances(e.doc.next, e'.doc.next) == {};
      if o.IsInstance() {
        assert InstanceItems([o]) == {o};
      } else {
        assert InstanceItems([o]) == {};
      }
    }
  }

  /** The document part of HandleItemFacts alone. It exists only to keep
      the candidate-set equations out of the proofs below that do not need
      them, which keeps those proofs cheap for the solver. */
  lemma {:induction false} HandleItemDocFacts(o: FxObject, e: ExpansionState)
    requires ValidDocument(e.doc)
    ensures var e' := HandleItem(o, e);
            && ValidDocument(e'.doc)
            && e'.doc.next == e.doc.next + (if o.IsIntrinsic() then 1 else 0)
            && (forall id: ObjectId, n :: id < e.doc.next ==> Raw(e'.doc, id, n) == Raw(e.doc, id, n))
  {
    HandleItemFacts(o, e);
  }

  lemma {:induction false} InstanceItemsCons(items: seq<FxObject>)
    requires |items| > 0
    ensures InstanceItems(items) == InstanceItems([items[0]]) + InstanceItems(items[1..])
  {
    assert items == [items[0]] + items[1..];
  }

  /** The instance created for an intrinsic reads every property as the
      intrinsic does. */
  lemma {:induction false} ResolvedCopiesIntrinsic(o: FxObject, e: ExpansionState, name: PropertyName)
    requires ValidDocument(e.doc) && o.id < e.doc.next && o.IsIntrinsic()
    ensures Raw(HandleItem(o, e).doc, e.doc.next, name) == Raw(e.doc, o.id, name)
  {
  }

  /** Counting intrinsics before position `i`. */
  lemma {:induction false} IntrinsicCountPrefix(items: seq<FxObject>, i: int)
    requires 0 < i <= |items|
    ensures IntrinsicCount(items[..i]) == (if items[0].IsIntrinsic() then 1 else 0) + IntrinsicCount(items[1..][..i - 1])
  {
    assert items[..i][0] == items[0];
    assert items[..i][1..] == items[1..][..i - 1];
  }

  /** Fewer intrinsics precede an intrinsic than there are in all. */
  lemma {:induction false} IntrinsicCountBefore(items: seq<FxObject>, i: int)
    requires 0 <= i < |items| && items[i].IsIntrinsic()
    ensures IntrinsicCount(items[..i]) < IntrinsicCount(items)
    decreases i
  {
    if i == 0 {
      assert items[..0] == [];
    } else {
      IntrinsicCountPrefix(items, i);
      assert items[1..][i - 1] == items[i];
      IntrinsicCountBefore(items[1..], i - 1);
    }
  }

  lemma {:induction false} HandleObjectsUnfold(items: seq<FxObject>, e: ExpansionState)
    requires ValidDocument(e.doc) && |items| > 0
    ensures ValidDocument(HandleItem(items[0], e).doc)
    ensures HandleObjectSelectionGroup(items, e) == HandleObjectSelectionGroup(items[1..], HandleItem(items[0], e))
  {
    HandleItemFacts(items[0], e);
  }

  /** The instance created for the intrinsic at position `i` reads every
      property as that intrinsic does, whatever the items after it. The
      case `i > 0` is in ResolvedInstanceReadsAsIntrinsicLater; the two are
      one induction, split in two only to keep each proof small. */
  lemma {:induction false} ResolvedInstanceReadsAsIntrinsic(items: seq<FxObject>, e: ExpansionState, i: int, name: PropertyName)
    requires ValidDocument(e.doc) && ItemsAllocated(items, e.doc)
    requires 0 <= i < |items| && items[i].IsIntrinsic()
    ensures Raw(HandleObjectSelectionGroup(items, e).doc, e.doc.next + IntrinsicCount(items[..i]), name)
         == Raw(e.doc, items[i].id, name)
    decreases |items|, 1
  {
    HandleObjectsUnfold(items, e);
    HandleItemDocFacts(items[0], e);
    if i == 0 {
      assert items[..0] == [];
      ResolvedCopiesIntrinsic(items[0], e, name);
    } else {
      ResolvedInstanceReadsAsIntrinsicLater(items, e, i, name);
    }
  }

  lemma {:induction false} ResolvedInstanceReadsAsIntrinsicLater(items: seq<FxObject>, e: ExpansionState, i: int, name: PropertyName)
    requires ValidDocument(e.doc) && ItemsAllocated(items, e.doc)
    requires 0 < i < |items| && items[i].IsIntrinsic()
    ensures Raw(HandleObjectSelectionGroup(items, e).doc, e.doc.next + IntrinsicCount(items[..i]), name)
         == Raw(e.doc, items[i].id, name)
    decreases |items|, 0
  {
    var e' := HandleItem(items[0], e);
    HandleObjectsUnfold(items, e);
    HandleItemDocFacts(items[0], e);
    assert ItemsAllocated(items[1..], e'.doc);
    assert items[1..][i - 1] == items[i];
    ResolvedInstanceReadsAsIntrinsic(items[1..], e', i - 1, name);
    IntrinsicCountPrefix(items, i);
    assert e.doc.next + IntrinsicCount(items[..i]) == e'.doc.next + IntrinsicCount(items[1..][..i - 1]);
    assert items[i].id < e.doc.next;
    assert Raw(e'.doc, items[i].id, name) == Raw(e.doc, items[i].id, name);
  }

  /** An intrinsic at position `i` of the items contributes the instance
      created for it, which reads every property as the intrinsic does. */
  lemma {:induction false} IntrinsicContributesResolvedInstance(items: seq<FxObject>, e: ExpansionState, i: int, name: PropertyName)
    requires ValidDocument(e.doc) && ItemsAllocated(items, e.doc)
    requires 0 <= i < |items| && items[i].IsIntrinsic()
    ensures var r := HandleObjectSelectionGroup(items, e);
            var instance := FxObject(e.doc.next + IntrinsicCount(items[..i]), InstanceKind);
            && instance in r.candidates
            && Raw(r.doc, instance.id, name) == Raw(e.doc, items[i].id, name)
  {
    var r := HandleObjectSelectionGroup(items, e);
    IntrinsicCountBefore(items, i);
    var id: nat := e.doc.next + IntrinsicCount(items[..i]);
    assert FxObject(id, InstanceKind) in FreshInstances(e.doc.next, r.doc.next);
    ResolvedInstanceReadsAsIntrinsic(items, e, i, name);
  }

  /** No item occurs twice, as in the item set of an ObjectSelectionGroup. */
  predicate Distinct(items: seq<FxObject>) {
    forall i, j :: 0 <= i < j < |items| ==> items[i] != items[j]
  }

  /** The selected items that are intrinsics. */
  function IntrinsicItems(items: seq<FxObject>): set<FxObject> {
    set o | o in items && o.IsIntrinsic()
  }

  lemma {:induction false} DistinctTail(items: seq<FxObject>)
    requires Distinct(items) && |items| > 0
    ensures Distinct(items[1..]) && items[0] !in items[1..]
  {
    var rest := items[1..];
    forall i, j | 0 <= i < j < |rest| ensures rest[i] != rest[j] {
      assert rest[i] == items[i + 1] && rest[j] == items[j + 1];
    }
    forall j | 0 <= j < |rest| ensures rest[j] != items[0] {
      assert rest[j] == items[j + 1];
    }
  }

  lemma {:induction false} IntrinsicItemsCons(items: seq<FxObject>)
    requires |items| > 0
    ensures IntrinsicItems(items) == IntrinsicItems([items[0]]) + IntrinsicItems(items[1..])
    ensures IntrinsicItems([items[0]]) == if items[0].IsIntrinsic() then {items[0]} else {}
  {
    assert items == [items[0]] + items[1..];
  }

  /** Without repetitions, counting intrinsics counts the set of them. */
  lemma {:induction false} IntrinsicCountIsSetSize(items: seq<FxObject>)
    requires Distinct(items)
    ensures IntrinsicCount(items) == |IntrinsicItems(items)|
  {
    if |items| > 0 {
      DistinctTail(items);
      IntrinsicCountIsSetSize(items[1..]);
      IntrinsicItemsCons(items);
      assert items[0] !in IntrinsicItems(items[1..]);
    }
  }

  /** The item set of an ObjectSelectionGroup has no order to rely on; the
      candidate set it expands to is the same whatever order it is walked in
      (only which new identity goes to which intrinsic may differ). */
  lemma {:induction false} ObjectCandidatesOrderIndependent(a: seq<FxObject>, b: seq<FxObject>, doc: Document)
    requires ValidDocument(doc)
    requires Distinct(a) && Distinct(b)
    requires forall o :: o in a <==> o in b
    ensures HandleObjectSelectionGroup(a, ExpansionState({}, doc)).candidates
         == HandleObjectSelectionGroup(b, ExpansionState({}, doc)).candidates
    ensures HandleObjectSelectionGroup(a, ExpansionState({}, doc)).doc.next
         == HandleObjectSelectionGroup(b, ExpansionState({}, doc)).doc.next
  {
    IntrinsicCountIsSetSize(a);
    IntrinsicCountIsSetSize(b);
    assert IntrinsicItems(a) == IntrinsicItems(b);
    assert InstanceItems(a) == InstanceItems(b);
  }
}
