/** ModifySelectionJob: the batch that sets one property on everything the
    selection covers. */
module ModifySelection {
  import opened Results
  import opened Fxom
  import opened Selection
  import opened Expansion
  import opened ModifyObject
  import opened Batch

  /** The planned batch: its sub-jobs, and the document after intrinsic
      resolution. */
  datatype Plan = Plan(subJobs: seq<ModifyObjectJob>, doc: Document)

  /** The candidates the property can be set on that do not already hold
      the new value. */
  function ExecutableCandidates(candidates: set<FxObject>, doc: Document, property: PropertyMetadata, newValue: Value,
                                settable: Settability): set<FxObject> {
    set c | c in candidates && settable(c) && ValueOf(doc, c.id, property) != newValue
  }

  /** The objects a list of jobs modifies. */
  function Targets(jobs: seq<ModifyObjectJob>): set<FxObject> {
    set j | 0 <= j < |jobs| :: jobs[j].target
  }

  /** No two jobs modify the same object. */
  predicate DistinctTargets(jobs: seq<ModifyObjectJob>) {
    forall j, k :: 0 <= j < k < |jobs| ==> jobs[j].target != jobs[k].target
  }

  /** Every job is the one built for its target, and executable. */
  predicate BuiltAndExecutable(jobs: seq<ModifyObjectJob>, doc: Document, property: PropertyMetadata, newValue: Value,
                               settable: Settability) {
    forall j :: 0 <= j < |jobs| ==>
      jobs[j] == NewModifyObjectJob(doc, jobs[j].target, property, newValue, settable) && IsExecutable(jobs[j])
  }

  /** makeSubJobs, second half: one ModifyObjectJob per candidate, in the
      candidate set's iteration order, keeping the executable ones. */
  method FilterExecutable(candidates: set<FxObject>, doc: Document, property: PropertyMetadata, newValue: Value,
                          settable: Settability)
    returns (jobs: seq<ModifyObjectJob>)
    ensures BuiltAndExecutable(jobs, doc, property, newValue, settable)
    ensures Targets(jobs) == ExecutableCandidates(candidates, doc, property, newValue, settable)
    ensures DistinctTargets(jobs)
    ensures |jobs| == |ExecutableCandidates(candidates, doc, property, newValue, settable)|
    ensures (forall c :: c in candidates ==> !settable(c) || ValueOf(doc, c.id, property) == newValue) ==> jobs == []
  {
    jobs := [];
    var remaining := candidates;
    while remaining != {}
      invariant remaining <= candidates
      invariant BuiltAndExecutable(jobs, doc, property, newValue, settable)
      invariant Targets(jobs) == ExecutableCandidates(candidates - remaining, doc, property, newValue, settable)
      invariant DistinctTargets(jobs)
      invariant |jobs| == |Targets(jobs)|
      decreases remaining
    {
      assert (forall c :: c !in remaining) ==> remaining == {};
      var fxomInstance :| fxomInstance in remaining;
      var subJob := NewModifyObjectJob(doc, fxomInstance, property, newValue, settable);
      FilterStep(jobs, candidates - remaining, subJob, doc, settable);
      if IsExecutable(subJob) {
        jobs := jobs + [subJob];
      }
      assert candidates - (remaining - {fxomInstance}) == (candidates - remaining) + {fxomInstance};
      remaining := remaining - {fxomInstance};
    }
    if forall c :: c in candidates ==> !settable(c) || ValueOf(doc, c.id, property) == newValue {
      assert ExecutableCandidates(candidates, doc, property, newValue, settable) == {};
    }
  }

  /** ModifySelectionJob.makeSubJobs: expand the selection, then keep one
      executable ModifyObjectJob per candidate. */
  method MakeSubJobs(group: SelectionGroup, maskOf: MaskFactory, doc: Document, property: PropertyMetadata, newValue: Value,
                     settable: Settability)
    returns (r: Result<Plan, Failure>)
    requires ValidDocument(doc)
    ensures r.Failure? <==> ExpandSelection(group, maskOf, doc).Failure?
    ensures r.Success? ==>
              var e := ExpandSelection(group, maskOf, doc).value;
              && r.value.doc == e.doc
              && BuiltAndExecutable(r.value.subJobs, e.doc, property, newValue, settable)
              && Targets(r.value.subJobs) == ExecutableCandidates(e.candidates, e.doc, property, newValue, settable)
              && DistinctTargets(r.value.subJobs)
    ensures r.Success? ==> forall j :: 0 <= j < |r.value.subJobs| ==> r.value.subJobs[j].target.IsInstance()
    ensures group.NoGroup? ==> r == Success(Plan([], doc))
    ensures group.ObjectSelectionGroup? ==> r.Success? && |r.value.subJobs| <= |group.items|
    ensures group.GridSelectionGroup? && r.Success? ==> |r.value.subJobs| <= |group.indexes|
  {
    match ExpandSelection(group, maskOf, doc)
    case Failure(f) =>
      r := Failure(f);
    case Success(e) =>
      var subJobs := FilterExecutable(e.candidates, e.doc, property, newValue, settable);
      assert ExecutableCandidates(e.candidates, e.doc, property, newValue, settable) <= e.candidates;
      ExecutableCandidatesBound(e.candidates, e.doc, property, newValue, settable);
      forall j | 0 <= j < |subJobs| ensures subJobs[j].target.IsInstance() {
        assert subJobs[j].target in Targets(subJobs);
      }
      r := Success(Plan(subJobs, e.doc));
  }

  /** The label of a batch with no sub-jobs. */
  const UnexecutableLabel: string := "Unexecutable Set"

  /** ModifySelectionJob.makeDescription. `describe` is a sub-job's own
      description and `setOnN` the localized "set property on n objects"
      label; both are outside the job. */
  function MakeDescription(subJobs: seq<ModifyObjectJob>, property: PropertyMetadata,
                           describe: ModifyObjectJob -> string, setOnN: (string, nat) -> string): string
  {
    match |subJobs|
    case 0 => UnexecutableLabel
    case 1 => describe(subJobs[0])
    case _ => setOnN(property.name, |subJobs|)
  }

  // ---------------------------------------------------------------------
  // Lemmas

  lemma {:induction false} TargetsAppend(jobs: seq<ModifyObjectJob>, job: ModifyObjectJob)
    ensures Targets(jobs + [job]) == Targets(jobs) + {job.target}
  {
    assert forall j :: 0 <= j < |jobs| ==> (jobs + [job])[j] == jobs[j];
    assert (jobs + [job])[|jobs|] == job;
  }

  lemma {:induction false} ExecutableCandidatesBound(candidates: set<FxObject>, doc: Document, property: PropertyMetadata, newValue: Value,
                                                    settable: Settability)
    ensures |ExecutableCandidates(candidates, doc, property, newValue, settable)| <= |candidates|
  {
    var kept := ExecutableCandidates(candidates, doc, property, newValue, settable);
    assert candidates == kept + (candidates - kept);
    assert kept !! (candidates - kept);
  }

  /** One turn of the filtering loop: the job built for a candidate not yet
      visited is kept exactly when it is executable, and keeping it keeps
      the targets distinct. */
  lemma {:induction false} FilterStep(jobs: seq<ModifyObjectJob>, visited: set<FxObject>, subJob: ModifyObjectJob, doc: Document,
                                     settable: Settability)
    requires Targets(jobs) == ExecutableCandidates(visited, doc, subJob.property, subJob.newValue, settable)
    requires DistinctTargets(jobs) && |jobs| == |Targets(jobs)|
    requires subJob == NewModifyObjectJob(doc, subJob.target, subJob.property, subJob.newValue, settable)
    requires subJob.target !in visited
    ensures var visited' := visited + {subJob.target};
            var jobs' := if IsExecutable(subJob) then jobs + [subJob] else jobs;
            && Targets(jobs') == ExecutableCandidates(visited', doc, subJob.property, subJob.newValue, settable)
            && DistinctTargets(jobs') && |jobs'| == |Targets(jobs')|
  {
    var x := subJob.target;
    BuiltJobExecutable(doc, x, subJob.property, subJob.newValue, settable);
    assert x !in Targets(jobs);
    TargetsAppend(jobs, subJob);
    var visited' := visited + {x};
    if IsExecutable(subJob) {
      assert ExecutableCandidates(visited', doc, subJob.property, subJob.newValue, settable)
          == ExecutableCandidates(visited, doc, subJob.property, subJob.newValue, settable) + {x};
      forall j | 0 <= j < |jobs| ensures jobs[j].target != x {
        assert jobs[j].target in Targets(jobs);
      }
    } else {
      assert ExecutableCandidates(visited', doc, subJob.property, subJob.newValue, settable)
          == ExecutableCandidates(visited, doc, subJob.property, subJob.newValue, settable);
    }
  }

  /** The description of a batch depends only on how many sub-jobs it has,
      and on the sub-job itself when there is exactly one. */
  lemma DescriptionDependsOnlyOnCount(a: seq<ModifyObjectJob>, b: seq<ModifyObjectJob>, property: PropertyMetadata,
                                      describe: ModifyObjectJob -> string, setOnN: (string, nat) -> string)
    requires |a| == |b|
    requires |a| == 1 ==> describe(a[0]) == describe(b[0])
    ensures MakeDescription(a, property, describe, setOnN) == MakeDescription(b, property, describe, setOnN)
  {
  }

  /** The three tiers of the description. */
  lemma DescriptionTiers(subJobs: seq<ModifyObjectJob>, property: PropertyMetadata,
                         describe: ModifyObjectJob -> string, setOnN: (string, nat) -> string)
    ensures |subJobs| == 0 ==> MakeDescription(subJobs, property, describe, setOnN) == "Unexecutable Set"
    ensures |subJobs| == 1 ==> MakeDescription(subJobs, property, describe, setOnN) == describe(subJobs[0])
    ensures |subJobs| >= 2 ==> MakeDescription(subJobs, property, describe, setOnN) == setOnN(property.name, |subJobs|)
  {
  }

  /** The sub-jobs of a plan form a batch that undo restores exactly, and
      executing it gives every target the new value. */
  lemma {:induction false} SubJobsUndoable(subJobs: seq<ModifyObjectJob>, doc: Document, property: PropertyMetadata, newValue: Value,
                                          settable: Settability)
    requires BuiltAndExecutable(subJobs, doc, property, newValue, settable) && DistinctTargets(subJobs)
    requires forall j :: 0 <= j < |subJobs| ==> subJobs[j].target.IsInstance()
    ensures Undo(Apply(doc, subJobs), subJobs) == doc
    ensures forall j :: 0 <= j < |subJobs| ==> ValueOf(Apply(doc, subJobs), subJobs[j].target.id, property) == newValue
  {
    assert CapturedFrom(subJobs, doc);
    assert DistinctWrites(subJobs) by {
      forall j, k | 0 <= j < k < |subJobs|
        ensures (subJobs[j].target.id, subJobs[j].property.name) != (subJobs[k].target.id, subJobs[k].property.name)
      {
        assert subJobs[j].target != subJobs[k].target;
      }
    }
    UndoAfterApply(doc, subJobs);
    forall j | 0 <= j < |subJobs|
      ensures ValueOf(Apply(doc, subJobs), subJobs[j].target.id, property) == newValue
    {
      ApplyWrites(doc, subJobs, subJobs[j].target.id, property.name);
    }
  }

  // ---------------------------------------------------------------------
  // Worked selections

  /** The mask of a grid with three column constraints and no row constraints. */
  function ThreeColumns(c0: FxObject, c1: FxObject, c2: FxObject): HierarchyMask {
    HierarchyMask(
      (i: int) => if i == 0 then Some(c0) else if i == 1 then Some(c1) else if i == 2 then Some(c2) else None,
      (i: int) => None)
  }

  /** Column indexes 0 and 2 of a three-column grid select the first and
      third column constraints, and nothing else. */
  lemma GridColumnsExample(doc: Document, grid: FxObject, c0: FxObject, c1: FxObject, c2: FxObject)
    requires ValidDocument(doc)
    requires c0.IsInstance() && c1.IsInstance() && c2.IsInstance()
    ensures ExpandSelection(GridSelectionGroup(grid, Column, {0, 2}), (o: FxObject) => ThreeColumns(c0, c1, c2), doc)
         == Success(ExpansionState({c0, c2}, doc))
  {
    var mask := ThreeColumns(c0, c1, c2);
    assert ConstraintsAt(mask, Column, 0) == Some(c0);
    assert ConstraintsAt(mask, Column, 2) == Some(c2);
    assert GridCandidates(mask, Column, {0, 2}) == {c0, c2};
  }

  /** Selecting one intrinsic yields one candidate: the instance created for
      it, never the intrinsic. */
  lemma IntrinsicExample(doc: Document)
    requires ValidDocument(doc)
    ensures var intrinsic := FxObject(0, IntrinsicKind);
            var r := ExpandSelection(ObjectSelectionGroup([intrinsic]), (o: FxObject) => HierarchyMask((i: int) => None, (i: int) => None), doc);
            r.Success? && r.value.candidates == {FxObject(doc.next, InstanceKind)} && r.value.doc.next == doc.next + 1
  {
  }
}
