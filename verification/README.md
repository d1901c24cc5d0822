# ModifySelectionJob, modelled in Dafny

Scene Builder sets one property on everything that is selected with a
`ModifySelectionJob`. The job is a batch document job, and it plans the batch
in three steps:

1. **Expand** the selection into a set of `FXOMInstance`s, the candidates.
   - An object selection contributes each selected instance as it is.
   - Each selected intrinsic is resolved to a newly created instance, and that
     instance is added in the intrinsic's place.
   - Any other selected object contributes nothing.
   - A grid selection contributes, for each selected row or column index, the
     row or column constraints object that the container's
     `DesignHierarchyMask` holds at that index.
   - No selection contributes nothing.
2. **Filter**: build one `ModifyObjectJob` per candidate and keep the
   executable ones. In this model a job is executable when the property can
   be set on its target and the new value differs from the value the
   property read as when the job was built.
3. **Describe** the batch:
   - no sub-job gives `"Unexecutable Set"`;
   - one sub-job gives that sub-job's own description;
   - more sub-jobs give a localized label built from the property name and the
     count.

The model is functional. The document is a map from (object identity,
property name) to value, plus an allocator: the next unused identity.
Resolving an intrinsic takes the next identity. The selection is a datatype
with one case per group kind. Candidates are a `set` of objects, so the model
promises no order for them. What the job calls but does not define is either
a parameter or a fixed stand-in. The parameters are:

- the hierarchy mask, a pair of total functions from index to optional
  object;
- a sub-job's own description, a function;
- the localized label, a function of (property name, count);
- whether the property can be set on a node, a function of the node.

The fixed stand-ins are described under "## Left out":

- a sub-job's executability (`ModifyObject.IsExecutable`);
- intrinsic resolution (`Fxom.ResolveIntrinsic`);
- executing and undoing the batch (`Batch.Apply`, `Batch.Undo`).

The filtering results hold for that executability in particular.

The job's `assert` statements are modelled as enabled: a failed assertion is a
`Failure` result.

Files and modules:

- `results.dfy` (`Results`): `Option` and `Result`.
- `fxom.dfy` (`Fxom`): objects, property values, the document, and intrinsic
  resolution.
- `selection.dfy` (`Selection`): selection groups, the hierarchy mask, and
  failures.
- `expansion.dfy` (`Expansion`): step 1 and its properties.
- `modify_object.dfy` (`ModifyObject`): the atomic job: building it,
  executing it, undoing it, and its executability.
- `modify_selection.dfy` (`ModifySelection`): steps 2 and 3, the whole of
  `makeSubJobs`, and worked examples.
- `batch.dfy` (`Batch`): executing the batch in order and undoing it in
  reverse.

Two consequences of the code that the model makes explicit:

- Candidates live in a `HashSet` (`ModifySelectionJob.java:71`), so the order
  of the sub-jobs is unspecified.
- The code asserts only that each grid lookup is an `FXOMInstance` (line 132).
  Two selected indexes that share one constraints object therefore give one
  candidate. `GridCandidatesExact` gives one candidate per index when the mask
  gives distinct indexes distinct objects.

## Model

| member | source | states |
|---|---|---|
| Fxom.ResolveIntrinsic | kit/src/main/java/com/oracle/javafx/scenebuilder/kit/editor/job/ModifySelectionJob.java:107-112 | resolving an intrinsic yields an instance whose identity was never used before. The allocator advances by one. Existing property values are untouched. The new instance reads every property as the intrinsic does |
| Expansion.HandleFxomInstance | kit/src/main/java/com/oracle/javafx/scenebuilder/kit/editor/job/ModifySelectionJob.java:100-105 | handling an item never drops a candidate and adds at most that item. The item is a candidate afterwards exactly when it is an instance or was one already |
| Expansion.HandleFxomIntrinsic | kit/src/main/java/com/oracle/javafx/scenebuilder/kit/editor/job/ModifySelectionJob.java:107-113 | an intrinsic adds exactly one candidate: a new instance with the next unused identity, which reads every property as the intrinsic does. Any other item adds nothing and allocates nothing. Values of existing objects are unchanged |
| Expansion.HandleObjectSelectionGroup | kit/src/main/java/com/oracle/javafx/scenebuilder/kit/editor/job/ModifySelectionJob.java:91-113 | walking the items adds exactly the selected instances plus one new instance per selected intrinsic. The allocator advances by the number of intrinsics. Values of existing objects are unchanged |
| Expansion.HandleGridSelectionGroup | kit/src/main/java/com/oracle/javafx/scenebuilder/kit/editor/job/ModifySelectionJob.java:116-135 | a grid selection fails exactly when some selected index has no instance in the mask. Otherwise every candidate is an instance, and there are at most as many candidates as indexes |
| Expansion.ExpandSelection | kit/src/main/java/com/oracle/javafx/scenebuilder/kit/editor/job/ModifySelectionJob.java:71-79 | expansion dispatches on the group kind. No group gives no candidates and leaves the document unchanged. An unhandled group kind fails, and so does a grid miss. Every candidate is an instance. The candidate count is bounded by the item count or by the index count |
| Expansion.ObjectSelectionCandidates | kit/src/main/java/com/oracle/javafx/scenebuilder/kit/editor/job/ModifySelectionJob.java:93-112 | an object selection always succeeds. Its candidates are the selected instances together with the new instances. A selected intrinsic or other non-instance is never a candidate |
| Expansion.IntrinsicContributesResolvedInstance | kit/src/main/java/com/oracle/javafx/scenebuilder/kit/editor/job/ModifySelectionJob.java:107-112 | the intrinsic at position i contributes the instance created for it, and that instance is a candidate. It is the (number of earlier intrinsics)-th new identity, and it reads each property as that intrinsic does |
| Expansion.ObjectCandidatesCount | kit/src/main/java/com/oracle/javafx/scenebuilder/kit/editor/job/ModifySelectionJob.java:93-112 | the candidate count is the number of distinct selected instances plus the number of selected intrinsics |
| Expansion.ObjectCandidatesBound | kit/src/main/java/com/oracle/javafx/scenebuilder/kit/editor/job/ModifySelectionJob.java:93-112 | an object selection never yields more candidates than it has items |
| Expansion.ObjectCandidatesOrderIndependent | kit/src/main/java/com/oracle/javafx/scenebuilder/kit/editor/job/ModifySelectionJob.java:93-96 | walking the item set in any order gives the same candidate set and allocates the same number of identities |
| Expansion.GridCandidatesAreMaskLookups | kit/src/main/java/com/oracle/javafx/scenebuilder/kit/editor/job/ModifySelectionJob.java:119-133 | a successful grid expansion contains the column constraints at every selected index for a column selection, and the row constraints for a row selection. It contains nothing else |
| Expansion.GridCandidatesBound | kit/src/main/java/com/oracle/javafx/scenebuilder/kit/editor/job/ModifySelectionJob.java:119-134 | the constraints objects at the selected indexes are at most as many as the indexes |
| Expansion.GridCandidatesExact | kit/src/main/java/com/oracle/javafx/scenebuilder/kit/editor/job/ModifySelectionJob.java:119-134 | when distinct indexes hold distinct constraints objects, there is exactly one candidate per selected index |
| ModifyObject.NewModifyObjectJob | kit/src/main/java/com/oracle/javafx/scenebuilder/kit/editor/job/ModifySelectionJob.java:82-83 | a sub-job targets the candidate, carries the property and the new value, and records what the property read as beforehand. Executing it makes the target read as the new value, and undoing it right after restores the document exactly |
| ModifyObject.BuiltJobExecutable | kit/src/main/java/com/oracle/javafx/scenebuilder/kit/editor/job/ModifySelectionJob.java:82-84 | a freshly built sub-job is executable exactly when the property can be set on its target and the target does not already hold the new value. Equivalently: setting is allowed and executing would change what the property reads as |
| ModifySelection.FilterExecutable | kit/src/main/java/com/oracle/javafx/scenebuilder/kit/editor/job/ModifySelectionJob.java:80-87 | every sub-job is executable and is the job built for its candidate. The set of targets equals the set of candidates that the property can be set on and whose value differs from the new value. No candidate gets two sub-jobs. When every candidate already holds the value, or cannot take it, there are no sub-jobs |
| ModifySelection.MakeSubJobs | kit/src/main/java/com/oracle/javafx/scenebuilder/kit/editor/job/ModifySelectionJob.java:68-89 | the plan fails exactly when expansion fails. Otherwise its sub-jobs are the expansion's candidates filtered by executability, one per target. Every target is an instance. No group gives no sub-jobs. There are at most as many sub-jobs as selected items, or as selected indexes |
| ModifySelection.DescriptionTiers | kit/src/main/java/com/oracle/javafx/scenebuilder/kit/editor/job/ModifySelectionJob.java:143-155 | 0 sub-jobs give "Unexecutable Set". 1 sub-job gives that sub-job's description. 2 or more give the label for (property name, count) |
| ModifySelection.DescriptionDependsOnlyOnCount | kit/src/main/java/com/oracle/javafx/scenebuilder/kit/editor/job/ModifySelectionJob.java:138-158 | two batches with the same number of sub-jobs get the same description. When there is exactly one sub-job, the two sub-jobs must also describe themselves alike |
| ModifySelection.SubJobsUndoable | kit/src/main/java/com/oracle/javafx/scenebuilder/kit/editor/job/ModifySelectionJob.java:56 | executing the planned sub-jobs gives every target the new value, and undoing them restores the document exactly |
| ModifySelection.GridColumnsExample | kit/src/main/java/com/oracle/javafx/scenebuilder/kit/editor/job/ModifySelectionJob.java:116-134 | columns 0 and 2 of a three-column grid expand to exactly the first and third column constraints |
| ModifySelection.IntrinsicExample | kit/src/main/java/com/oracle/javafx/scenebuilder/kit/editor/job/ModifySelectionJob.java:107-112 | selecting a single intrinsic expands to the single instance created for it |
| Batch.Apply | kit/src/main/java/com/oracle/javafx/scenebuilder/kit/editor/job/ModifySelectionJob.java:56 | executing the batch touches only the properties its sub-jobs write, and allocates nothing |
| Batch.Undo | kit/src/main/java/com/oracle/javafx/scenebuilder/kit/editor/job/ModifySelectionJob.java:56 | undoing the batch touches only the properties its sub-jobs write. Each property gets back the value recorded by the first sub-job that writes it |
| Batch.UndoAfterApply | kit/src/main/java/com/oracle/javafx/scenebuilder/kit/editor/job/ModifySelectionJob.java:56 | executing the batch in order, then undoing it in reverse, restores the document, for any number of sub-jobs. Each sub-job must have recorded the value its property had before the batch. Several sub-jobs may write the same property |
| Batch.RedoAfterUndo | kit/src/main/java/com/oracle/javafx/scenebuilder/kit/editor/job/ModifySelectionJob.java:56 | execute, undo, redo gives the same document as one execution |
| Batch.ApplyWrites | kit/src/main/java/com/oracle/javafx/scenebuilder/kit/editor/job/ModifySelectionJob.java:56 | executing the batch leaves each written property holding its sub-job's new value, and every other property as it was |

## Left out

- `BatchDocumentJob` is not part of this model. `Batch` models execute, undo and redo as the sub-jobs applied first to last and undone last to first. Nothing in `ModifySelectionJob.java` beyond its superclass fixes that behaviour.
- `ModifyObjectJob.java` is not part of this model; its internals are abstracted. The `ModifyObject` module models the job as one property write that records the value it overwrites. Its executability is taken to be "the property can be set on the target, and the value captured when the job was built differs from the new value". Settability is a parameter, a function of the node; how the real job decides it from the node's type is not modelled. Its own description is a parameter.
- `DesignHierarchyMask` is not part of this model. It is a parameter: per container, a total function from index to an optional object.
- `FXOMIntrinsic.createFxomInstanceFromIntrinsic` is not part of this model. The new instance gets the next unused identity and a copy of the intrinsic's property values.
- The localized multi-target label (`I18N.getString("label.action.edit.set.n", …)`) is a parameter of (property name, count). Its text is not modelled.
- `EditorController.getSelection()` is replaced by the selection group passed in.
- Java's `HashSet` iteration order and hashing: candidates are a set, and the sub-jobs come in whatever order the loop picks them.
- Assertions disabled at run time: the model treats each `assert` as enabled. With assertions off, an unhandled group kind would silently give no candidates. A grid miss would add `null` or throw `ClassCastException`.
- `ModifySelection.DescriptionTiers`: states the three-tier rule only. It does not state that the multi-target label names the property and the count, because that text comes from a resource bundle.
