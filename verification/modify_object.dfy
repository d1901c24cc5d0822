/** The atomic job the selection job builds once per candidate: set one
    property of one FXOMInstance to a new value. */
module ModifyObject {
  import opened Results
  import opened Fxom

  /** ModifyObjectJob: the target, the property, the new value, the value
      explicitly set before the change (kept for undo), and whether the
      property can be set on the target at all. */
  datatype ModifyObjectJob = ModifyObjectJob(
    target: FxObject,
    property: PropertyMetadata,
    newValue: Value,
    previous: Option<Value>,
    settable: bool)

  /** ModifyObjectJob.execute: the property now holds the new value. */
  function ApplyJob(doc: Document, job: ModifyObjectJob): Document {
    Store(doc, job.target.id, job.property.name, Some(job.newValue))
  }

  /** ModifyObjectJob.undo: the property is back to what was set before. */
  function UndoJob(doc: Document, job: ModifyObjectJob): Document {
    Store(doc, job.target.id, job.property.name, job.previous)
  }

  /** Whether the property can be set on a node, which depends on the
      node's type. */
  type Settability = FxObject -> bool

  /** `new ModifyObjectJob(fxomInstance, propertyMetadata, newValue, ...)`:
      the previous value is read from the document when the job is built,
      so undoing the job right after executing it restores the document. */
  function NewModifyObjectJob(doc: Document, target: FxObject, property: PropertyMetadata, newValue: Value,
                              settable: Settability): (job: ModifyObjectJob)
    ensures job.target == target && job.property == property && job.newValue == newValue
    ensures job.settable == settable(target)
    ensures ReadValue(job.previous, property) == ValueOf(doc, target.id, property)
    ensures ValueOf(ApplyJob(doc, job), target.id, property) == newValue
    ensures UndoJob(ApplyJob(doc, job), job) == doc
  {
    StoreRestore(doc, target.id, property.name, newValue);
    ModifyObjectJob(target, property, newValue, Raw(doc, target.id, property.name), settable(target))
  }

  /** ModifyObjectJob.isExecutable, as this model takes it: the property can
      be set on the target, and the new value differs from the value the
      property read as when the job was built. */
  predicate IsExecutable(job: ModifyObjectJob) {
    job.settable && ReadValue(job.previous, job.property) != job.newValue
  }

  /** A freshly built job is executable exactly when the property can be set
      on its target and the target does not already hold the new value, that
      is, exactly when executing it would be allowed and would change what
      the property reads as. */
  lemma {:induction false} BuiltJobExecutable(doc: Document, target: FxObject, property: PropertyMetadata, newValue: Value,
                                             settable: Settability)
    ensures var job := NewModifyObjectJob(doc, target, property, newValue, settable);
            && (IsExecutable(job) <==> settable(target) && ValueOf(doc, target.id, property) != newValue)
            && (IsExecutable(job) <==> settable(target) && ValueOf(ApplyJob(doc, job), target.id, property) != ValueOf(doc, target.id, property))
  {
  }

  /** Writing a value and then restoring what was there gives back the
      document unchanged. */
  lemma {:induction false} StoreRestore(doc: Document, id: ObjectId, name: PropertyName, v: Value)
    ensures Store(Store(doc, id, name, Some(v)), id, name, Raw(doc, id, name)) == doc
  {
    var d1 := Store(doc, id, name, Some(v));
    var d2 := Store(d1, id, name, Raw(doc, id, name));
    if (id, name) in doc.attributes {
      assert d2.attributes == doc.attributes;
    } else {
      assert d2.attributes == doc.attributes;
    }
  }
}
