/** The document object model (FXOM) as the selection job sees it: objects
    with an identity and a kind, the property values set on them, and the
    allocator that gives every newly created instance a fresh identity. */
module Fxom {
  import opened Results

  type ObjectId = nat

  /** The shapes of FXOMObject the job tells apart. */
  datatype Kind =
    | InstanceKind   // FXOMInstance: a concrete object whose properties can be set
    | IntrinsicKind  // FXOMIntrinsic: a placeholder (an include or a reference)
    | OtherKind      // any other FXOMObject, a collection for instance

  /** An FXOMObject, compared by identity (Java's default `equals`/`hashCode`). */
  datatype FxObject = FxObject(id: ObjectId, kind: Kind) {
    predicate IsInstance() { kind == InstanceKind }
    predicate IsIntrinsic() { kind == IntrinsicKind }
  }

  type PropertyName = string

  /** Property values; `Null` is Java's `null`. */
  datatype Value = Null | Text(text: string) | Number(number: int) | Flag(flag: bool)

  /** ValuePropertyMetadata: the property's name and the value it reads as
      on an object where it has not been set. */
  datatype PropertyMetadata = PropertyMetadata(name: PropertyName, defaultValue: Value)

  /** The explicitly set property values of every object, and the smallest
      identity not yet handed out. */
  datatype Document = Document(attributes: map<(ObjectId, PropertyName), Value>, next: ObjectId)

  /** Every object that carries a property value has an allocated identity. */
  predicate ValidDocument(doc: Document) {
    forall k :: k in doc.attributes ==> k.0 < doc.next
  }

  /** The value explicitly set for `name` on object `id`, if any. */
  function Raw(doc: Document, id: ObjectId, name: PropertyName): Option<Value> {
    if (id, name) in doc.attributes then Some(doc.attributes[(id, name)]) else None
  }

  /** What a property reads as, given what is explicitly set. */
  function ReadValue(raw: Option<Value>, property: PropertyMetadata): Value {
    match raw
    case Some(v) => v
    case None => property.defaultValue
  }

  /** The current value of `property` on object `id`. */
  function ValueOf(doc: Document, id: ObjectId, property: PropertyMetadata): Value {
    ReadValue(Raw(doc, id, property.name), property)
  }

  /** Sets (`Some`) or clears (`None`) one property of one object. */
  function Store(doc: Document, id: ObjectId, name: PropertyName, raw: Option<Value>): (r: Document)
    ensures Raw(r, id, name) == raw
    ensures forall i: ObjectId, n :: (i, n) != (id, name) ==> Raw(r, i, n) == Raw(doc, i, n)
    ensures r.next == doc.next
  {
    match raw
    case Some(v) => doc.(attributes := doc.attributes[(id, name) := v])
    case None => doc.(attributes := doc.attributes - {(id, name)})
  }

  /** FXOMIntrinsic.createFxomInstanceFromIntrinsic: a new FXOMInstance with
      a fresh identity that stands for the same entity as the intrinsic, so
      it reads every property as the intrinsic does. */
  function ResolveIntrinsic(doc: Document, intrinsic: FxObject): (r: (FxObject, Document))
    requires ValidDocument(doc)
    ensures r.0.IsInstance()
    ensures r.0.id == doc.next
    ensures ValidDocument(r.1) && r.1.next == doc.next + 1
    ensures forall id: ObjectId, n :: id != r.0.id ==> Raw(r.1, id, n) == Raw(doc, id, n)
    ensures intrinsic.id < doc.next ==>
              forall n :: Raw(r.1, r.0.id, n) == Raw(doc, intrinsic.id, n)
  {
    var newId := doc.next;
    var copied := map k | k in doc.attributes && k.0 == intrinsic.id :: (newId, k.1) := doc.attributes[k];
    var doc' := Document(doc.attributes + copied, newId + 1);
    assert forall n :: (intrinsic.id, n) in doc.attributes ==> (newId, n) in copied;
    (FxObject(newId, InstanceKind), doc')
  }
}
