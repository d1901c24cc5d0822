/** The batch a ModifySelectionJob is: its sub-jobs executed in order and
    undone in reverse order. */
module Batch {
  import opened Results
  import opened Fxom
  import opened ModifyObject

  /** BatchDocumentJob.execute (and redo): every sub-job, first to last. */
  function Apply(doc: Document, jobs: seq<ModifyObjectJob>): (r: Document)
    ensures r.next == doc.next
    ensures forall id: ObjectId, n :: !Writes(jobs, id, n) ==> Raw(r, id, n) == Raw(doc, id, n)
    decreases |jobs|
  {
    if |jobs| == 0 then doc
    else
      WritesTail(jobs);
      Apply(ApplyJob(doc, jobs[0]), jobs[1..])
  }

  /** BatchDocumentJob.undo: every sub-job undone, last to first. */
  function Undo(doc: Document, jobs: seq<ModifyObjectJob>): (r: Document)
    ensures r.next == doc.next
    ensures forall id: ObjectId, n :: !Writes(jobs, id, n) ==> Raw(r, id, n) == Raw(doc, id, n)
    ensures forall j :: 0 <= j < |jobs| && FirstWrite(jobs, j) ==>
              Raw(r, jobs[j].target.id, jobs[j].property.name) == jobs[j].previous
    decreases |jobs|
  {
    if |jobs| == 0 then doc
    else
      WritesTail(jobs);
      FirstWriteTail(jobs);
      UndoJob(Undo(doc, jobs[1..]), jobs[0])
  }

  /** No two sub-jobs write the same property of the same object. */
  predicate DistinctWrites(jobs: seq<ModifyObjectJob>) {
    forall j, k :: 0 <= j < k < |jobs| ==>
      (jobs[j].target.id, jobs[j].property.name) != (jobs[k].target.id, jobs[k].property.name)
  }

  /** Every sub-job recorded the value its property had in `doc`. */
  predicate CapturedFrom(jobs: seq<ModifyObjectJob>, doc: Document) {
    forall j :: 0 <= j < |jobs| ==> jobs[j].previous == Raw(doc, jobs[j].target.id, jobs[j].property.name)
  }

  /** Whether `(id, name)` is written by one of the jobs. */
  predicate Writes(jobs: seq<ModifyObjectJob>, id: ObjectId, name: PropertyName) {
    exists j :: 0 <= j < |jobs| && jobs[j].target.id == id && jobs[j].property.name == name
  }

  /** Sub-job `j` is the first to write its property of its object: undo,
      running last to first, restores that property last. */
  predicate FirstWrite(jobs: seq<ModifyObjectJob>, j: int)
    requires 0 <= j < |jobs|
  {
    forall k :: 0 <= k < j ==> (jobs[k].target.id, jobs[k].property.name) != (jobs[j].target.id, jobs[j].property.name)
  }

  // ---------------------------------------------------------------------
  // Lemmas

  /** A write by a later sub-job is a write by the batch. */
  lemma {:induction false} WritesTail(jobs: seq<ModifyObjectJob>)
    requires |jobs| > 0
    ensures forall id: ObjectId, n :: !Writes(jobs, id, n) ==>
              !Writes(jobs[1..], id, n) && (jobs[0].target.id, jobs[0].property.name) != (id, n)
  {
    forall id: ObjectId, n | Writes(jobs[1..], id, n) ensures Writes(jobs, id, n) {
      var k :| 0 <= k < |jobs[1..]| && jobs[1..][k].target.id == id && jobs[1..][k].property.name == n;
      assert jobs[k + 1] == jobs[1..][k];
    }
    forall id: ObjectId, n | (jobs[0].target.id, jobs[0].property.name) == (id, n) ensures Writes(jobs, id, n) {
      assert jobs[0].target.id == id && jobs[0].property.name == n;
    }
  }

  /** The first writer in the tail, other than the head's own property, is a
      first writer in the whole batch. */
  lemma {:induction false} FirstWriteTail(jobs: seq<ModifyObjectJob>)
    requires |jobs| > 0
    ensures forall j :: 0 < j < |jobs| && FirstWrite(jobs, j) ==> FirstWrite(jobs[1..], j - 1)
    ensures forall j :: 0 < j < |jobs| && FirstWrite(jobs, j) ==>
              (jobs[0].target.id, jobs[0].property.name) != (jobs[j].target.id, jobs[j].property.name)
  {
    forall j | 0 < j < |jobs| && FirstWrite(jobs, j) ensures FirstWrite(jobs[1..], j - 1) {
      forall k | 0 <= k < j - 1
        ensures (jobs[1..][k].target.id, jobs[1..][k].property.name) != (jobs[1..][j - 1].target.id, jobs[1..][j - 1].property.name)
      {
        assert jobs[1..][k] == jobs[k + 1] && jobs[1..][j - 1] == jobs[j];
      }
    }
  }

  /** A property some sub-job writes has a first writer. */
  lemma {:induction false} FirstWriter(jobs: seq<ModifyObjectJob>, id: ObjectId, n: PropertyName) returns (j: int)
    requires Writes(jobs, id, n)
    ensures 0 <= j < |jobs| && (jobs[j].target.id, jobs[j].property.name) == (id, n) && FirstWrite(jobs, j)
    decreases |jobs|
  {
    if (jobs[0].target.id, jobs[0].property.name) == (id, n) {
      j := 0;
    } else {
      var k :| 0 <= k < |jobs| && jobs[k].target.id == id && jobs[k].property.name == n;
      assert jobs[1..][k - 1] == jobs[k];
      var j' := FirstWriter(jobs[1..], id, n);
      j := j' + 1;
      forall i | 0 <= i < j
        ensures (jobs[i].target.id, jobs[i].property.name) != (jobs[j].target.id, jobs[j].property.name)
      {
        if i > 0 {
          assert jobs[i] == jobs[1..][i - 1];
        }
      }
    }
  }

  /** Two documents that agree on every property and on the allocator are
      the same document. */
  lemma {:induction false} DocumentExtensionality(a: Document, b: Document)
    requires a.next == b.next
    requires forall id: ObjectId, n :: Raw(a, id, n) == Raw(b, id, n)
    ensures a == b
  {
    forall k | k in a.attributes ensures k in b.attributes && b.attributes[k] == a.attributes[k] {
      assert Raw(a, k.0, k.1) == Raw(b, k.0, k.1);
    }
    forall k | k in b.attributes ensures k in a.attributes {
      assert Raw(a, k.0, k.1) == Raw(b, k.0, k.1);
    }
    assert a.attributes == b.attributes;
  }

  /** Undoing the batch right after applying it restores the document,
      whatever the number of sub-jobs, even when several of them write the
      same property: the first of those recorded the original value, and
      undo restores it last. */
  lemma {:induction false} UndoAfterApply(doc: Document, jobs: seq<ModifyObjectJob>)
    requires CapturedFrom(jobs, doc)
    ensures Undo(Apply(doc, jobs), jobs) == doc
  {
    var r := Undo(Apply(doc, jobs), jobs);
    forall id: ObjectId, n ensures Raw(r, id, n) == Raw(doc, id, n) {
      if Writes(jobs, id, n) {
        var j := FirstWriter(jobs, id, n);
      }
    }
    DocumentExtensionality(r, doc);
  }

  /** Redo after undo gives the same document as the first execution. */
  lemma {:induction false} RedoAfterUndo(doc: Document, jobs: seq<ModifyObjectJob>)
    requires CapturedFrom(jobs, doc)
    ensures Apply(Undo(Apply(doc, jobs), jobs), jobs) == Apply(doc, jobs)
  {
    UndoAfterApply(doc, jobs);
  }

  /** Applying the batch sets every written property to its sub-job's new
      value and leaves every other property as it was. */
  lemma {:induction false} ApplyWrites(doc: Document, jobs: seq<ModifyObjectJob>, id: ObjectId, name: PropertyName)
    requires DistinctWrites(jobs)
    ensures forall j :: 0 <= j < |jobs| && jobs[j].target.id == id && jobs[j].property.name == name ==>
              Raw(Apply(doc, jobs), id, name) == Some(jobs[j].newValue)
    ensures !Writes(jobs, id, name) ==> Raw(Apply(doc, jobs), id, name) == Raw(doc, id, name)
    decreases |jobs|
  {
    if |jobs| > 0 {
      var rest := jobs[1..];
      var d1 := ApplyJob(doc, jobs[0]);
      assert DistinctWrites(rest) by {
        forall j, k | 0 <= j < k < |rest|
          ensures (rest[j].target.id, rest[j].property.name) != (rest[k].target.id, rest[k].property.name)
        {
          assert rest[j] == jobs[j + 1] && rest[k] == jobs[k + 1];
        }
      }
      ApplyWrites(d1, rest, id, name);
      if Writes(rest, id, name) {
        var k :| 0 <= k < |rest| && rest[k].target.id == id && rest[k].property.name == name;
        assert jobs[k + 1] == rest[k];
        forall j | 0 <= j < |jobs| && jobs[j].target.id == id && jobs[j].property.name == name
          ensures j == k + 1
        {
        }
      } else {
        forall j | 0 < j < |jobs| ensures !(jobs[j].target.id == id && jobs[j].property.name == name) {
          assert jobs[j] == rest[j - 1];
        }
      }
    }
  }
}
