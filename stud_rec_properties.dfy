/** What the four operations of the record store promise, proved about the
    value-level transitions `AddStep`, `DeleteStep` and `UpdateStep` that the
    methods of `RecordStore` are verified against. */
module StudRecProperties {
  import JavaString
  import opened StudRecManagement

  /** The name check stated without `trim()`: null, or made only of
      characters at most U+0020. */
  ghost predicate BlankByCharacters(name: JString) {
    name.None? || JavaString.AllTrimmable(name.value)
  }

  /** Some record in `rs` has the id. */
  ghost predicate HasId(rs: seq<Record>, id: string) {
    exists j :: 0 <= j < |rs| && rs[j].id == id
  }

  // ---------------------------------------------------------------------
  // find
  // ---------------------------------------------------------------------

  /** A record carrying the id, with no earlier record carrying it, is what
      `find` returns. */
  lemma LookupIsFirst(rs: seq<Record>, id: string, k: nat)
    requires k < |rs| && rs[k].id == id && id !in Keys(rs[..k])
    ensures Lookup(rs, id) == Some(rs[k])
  {
    assert Lookup(rs, id).Some?;
    var k' :| 0 <= k' < |rs| && rs[k'] == Lookup(rs, id).value && rs[k'].id == id && id !in Keys(rs[..k']);
    forall j | 0 <= j < k ensures rs[j].id != id {
      assert Keys(rs[..k])[j] == rs[j].id;
    }
    forall j | 0 <= j < k' ensures rs[j].id != id {
      assert Keys(rs[..k'])[j] == rs[j].id;
    }
  }

  /** With unique ids, `find` of a stored record's id returns that record. */
  lemma LookupUnique(rs: seq<Record>, k: nat)
    requires IdsUnique(rs) && k < |rs|
    ensures Lookup(rs, rs[k].id) == Some(rs[k])
  {
    forall j | 0 <= j < k ensures Keys(rs[..k])[j] != rs[k].id {
      assert Keys(rs[..k])[j] == rs[j].id;
    }
    LookupIsFirst(rs, rs[k].id, k);
  }

  /** With unique ids, `find` returns a record exactly when one carries the
      id, and then that record. */
  lemma LookupUniqueIff(rs: seq<Record>, id: string, r: Record)
    requires IdsUnique(rs)
    ensures Lookup(rs, id) == Some(r) <==> r in rs && r.id == id
  {
    if r in rs && r.id == id {
      var k :| 0 <= k < |rs| && rs[k] == r;
      LookupUnique(rs, k);
    }
  }

  /** The executable `find` on the objects agrees with `Lookup` on the
      list's value: absent together, and otherwise the student found shows
      the record `Lookup` gives. */
  lemma FindIsLookup(s: RecordStore, id: string)
    ensures s.Find(id).None? <==> Lookup(s.Contents(), id).None?
    ensures s.Find(id).Some? ==> Lookup(s.Contents(), id) == Some(s.Find(id).value.View())
  {
    var c := s.Contents();
    assert forall j :: 0 <= j < |c| ==> c[j] == s.records[j].View();
    match s.Find(id)
    case None =>
    case Some(st) =>
      var k :| 0 <= k < |s.records| && s.records[k] == st && st.id == id && id !in IdsOf(s.records[..k]);
      assert Keys(c[..k]) == IdsOf(s.records[..k]) by {
        forall j | 0 <= j < k ensures Keys(c[..k])[j] == IdsOf(s.records[..k])[j] {
          assert c[j] == s.records[j].View();
        }
      }
      LookupIsFirst(c, id, k);
  }

  // ---------------------------------------------------------------------
  // add
  // ---------------------------------------------------------------------

  /** The outcomes of `add`: a blank name is reported first, whatever the
      id; then a taken id; otherwise the record is added. Every rejection
      leaves the list as it was. */
  lemma AddOutcomes(rs: seq<Record>, id: string, name: JString, marks: int32)
    ensures var step := AddStep(rs, id, name, marks);
            && (step.outcome == NameRequired <==> BlankByCharacters(name))
            && (step.outcome == DuplicateId <==> !BlankByCharacters(name) && HasId(rs, id))
            && (step.outcome == Added(Status(marks)) <==> !BlankByCharacters(name) && !HasId(rs, id))
            && (!step.outcome.Added? ==> step.records == rs)
  {
  }

  /** Appending a record changes `find` for no id that was already there
      or that differs from the new record's. */
  lemma AppendKeepsLookup(rs: seq<Record>, r: Record, id: string)
    requires id != r.id || Lookup(rs, id).Some?
    ensures Lookup(rs + [r], id) == Lookup(rs, id)
  {
    var after := rs + [r];
    if Lookup(rs, id).Some? {
      var k :| 0 <= k < |rs| && rs[k] == Lookup(rs, id).value && rs[k].id == id && id !in Keys(rs[..k]);
      assert after[..k] == rs[..k];
      LookupIsFirst(after, id, k);
    } else {
      assert forall j :: 0 <= j < |after| ==> after[j].id != id;
    }
  }

  /** A successful `add` appends exactly one record, leaves the earlier
      ones as they were, makes `find` return the new record (status Pass
      exactly above 35 marks) and changes `find` for no other id. */
  lemma AddAppends(rs: seq<Record>, id: string, name: JString, marks: int32)
    requires !BlankByCharacters(name) && !HasId(rs, id)
    ensures var step := AddStep(rs, id, name, marks);
            var added := Record(id, name, marks, Some(Status(marks)));
            && step.outcome == Added(Status(marks))
            && |step.records| == |rs| + 1 && step.records[..|rs|] == rs
            && Lookup(step.records, id) == Some(added)
            && (added.examStatus == Some(Pass) <==> marks > 35)
            && forall other :: other != id ==> Lookup(step.records, other) == Lookup(rs, other)
  {
    AddOutcomes(rs, id, name, marks);
    var added := Record(id, name, marks, Some(Status(marks)));
    var after := rs + [added];
    assert after[..|rs|] == rs;
    forall j | 0 <= j < |rs| ensures Keys(rs)[j] != id {
      assert Keys(rs)[j] == rs[j].id;
    }
    LookupIsFirst(after, id, |rs|);
    forall other | other != id ensures Lookup(after, other) == Lookup(rs, other) {
      AppendKeepsLookup(rs, added, other);
    }
  }

  /** `add` keeps ids unique and every status derived from its marks. */
  lemma AddKeepsInv(rs: seq<Record>, id: string, name: JString, marks: int32)
    requires Inv(rs)
    ensures Inv(AddStep(rs, id, name, marks).records)
  {
    if !IsBlankName(name) && Lookup(rs, id).None? {
      AddAccepts(rs, id, name, marks);
    }
  }

  // ---------------------------------------------------------------------
  // delete
  // ---------------------------------------------------------------------

  /** `delete` reports not-found exactly when no record has the id, and
      then leaves the list as it was. */
  lemma DeleteOutcomes(rs: seq<Record>, id: string)
    ensures var step := DeleteStep(rs, id);
            && (step.outcome == NotFound <==> !HasId(rs, id))
            && (step.outcome == NotFound || step.outcome == Deleted)
            && (step.outcome == NotFound ==> step.records == rs)
  {
    var ids := Keys(rs);
    assert forall j :: 0 <= j < |rs| ==> ids[j] == rs[j].id;
  }

  /** Taking the record at `k` out of a list keeps the others in order. */
  lemma RemoveAtIndices(rs: seq<Record>, k: nat)
    requires k < |rs|
    ensures var after := rs[..k] + rs[k + 1..];
            |after| == |rs| - 1 && forall j :: 0 <= j < |after| ==> after[j] == if j < k then rs[j] else rs[j + 1]
  {
  }

  /** Taking the record at `k` out of a list with unique ids keeps the
      ids unique, leaves no record with its id and changes `find` for no
      other id. */
  lemma RemoveAt(rs: seq<Record>, k: nat)
    requires Inv(rs) && k < |rs|
    ensures var after := rs[..k] + rs[k + 1..];
            && Inv(after)
            && !HasId(after, rs[k].id)
            && forall other :: other != rs[k].id ==> Lookup(after, other) == Lookup(rs, other)
  {
    var after := rs[..k] + rs[k + 1..];
    RemoveAtIndices(rs, k);
    assert Inv(after);
    forall other | other != rs[k].id ensures Lookup(after, other) == Lookup(rs, other) {
      RemoveAtKeepsLookup(rs, k, other);
    }
  }

  lemma RemoveAtKeepsLookup(rs: seq<Record>, k: nat, other: string)
    requires Inv(rs) && k < |rs| && other != rs[k].id
    ensures Lookup(rs[..k] + rs[k + 1..], other) == Lookup(rs, other)
  {
    var after := rs[..k] + rs[k + 1..];
    RemoveAtIndices(rs, k);
    RemoveKeepsInv(rs, k);
    if Lookup(rs, other).Some? {
      var r := Lookup(rs, other).value;
      LookupUniqueIff(rs, other, r);
      var j :| 0 <= j < |rs| && rs[j] == r;
      assert after[if j < k then j else j - 1] == r;
      LookupUniqueIff(after, other, r);
    } else {
      assert forall j :: 0 <= j < |after| ==> after[j].id != other;
    }
  }

  /** With unique ids, deleting a stored record's id removes exactly that
      record: one fewer, the rest in their order, `find` of the id absent
      afterwards and `find` of every other id unchanged. */
  lemma DeleteRemovesOne(rs: seq<Record>, k: nat)
    requires Inv(rs) && k < |rs|
    ensures var step := DeleteStep(rs, rs[k].id);
            && step == Step(Deleted, rs[..k] + rs[k + 1..])
            && |step.records| == |rs| - 1
            && Lookup(step.records, rs[k].id).None?
            && Inv(step.records)
            && forall other :: other != rs[k].id ==> Lookup(step.records, other) == Lookup(rs, other)
  {
    var ids := Keys(rs);
    assert forall j :: 0 <= j < |rs| ==> ids[j] == rs[j].id;
    assert FirstIndex(ids, rs[k].id) == Some(k);
    RemoveAt(rs, k);
  }

  /** `delete` keeps the invariant, whatever the id. */
  lemma DeleteKeepsInv(rs: seq<Record>, id: string)
    requires Inv(rs)
    ensures Inv(DeleteStep(rs, id).records)
  {
    var ids := Keys(rs);
    assert forall j :: 0 <= j < |rs| ==> ids[j] == rs[j].id;
    if FirstIndex(ids, id).Some? {
      DeleteRemovesOne(rs, FirstIndex(ids, id).value);
    }
  }

  // ---------------------------------------------------------------------
  // update
  // ---------------------------------------------------------------------

  /** The update command reports not-found exactly when no record has the
      id, and then leaves the list as it was; otherwise it succeeds with
      the new status whatever the name, even a blank one. */
  lemma UpdateOutcomes(rs: seq<Record>, id: string, name: JString, marks: int32)
    ensures var step := UpdateStep(rs, id, name, marks);
            && (step.outcome == NotFound <==> !HasId(rs, id))
            && (step.outcome == NotFound ==> step.records == rs)
            && (HasId(rs, id) ==> step.outcome == Updated(Status(marks)))
  {
    var ids := Keys(rs);
    assert forall j :: 0 <= j < |rs| ==> ids[j] == rs[j].id;
  }

  /** Overwriting the record at `k` with one of the same id, in a list
      with unique ids, changes `find` for no other id. */
  lemma ReplaceKeepsLookup(rs: seq<Record>, k: nat, r: Record, other: string)
    requires IdsUnique(rs) && k < |rs| && r.id == rs[k].id && other != r.id
    ensures Lookup(rs[k := r], other) == Lookup(rs, other)
  {
    var after := rs[k := r];
    assert IdsUnique(after);
    if Lookup(rs, other).Some? {
      var v := Lookup(rs, other).value;
      LookupUniqueIff(rs, other, v);
      var j :| 0 <= j < |rs| && rs[j] == v;
      assert after[j] == v;
      LookupUniqueIff(after, other, v);
    } else {
      assert forall j :: 0 <= j < |after| ==> after[j].id != other;
    }
  }

  /** With unique ids, updating a stored record's id rewrites that record
      alone: same length, same id, the new name and marks with the status
      they give, every other position and every other id's `find` as
      before. */
  lemma UpdateChangesOne(rs: seq<Record>, k: nat, name: JString, marks: int32)
    requires Inv(rs) && k < |rs|
    ensures var step := UpdateStep(rs, rs[k].id, name, marks);
            var updated := Record(rs[k].id, name, marks, Some(Status(marks)));
            && step.outcome == Updated(Status(marks))
            && |step.records| == |rs|
            && step.records[k] == updated
            && (forall j :: 0 <= j < |rs| && j != k ==> step.records[j] == rs[j])
            && Lookup(step.records, rs[k].id) == Some(updated)
            && Inv(step.records)
            && forall other :: other != rs[k].id ==> Lookup(step.records, other) == Lookup(rs, other)
  {
    var id := rs[k].id;
    var ids := Keys(rs);
    assert forall j :: 0 <= j < |rs| ==> ids[j] == rs[j].id;
    assert FirstIndex(ids, id) == Some(k);
    var updated := Record(id, name, marks, Some(Status(marks)));
    var after := rs[k := updated];
    assert IdsUnique(after);
    LookupUnique(after, k);
    forall other | other != id ensures Lookup(after, other) == Lookup(rs, other) {
      ReplaceKeepsLookup(rs, k, updated, other);
    }
  }

  /** The update command keeps the invariant, whatever the arguments. */
  lemma UpdateKeepsInv(rs: seq<Record>, id: string, name: JString, marks: int32)
    requires Inv(rs)
    ensures Inv(UpdateStep(rs, id, name, marks).records)
  {
    var ids := Keys(rs);
    assert forall j :: 0 <= j < |rs| ==> ids[j] == rs[j].id;
    if FirstIndex(ids, id).Some? {
      UpdateChangesOne(rs, FirstIndex(ids, id).value, name, marks);
    }
  }

  // ---------------------------------------------------------------------
  // A session
  // ---------------------------------------------------------------------

  /** Add S1 (Alice, 40), try to add S1 again (Bob, 10), update S1 to 20
      marks, delete S1, then find S1; and the pass mark's boundary. */
  lemma ExampleSession()
    ensures Status(35) == Fail && Status(36) == Pass
    ensures var alice := Record("S1", Some("Alice"), 40, Some(Pass));
            var s1 := AddStep([], "S1", Some("Alice"), 40);
            var s2 := AddStep(s1.records, "S1", Some("Bob"), 10);
            var s3 := UpdateStep(s2.records, "S1", Some("Alice"), 20);
            var s4 := DeleteStep(s3.records, "S1");
            && s1 == Step(Added(Pass), [alice])
            && s2 == Step(DuplicateId, [alice])
            && s3 == Step(Updated(Fail), [Record("S1", Some("Alice"), 20, Some(Fail))])
            && s4 == Step(Deleted, [])
            && Lookup(s4.records, "S1") == None
  {
    var alice := Record("S1", Some("Alice"), 40, Some(Pass));
    assert !IsBlankName(Some("Alice")) by {
      assert !JavaString.IsTrimmable("Alice"[0]);
    }
    assert !IsBlankName(Some("Bob")) by {
      assert !JavaString.IsTrimmable("Bob"[0]);
    }
    assert Keys([alice]) == ["S1"];
    assert FirstIndex(["S1"], "S1") == Some(0);
  }
}
